/** Content-defined chunking, client/chunking/chunker.cc: a rolling hash that wraps around at
    32 bits decides where a buffer is cut. */
module Chunker {
  type byte = b: int | 0 <= b < 256

  const POLY_BASE: nat := 257
  const POLY_MOD: nat := 8388608
  const UINT32: nat := 0x1_0000_0000

  // ---------------------------------------------------------------- the hash of a window

  /** The polynomial whose coefficients are the bytes of the window. */
  function Poly(w: seq<byte>): nat {
    if w == [] then 0 else POLY_BASE * Poly(w[..|w| - 1]) + w[|w| - 1]
  }

  function Power(n: nat): nat {
    if n == 0 then 1 else POLY_BASE * Power(n - 1)
  }

  function Hash(w: seq<byte>): nat {
    Poly(w) % POLY_MOD
  }

  /** Equal remainders. */
  ghost predicate Same(a: int, b: int) {
    a % POLY_MOD == b % POLY_MOD
  }

  lemma SameSum(a: int, b: int, c: int, d: int)
    requires Same(a, b) && Same(c, d)
    ensures Same(a + c, b + d)
  {
  }

  lemma SameMultiple(a: int, k: int)
    ensures Same(a + k * POLY_MOD, a)
  {
  }

  lemma SameProduct(f: int, a: int, b: int)
    requires Same(a, b)
    ensures Same(f * a, f * b)
  {
    var k := a / POLY_MOD - b / POLY_MOD;
    assert a == b + k * POLY_MOD;
    assert f * a == f * b + (f * k) * POLY_MOD;
    SameMultiple(f * b, f * k);
  }

  /** Dropping what does not fit in 32 bits leaves the remainder alone. */
  lemma WrapIsHarmless(a: nat)
    ensures Same(a % UINT32, a)
  {
    assert a == a % UINT32 + (512 * (a / UINT32)) * POLY_MOD;
    SameMultiple(a % UINT32, 512 * (a / UINT32));
  }

  /** Sliding the window: the first byte leaves with the highest power, the rest moves up. */
  lemma {:induction false} PolyTail(w: seq<byte>)
    requires w != []
    ensures Poly(w) == w[0] * Power(|w| - 1) + Poly(w[1..])
  {
    if |w| > 1 {
      var n := |w| - 1;
      PolyTail(w[..n]);
      assert w[..n][1..] == w[1..][..n - 1];
      assert Power(n) == POLY_BASE * Power(n - 1);
      Distribute(w[0], Power(n - 1), Poly(w[1..][..n - 1]), w[n]);
    } else {
      assert w[..0] == [] && w[1..] == [];
    }
  }

  lemma Distribute(x: int, p: int, q: int, y: int)
    ensures POLY_BASE * (x * p + q) + y == x * (POLY_BASE * p) + (POLY_BASE * q + y)
  {
  }

  /** What the remove table holds: minus a byte times the highest power. */
  ghost predicate Removes(r: nat, b: byte, power: nat) {
    Same(r + b * power, 0)
  }

  /** One step of the rolling hash, for any fingerprint and table entry of the right remainder. */
  lemma Rolled(w: seq<byte>, next: byte, fp: nat, r: nat)
    requires w != [] && Same(fp, Poly(w)) && Removes(r, w[0], Power(|w| - 1))
    ensures Same((fp + r) * POLY_BASE + next, Poly(w[1..] + [next]))
  {
    PolyTail(w);
    RolledNumbers(fp, r, w[0] * Power(|w| - 1), Poly(w[1..]), next);
    assert (w[1..] + [next])[..|w| - 1] == w[1..];
  }

  lemma RolledNumbers(fp: int, r: int, out: int, rest: int, next: int)
    requires Same(fp, out + rest) && Same(r + out, 0)
    ensures Same((fp + r) * POLY_BASE + next, POLY_BASE * rest + next)
  {
    SameSum(fp, out + rest, r + out, 0);
    SameSum(fp + (r + out), out + rest, -out, -out);
    SameProduct(POLY_BASE, fp + r, rest);
    SameSum(POLY_BASE * (fp + r), POLY_BASE * rest, next, next);
  }

  // ---------------------------------------------------------------- where to cut

  datatype Params = Params(min: nat, max: nat, window: nat, mask: nat)

  ghost predicate ValidParams(p: Params) {
    1 <= p.window <= p.min < p.max && p.mask > 0
  }

  /** The bytes of the window that ends at index i. */
  function Window(p: Params, b: seq<byte>, i: nat): seq<byte>
    requires p.window <= i + 1 <= |b|
  {
    b[i + 1 - p.window..i + 1]
  }

  /** Masking with a power of two less one leaves the remainder by that power; `mask` is the power. */
  predicate Anchor(p: Params, b: seq<byte>, i: nat)
    requires p.window <= i + 1 <= |b| && p.mask > 0
  {
    Hash(Window(p, b, i)) % p.mask == 0
  }

  /** The sum of the last n bytes up to index i, each times the power of 257 for its distance from i. */
  ghost function SumTo(b: seq<byte>, i: nat, n: nat): nat
    requires n <= i + 1 <= |b|
  {
    if n == 0 then 0 else SumTo(b, i, n - 1) + b[i + 1 - n] as int * Power(n - 1)
  }

  lemma {:induction false} PolyIsSum(b: seq<byte>, i: nat, n: nat)
    requires n <= i + 1 <= |b|
    ensures Poly(b[i + 1 - n..i + 1]) == SumTo(b, i, n)
  {
    if n > 0 {
      PolyTail(b[i + 1 - n..i + 1]);
      assert b[i + 1 - n..i + 1][1..] == b[i + 1 - (n - 1)..i + 1];
      PolyIsSum(b, i, n - 1);
    }
  }

  /** A place is an anchor when its window, read as a number to the base 257 modulo 2^23, is a multiple of the mask. */
  lemma AnchorIs(p: Params, b: seq<byte>, i: nat)
    requires p.window <= i + 1 <= |b| && p.mask > 0
    ensures Anchor(p, b, i) <==> SumTo(b, i, p.window) % 8388608 % p.mask == 0
    ensures forall n: nat {:trigger Power(n)} :: Power(n) == if n == 0 then 1 else 257 * Power(n - 1)
  {
    PolyIsSum(b, i, p.window);
  }

  /** The first anchor from i on, or the limit. */
  function FirstAnchor(p: Params, b: seq<byte>, i: nat, limit: nat): (e: nat)
    requires p.window <= i + 1 && i <= limit < |b| && p.mask > 0
    ensures i <= e <= limit
    decreases limit - i
  {
    if i == limit || Anchor(p, b, i) then i else FirstAnchor(p, b, i + 1, limit)
  }

  function Limit(p: Params, b: seq<byte>, start: nat): int {
    if start + p.max - 1 >= |b| then |b| - 1 else start + p.max - 1
  }

  /** Where the chunk that starts at `start` ends, if a chunk of minimum size fits. */
  function ChunkEnd(p: Params, b: seq<byte>, start: nat): (e: nat)
    requires ValidParams(p) && start + p.min <= |b|
    ensures start + p.min - 1 <= e <= start + p.max - 1 && e < |b|
  {
    FirstAnchor(p, b, start + p.min - 1, Limit(p, b, start))
  }

  /** The end indices of the chunks from `start` on, for any rule that ends chunks. */
  function CutsBy(ends: nat -> nat, n: nat, min: nat, start: nat): seq<int>
    requires Ends(ends, n, min) && start <= n
    decreases n - start
  {
    if start + min <= n then
      assert EndsAt(ends, n, min, start);
      [ends(start)] + CutsBy(ends, n, min, ends(start) + 1)
    else if start < n then [n - 1]
    else []
  }

  predicate EndsAt(ends: nat -> nat, n: nat, min: nat, start: nat) {
    start + min <= n ==> start + min - 1 <= ends(start) < n
  }

  /** Wherever a chunk of minimum size fits, one that is at least so long ends within the buffer. */
  ghost predicate Ends(ends: nat -> nat, n: nat, min: nat) {
    min > 0 && forall start {:trigger EndsAt(ends, n, min, start)} :: EndsAt(ends, n, min, start)
  }

  ghost predicate RuleAt(p: Params, b: seq<byte>, ends: nat -> nat, start: nat)
    requires ValidParams(p)
  {
    start + p.min <= |b| ==> ends(start) == ChunkEnd(p, b, start)
  }

  /** The rule that ends chunks at anchors. */
  ghost predicate Rule(p: Params, b: seq<byte>, ends: nat -> nat)
    requires ValidParams(p)
  {
    Ends(ends, |b|, p.min) && forall start: nat {:trigger RuleAt(p, b, ends, start)} :: RuleAt(p, b, ends, start)
  }

  function EndRule(p: Params, b: seq<byte>): (ends: nat -> nat)
    requires ValidParams(p)
    ensures Rule(p, b, ends)
  {
    var ends := (start: nat) => if start + p.min <= |b| then ChunkEnd(p, b, start) else 0;
    assert forall start {:trigger EndsAt(ends, |b|, p.min, start)} :: EndsAt(ends, |b|, p.min, start);
    ends
  }

  /** The end indices of the chunks from `start` on. */
  function Cuts(p: Params, b: seq<byte>, start: nat): seq<int>
    requires ValidParams(p) && start <= |b|
  {
    CutsBy(EndRule(p, b), |b|, p.min, start)
  }

  /** No anchor is passed over, and a chunk that does not end at an anchor ends at its limit. */
  lemma {:induction false} FirstAnchorIsFirst(p: Params, b: seq<byte>, i: nat, limit: nat)
    requires p.window <= i + 1 && i <= limit < |b| && p.mask > 0
    ensures var e := FirstAnchor(p, b, i, limit);
            (e == limit || Anchor(p, b, e)) && forall k :: i <= k < e ==> !Anchor(p, b, k)
    decreases limit - i
  {
    if i < limit && !Anchor(p, b, i) { FirstAnchorIsFirst(p, b, i + 1, limit); }
  }

  lemma ChunkEndIsFirst(p: Params, b: seq<byte>, start: nat)
    requires ValidParams(p) && start + p.min <= |b|
    ensures var e := ChunkEnd(p, b, start);
            && (Anchor(p, b, e) || e == start + p.max - 1 || e == |b| - 1)
            && forall k :: start + p.min - 1 <= k < e ==> !Anchor(p, b, k)
  {
    FirstAnchorIsFirst(p, b, start + p.min - 1, Limit(p, b, start));
  }

  /** The size of chunk k when the chunks start at `start`. */
  function SizeAt(cuts: seq<int>, start: nat, k: nat): int
    requires k < |cuts|
  {
    cuts[k] - if k == 0 then start - 1 else cuts[k - 1]
  }

  lemma {:induction false} SizesBounded(p: Params, b: seq<byte>, f: nat -> nat, n: nat, min: nat, max: nat, start: nat)
    requires ValidParams(p) && Rule(p, b, f) && n == |b| && min == p.min && max == p.max && start < n
    ensures var cuts := CutsBy(f, n, min, start);
            && cuts != [] && cuts[|cuts| - 1] == n - 1
            && (forall k :: 0 <= k < |cuts| - 1 ==> min <= SizeAt(cuts, start, k) <= max)
            && 1 <= SizeAt(cuts, start, |cuts| - 1) <= max
    decreases n - start
  {
    var cuts := CutsBy(f, n, min, start);
    if start + min <= n {
      assert EndsAt(f, n, min, start) && RuleAt(p, b, f, start);
      var next := f(start) + 1;
      var rest := CutsBy(f, n, min, next);
      if next < n {
        SizesBounded(p, b, f, n, min, max, next);
        forall k | 1 <= k < |cuts| ensures SizeAt(cuts, start, k) == SizeAt(rest, next, k - 1) {
        }
      } else {
        assert cuts == [n - 1];
      }
    }
  }

  /** The chunks partition the buffer, and all but the last are between the two bounds. */
  lemma CutsPartition(p: Params, b: seq<byte>, start: nat)
    requires ValidParams(p) && start < |b|
    ensures var cuts := Cuts(p, b, start);
            && cuts != [] && cuts[|cuts| - 1] == |b| - 1
            && (forall k :: 0 <= k < |cuts| - 1 ==> p.min <= SizeAt(cuts, start, k) <= p.max)
            && 1 <= SizeAt(cuts, start, |cuts| - 1) <= p.max
  {
    SizesBounded(p, b, EndRule(p, b), |b|, p.min, p.max, start);
  }

  // ---------------------------------------------------------------- locality

  function Shifted(cuts: seq<int>, d: int): (r: seq<int>)
    ensures |r| == |cuts| && forall k {:trigger r[k]} :: 0 <= k < |cuts| ==> r[k] == cuts[k] + d
  {
    seq(|cuts|, k requires 0 <= k < |cuts| => cuts[k] + d)
  }

  lemma WindowOfSuffix(p: Params, b: seq<byte>, s: nat, i: nat)
    requires s <= |b| && p.window <= i + 1 <= |b| - s
    ensures Window(p, b, s + i) == Window(p, b[s..], i)
  {
  }

  lemma {:induction false} FirstAnchorOfSuffix(p: Params, b: seq<byte>, s: nat, i: nat, limit: nat)
    requires s <= |b| && p.window <= i + 1 && i <= limit < |b| - s && p.mask > 0
    ensures FirstAnchor(p, b, s + i, s + limit) == s + FirstAnchor(p, b[s..], i, limit)
    decreases limit - i
  {
    WindowOfSuffix(p, b, s, i);
    if i < limit && !Anchor(p, b[s..], i) { FirstAnchorOfSuffix(p, b, s, i + 1, limit); }
  }

  predicate ShiftsAt(f: nat -> nat, g: nat -> nat, m: nat, min: nat, s: nat, i: nat) {
    i + min <= m ==> f(s + i) == s + g(i)
  }

  /** f ends chunks s later than g does. */
  ghost predicate Shifts(f: nat -> nat, g: nat -> nat, m: nat, min: nat, s: nat) {
    forall i: nat {:trigger ShiftsAt(f, g, m, min, s, i)} :: ShiftsAt(f, g, m, min, s, i)
  }

  lemma RulesShift(p: Params, b: seq<byte>, s: nat, f: nat -> nat, g: nat -> nat)
    requires ValidParams(p) && s <= |b| && Rule(p, b, f) && Rule(p, b[s..], g)
    ensures Shifts(f, g, |b| - s, p.min, s)
  {
    var m := |b| - s;
    forall i: nat ensures ShiftsAt(f, g, m, p.min, s, i) {
      if i + p.min <= m {
        assert RuleAt(p, b, f, s + i) && RuleAt(p, b[s..], g, i);
        ChunkEndOfSuffix(p, b, s, i);
      }
    }
  }

  lemma {:induction false} CutsShift(f: nat -> nat, n: nat, g: nat -> nat, m: nat, min: nat, s: nat, start: nat)
    requires Ends(f, n, min) && Ends(g, m, min) && n == s + m && start <= m
    requires Shifts(f, g, m, min, s)
    ensures CutsBy(f, n, min, s + start) == Shifted(CutsBy(g, m, min, start), s)
    decreases m - start
  {
    if start + min <= m {
      assert EndsAt(g, m, min, start) && ShiftsAt(f, g, m, min, s, start);
      CutsShift(f, n, g, m, min, s, g(start) + 1);
    }
  }

  lemma ChunkEndOfSuffix(p: Params, b: seq<byte>, s: nat, start: nat)
    requires ValidParams(p) && s <= |b| && s + start + p.min <= |b|
    ensures ChunkEnd(p, b, s + start) == s + ChunkEnd(p, b[s..], start)
  {
    FirstAnchorOfSuffix(p, b, s, start + p.min - 1, Limit(p, b[s..], start));
  }

  lemma {:induction false} CutsResume(f: nat -> nat, n: nat, min: nat, start: nat, k: nat)
    requires Ends(f, n, min) && start <= n && k < |CutsBy(f, n, min, start)|
    ensures 0 <= CutsBy(f, n, min, start)[k] < n
    ensures CutsBy(f, n, min, start)[k + 1..] == CutsBy(f, n, min, CutsBy(f, n, min, start)[k] + 1)
    decreases n - start
  {
    if start + min <= n {
      assert EndsAt(f, n, min, start);
      if k > 0 { CutsResume(f, n, min, f(start) + 1, k - 1); }
    }
  }

  lemma AfterCutBy(f: nat -> nat, n: nat, g: nat -> nat, min: nat, k: nat, s: nat)
    requires Ends(f, n, min) && k < |CutsBy(f, n, min, 0)| && s == CutsBy(f, n, min, 0)[k] + 1 <= n
    requires Ends(g, n - s, min) && Shifts(f, g, n - s, min, s)
    ensures CutsBy(f, n, min, 0)[k + 1..] == Shifted(CutsBy(g, n - s, min, 0), s)
  {
    CutsResume(f, n, min, 0, k);
    CutsShift(f, n, g, n - s, min, s, 0);
  }

  lemma CutInside(p: Params, b: seq<byte>, k: nat)
    requires ValidParams(p) && k < |Cuts(p, b, 0)|
    ensures 0 <= Cuts(p, b, 0)[k] < |b|
  {
    CutsResume(EndRule(p, b), |b|, p.min, 0, k);
  }

  /** After a cut, the remaining cuts are those of the remaining bytes alone. */
  lemma CutsAfterCut(p: Params, b: seq<byte>, k: nat)
    requires ValidParams(p) && k < |Cuts(p, b, 0)|
    ensures 0 <= Cuts(p, b, 0)[k] < |b|
    ensures var s := Cuts(p, b, 0)[k] + 1; Cuts(p, b, 0)[k + 1..] == Shifted(Cuts(p, b[s..], 0), s)
  {
    CutInside(p, b, k);
    var s := Cuts(p, b, 0)[k] + 1;
    RulesShift(p, b, s, EndRule(p, b), EndRule(p, b[s..]));
    AfterCutBy(EndRule(p, b), |b|, EndRule(p, b[s..]), p.min, k, s);
  }

  /** Every cut of a chunk of minimum size is the first anchor at or after that size, or the size
      limit, or the end of the buffer. */
  lemma CutIsFirstAnchor(p: Params, b: seq<byte>, k: nat)
    requires ValidParams(p) && k < |Cuts(p, b, 0)|
    ensures var cuts := Cuts(p, b, 0); var start := if k == 0 then 0 else cuts[k - 1] + 1;
            && 0 <= start < |b|
            && if start + p.min <= |b|
               then && start + p.min - 1 <= cuts[k] < |b|
                    && (Anchor(p, b, cuts[k]) || cuts[k] == start + p.max - 1 || cuts[k] == |b| - 1)
                    && forall i :: start + p.min - 1 <= i < cuts[k] ==> !Anchor(p, b, i)
               else cuts[k] == |b| - 1
  {
    CutByRule(EndRule(p, b), |b|, p.min, k);
    var start := if k == 0 then 0 else Cuts(p, b, 0)[k - 1] + 1;
    if start + p.min <= |b| {
      assert RuleAt(p, b, EndRule(p, b), start);
      ChunkEndIsFirst(p, b, start);
    }
  }

  lemma CutByRule(f: nat -> nat, n: nat, min: nat, k: nat)
    requires Ends(f, n, min) && k < |CutsBy(f, n, min, 0)|
    ensures var cuts := CutsBy(f, n, min, 0); var start := if k == 0 then 0 else cuts[k - 1] + 1;
            && 0 <= start < n && cuts[k] == if start + min <= n then f(start) else n - 1
  {
    if k > 0 { CutsResume(f, n, min, 0, k - 1); }
  }

  /** Two buffers with equal bytes after a cut of each are cut alike from there on. */
  lemma SameSuffixSameCuts(p: Params, a: seq<byte>, b: seq<byte>, j: nat, k: nat)
    requires ValidParams(p) && j < |Cuts(p, a, 0)| && k < |Cuts(p, b, 0)|
    requires var s, t := Cuts(p, a, 0)[j] + 1, Cuts(p, b, 0)[k] + 1;
             0 <= s <= |a| && 0 <= t <= |b| && a[s..] == b[t..]
    ensures var d := Cuts(p, b, 0)[k] - Cuts(p, a, 0)[j];
            Cuts(p, b, 0)[k + 1..] == Shifted(Cuts(p, a, 0)[j + 1..], d)
  {
    CutsAfterCut(p, a, j);
    CutsAfterCut(p, b, k);
  }

  // ---------------------------------------------------------------- the chunker

  /** Prefixing a byte to the window, with its power from the table. */
  lemma Prefixed(x: byte, w: seq<byte>, fp: nat, power: nat)
    requires Same(fp, Poly(w)) && Same(power, Power(|w|))
    ensures Same((fp + x * power % UINT32 % POLY_MOD) % UINT32, Poly([x] + w))
  {
    var term := x * power;
    WrapIsHarmless(term);
    SameProduct(x, power, Power(|w|));
    SameSum(fp, Poly(w), term % UINT32 % POLY_MOD, x * Power(|w|));
    WrapIsHarmless(fp + term % UINT32 % POLY_MOD);
    PolyTail([x] + w);
    assert ([x] + w)[1..] == w;
  }

  lemma TablePower(i: nat, before: nat)
    requires Same(before, Power(i))
    ensures Same(before * POLY_BASE % UINT32 % POLY_MOD, Power(i + 1))
  {
    SameProduct(POLY_BASE, before, Power(i));
    WrapIsHarmless(before * POLY_BASE);
  }

  lemma TableRemove(b: byte, power: nat, exact: nat)
    requires Same(power, exact)
    ensures var r := b * power % UINT32 % POLY_MOD; Removes(if r != 0 then POLY_MOD - r else r, b, exact)
  {
    var r := b * power % UINT32 % POLY_MOD;
    WrapIsHarmless(b * power);
    SameProduct(b, power, exact);
    SameSum(if r != 0 then POLY_MOD - r else r, -r, b * exact, r);
  }

  function PowerOfTwo(n: nat): nat {
    if n == 0 then 1 else 2 * PowerOfTwo(n - 1)
  }

  /** The mask bits that an average chunk size asks for: the largest power of two not above it. */
  method MaskFor(average: nat) returns (mask: nat, ghost bits: nat)
    requires average >= 2
    ensures mask == PowerOfTwo(bits) && 1 <= bits && mask <= average < 2 * mask
  {
    mask, bits := 2, 1;
    while average / mask != 1
      invariant mask == PowerOfTwo(bits) && 1 <= bits && 2 <= mask <= average
      decreases average - mask
    {
      Halves(average, mask);
      mask, bits := 2 * mask, bits + 1;
    }
    Halves(average, mask);
  }

  lemma Halves(average: nat, mask: nat)
    requires 2 <= mask <= average
    ensures average / mask != 1 ==> 2 * mask <= average
    ensures average / mask == 1 ==> average < 2 * mask
  {
    var q, r := average / mask, average % mask;
    assert average == q * mask + r;
    if q >= 2 { assert q * mask >= 2 * mask; }
  }

  /** The powers of the base, as remainders. */
  method PowerTable(n: nat) returns (t: array<nat>)
    requires n >= 1
    ensures fresh(t) && t.Length == n && forall k {:trigger t[k]} :: 0 <= k < n ==> t[k] == Power(k) % POLY_MOD
  {
    t := new nat[n];
    t[0] := 1;
    for i := 1 to n
      invariant forall k {:trigger t[k]} :: 0 <= k < i ==> t[k] == Power(k) % POLY_MOD
    {
      TablePower(i - 1, t[i - 1]);
      t[i] := t[i - 1] * POLY_BASE % UINT32 % POLY_MOD;
    }
  }

  /** For each byte what removes it from the front of a window. */
  method RemoveTable(power: nat, ghost exact: nat) returns (t: array<nat>)
    requires Same(power, exact)
    ensures fresh(t) && t.Length == 256
    ensures forall b {:trigger t[b]} :: 0 <= b < 256 ==> Removes(t[b], b, exact) && t[b] < POLY_MOD
  {
    t := new nat[256];
    for i := 0 to 256
      invariant forall b {:trigger t[b]} :: 0 <= b < i ==> Removes(t[b], b, exact) && t[b] < POLY_MOD
    {
      TableRemove(i, power, exact);
      t[i] := i * power % UINT32 % POLY_MOD;
      if t[i] != 0 {
        t[i] := POLY_MOD - t[i];
      }
    }
  }

  class VarSizeChunker {
    const p: Params
    const powers: array<nat>
    const removes: array<nat>

    ghost predicate Valid()
      reads powers, removes
    {
      && ValidParams(p) && powers.Length == p.window && removes.Length == 256
      && (forall i {:trigger powers[i]} :: 0 <= i < p.window ==> Same(powers[i], Power(i)))
      && (forall b {:trigger removes[b]} :: 0 <= b < 256 ==> Removes(removes[b], b, Power(p.window - 1)))
    }

    constructor (p: Params)
      requires ValidParams(p)
      ensures Valid() && this.p == p && fresh(powers) && fresh(removes)
    {
      this.p := p;
      var power := PowerTable(p.window);
      var remove := RemoveTable(power[p.window - 1], Power(p.window - 1));
      powers, removes := power, remove;
    }

    /** The fingerprint of the window that ends at index e. */
    method FirstFingerprint(b: seq<byte>, e: nat) returns (fp: nat)
      requires Valid() && p.window <= e + 1 <= |b|
      ensures fp == Hash(Window(p, b, e))
    {
      fp := 0;
      for i := 0 to p.window
        invariant Same(fp, Poly(b[e + 1 - i..e + 1]))
      {
        Prefixed(b[e - i], b[e + 1 - i..e + 1], fp, powers[i]);
        assert b[e - i..e + 1] == [b[e - i]] + b[e + 1 - i..e + 1];
        fp := (fp + b[e - i] * powers[i] % UINT32 % POLY_MOD) % UINT32;
      }
      fp := fp % POLY_MOD;
    }

    /** Move the window forward by one byte. */
    method Roll(b: seq<byte>, e: nat, fp: nat) returns (fp': nat)
      requires Valid() && p.window <= e <= |b| - 1 && fp == Hash(Window(p, b, e - 1))
      ensures fp' == Hash(Window(p, b, e))
    {
      var out := b[e - p.window];
      ghost var w := Window(p, b, e - 1);
      Rolled(w, b[e], fp, removes[out]);
      assert w[1..] + [b[e]] == Window(p, b, e);
      WrapIsHarmless((fp + removes[out]) * POLY_BASE + b[e]);
      fp' := ((fp + removes[out]) * POLY_BASE + b[e]) % UINT32 % POLY_MOD;
    }

    /** The first anchor from index `from` on, or the limit. */
    method FindAnchor(b: seq<byte>, from: nat, limit: nat) returns (e: nat)
      requires Valid() && p.window <= from + 1 && from <= limit < |b|
      ensures e == FirstAnchor(p, b, from, limit)
    {
      e := from;
      var fp := FirstFingerprint(b, e);
      while fp % p.mask != 0 && e < limit
        invariant from <= e <= limit && fp == Hash(Window(p, b, e))
        invariant FirstAnchor(p, b, from, limit) == FirstAnchor(p, b, e, limit)
        decreases limit - e
      {
        e := e + 1;
        fp := Roll(b, e, fp);
      }
    }

    /** The end of the chunk that starts at `start`. */
    method FindEnd(b: seq<byte>, start: nat, ghost ends: nat -> nat) returns (e: nat)
      requires Valid() && start + p.min <= |b| && Rule(p, b, ends)
      ensures e == ends(start) && start + p.min - 1 <= e < |b|
    {
      var chunkEnd, limit := start + p.min - 1, start + p.max - 1;
      if limit >= |b| {
        limit := |b| - 1;
      }
      e := FindAnchor(b, chunkEnd, limit);
      assert e == ChunkEnd(p, b, start) && RuleAt(p, b, ends, start);
    }

    /** Cut a buffer.  An empty one gets a single cut before its beginning. */
    method VarSizeChunking(b: seq<byte>) returns (cuts: seq<int>)
      requires Valid()
      ensures cuts == if b == [] then [-1] else Cuts(p, b, 0)
    {
      cuts := CutAll(b, EndRule(p, b));
    }

    method CutAll(b: seq<byte>, ghost ends: nat -> nat) returns (cuts: seq<int>)
      requires Valid() && Rule(p, b, ends)
      ensures cuts == if b == [] then [-1] else CutsBy(ends, |b|, p.min, 0)
    {
      ghost var goal := CutsBy(ends, |b|, p.min, 0);
      cuts := [];
      var start := 0;
      while start + p.min - 1 < |b|
        invariant start <= |b| && goal == cuts + CutsBy(ends, |b|, p.min, start)
        invariant if cuts == [] then start == 0 else cuts[|cuts| - 1] == start - 1
        decreases |b| - start
      {
        var e := FindEnd(b, start, ends);
        CutsStep(ends, |b|, p.min, start, cuts);
        cuts := cuts + [e];
        start := e + 1;
      }
      if |cuts| == 0 || cuts[|cuts| - 1] != |b| - 1 {
        cuts := cuts + [|b| - 1];
      }
    }
  }

  lemma CutsStep(ends: nat -> nat, n: nat, min: nat, start: nat, cuts: seq<int>)
    requires Ends(ends, n, min) && start + min <= n
    ensures ends(start) < n
    ensures cuts + CutsBy(ends, n, min, start) == (cuts + [ends(start)]) + CutsBy(ends, n, min, ends(start) + 1)
  {
    assert EndsAt(ends, n, min, start);
  }

  /** Set up a chunker, or refuse sizes that are out of order. */
  method NewChunker(average: nat, min: nat, max: nat, window: nat) returns (c: VarSizeChunker?)
    requires 1 <= window <= min
    ensures c == null <==> min >= average || max <= average
    ensures c != null ==> c.Valid() && c.p.min == min && c.p.max == max && c.p.window == window
    ensures c != null ==> exists bits :: c.p.mask == PowerOfTwo(bits) && c.p.mask <= average < 2 * c.p.mask
  {
    if min >= average || max <= average {
      return null;
    }
    ghost var bits;
    var mask;
    mask, bits := MaskFor(average);
    c := new VarSizeChunker(Params(min, max, window, mask));
  }
}
