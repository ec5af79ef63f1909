/** The bounded buffer between two threads, client/utils/BasicRingBuffer.hh.  `Queue` says what it
    holds and who waits on its two condition variables; `Ring` is the slot array behind it. */
module RingBuffer {
  import opened Wrappers

  /** A thread that found the buffer full or empty waits until it is signalled; it then goes
      on without looking again. */
  datatype Wait = Ready | Waiting | Woken

  datatype Queue<T> = Queue(items: seq<T>, producer: Wait, consumer: Wait)

  ghost predicate ValidQueue<T>(q: Queue<T>, max: nat) {
    && |q.items| <= max
    && (q.producer.Waiting? ==> |q.items| == max)
    && (q.producer.Woken? ==> |q.items| < max)
    && (q.consumer.Waiting? ==> q.items == [])
    && (q.consumer.Woken? ==> q.items != [])
  }

  function Signalled(w: Wait): Wait {
    if w.Waiting? then Woken else w
  }

  /** One critical section of Insert: wait, or put the item and signal. */
  predicate MustWaitFull<T>(q: Queue<T>, max: nat) {
    q.producer.Ready? && |q.items| == max
  }

  function Insert<T>(q: Queue<T>, max: nat, x: T): Queue<T> {
    if MustWaitFull(q, max) then q.(producer := Waiting)
    else Queue(q.items + [x], Ready, Signalled(q.consumer))
  }

  /** One critical section of Extract: wait, or take the first item and signal. */
  predicate MustWaitEmpty<T>(q: Queue<T>) {
    q.consumer.Ready? && |q.items| == 0
  }

  function Extract<T>(q: Queue<T>): Queue<T>
    requires MustWaitEmpty(q) || |q.items| > 0
  {
    if MustWaitEmpty(q) then q.(consumer := Waiting)
    else Queue(q.items[1..], Signalled(q.producer), Ready)
  }

  /** A single producer never overflows the buffer, though it does not look again when woken. */
  lemma InsertKeeps<T>(q: Queue<T>, max: nat, x: T)
    requires ValidQueue(q, max) && !q.producer.Waiting?
    ensures ValidQueue(Insert(q, max, x), max)
    ensures !MustWaitFull(q, max) ==> |q.items| < max
  {
  }

  /** A single consumer never takes from an empty buffer, though it does not look again when woken. */
  lemma ExtractKeeps<T>(q: Queue<T>, max: nat)
    requires ValidQueue(q, max) && !q.consumer.Waiting? && max > 0
    ensures !MustWaitEmpty(q) ==> |q.items| > 0
    ensures ValidQueue(Extract(q), max)
  {
  }

  // ---------------------------------------------------------------- the slots

  /** The slot array with its two indices and its count, and the threads that wait. */
  class Ring<T(0)> {
    const buffer: array<T>
    const max: nat
    var readIndex: nat
    var writeIndex: nat
    var count: nat
    var producer: Wait
    var consumer: Wait

    ghost predicate Slots()
      reads `readIndex, `writeIndex, `count
    {
      && 2 <= max == buffer.Length && count <= max && readIndex < max && writeIndex < max
      && writeIndex == Wrapped(readIndex + count)
    }

    function Wrapped(x: nat): nat {
      if x >= max then x - max else x
    }

    function NextVal(x: nat): nat {
      if x + 1 >= max then 0 else x + 1
    }

    /** The occupied slots from the oldest to the newest. */
    ghost function Items(): (s: seq<T>)
      requires Slots()
      reads `readIndex, `writeIndex, `count, buffer
      ensures |s| == count && forall k {:trigger s[k]} :: 0 <= k < count ==> s[k] == buffer[Wrapped(readIndex + k)]
    {
      var end := readIndex + count;
      if end <= max then buffer[readIndex..end] else buffer[readIndex..] + buffer[..end - max]
    }

    /** The queue that the slots stand for. */
    ghost function Contents(): Queue<T>
      requires Slots()
      reads this, buffer
    {
      Queue(Items(), producer, consumer)
    }

    ghost predicate Valid()
      reads this, buffer
    {
      Slots() && ValidQueue(Contents(), max)
    }

    constructor (size: nat)
      ensures Valid() && Contents() == Queue([], Ready, Ready) && fresh(buffer) && max == if size < 2 then 2 else size
    {
      var n := if size < 2 then 2 else size;
      max := n;
      buffer := new T[n];
      readIndex, writeIndex, count, producer, consumer := 0, 0, 0, Ready, Ready;
    }

    method Put(x: T)
      requires Slots() && count < max
      modifies this`writeIndex, this`count, buffer
      ensures Slots() && Items() == old(Items()) + [x]
    {
      ghost var before := Items();
      buffer[writeIndex] := x;
      writeIndex := NextVal(writeIndex);
      count := count + 1;
      assert Items() == before + [x];
    }

    method Take() returns (x: T)
      requires Slots() && count > 0
      modifies this`readIndex, this`count
      ensures Slots() && x == old(Items())[0] && Items() == old(Items())[1..]
    {
      ghost var before := Items();
      x := buffer[readIndex];
      readIndex := NextVal(readIndex);
      count := count - 1;
      assert Items() == before[1..];
    }

    /** The producer's critical section, from where it is to where it next waits or leaves. */
    method InsertItem(x: T) returns (done: bool)
      requires Valid() && !producer.Waiting?
      modifies this, buffer
      ensures Valid() && Contents() == Insert(old(Contents()), max, x)
      ensures done <==> !old(MustWaitFull(Contents(), max))
    {
      InsertKeeps(Contents(), max, x);
      if producer.Ready? && count == max {
        producer := Waiting;
        return false;
      }
      Put(x);
      producer, consumer := Ready, Signalled(consumer);
      done := true;
    }

    /** The consumer's critical section. */
    method ExtractItem() returns (r: Option<T>)
      requires Valid() && !consumer.Waiting?
      modifies this
      ensures old(MustWaitEmpty(Contents()) || |Items()| > 0)
      ensures Valid() && Contents() == Extract(old(Contents()))
      ensures r == if old(MustWaitEmpty(Contents())) then None else Some(old(Items())[0])
    {
      ghost var q := Contents();
      ExtractKeeps(q, max);
      if consumer.Ready? && count == 0 {
        consumer := Waiting;
        return None;
      }
      var x := Take();
      producer, consumer := Signalled(producer), Ready;
      assert Contents() == Extract(q);
      r := Some(x);
    }
  }
}
