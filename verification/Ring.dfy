/** Ring buffers of a fixed capacity, as the sequence of what they hold. */
module Ring {

  /** The i-th place from another one on. */
  function Slot(from: nat, i: nat, capacity: nat): (r: nat)
    requires capacity > 0
    ensures r < capacity
    ensures from < capacity && i <= capacity ==>
              r == if from + i < capacity then from + i else from + i - capacity
  {
    assert from < capacity && i <= capacity ==>
      (from + i) % capacity == if from + i < capacity then from + i else from + i - capacity
    by {
      if from < capacity && i <= capacity && from + i < 2 * capacity { WrapOnce(from + i, capacity); }
    }
    (from + i) % capacity
  }

  lemma WrapOnce(x: nat, capacity: nat)
    requires x < 2 * capacity
    ensures x % capacity == if x < capacity then x else x - capacity
  {
    if x >= capacity {
      var q := x / capacity;
      assert x == q * capacity + x % capacity;
      assert q >= 2 ==> q * capacity >= 2 * capacity;
    }
  }

  /** What is held, oldest first. */
  function Content<T>(buffer: seq<T>, from: nat, count: nat): (r: seq<T>)
    requires |buffer| > 0
    ensures |r| == count && forall i :: 0 <= i < count ==> r[i] == buffer[Slot(from, i, |buffer|)]
  {
    seq(count, i requires 0 <= i < count => buffer[Slot(from, i, |buffer|)])
  }

  /** What is put behind the last place taken, as long as there is room, is held last. */
  lemma PutLast<T>(buffer: seq<T>, from: nat, count: nat, x: T)
    requires from < |buffer| && count < |buffer|
    ensures Content(buffer[Slot(from, count, |buffer|) := x], from, count + 1) == Content(buffer, from, count) + [x]
    ensures Slot(Slot(from, count, |buffer|), 1, |buffer|) == Slot(from, count + 1, |buffer|)
  {
    hide Slot;
    forall i | 0 <= i < count ensures Slot(from, i, |buffer|) != Slot(from, count, |buffer|) {
    }
  }

  /** What is in the first place is held first. */
  lemma TakeFirst<T>(buffer: seq<T>, from: nat, count: nat)
    requires from < |buffer| && 0 < count <= |buffer|
    ensures Content(buffer, from, count) == [buffer[from]] + Content(buffer, Slot(from, 1, |buffer|), count - 1)
    ensures Slot(Slot(from, 1, |buffer|), count - 1, |buffer|) == Slot(from, count, |buffer|)
  {
    hide Slot;
    var n := |buffer|;
    forall i: nat | i < count - 1 ensures Slot(Slot(from, 1, n), i, n) == Slot(from, i + 1, n) {
    }
  }
}
