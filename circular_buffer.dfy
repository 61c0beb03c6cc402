/**
 * The firmware's ring buffer: a fixed array of BufferSize slots with a
 * write position `head`, a read position `tail` and a fill `count`.  A full
 * buffer overwrites its oldest element.  Positions wrap by masking with
 * BufferSize - 1.  The ghost field `Contents` is the FIFO view, oldest first.
 */
module CircularBuffer {
  import opened CTypes
  import opened Fifo

  /** Number of slots: 2^8, so that wrapping is a mask. */
  const BufferSize: nat := 256
  const BufferBits: nat := 8

  /** The next slot position as the source computes it: `i & (BufferSize - 1)`. */
  function Wrap(i: nat): (r: nat)
    ensures r == i % BufferSize && r < BufferSize
  {
    MaskIsMod(i, BufferBits);
    BitAnd(i, BufferSize - 1)
  }

  /** The slot `i` places after slot `t`, going round the ring at most once. */
  function Slot(t: nat, i: nat): (r: nat)
    requires t < BufferSize && i <= BufferSize
    ensures r < BufferSize
  {
    if t + i < BufferSize then t + i else t + i - BufferSize
  }

  lemma SlotIsMod(t: nat, i: nat)
    requires t < BufferSize && i <= BufferSize
    ensures Slot(t, i) == (t + i) % BufferSize
  {
  }

  lemma SlotStep(t: nat, i: nat)
    requires t < BufferSize && i < BufferSize
    ensures Slot(t, i + 1) == (Slot(t, i) + 1) % BufferSize
  {
  }

  /**
   * Sum of a sequence of samples, adding the last element last, as the mean
   * loop does.  The buffer holds floats (modelled as reals), so this is a
   * separate definition from the moving-average filter's sum of int32 samples.
   */
  function Sum(s: seq<real>): (r: real)
    ensures s == [] ==> r == 0.0
  {
    if s == [] then 0.0 else Sum(s[..|s| - 1]) + s[|s| - 1]
  }

  lemma SumPrefixStep(s: seq<real>, i: nat)
    requires i < |s|
    ensures Sum(s[..i + 1]) == Sum(s[..i]) + s[i]
  {
    assert s[..i + 1][..i] == s[..i];
  }

  lemma DivTimes(x: real, n: real)
    requires n > 0.0
    ensures (x / n) * n == x
  {
  }

  class Buffer {
    const data: array<real>
    var head: uint16
    var tail: uint16
    var count: uint16
    ghost var Contents: seq<real>

    /** The element `i` places after the oldest lives `i` slots after `tail`, wrapping. */
    ghost predicate Valid()
      reads this, data
    {
      && data.Length == BufferSize
      && count <= BufferSize && head < BufferSize && tail < BufferSize
      && head == Slot(tail, count)
      && |Contents| == count
      && forall i :: 0 <= i < count ==> Contents[i] == data[Slot(tail, i)]
    }

    constructor ()
      ensures Valid() && fresh(data)
      ensures Contents == [] && head == 0 && tail == 0 && count == 0
      ensures forall i :: 0 <= i < BufferSize ==> data[i] == 0.0
    {
      data := new real[BufferSize];
      new;
      Init();
    }

    /** Empties the buffer and zeroes every slot. */
    method Init()
      requires data.Length == BufferSize
      modifies this, data
      ensures Valid()
      ensures Contents == [] && head == 0 && tail == 0 && count == 0
      ensures forall i :: 0 <= i < BufferSize ==> data[i] == 0.0
    {
      head, tail, count := 0, 0, 0;
      Contents := [];
      var i := 0;
      while i < BufferSize
        invariant 0 <= i <= BufferSize
        invariant forall j :: 0 <= j < i ==> data[j] == 0.0
        modifies data
      {
        data[i] := 0.0;
        i := i + 1;
      }
    }

    /**
     * Adds `value` as the newest element.  Returns true when there was room;
     * on a full buffer it overwrites the oldest element and returns false.
     */
    method Push(value: real) returns (ok: bool)
      requires Valid()
      modifies this, data
      ensures Valid()
      ensures ok <==> old(count) < BufferSize
      ensures Contents == BoundedAppend(old(Contents), value, BufferSize)
      ensures count == if ok then old(count) + 1 else BufferSize
      ensures head == (old(head) + 1) % BufferSize
      ensures tail == if ok then old(tail) else (old(tail) + 1) % BufferSize
      ensures data[..] == old(data[..])[old(head) := value]
    {
      var wasFull := IsFull();
      data[head] := value;
      head := Wrap(head + 1);
      if wasFull {
        tail := Wrap(tail + 1);
        Contents := Contents[1..] + [value];
        ok := false;
      } else {
        count := count + 1;
        Contents := Contents + [value];
        ok := true;
      }
    }

    /**
     * Removes the oldest element and yields it.  On an empty buffer it
     * returns false, changes nothing and leaves the caller's variable,
     * `prior`, as it was.
     */
    method Pop(prior: real) returns (ok: bool, value: real)
      requires Valid()
      modifies this
      ensures Valid()
      ensures ok <==> old(Contents) != []
      ensures ok ==> value == old(Contents)[0] && Contents == old(Contents)[1..] && count == old(count) - 1
      ensures ok ==> head == old(head) && tail == (old(tail) + 1) % BufferSize
      ensures !ok ==> value == prior && Contents == old(Contents)
      ensures !ok ==> head == old(head) && tail == old(tail) && count == old(count)
    {
      var empty := IsEmpty();
      if empty {
        return false, prior;
      }
      value := data[tail];
      tail := Wrap(tail + 1);
      count := count - 1;
      Contents := Contents[1..];
      ok := true;
    }

    method IsEmpty() returns (empty: bool)
      requires Valid()
      ensures empty <==> Contents == []
    {
      empty := count == 0;
    }

    method IsFull() returns (full: bool)
      requires Valid()
      ensures full <==> |Contents| == BufferSize
    {
      full := count == BufferSize;
    }

    method Count() returns (n: uint16)
      requires Valid()
      ensures n == |Contents| && n <= BufferSize
    {
      n := count;
    }

    /**
     * Yields the element `index` places after the oldest without removing
     * it; fails, leaving `prior`, when `index` is not below the count.
     */
    method Peek(index: uint16, prior: real) returns (ok: bool, value: real)
      requires Valid()
      ensures ok <==> index < |Contents|
      ensures ok ==> value == Contents[index]
      ensures !ok ==> value == prior
    {
      if index >= count {
        return false, prior;
      }
      var actualIndex := Wrap(tail + index);
      SlotIsMod(tail, index);
      value := data[actualIndex];
      ok := true;
    }

    /** Mean of the held elements, 0 when there are none. */
    method Mean() returns (m: real)
      requires Valid()
      ensures Contents == [] ==> m == 0.0
      ensures Contents != [] ==> m * |Contents| as real == Sum(Contents)
    {
      var empty := IsEmpty();
      if empty {
        return 0.0;
      }
      var sum := 0.0;
      var idx := tail;
      var i: nat := 0;
      while i < count
        invariant i <= count
        invariant idx == Slot(tail, i)
        invariant sum == Sum(Contents[..i])
      {
        SumPrefixStep(Contents, i);
        assert data[idx] == Contents[i];
        sum := sum + data[idx];
        SlotStep(tail, i);
        SlotIsMod(tail, i + 1);
        idx := Wrap(idx + 1);
        i := i + 1;
      }
      assert Contents[..count] == Contents;
      var n := count as real;
      m := sum / n;
      DivTimes(sum, n);
    }

    /** Forgets every element; the slots keep their old values. */
    method Clear()
      requires Valid()
      modifies this
      ensures Valid()
      ensures Contents == [] && head == 0 && tail == 0 && count == 0
    {
      head, tail, count := 0, 0, 0;
      Contents := [];
    }
  }
}
