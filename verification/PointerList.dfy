/** The growing ring buffer (libs/common/pointer_list.c:91-200) against a sequence. */
module PointerList {
  import opened Arithmetic

  datatype Status = RcOk | RcNotFound | RcOutOfRange

  /** The slot of element k when reading starts at slot r. */
  function Slot(r: nat, k: nat, size: nat): (i: nat)
    requires r < size && k < size
    ensures i < size
  {
    if r + k < size then r + k else r + k - size
  }

  lemma SlotMod(r: nat, k: nat, size: nat)
    requires r < size && k < size
    ensures (r + k) % size == Slot(r, k, size)
  {
    if r + k < size {
      SmallMod(r + k, size);
    } else {
      SmallMod(r + k - size, size);
      assert (r + k) % size == (r + k - size) % size by { ModShift(r + k - size, size); }
    }
  }

  lemma SmallMod(x: nat, m: nat)
    requires x < m
    ensures x % m == x
  {
  }

  lemma ModShift(x: nat, m: nat)
    requires 0 < m && x < m
    ensures (x + m) % m == x
  {
    DivMod(x + m, m, 1, x);
  }

  /** The elements in a buffer, the oldest first. */
  ghost function Elements<T>(buffer: seq<T>, r: nat, n: nat): (s: seq<T>)
    requires r < |buffer| && n < |buffer|
    ensures |s| == n && forall k | 0 <= k < n :: s[k] == buffer[Slot(r, k, |buffer|)]
  {
    seq(n, k requires 0 <= k < n => buffer[Slot(r, k, |buffer|)])
  }

  /** A sequence without its element i. */
  ghost function Without<T>(s: seq<T>, i: nat): seq<T>
    requires i < |s|
  {
    s[..i] + s[i + 1..]
  }

  class List<T(0)> {
    var buffer: array<T>
    var n: nat
    var readIdx: nat
    var writeIdx: nat

    ghost predicate Valid()
      reads this, buffer
    {
      && 0 < buffer.Length && readIdx < buffer.Length && n < buffer.Length
      && writeIdx == Slot(readIdx, n, buffer.Length)
    }

    ghost function Contents(): (s: seq<T>)
      requires Valid()
      reads this, buffer
    {
      Elements(buffer[..], readIdx, n)
    }

    /** The oldest element lies at the beginning of the occupied slots, which do not
        reach around the end of the buffer. */
    ghost predicate Straight()
      reads this, buffer
    {
      readIdx + n <= buffer.Length
    }

    constructor (zero: T, prealloc: nat)
      ensures Valid() && fresh(buffer) && Contents() == [] && readIdx == 0
      ensures prealloc > 0 ==> buffer.Length == prealloc
    {
      var size := if prealloc == 0 then 8 else prealloc;
      buffer := new T[size](_ => zero);
      n, readIdx, writeIdx := 0, 0, 0;
    }

    /** Doubles the buffer, the elements moved to its beginning. */
    method Grow(zero: T)
      requires Valid() && n == buffer.Length - 1
      modifies this
      ensures Valid() && fresh(buffer) && n == old(n) && n < buffer.Length - 1 && readIdx == 0
      ensures Contents() == old(Contents())
    {
      var size := buffer.Length;
      var b := new T[2 * size](_ => zero);
      ghost var was := Contents();
      if readIdx < writeIdx {
        forall k | 0 <= k < writeIdx - readIdx { b[k] := buffer[readIdx + k]; }
      } else {
        forall k | 0 <= k < size - readIdx { b[k] := buffer[readIdx + k]; }
        forall k | 0 <= k < writeIdx { b[size - readIdx + k] := buffer[k]; }
      }
      assert forall k | 0 <= k < n :: b[k] == was[k];
      readIdx := 0;
      writeIdx := n;
      buffer := b;
      assert Contents() == was;
    }

    /** Appends an element, growing the buffer first if only one slot is left. */
    method PushLast(x: T, zero: T) returns (r: Status)
      requires Valid()
      modifies this, buffer
      ensures Valid() && r == RcOk && (buffer == old(buffer) || fresh(buffer))
      ensures Contents() == old(Contents()) + [x]
      ensures old(readIdx) == 0 ==> readIdx == 0
      ensures old(n + 1 < buffer.Length) ==> buffer == old(buffer) && readIdx == old(readIdx)
    {
      if n == buffer.Length - 1 { Grow(zero); }
      ghost var was := Contents();
      SlotMod(writeIdx, if buffer.Length > 1 then 1 else 0, buffer.Length);
      buffer[writeIdx] := x;
      writeIdx := (writeIdx + 1) % buffer.Length;
      n := n + 1;
      assert forall k | 0 <= k < n - 1 :: Contents()[k] == was[k];
      assert Contents() == was + [x];
      r := RcOk;
    }

    method PopFirst(zero: T) returns (r: Status, x: T)
      requires Valid()
      modifies this`readIdx, this`n
      ensures Valid()
      ensures if old(Contents()) == [] then r == RcNotFound && x == zero && Contents() == []
              else r == RcOk && x == old(Contents())[0] && Contents() == old(Contents())[1..]
      ensures r == RcOk ==> readIdx == Slot(old(readIdx), 1, buffer.Length)
    {
      if n == 0 { return RcNotFound, zero; }
      ghost var was := Contents();
      SlotMod(readIdx, 1, buffer.Length);
      x := buffer[readIdx];
      readIdx := (readIdx + 1) % buffer.Length;
      n := n - 1;
      assert forall k | 0 <= k < n :: Contents()[k] == was[k + 1];
      r := RcOk;
    }

    method Poke(index: nat, x: T) returns (r: Status)
      requires Valid()
      modifies buffer
      ensures Valid()
      ensures if index < n then r == RcOk && Contents() == old(Contents())[index := x]
              else r == RcOutOfRange && Contents() == old(Contents())
    {
      if index >= n { return RcOutOfRange; }
      SlotMod(readIdx, index, buffer.Length);
      var i := (index + readIdx) % buffer.Length;
      buffer[i] := x;
      r := RcOk;
    }

    method Peek(index: nat, zero: T) returns (r: Status, x: T)
      requires Valid()
      ensures if index < n then r == RcOk && x == Contents()[index] else r == RcOutOfRange && x == zero
    {
      if index >= n { return RcOutOfRange, zero; }
      SlotMod(readIdx, index, buffer.Length);
      x := buffer[(index + readIdx) % buffer.Length];
      r := RcOk;
    }
  
    /** The index of the element in slot 0, if the occupied slots reach around. */
    ghost function Wrap(): int
      reads this, buffer
    {
      buffer.Length - readIdx
    }

    /** Removes an element and moves those after it. At the end of the buffer the
        move passes over a slot: the element in slot 0 stays there as well, and the
        one after it is lost. */
    method Remove(index: nat, zero: T) returns (r: Status, x: T)
      requires Valid()
      modifies this`n, this`writeIdx, buffer
      ensures Valid() && readIdx == old(readIdx)
      ensures var was := old(Contents());
              if index >= |was| then r == RcOutOfRange && x == zero && Contents() == was
              else r == RcOk && x == was[index] && Contents() == Left(was, index, old(Wrap()))
      ensures index < old(n) ==>
        (Contents() == Without(old(Contents()), index) <==> Spared(old(Contents()), index, old(Wrap())))
      ensures old(readIdx == 0 || Straight()) && index < old(n) ==> Contents() == Without(old(Contents()), index)
    {
      hide Slot, Moves, Left;
      if index >= n { return RcOutOfRange, zero; }
      ghost var was, w, v := Contents(), Wrap(), View(buffer[..], readIdx);
      var size := buffer.Length;
      SlotMod(readIdx, index, size);
      var i := (index + readIdx) % size;
      x := buffer[i];
      n := n - 1;
      MoveDown(i, n - index, index);
      SlotBack(readIdx, n + 1, size);
      writeIdx := (writeIdx - 1 + size) % size;
      forall k | 0 <= k < n ensures Contents()[k] == Left(was, index, w)[k] {
        MovesLeave(v, was, index, w, k);
      }
      assert Contents() == Left(was, index, w);
      RemovalExactly(was, index, w);
      r := RcOk;
    }

    /** The moving loop, from the slot of element q. */
    method MoveDown(first: nat, count: nat, ghost q: nat)
      requires readIdx < buffer.Length && q + count + 1 < buffer.Length && first == Slot(readIdx, q, buffer.Length)
      modifies buffer
      ensures View(buffer[..], readIdx) == Moves(old(View(buffer[..], readIdx)), q, Wrap(), count)
    {
      hide Slot;
      var i, left, size := first, count, buffer.Length;
      ghost var p: nat, w, goal := q, Wrap(), Moves(View(buffer[..], readIdx), q, Wrap(), count);
      while left > 0
        invariant 0 <= left && p + left < size && (p < w ==> p + left + 1 < size)
        invariant i == Slot(readIdx, p, size)
        invariant Moves(View(buffer[..], readIdx), p, w, left) == goal
      {
        SlotNext(readIdx, p, size);
        if i == size - 1 {
          SlotNext(readIdx, p + 1, size);
          SlotZero(readIdx, size);
          ViewUpdate(buffer[..], readIdx, p, buffer[0]);
          buffer[i] := buffer[0];
          i := 0;
          p := p + 1;
        } else {
          ViewUpdate(buffer[..], readIdx, p, buffer[i + 1]);
          buffer[i] := buffer[i + 1];
        }
        i := i + 1;
        p := p + 1;
        left := left - 1;
      }
    }
  }

  // ----- runs

  datatype Op<T> = Push(x: T) | Pop | Poke(i: nat, x: T) | Peek(i: nat) | Remove(i: nat)

  /** An answer, and the element that comes with it. */
  datatype Reply<T> = Reply(status: Status, x: T)

  /** The operation on a plain sequence. */
  function Applied<T>(s: seq<T>, op: Op<T>): seq<T> {
    match op
    case Push(x) => s + [x]
    case Pop => if s == [] then s else s[1..]
    case Poke(i, x) => if i < |s| then s[i := x] else s
    case Peek(i) => s
    case Remove(i) => if i < |s| then s[..i] + s[i + 1..] else s
  }

  /** Its answer; an element that is not there is zero. */
  function Answered<T>(s: seq<T>, op: Op<T>, zero: T): Reply<T> {
    match op
    case Push(_) => Reply(RcOk, zero)
    case Pop => if s == [] then Reply(RcNotFound, zero) else Reply(RcOk, s[0])
    case Poke(i, _) => Reply(if i < |s| then RcOk else RcOutOfRange, zero)
    case Peek(i) => if i < |s| then Reply(RcOk, s[i]) else Reply(RcOutOfRange, zero)
    case Remove(i) => if i < |s| then Reply(RcOk, s[i]) else Reply(RcOutOfRange, zero)
  }

  function AllApplied<T>(ops: seq<Op<T>>): seq<T> {
    if ops == [] then [] else Applied(AllApplied(ops[..|ops| - 1]), ops[|ops| - 1])
  }

  function Answers<T>(ops: seq<Op<T>>, zero: T): seq<Reply<T>> {
    if ops == [] then []
    else
      var before := ops[..|ops| - 1];
      Answers(before, zero) + [Answered(AllApplied(before), ops[|ops| - 1], zero)]
  }

  /** One operation, on a list that was never popped or is not removed from. */
  method Perform<T(0)>(l: List<T>, op: Op<T>, zero: T) returns (r: Reply<T>)
    requires l.Valid() && (op.Remove? ==> l.readIdx == 0)
    modifies l, l.buffer
    ensures l.Valid() && (l.buffer == old(l.buffer) || fresh(l.buffer))
    ensures l.Contents() == Applied(old(l.Contents()), op) && r == Answered(old(l.Contents()), op, zero)
    ensures old(l.readIdx) == 0 && !op.Pop? ==> l.readIdx == 0
  {
    match op
    case Push(x) =>
      var st := l.PushLast(x, zero);
      r := Reply(st, zero);
    case Pop =>
      var st, x := l.PopFirst(zero);
      r := Reply(st, x);
    case Poke(i, x) =>
      var st := l.Poke(i, x);
      r := Reply(st, zero);
    case Peek(i) =>
      var st, x := l.Peek(i, zero);
      r := Reply(st, x);
    case Remove(i) =>
      var st, x := l.Remove(i, zero);
      r := Reply(st, x);
  }

  /** In every run that removes nothing after a pop, whatever the first capacity, the
      list answers as a plain sequence does and holds its elements in the end. */
  method RunList<T(0)>(ops: seq<Op<T>>, prealloc: nat, zero: T) returns (replies: seq<Reply<T>>, left: seq<T>)
    requires forall i, j | 0 <= i < j < |ops| && ops[i].Pop? :: !ops[j].Remove?
    ensures replies == Answers(ops, zero) && left == AllApplied(ops)
  {
    var l := new List<T>(zero, prealloc);
    replies := [];
    for k := 0 to |ops|
      invariant l.Valid() && fresh(l) && fresh(l.buffer)
      invariant l.Contents() == AllApplied(ops[..k]) && replies == Answers(ops[..k], zero)
      invariant (forall i | 0 <= i < k :: !ops[i].Pop?) ==> l.readIdx == 0
    {
      assert ops[..k + 1][..k] == ops[..k];
      var r := Perform(l, ops[k], zero);
      replies := replies + [r];
    }
    assert ops[..|ops|] == ops;
    left := Collect(l, zero);
  }

  /** All the elements, one look at each. */
  method Collect<T(0)>(l: List<T>, zero: T) returns (s: seq<T>)
    requires l.Valid()
    ensures s == l.Contents()
  {
    s := [];
    for k := 0 to l.n
      invariant s == l.Contents()[..k]
    {
      var _, x := l.Peek(k, zero);
      s := s + [x];
    }
  }

  /** a, a + 1, ... */
  function From(a: int, count: nat): (s: seq<int>)
    ensures |s| == count
  {
    seq(count, i => a + i)
  }

  /** Eight slots, four elements popped, six left that reach around the end. */
  method WrappedList() returns (l: List<int>)
    ensures fresh(l) && fresh(l.buffer) && l.Valid() && l.Wrap() == 4 && l.Contents() == From(5, 6)
  {
    hide Elements;
    l := new List<int>(0, 8);
    for k := 0 to 7
      invariant l.Valid() && fresh(l) && fresh(l.buffer) && l.buffer.Length == 8 && l.readIdx == 0
      invariant l.Contents() == From(1, k)
    {
      var _ := l.PushLast(k + 1, 0);
      assert From(1, k) + [k + 1] == From(1, k + 1);
    }
    for k := 0 to 4
      invariant l.Valid() && fresh(l) && fresh(l.buffer) && l.buffer.Length == 8 && l.readIdx == k
      invariant l.Contents() == From(1 + k, 7 - k)
    {
      var _, _ := l.PopFirst(0);
      assert From(1 + k, 7 - k)[1..] == From(2 + k, 6 - k);
    }
    for k := 0 to 3
      invariant l.Valid() && fresh(l) && fresh(l.buffer) && l.buffer.Length == 8 && l.readIdx == 4
      invariant l.Contents() == From(5, 3 + k)
    {
      var _ := l.PushLast(k + 8, 0);
      assert From(5, 3 + k) + [k + 8] == From(5, 4 + k);
    }
  }

  /** Removing the first of those six elements loses the last and leaves the fifth twice. */
  method RemovalLoses() returns (before: seq<int>, after: seq<int>)
    ensures before == [5, 6, 7, 8, 9, 10] && after == [6, 7, 8, 9, 9]
  {
    hide Elements, Slot;
    var l := WrappedList();
    before := Collect(l, 0);
    var _, _ := l.Remove(0, 0);
    after := Collect(l, 0);
  }

  lemma SlotZero(r: nat, size: nat)
    requires r < size
    ensures r > 0 ==> Slot(r, size - r, size) == 0
  {
  }

  /** The moves the loop makes: each place takes the next one's element; after the
      place before w, place w is passed over. */
  ghost function Moves<T>(v: seq<T>, q: nat, w: int, count: nat): (r: seq<T>)
    requires q + count < |v| && (q < w ==> q + count + 1 < |v|)
    ensures |r| == |v|
    decreases count
  {
    if count == 0 then v
    else Moves(v[q := v[q + 1]], if q + 1 == w then q + 2 else q + 1, w, count - 1)
  }

  lemma {:induction false} MovesAre<T>(v: seq<T>, q: nat, w: int, count: nat, k: nat)
    requires q + count < |v| && (q < w ==> q + count + 1 < |v|) && k < |v|
    ensures k < q + count ==> Moves(v, q, w, count)[k] == if k < q || (q < w && k == w) then v[k] else v[k + 1]
    decreases count
  {
    if count > 0 {
      MovesAre(v[q := v[q + 1]], if q + 1 == w then q + 2 else q + 1, w, count - 1, k);
    }
  }

  /** What the moves leave of a sequence. */
  ghost function Left<T>(was: seq<T>, index: nat, w: int): (r: seq<T>)
    requires index < |was|
    ensures |r| == |was| - 1
    ensures forall k | 0 <= k < |r| :: r[k] == if k < index || (index < w && k == w) then was[k] else was[k + 1]
  {
    if index < w < |was| - 1 then Without(was, index)[w := was[w]] else Without(was, index)
  }

  lemma MovesLeave<T>(v: seq<T>, was: seq<T>, index: nat, w: int, k: nat)
    requires index < |was| < |v| && (forall j | 0 <= j < |was| :: was[j] == v[j]) && k < |was| - 1
    ensures Moves(v, index, w, |was| - 1 - index)[k] == Left(was, index, w)[k]
  {
    hide Moves, Left;
    MovesAre(v, index, w, |was| - 1 - index, k);
    assert was[k] == v[k] && was[k + 1] == v[k + 1];
  }

  /** The elements moved do not reach around the end of the buffer by two or more, or
      the first two there are the same. */
  ghost predicate Spared<T>(was: seq<T>, index: nat, w: int) {
    !(index < w < |was| - 1) || was[w] == was[w + 1]
  }

  /** Removal is deletion if and only if the elements moved do not reach around the
      end of the buffer by two or more, or the first two there are the same. */
  lemma RemovalExactly<T>(was: seq<T>, index: nat, w: int)
    requires index < |was|
    ensures Left(was, index, w) == Without(was, index) <==> Spared(was, index, w)
  {
    var gone := Without(was, index);
    if index < w < |was| - 1 {
      assert gone[w] == was[w + 1] && Left(was, index, w)[w] == was[w];
      if was[w] == was[w + 1] { assert gone[w := was[w]] == gone; }
    }
  }

  /** All the slots of a buffer, counted from r. */
  ghost function View<T>(buffer: seq<T>, r: nat): (v: seq<T>)
    requires r < |buffer|
    ensures |v| == |buffer| && forall k | 0 <= k < |v| :: v[k] == buffer[Slot(r, k, |buffer|)]
  {
    seq(|buffer|, k requires 0 <= k < |buffer| => buffer[Slot(r, k, |buffer|)])
  }

  lemma ViewUpdate<T>(buffer: seq<T>, r: nat, q: nat, x: T)
    requires r < |buffer| && q < |buffer|
    ensures View(buffer[Slot(r, q, |buffer|) := x], r) == View(buffer, r)[q := x]
  {
    SlotsDiffer(r, q, |buffer|);
  }

  lemma SlotNext(r: nat, q: nat, size: nat)
    requires r < size && q + 1 < size
    ensures Slot(r, q + 1, size) == if Slot(r, q, size) == size - 1 then 0 else Slot(r, q, size) + 1
    ensures Slot(r, q, size) == size - 1 <==> q + 1 == size - r
  {
  }

  lemma SlotsDiffer(r: nat, q: nat, size: nat)
    requires r < size && q < size
    ensures forall k | 0 <= k < size && k != q :: Slot(r, k, size) != Slot(r, q, size)
  {
  }

  lemma SlotBack(r: nat, n: nat, size: nat)
    requires r < size && 0 < n < size
    ensures (Slot(r, n, size) + size - 1) % size == Slot(r, n - 1, size)
  {
    var w := Slot(r, n, size);
    if w == 0 {
      SmallMod(size - 1, size);
    } else {
      ModShift(w - 1, size);
    }
  }
}
