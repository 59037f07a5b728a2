/** The deserializer as it runs: a stack of frames changed in place
    (libs/bysant/bysantd.c:70-98, 632-701). */
module BysantReader {
  import opened Bytes
  import opened BysantCommon
  import opened BysantDecoding

  class Deserializer {
    const classes: Classes
    const stack: array<Frame>
    var stacksize: int
    var read: nat

    ghost predicate Valid()
      reads this, stack
    {
      && stack.Length == STACK_SIZE
      && 0 <= stacksize < STACK_SIZE
      && ValidDec(Open())
    }

    /** The open frames, outermost first. */
    ghost function Open(): Frames
      reads this, stack
      requires 0 <= stacksize < stack.Length
    {
      stack[..stacksize + 1]
    }

    constructor (classes: Classes)
      ensures Valid() && fresh(stack) && this.classes == classes
      ensures Open() == DEC_INIT && read == 0
    {
      this.classes := classes;
      stack := new Frame[STACK_SIZE](_ => TOP_FRAME);
      stacksize, read := 0, 0;
      new;
      assert Open() == [TOP_FRAME];
    }

    /** `bsd_read`. */
    method Read(buffer: bytes, length: int) returns (n: int, tok: Token, slot: Slot)
      requires Valid()
      modifies this, stack
      ensures Valid()
      ensures Reading(n, tok, slot, Open()) == ReadNext(old(Open()), classes, buffer, length)
      ensures read == if n > 0 && !tok.TError? then old(read) + n else old(read)
    {
      hide DecodeIn;
      ReadKeepsValid(Open(), classes, buffer, length);
      ghost var d := Open();
      var top := stacksize;
      var f := stack[top];
      if f.missing == 0 {
        stacksize := stacksize - 1;
        assert Open() == d[..|d| - 1];
        return 0, TClose(f.kind), SlotOf(stack[stacksize]);
      }
      var item := DecodeIn(buffer, length, f, stacksize == STACK_SIZE - 1, classes);
      n, tok := item.n, item.tok;
      if n < 0 || tok.TError? {
        Take(item.eff);
        return n, tok, KTopLevel;
      }
      stack[top] := ChargeRead(f);
      assert Open() == d[|d| - 1 := ChargeRead(f)];
      Take(item.eff);
      slot := if stacksize > top then KNewContainer else SlotOf(stack[stacksize]);
      read := read + n;
    }

    /** Opens or closes a frame, as the decoding routine asked. */
    method Take(eff: Effect)
      requires stack.Length == STACK_SIZE && 0 <= stacksize < STACK_SIZE
      requires eff.Push? ==> stacksize < STACK_SIZE - 1
      requires eff.Pop? ==> stacksize > 0
      modifies this`stacksize, stack
      ensures 0 <= stacksize < STACK_SIZE && Open() == Apply(old(Open()), eff)
      ensures stacksize == (match eff case Stay => old(stacksize) case Push(_) => old(stacksize) + 1 case Pop => old(stacksize) - 1)
    {
      match eff {
        case Stay =>
        case Push(g) =>
          stacksize := stacksize + 1;
          stack[stacksize] := g;
        case Pop =>
          stacksize := stacksize - 1;
      }
    }

    /** An application's loop: k elements out of a buffer, or a stop at the first
        one that fails. */
    method ReadElements(buffer: bytes, k: nat) returns (done: bool, elements: seq<(Token, Slot)>, used: nat)
      requires Valid()
      modifies this, stack
      ensures Valid()
      ensures var o := ReadMany(Reader(classes), old(Open()), buffer, k);
              done == o.Some? && (done ==> o.value == Outcome(elements, used, Open()))
    {
      hide ReadNext, ReadMany;
      elements, used, done := [], 0, true;
      ghost var d := Open();
      ghost var whole := ReadMany(Reader(classes), d, buffer, k);
      assert buffer[0..] == buffer;
      if whole.Some? { assert [] + whole.value.elements == whole.value.elements; }
      var i := 0;
      while i < k
        invariant 0 <= i <= k && used <= |buffer| && Valid() && done
        invariant whole == After(elements, used, ReadMany(Reader(classes), Open(), buffer[used..], k - i))
      {
        ghost var here, was, at := Open(), elements, used;
        var n, tok, slot := Read(buffer[used..], |buffer| - used);
        ReadsOne(Reader(classes), here, buffer[at..], k - i, Reading(n, tok, slot, Open()));
        if tok.TError? || !(0 <= n <= |buffer| - used) {
          done := false;
          return;
        }
        AfterOne(was, at, (tok, slot), n, ReadMany(Reader(classes), Open(), buffer[at..][n..], k - i - 1));
        assert buffer[at..][n..] == buffer[at + n..];
        elements := elements + [(tok, slot)];
        used := used + n;
        i := i + 1;
      }
      ReadsNone(Reader(classes), Open(), buffer[used..], elements, used);
    }
  }

  /** Reads that follow others. */
  ghost function After(elements: seq<(Token, Slot)>, used: nat, o: Option<Outcome>): Option<Outcome> {
    if o.None? then None else Some(Outcome(elements + o.value.elements, used + o.value.used, o.value.next))
  }

  lemma AfterOne(elements: seq<(Token, Slot)>, used: nat, x: (Token, Slot), n: nat, o: Option<Outcome>)
    ensures After(elements, used, After([x], n, o)) == After(elements + [x], used + n, o)
  {
    if o.Some? {
      assert elements + ([x] + o.value.elements) == (elements + [x]) + o.value.elements;
    }
  }

  lemma ReadsNone(read: (Frames, bytes) -> Reading, d: Frames, buffer: bytes, elements: seq<(Token, Slot)>, used: nat)
    ensures After(elements, used, ReadMany(read, d, buffer, 0)) == Some(Outcome(elements, used, d))
  {
    assert elements + [] == elements;
  }

  lemma ReadsOne(read: (Frames, bytes) -> Reading, d: Frames, buffer: bytes, k: nat, r: Reading)
    requires k > 0 && read(d, buffer) == r
    ensures ReadMany(read, d, buffer, k)
         == if r.tok.TError? || !(0 <= r.n <= |buffer|) then None
            else After([(r.tok, r.slot)], r.n, ReadMany(read, r.next, buffer[r.n..], k - 1))
  {
  }
}
