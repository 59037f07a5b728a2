/** Looking keys up in the mapped byte image (libs/cdb/cdb.c:44-136). */
module CdbFind {
  import opened Bytes
  import opened CdbFormat

  datatype Cursor = Cursor(loop: uint32, khash: uint32, kpos: uint32, hpos: uint32, hslots: uint32,
                           dpos: uint32, dlen: uint32)

  /** Whether `cdb_read` finds len bytes at pos. */
  predicate Readable(image: bytes, pos: nat, len: nat) {
    pos <= |image| && |image| - pos >= len
  }

  function Word(image: bytes, pos: nat): uint32
    requires Readable(image, pos, 4)
  {
    Unpack(image[pos..pos + 4])
  }

  /** Comparison of a key with the image, 32 bytes at a time: 1 if equal, 0 if
      not, -1 if a block lies outside the image. */
  function Match(image: bytes, key: bytes, pos: uint32): int
    decreases |key|
  {
    if key == [] then 1 else
    var n := if |key| < 32 then |key| else 32;
    if !Readable(image, pos, n) then -1
    else if image[pos..pos + n] != key[..n] then 0
    else Match(image, key[n..], U32(pos + n))
  }

  /** Step of the probe sequence, around the end of the table. */
  function Advance(c: Cursor): Cursor
    requires c.loop < c.hslots
  {
    var k := U32(c.kpos + 8);
    c.(loop := c.loop + 1, kpos := if k == U32(c.hpos + U32(c.hslots * 8)) then c.hpos else k)
  }

  /** The loop of `cdb_findnext`. */
  function Probe(image: bytes, c: Cursor, key: bytes): (int, Cursor)
    decreases c.hslots - c.loop
  {
    if c.loop >= c.hslots then (0, c)
    else if !Readable(image, c.kpos, 8) then (-1, c) else
    var pos := Word(image, c.kpos + 4);
    if pos == 0 then (0, c) else
    var next := Advance(c);
    if Word(image, c.kpos) != c.khash then Probe(image, next, key)
    else if !Readable(image, pos, 8) then (-1, next)
    else if Word(image, pos) != |key| then Probe(image, next, key)
    else
      var m := Match(image, key, U32(pos + 8));
      if m == -1 then (-1, next)
      else if m == 1 then (1, next.(dlen := Word(image, pos + 4), dpos := U32(pos + 8 + |key|)))
      else Probe(image, next, key)
  }

  /** One turn of the loop. */
  lemma ProbeStep(image: bytes, c: Cursor, key: bytes)
    ensures c.loop >= c.hslots ==> Probe(image, c, key) == (0, c)
    ensures c.loop < c.hslots && !Readable(image, c.kpos, 8) ==> Probe(image, c, key) == (-1, c)
    ensures c.loop < c.hslots && Readable(image, c.kpos, 8) ==>
      var pos := Word(image, c.kpos + 4);
      var next := Advance(c);
      Probe(image, c, key) ==
        if pos == 0 then (0, c)
        else if Word(image, c.kpos) != c.khash then Probe(image, next, key)
        else if !Readable(image, pos, 8) then (-1, next)
        else if Word(image, pos) != |key| then Probe(image, next, key)
        else
          var m := Match(image, key, U32(pos + 8));
          if m == -1 then (-1, next)
          else if m == 1 then (1, next.(dlen := Word(image, pos + 4), dpos := U32(pos + 8 + |key|)))
          else Probe(image, next, key)
  {
    hide Word, Match, U32, Advance;
  }

  lemma AdvanceIs(c: Cursor)
    requires c.loop < c.hslots
    ensures Advance(c) == c.(loop := c.loop + 1,
      kpos := if U32(c.kpos + 8) == U32(c.hpos + U32(c.hslots * 8)) then c.hpos else U32(c.kpos + 8))
  {
    hide U32;
  }

  /** `cdb_findnext`: the first call looks the table up in the header. */
  function FindNext(image: bytes, c: Cursor, key: bytes): (int, Cursor) {
    if c.loop != 0 then Probe(image, c, key) else
    var u := Hash(key);
    var at := u * 8 % 2048;
    if !Readable(image, at, 8) then (-1, c) else
    var slots := Word(image, at + 4);
    if slots == 0 then (0, c.(hslots := slots)) else
    var hpos := Word(image, at);
    Probe(image, c.(hslots := slots, hpos := hpos, khash := u, kpos := U32(hpos + U32(u / 256 % slots * 8))), key)
  }

  /** A lookup cursor over a mapped image. */
  class Cdb {
    const image: bytes
    var loop: uint32
    var khash: uint32
    var kpos: uint32
    var hpos: uint32
    var hslots: uint32
    var dpos: uint32
    var dlen: uint32

    ghost function State(): Cursor
      reads this
    {
      Cursor(loop, khash, kpos, hpos, hslots, dpos, dlen)
    }

    constructor (image: bytes)
      ensures this.image == image && loop == 0
    {
      this.image := image;
      loop, khash, kpos, hpos, hslots, dpos, dlen := 0, 0, 0, 0, 0, 0, 0;
    }

    method FindStart()
      modifies this`loop
      ensures loop == 0
    {
      loop := 0;
    }

    /** `cdb_read` on a mapped image. */
    method Read(len: uint32, pos: uint32) returns (ok: bool, buf: bytes)
      ensures ok <==> Readable(image, pos, len)
      ensures ok ==> buf == image[pos..pos + len]
    {
      if pos > |image| || |image| - pos < len { return false, []; }
      return true, image[pos..pos + len];
    }

    method MatchKey(key: bytes, pos: uint32) returns (r: int)
      ensures r == Match(image, key, pos)
    {
      var left, at := key, pos;
      while left != []
        invariant Match(image, left, at) == Match(image, key, pos)
        decreases |left|
      {
        var n := if |left| < 32 then |left| else 32;
        if !Readable(image, at, n) { return -1; }
        if image[at..at + n] != left[..n] { return 0; }
        at := U32(at + n);
        left := left[n..];
      }
      r := 1;
    }

    method Next(key: bytes) returns (r: int)
      requires |key| < 0x1_0000_0000
      modifies this
      ensures (r, State()) == FindNext(image, old(State()), key)
    {
      hide Hash, Unpack, U32, Match, Probe, Advance;
      if loop == 0 {
        var u := ComputeHash(key);
        var at := u * 8 % 2048;
        if !Readable(image, at, 8) { return -1; }
        hslots := Word(image, at + 4);
        if hslots == 0 { return 0; }
        hpos := Word(image, at);
        khash := u;
        kpos := U32(hpos + U32(u / 256 % hslots * 8));
      }
      ghost var goal := FindNext(image, old(State()), key);
      hide FindNext, Word;
      while loop < hslots
        invariant Probe(image, State(), key) == goal
        decreases hslots - loop
      {
        ghost var c := State();
        ProbeStep(image, c, key);
        if !Readable(image, kpos, 8) { return -1; }
        var pos := Word(image, kpos + 4);
        if pos == 0 { return 0; }
        var u := Word(image, kpos);
        loop := loop + 1;
        kpos := U32(kpos + 8);
        if kpos == U32(hpos + U32(hslots * 8)) { kpos := hpos; }
        AdvanceIs(c);
        assert State() == Advance(c);
        if u == khash {
          if !Readable(image, pos, 8) { return -1; }
          if Word(image, pos) == |key| {
            var m := MatchKey(key, U32(pos + 8));
            if m == -1 { return -1; }
            if m == 1 {
              dlen := Word(image, pos + 4);
              dpos := U32(pos + 8 + |key|);
              return 1;
            }
          }
        }
      }
      ProbeStep(image, State(), key);
      r := 0;
    }

    method Find(key: bytes) returns (r: int)
      requires |key| < 0x1_0000_0000
      modifies this
      ensures (r, State()) == FindNext(image, old(State()).(loop := 0), key)
    {
      FindStart();
      r := Next(key);
    }
  }
}
