/** The constant database: words, hash, and the tables of its byte image
    (libs/cdb/uint32_pack.c, uint32_unpack.c, cdb_hash.c, cdb_make.c). */
module CdbFormat {
  import opened Bytes
  import opened Words

  function U32(x: int): uint32 {
    x % 0x1_0000_0000
  }

  // ----- little-endian words

  function Pack(u: uint32): (s: bytes)
    ensures |s| == 4
  {
    [u % 256, u / 256 % 256, u / 256 / 256 % 256, u / 256 / 256 / 256]
  }

  function Unpack(s: bytes): uint32
    requires |s| >= 4
  {
    s[0] as int + 256 * (s[1] as int + 256 * (s[2] as int + 256 * s[3] as int))
  }

  lemma UnpackPack(u: uint32, rest: bytes)
    ensures Unpack(Pack(u) + rest) == u
  {
  }

  lemma PackUnpack(s: bytes)
    requires |s| == 4
    ensures Pack(Unpack(s)) == s
  {
    var c := s[2] as int + 256 * s[3] as int;
    var b := s[1] as int + 256 * c;
    assert Unpack(s) == s[0] + 256 * b;
    assert Unpack(s) / 256 == b && b / 256 == c;
  }

  // ----- the hash

  function XorByte(a: byte, b: byte): byte {
    Powers();
    Bitwise(Xor, a, b, 8)
  }

  const HASH_START: uint32 := 5381

  /** `cdb_hashadd`: h*33 on 32 bits, its low byte exclusive-ored with c. */
  function HashAdd(h: uint32, c: byte): uint32 {
    var g := U32(h + h * 32);
    (g - g % 256) + XorByte(g % 256, c)
  }

  /** `cdb_hashadd` digit by digit, on 32-bit words: 33 times h, exclusive or c. */
  lemma HashAddBits(h: uint32, c: byte, i: nat)
    requires i < 32
    ensures BitAt(HashAdd(h, c), i) == 1 <==> BitAt(33 * h % 0x1_0000_0000, i) != BitAt(c, i)
  {
    hide BitAt, XorByte, Pow2, Output;
    var g: nat := 33 * h % 0x1_0000_0000;
    var low := XorByte(g % 256, c);
    Powers();
    assert HashAdd(h, c) == g / 256 * 256 + low && g == g / 256 * 256 + g % 256;
    BitJoin(g / 256, low, 8, i);
    BitJoin(g / 256, g % 256, 8, i);
    if i < 8 {
      XorByteBit(g % 256, c, i);
    } else {
      BitJoin(0, c, 8, i);
      NoBit(i - 8);
    }
  }

  lemma XorByteBit(a: byte, b: byte, i: nat)
    requires i < 8
    ensures BitAt(XorByte(a, b), i) == 1 <==> BitAt(a, i) != BitAt(b, i)
  {
    hide BitAt, Bitwise;
    BitwiseBit(Xor, a, b, 8, i);
  }

  lemma {:induction false} NoBit(i: nat)
    ensures BitAt(0, i) == 0
  {
    if i > 0 { NoBit(i - 1); }
  }

  lemma XorExample()
    ensures XorByte(0xa5, 0x61) == 0xc4
  {
    assert Bitwise(Xor, 20, 12, 5) == 24;
  }

  lemma HashOne(c: byte, x: nat)
    requires x == XorByte(0xa5, c)
    ensures Hash([c]) == 0x2b500 + x
  {
    hide XorByte;
    assert HashAdd(HASH_START, c) == 0x2b500 + x;
    assert [c][1..] == [];
    assert HashFrom(HashAdd(HASH_START, c), []) == HashAdd(HASH_START, c);
  }

  /** The hash of the key "a", which also fixes the start. */
  lemma HashOfA()
    ensures Hash([0x61]) == 177604
  {
    hide XorByte, Hash;
    XorExample();
    HashOne(0x61, 0xc4);
  }

  function HashFrom(h: uint32, key: bytes): uint32
    decreases |key|
  {
    if key == [] then h else HashFrom(HashAdd(h, key[0]), key[1..])
  }

  function Hash(key: bytes): uint32 {
    HashFrom(HASH_START, key)
  }

  /** The bytes of a key are added from the first to the last. */
  lemma {:induction false} HashSnoc(h: uint32, key: bytes, c: byte)
    ensures HashFrom(h, key + [c]) == HashAdd(HashFrom(h, key), c)
    decreases |key|
  {
    hide HashAdd;
    var s := key + [c];
    if key == [] {
      assert s[1..] == [];
      assert HashFrom(HashAdd(h, c), []) == HashAdd(h, c);
    } else {
      assert s[0] == key[0] && s[1..] == key[1..] + [c];
      HashSnoc(HashAdd(h, key[0]), key[1..], c);
    }
  }

  /** `cdb_hash`, a loop over the key. */
  method ComputeHash(key: bytes) returns (h: uint32)
    ensures h == Hash(key)
  {
    h := HASH_START;
    var i := 0;
    while i < |key|
      invariant 0 <= i <= |key| && HashFrom(h, key[i..]) == Hash(key)
    {
      assert key[i..][1..] == key[i + 1..];
      h := HashAdd(h, key[i]);
      i := i + 1;
    }
  }

  // ----- hash tables

  /** A table slot: the full hash and the position of a record; position 0 means
      the slot is empty. */
  datatype Slot = Slot(h: uint32, p: uint32)

  const EMPTY := Slot(0, 0)

  type Table = seq<Slot>

  function Start(h: uint32, len: nat): nat
    requires len > 0
  {
    h / 256 % len
  }

  /** The slot d steps after the slot s, around the end of the table. */
  function At(s: nat, d: nat, len: nat): (w: nat)
    requires s < len && d <= len
    ensures w < len
  {
    if s + d < len then s + d else s + d - len
  }

  function Used(t: Table): nat {
    if t == [] then 0 else (if t[0].p != 0 then 1 else 0) + Used(t[1..])
  }

  lemma {:induction false} UsedUpdate(t: Table, w: nat, x: Slot)
    requires w < |t| && t[w].p == 0 && x.p != 0
    ensures Used(t[w := x]) == Used(t) + 1
    decreases |t|
  {
    if w > 0 {
      UsedUpdate(t[1..], w - 1, x);
      assert t[w := x][1..] == t[1..][w - 1 := x];
    } else {
      assert t[w := x][1..] == t[1..];
    }
  }

  lemma {:induction false} RoomLeft(t: Table)
    requires Used(t) < |t|
    ensures exists w | 0 <= w < |t| :: t[w].p == 0
    decreases |t|
  {
    if t[0].p != 0 {
      RoomLeft(t[1..]);
      var w :| 0 <= w < |t[1..]| && t[1..][w].p == 0;
      assert t[w + 1].p == 0;
    }
  }
}
