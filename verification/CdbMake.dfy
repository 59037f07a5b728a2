/** Building the byte image (libs/cdb/cdb_make.c:10-153). */
module CdbMake {
  import opened Bytes
  import opened CdbFormat
  import opened CdbTable
  import opened CdbImage

  /** The list of entry blocks, newest block first. */
  datatype Blocks = Nil | Block(hp: seq<Slot>, next: Blocks)

  const CDB_HPLIST := 1000

  function Flatten(x: Blocks): seq<Slot> {
    match x
    case Nil => []
    case Block(hp, next) => Flatten(next) + hp
  }

  /** Every block but the newest is full. */
  predicate Full(x: Blocks) {
    x.Nil? || (|x.hp| == CDB_HPLIST && Full(x.next))
  }

  predicate WellFormed(x: Blocks) {
    x.Nil? || (0 < |x.hp| <= CDB_HPLIST && Full(x.next))
  }

  /** The list from x on holds the first entries. */
  ghost predicate Holds(x: Blocks, es: seq<Slot>) {
    |Flatten(x)| <= |es| && Flatten(x) == es[..|Flatten(x)|]
  }

  lemma NextBlock(x: Blocks, es: seq<Slot>)
    requires x.Block? && Holds(x, es)
    ensures Holds(x.next, es) && |Flatten(x)| == |Flatten(x.next)| + |x.hp|
    ensures forall i | 0 <= i < |x.hp| :: es[|Flatten(x.next)| + i] == x.hp[i]
  {
    var n := |Flatten(x.next)|;
    assert Flatten(x)[..n] == es[..n];
    forall i | 0 <= i < |x.hp| ensures es[n + i] == x.hp[i] {
      assert Flatten(x)[n + i] == es[n + i];
    }
  }

  // ----- the counting sort

  lemma BucketAt(es: seq<Slot>, k: nat, b: nat)
    requires k < |es|
    ensures Bucket(es[k..], b) ==
      if es[k].h % 256 == b then [es[k]] + Bucket(es[k + 1..], b) else Bucket(es[k + 1..], b)
  {
    assert es[k..][1..] == es[k + 1..];
  }

  lemma {:induction false} BucketSuffix(es: seq<Slot>, k: nat, b: nat)
    requires k <= |es|
    ensures |Bucket(es[k..], b)| <= |Bucket(es, b)|
    decreases k
  {
    hide Bucket;
    if k == 0 {
      assert es[0..] == es;
    } else {
      BucketAt(es, k - 1, b);
      BucketSuffix(es, k - 1, b);
    }
  }

  lemma EmptyBuckets()
    ensures forall b | 0 <= b < 256 :: Bucket([], b) == []
  {
  }

  /** count[b] is the size of bucket b of the entries from k on. */
  ghost predicate Counted(count: seq<nat>, es: seq<Slot>, k: nat)
    requires k <= |es|
  {
    |count| == 256 && forall b | 0 <= b < 256 :: count[b] == |Bucket(es[k..], b)|
  }

  lemma CountedNone(count: seq<nat>, es: seq<Slot>)
    requires |count| == 256 && forall b | 0 <= b < 256 :: count[b] == 0
    ensures Counted(count, es, |es|)
  {
    EmptyBuckets();
    assert es[|es|..] == [];
  }

  lemma CountStep(count: seq<nat>, es: seq<Slot>, k: nat)
    requires k < |es| && Counted(count, es, k + 1)
    ensures var b := es[k].h % 256; Counted(count[b := count[b] + 1], es, k)
  {
    hide Bucket;
    forall c | 0 <= c < 256 ensures |Bucket(es[k..], c)| == |Bucket(es[k + 1..], c)| + if es[k].h % 256 == c then 1 else 0 {
      BucketAt(es, k, c);
    }
  }

  method CountEntries(head: Blocks, ghost es: seq<Slot>) returns (count: array<nat>)
    requires es == Flatten(head)
    ensures fresh(count) && Counted(count[..], es, 0)
  {
    hide Bucket, Counted, Flatten;
    count := new nat[256](_ => 0);
    CountedNone(count[..], es);
    var x := head;
    assert Holds(x, es);
    while x.Block?
      invariant Holds(x, es)
      invariant fresh(count) && count.Length == 256 && Counted(count[..], es, |Flatten(x)|)
      decreases x
    {
      NextBlock(x, es);
      ghost var n := |Flatten(x.next)|;
      var i := |x.hp|;
      while i > 0
        invariant 0 <= i <= |x.hp| && n + i <= |es|
        invariant fresh(count) && count.Length == 256 && Counted(count[..], es, n + i)
      {
        i := i - 1;
        var b := x.hp[i].h % 256;
        CountStep(count[..], es, n + i);
        ghost var was := count[..];
        count[b] := count[b] + 1;
        assert count[..] == was[b := was[b] + 1];
      }
      x := x.next;
    }
    NoBlocks();
  }

  lemma NoBlocks()
    ensures Flatten(Nil) == []
  {
  }

  /** Once the entries from k on are placed: bucket b of them occupies the end of
      its range in split, from start[b] on. */
  ghost predicate Placed(split: seq<Slot>, start: seq<nat>, es: seq<Slot>, k: nat)
    requires k <= |es|
  {
    && |split| == |es| && |start| == 256
    && forall b | 0 <= b < 256 ::
      && start[b] + |Bucket(es[k..], b)| == Total(es, b + 1)
      && SlotsAt(split, start[b], Bucket(es[k..], b))
  }

  ghost predicate SlotsAt(split: seq<Slot>, at: nat, part: seq<Slot>) {
    && at + |part| <= |split|
    && forall j | 0 <= j < |part| :: split[at + j] == part[j]
  }

  lemma PlacedIs(split: seq<Slot>, start: seq<nat>, es: seq<Slot>, k: nat, b: nat)
    requires k <= |es| && Placed(split, start, es, k) && b < 256
    ensures |start| == 256 && start[b] + |Bucket(es[k..], b)| == Total(es, b + 1)
    ensures SlotsAt(split, start[b], Bucket(es[k..], b))
    ensures Total(es, b) <= start[b] && start[b] + |Bucket(es[k..], b)| <= |split|
  {
    hide Bucket;
    BucketSuffix(es, k, b);
  }

  lemma PlaceOther(split: seq<Slot>, start: seq<nat>, es: seq<Slot>, k: nat, b: nat, c: nat, x: Slot)
    requires k <= |es| && Placed(split, start, es, k) && b < 256 && c < 256 && b != c
    requires Total(es, b) < start[b] <= |split|
    ensures SlotsAt(split[start[b] - 1 := x], start[c], Bucket(es[k..], c))
  {
    hide Bucket, Total, Placed;
    PlacedIs(split, start, es, k, b);
    PlacedIs(split, start, es, k, c);
    if b < c { TotalMonotone(es, b + 1, c); } else { TotalMonotone(es, c + 1, b); }
  }

  lemma PlaceOwn(split: seq<Slot>, at: nat, part: seq<Slot>, e: Slot)
    requires SlotsAt(split, at, part) && 0 < at <= |split|
    ensures SlotsAt(split[at - 1 := e], at - 1, [e] + part)
  {
  }

  lemma PlaceStep(split: seq<Slot>, start: seq<nat>, es: seq<Slot>, k: nat)
    requires k < |es| && Placed(split, start, es, k + 1)
    ensures |start| == 256 && 0 < start[es[k].h % 256] <= |split|
    ensures var b := es[k].h % 256; var w := start[b] - 1; Placed(split[w := es[k]], start[b := w], es, k)
  {
    hide Bucket, Total, SlotsAt;
    var e, b := es[k], es[k].h % 256;
    PlaceRoom(split, start, es, k);
    var split', start' := split[start[b] - 1 := e], start[b := start[b] - 1];
    forall c | 0 <= c < 256
      ensures start'[c] + |Bucket(es[k..], c)| == Total(es, c + 1) && SlotsAt(split', start'[c], Bucket(es[k..], c))
    {
      BucketAt(es, k, c);
      if c == b {
        PlaceOwn(split, start[b], Bucket(es[k + 1..], b), e);
      } else {
        PlaceOther(split, start, es, k + 1, b, c, e);
      }
    }
  }

  /** The bucket of entry k has room before the start of its placed part. */
  lemma PlaceRoom(split: seq<Slot>, start: seq<nat>, es: seq<Slot>, k: nat)
    requires k < |es| && Placed(split, start, es, k + 1)
    ensures var b := es[k].h % 256; Total(es, b) < start[b] <= |split|
  {
    hide Bucket, Placed;
    var b := es[k].h % 256;
    PlacedIs(split, start, es, k + 1, b);
    BucketAt(es, k, b);
    BucketSuffix(es, k, b);
  }

  /** The end of every bucket's range. */
  method Ends(count: array<nat>, ghost es: seq<Slot>) returns (start: array<nat>)
    requires Counted(count[..], es, 0)
    ensures fresh(start) && start.Length == 256
    ensures forall b | 0 <= b < 256 :: start[b] == Total(es, b + 1)
  {
    hide Bucket;
    start := new nat[256](_ => 0);
    var u := 0;
    for i := 0 to 256
      invariant fresh(start) && u == Total(es, i)
      invariant forall b | 0 <= b < i :: start[b] == Total(es, b + 1)
    {
      CountedIs(count[..], es, i);
      u := u + count[i];
      start[i] := u;
    }
  }

  lemma PlacedNone(split: seq<Slot>, start: seq<nat>, es: seq<Slot>)
    requires |split| == |es| && |start| == 256 && forall b | 0 <= b < 256 :: start[b] == Total(es, b + 1)
    ensures Placed(split, start, es, |es|)
  {
    hide Bucket;
    EmptyBuckets();
    assert es[|es|..] == [];
    forall b | 0 <= b < 256 ensures start[b] <= |es| {
      TotalMonotone(es, b + 1, 256);
      TotalAll(es);
    }
  }

  /** Sorts the entries by table, keeping their order: bucket b of split is the
      entries of table b. */
  method SplitEntries(head: Blocks, start: array<nat>, ghost es: seq<Slot>) returns (split: array<Slot>)
    requires es == Flatten(head) && start.Length == 256
    requires forall b | 0 <= b < 256 :: start[b] == Total(es, b + 1)
    modifies start
    ensures fresh(split) && Placed(split[..], start[..], es, 0)
  {
    hide Bucket, Total, Placed, Flatten;
    split := new Slot[Size(head)](_ => EMPTY);
    PlacedNone(split[..], start[..], es);
    var x := head;
    assert Holds(x, es);
    while x.Block?
      invariant Holds(x, es)
      invariant fresh(split) && Placed(split[..], start[..], es, |Flatten(x)|)
      decreases x
    {
      NextBlock(x, es);
      ghost var n := |Flatten(x.next)|;
      var i := |x.hp|;
      while i > 0
        invariant 0 <= i <= |x.hp| && n + i <= |es|
        invariant fresh(split) && Placed(split[..], start[..], es, n + i)
      {
        i := i - 1;
        var b := x.hp[i].h % 256;
        PlaceStep(split[..], start[..], es, n + i);
        ghost var was, from := split[..], start[..];
        var w := start[b] - 1;
        start[b] := w;
        split[w] := x.hp[i];
        assert split[..] == was[w := x.hp[i]] && start[..] == from[b := w];
      }
      x := x.next;
    }
    NoBlocks();
  }

  function Size(x: Blocks): (n: nat)
    ensures n == |Flatten(x)|
  {
    if x.Nil? then 0 else Size(x.next) + |x.hp|
  }

  // ----- one hash table

  /** The first slot from w on that is empty. */
  method FreeSlot(hash: array<Slot>, s: nat, len: nat) returns (w: nat)
    requires s < len <= hash.Length && Used(hash[..len]) < len
    ensures w < len && hash[w].p == 0
    ensures exists e | 0 <= e < len :: hash[..len][At(s, e, len)].p == 0
    ensures w == At(s, FreeFrom(hash[..len], s, 0), len)
  {
    ghost var t := hash[..len];
    RoomFrom(t, s);
    ghost var r, d := FreeFrom(t, s, 0), 0;
    w := s;
    while hash[w].p != 0
      invariant 0 <= d <= r && w == At(s, d, len) && w < len
      decreases r - d
    {
      assert t[At(s, d, len)].p != 0;
      w := w + 1;
      if w == len { w := 0; }
      d := d + 1;
    }
    assert t[At(s, d, len)].p == 0;
  }

  /** The hash table of one bucket. */
  method FillTable(hash: array<Slot>, split: array<Slot>, from: nat, count: nat, ghost bucket: seq<Slot>)
    requires hash != split && from + count <= split.Length && 2 * count <= hash.Length
    requires count == |bucket| && SlotsAt(split[..], from, bucket) && Positions(bucket)
    modifies hash
    ensures hash[..2 * count] == TableOf(bucket)
  {
    hide Fill, Used, SlotsAt, FreeFrom;
    var len := 2 * count;
    for u := 0 to len
      invariant forall j | 0 <= j < u :: hash[j] == EMPTY
    {
      hash[u] := EMPTY;
    }
    if count == 0 { return; }
    assert hash[..len] == Blank(len);
    FillNone(bucket, len);
    for u := 0 to count
      invariant hash[..len] == Fill(bucket, len, u)
    {
      SlotsAtIs(split[..], from, bucket, u);
      var e := split[from + u];
      var w := FreeSlot(hash, Start(e.h, len), len);
      FillNext(bucket, len, u, w);
      hash[w] := e;
    }
  }

  lemma SlotsAtIs(split: seq<Slot>, at: nat, part: seq<Slot>, j: nat)
    requires SlotsAt(split, at, part) && j < |part|
    ensures at + j < |split| && split[at + j] == part[j]
  {
  }

  lemma FillNone(bucket: seq<Slot>, len: nat)
    requires Storable(bucket, len)
    ensures Fill(bucket, len, 0) == Blank(len)
  {
  }

  lemma FillNext(bucket: seq<Slot>, len: nat, u: nat, w: nat)
    requires Storable(bucket, len) && u < |bucket|
    requires var t := Fill(bucket, len, u); var s := Start(bucket[u].h, len);
      && (exists e | 0 <= e < len :: t[At(s, e, len)].p == 0)
      && w == At(s, FreeFrom(t, s, 0), len)
    ensures w < len && Fill(bucket, len, u + 1) == Fill(bucket, len, u)[w := bucket[u]]
  {
  }

  // ----- the builder

  /** `uint32_pack` into a buffer. */
  method PackInto(s: array<byte>, at: nat, u: uint32)
    requires at + 4 <= s.Length
    modifies s
    ensures s[..] == old(s[..at]) + Pack(u) + old(s[at + 4..])
  {
    var v := u;
    s[at] := v % 256;
    v := v / 256;
    s[at + 1] := v % 256;
    v := v / 256;
    s[at + 2] := v % 256;
    s[at + 3] := v / 256;
  }

  /** Entry i of the header. */
  method PackEntry(final: array<byte>, i: nat, pos: uint32, len: uint32)
    requires 8 * i + 8 <= final.Length
    modifies final
    ensures final[..8 * i + 8] == old(final[..8 * i]) + (Pack(pos) + Pack(len))
  {
    hide Pack;
    ghost var was := final[..];
    PackInto(final, 8 * i, pos);
    ghost var mid := final[..];
    PackInto(final, 8 * i + 4, len);
    assert mid[..8 * i + 4] == was[..8 * i] + Pack(pos);
    assert final[..8 * i + 8] == mid[..8 * i + 4] + Pack(len);
  }

  /** Slots to allocate for the largest table. */
  method Largest(count: array<nat>, ghost es: seq<Slot>) returns (m: nat)
    requires Counted(count[..], es, 0)
    ensures forall b | 0 <= b < 256 :: 2 * |Bucket(es, b)| <= m
    ensures m <= 1 || m <= 2 * |es|
  {
    m := 1;
    for i := 0 to 256
      invariant forall b | 0 <= b < i :: 2 * |Bucket(es, b)| <= m
      invariant m <= 1 || m <= 2 * |es|
    {
      CountedIs(count[..], es, i);
      var u := count[i] * 2;
      if u > m { m := u; }
    }
  }

  lemma TableBytesNext(t: Table, u: nat)
    requires u < |t|
    ensures TableBytes(t[..u + 1]) == TableBytes(t[..u]) + SlotBytes(t[u])
  {
    assert t[..u + 1][..u] == t[..u];
  }

  lemma BlocksAdd(x: Blocks, e: Slot)
    requires WellFormed(x)
    ensures WellFormed(Pushed(x, e)) && Flatten(Pushed(x, e)) == Flatten(x) + [e]
  {
    if x.Block? && |x.hp| < CDB_HPLIST {
      assert Flatten(x.next) + (x.hp + [e]) == Flatten(x.next) + x.hp + [e];
    }
  }

  /** An entry goes into the newest block, or a new one when that is full. */
  function Pushed(x: Blocks, e: Slot): Blocks {
    if x.Nil? || |x.hp| >= CDB_HPLIST then Block([e], x) else Block(x.hp + [e], x.next)
  }

  lemma AddRecord(rs: seq<Record>, r: Record)
    requires |r.key| < 0x1_0000_0000 && |r.data| < 0x1_0000_0000
    ensures Body(rs + [r]) == Body(rs) + (Pack(|r.key|) + Pack(|r.data|) + r.key + r.data)
    ensures |Body(rs + [r])| == |Body(rs)| + 8 + |r.key| + |r.data|
    ensures Entries(rs + [r]) == Entries(rs) + [Slot(Hash(r.key), U32(HEADER + |Body(rs)|))]
  {
    hide Pack, Hash;
    assert (rs + [r])[..|rs + [r]| - 1] == rs;
    assert RecordBytes(r) == Pack(|r.key|) + Pack(|r.data|) + r.key + r.data;
  }

  /** How far a record that does not fit moves the position. */
  function Reached(pos: uint32, keylen: uint32): uint32 {
    if pos + 8 >= 0x1_0000_0000 then pos
    else if pos + 8 + keylen >= 0x1_0000_0000 then pos + 8
    else pos + 8 + keylen
  }

  class Builder {
    var head: Blocks
    var numentries: nat
    var pos: uint32
    /** What has been written after the header. */
    var out: bytes
    ghost var records: seq<Record>

    ghost predicate Valid()
      reads this
    {
      && WellFormed(head) && Flatten(head) == Entries(records)
      && numentries == |records|
      && out == Body(records) && pos == HEADER + |Body(records)|
    }

    constructor ()
      ensures Valid() && records == []
    {
      head, numentries, pos, out, records := Nil, 0, 2048, [], [];
    }

    /** Moves on by len bytes, unless that leaves the 32-bit positions. */
    method PosPlus(len: uint32) returns (ok: bool)
      modifies this`pos
      ensures ok <==> old(pos) + len < 0x1_0000_0000
      ensures pos == if ok then old(pos) + len else old(pos)
    {
      var newpos := U32(pos + len);
      if newpos < len { return false; }
      pos := newpos;
      ok := true;
    }

    /** Adds a record; fails exactly when its end is not a 32-bit position. The record is
        written and listed even so, and the position is the last of its parts that fits. */
    method Add(key: bytes, data: bytes) returns (ok: bool)
      requires Valid() && |key| < 0x1_0000_0000 && |data| < 0x1_0000_0000
      modifies this
      ensures records == old(records) + [Record(key, data)]
      ensures ok <==> HEADER + |Body(records)| < 0x1_0000_0000
      ensures ok ==> Valid()
      ensures WellFormed(head) && Flatten(head) == Entries(records) && numentries == |records| && out == Body(records)
      ensures !ok ==> pos == Reached(old(pos), |key|)
    {
      hide Body, Entries, WellFormed, Flatten, Pushed, Pack, Hash, HashFrom;
      AddRecord(records, Record(key, data));
      records := records + [Record(key, data)];
      out := out + (Pack(|key|) + Pack(|data|) + key + data);
      var h := ComputeHash(key);
      BlocksAdd(head, Slot(h, pos));
      head := Pushed(head, Slot(h, pos));
      numentries := numentries + 1;
      assert WellFormed(head) && Flatten(head) == Entries(records) && out == Body(records);
      ok := PosPlus(8);
      if !ok { return; }
      ok := PosPlus(|key|);
      if !ok { return; }
      ok := PosPlus(|data|);
    }
  
    /** Writes a table; fails exactly when its end is not a 32-bit position. */
    method WriteTable(hash: array<Slot>, len: nat) returns (ok: bool)
      requires len <= hash.Length
      modifies this`pos, this`out
      ensures ok <==> old(pos) + 8 * len < 0x1_0000_0000
      ensures ok ==> pos == old(pos) + 8 * len && out == old(out) + TableBytes(hash[..len])
    {
      hide SlotBytes, TableBytes;
      ghost var t := hash[..len];
      TableBytesNone(t);
      for u := 0 to len
        invariant pos == old(pos) + 8 * u && out == old(out) + TableBytes(t[..u])
      {
        TableBytesNext(t, u);
        out := out + SlotBytes(hash[u]);
        ok := PosPlus(8);
        if !ok { return; }
      }
      assert t[..len] == t;
      ok := true;
    }

    /** Writes the tables of the sorted entries and fills the header. */
    method WriteTables(count: array<nat>, start: array<nat>, split: array<Slot>, hash: array<Slot>,
        final: array<byte>, ghost es: seq<Slot>) returns (ok: bool)
      requires Positions(es) && Counted(count[..], es, 0) && Placed(split[..], start[..], es, 0)
      requires hash != split && forall b | 0 <= b < 256 :: 2 * |Bucket(es, b)| <= hash.Length
      requires final.Length == 2048
      modifies this`pos, this`out, hash, final
      ensures ok <==> old(pos) + 16 * |es| < 0x1_0000_0000
      ensures ok ==> final[..] == Header(es, old(pos), 256) && out == old(out) + Tables(es, 256)
    {
      hide Bucket, Placed, Header, Tables, TableBytes, TableOf, Pack, Counted, Total, SlotsAt;
      ghost var base := pos;
      NoTables(es, base);
      TotalAll(es);
      for i := 0 to 256
        invariant pos == base + 16 * Total(es, i)
        invariant final[..8 * i] == Header(es, base, i)
        invariant out == old(out) + Tables(es, i)
      {
        TotalMonotone(es, i + 1, 256);
        TableNext(es, base, i);
        CountedIs(count[..], es, i);
        PlacedIs(split[..], start[..], es, 0, i);
        assert es[0..] == es;
        ghost var was := out;
        PackEntry(final, i, pos, U32(2 * count[i]));
        FillTable(hash, split, start[i], count[i], Bucket(es, i));
        ok := WriteTable(hash, 2 * count[i]);
        if !ok { return; }
        assert final[..8 * i + 8] == Header(es, base, i + 1);
        assert out == was + TableBytes(TableOf(Bucket(es, i)));
      }
      assert final[..8 * 256] == final[..];
      ok := true;
    }

    /** Writes the tables, then the header; the result is the image of the records
        added, and it fails exactly when that image is too large. */
    method Finish() returns (ok: bool, image: bytes)
      requires Valid()
      modifies this
      ensures records == old(records)
      ensures ok <==> Fits(records)
      ensures ok ==> image == Image(records)
    {
      hide Body, Entries, Flatten, WellFormed, Bucket, Placed, Header, Tables, Counted, Total;
      ghost var es := Entries(records);
      EntriesFit(records);
      BodyPrefix(records, 0);
      var count := CountEntries(head, es);
      var slots := Largest(count, es);
      if slots + numentries > 0xffff_ffff / 8 { return false, []; }
      var start := Ends(count, es);
      var split := SplitEntries(head, start, es);
      var hash := new Slot[slots](_ => EMPTY);
      var final := new byte[2048](_ => 0);
      ok := WriteTables(count, start, split, hash, final, es);
      if ok { image := final[..] + out; } else { image := []; }
    }
  }

  lemma TableBytesNone(t: Table)
    ensures TableBytes(t[..0]) == []
  {
  }

  lemma NoTables(es: seq<Slot>, base: nat)
    requires Positions(es)
    ensures Tables(es, 0) == [] && Header(es, base, 0) == [] && Total(es, 0) == 0
  {
  }

  lemma TableNext(es: seq<Slot>, base: nat, i: nat)
    requires Positions(es)
    ensures Positions(Bucket(es, i))
    ensures Tables(es, i + 1) == Tables(es, i) + TableBytes(TableOf(Bucket(es, i)))
    ensures Header(es, base, i + 1) == Header(es, base, i) + HeaderEntry(es, base, i)
    ensures Total(es, i + 1) == Total(es, i) + |Bucket(es, i)|
  {
    hide Bucket, TableOf, TableBytes, HeaderEntry;
    BucketPositions(es, i);
  }

  lemma CountedIs(count: seq<nat>, es: seq<Slot>, i: nat)
    requires Counted(count, es, 0) && i < 256
    ensures |count| == 256 && count[i] == |Bucket(es, i)|
  {
    assert es[0..] == es;
  }
}
