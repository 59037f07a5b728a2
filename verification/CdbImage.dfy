/** The byte image of a list of records: header, records, hash tables
    (libs/cdb/cdb_make.c:30-153). */
module CdbImage {
  import opened Bytes
  import opened CdbFormat
  import opened CdbTable
  import opened CdbFind

  datatype Record = Record(key: bytes, data: bytes)

  const HEADER := 2048

  // ----- the layout

  function RecordBytes(r: Record): (s: bytes)
    ensures |s| == 8 + |r.key| + |r.data|
  {
    Pack(U32(|r.key|)) + Pack(U32(|r.data|)) + r.key + r.data
  }

  function Body(rs: seq<Record>): bytes {
    if rs == [] then [] else Body(rs[..|rs| - 1]) + RecordBytes(rs[|rs| - 1])
  }

  /** Where record k begins. */
  function PosOf(rs: seq<Record>, k: nat): nat
    requires k <= |rs|
  {
    HEADER + |Body(rs[..k])|
  }

  function Entries(rs: seq<Record>): (es: seq<Slot>)
    ensures |es| == |rs|
  {
    if rs == [] then [] else
    var init := rs[..|rs| - 1];
    Entries(init) + [Slot(Hash(rs[|rs| - 1].key), U32(HEADER + |Body(init)|))]
  }

  /** The entries of table b, in the order of insertion. */
  function Bucket(es: seq<Slot>, b: nat): (r: seq<Slot>)
    ensures |r| <= |es|
  {
    if es == [] then []
    else (if es[0].h % 256 == b then [es[0]] else []) + Bucket(es[1..], b)
  }

  ghost predicate Positions(es: seq<Slot>) {
    forall j | 0 <= j < |es| :: es[j].p != 0
  }

  lemma {:induction false} BucketPositions(es: seq<Slot>, b: nat)
    requires Positions(es)
    ensures Positions(Bucket(es, b))
  {
    if es != [] {
      BucketPositions(es[1..], b);
    }
  }

  /** A bucket's hash table: twice as many slots as entries. */
  ghost function TableOf(bucket: seq<Slot>): (t: Table)
    requires Positions(bucket)
    ensures |t| == 2 * |bucket|
  {
    if bucket == [] then [] else Fill(bucket, 2 * |bucket|, |bucket|)
  }

  function SlotBytes(x: Slot): (s: bytes)
    ensures |s| == 8
  {
    Pack(x.h) + Pack(x.p)
  }

  function TableBytes(t: Table): (s: bytes)
    ensures |s| == 8 * |t|
  {
    if t == [] then [] else TableBytes(t[..|t| - 1]) + SlotBytes(t[|t| - 1])
  }

  /** Number of entries in the first b tables. */
  function Total(es: seq<Slot>, b: nat): nat {
    if b == 0 then 0 else Total(es, b - 1) + |Bucket(es, b - 1)|
  }

  ghost function Tables(es: seq<Slot>, b: nat): (s: bytes)
    requires Positions(es)
    ensures |s| == 16 * Total(es, b)
  {
    if b == 0 then [] else
    BucketPositions(es, b - 1);
    Tables(es, b - 1) + TableBytes(TableOf(Bucket(es, b - 1)))
  }

  /** The header entry of table b, when the tables begin at pos. */
  function HeaderEntry(es: seq<Slot>, pos: nat, b: nat): (s: bytes)
    ensures |s| == 8
  {
    Pack(U32(pos + 16 * Total(es, b))) + Pack(U32(2 * |Bucket(es, b)|))
  }

  function Header(es: seq<Slot>, pos: nat, b: nat): (s: bytes)
    ensures |s| == 8 * b
  {
    if b == 0 then [] else Header(es, pos, b - 1) + HeaderEntry(es, pos, b - 1)
  }

  /** Every position of the file is a 32-bit number. */
  predicate Fits(rs: seq<Record>) {
    HEADER + |Body(rs)| + 16 * |rs| < 0x1_0000_0000
  }

  /** Table b of the file. */
  ghost function HashTable(rs: seq<Record>, b: nat): (t: Table)
    requires Fits(rs)
    ensures |t| == 2 * |Bucket(Entries(rs), b)|
  {
    EntriesFit(rs);
    BucketPositions(Entries(rs), b);
    TableOf(Bucket(Entries(rs), b))
  }

  ghost function Image(rs: seq<Record>): bytes
    requires Fits(rs)
  {
    EntriesFit(rs);
    var es := Entries(rs);
    Header(es, HEADER + |Body(rs)|, 256) + Body(rs) + Tables(es, 256)
  }

  // ----- sizes

  lemma BucketCons(es: seq<Slot>, b: nat)
    requires es != []
    ensures |Bucket(es, b)| == |Bucket(es[1..], b)| + if es[0].h % 256 == b then 1 else 0
  {
  }

  lemma {:induction false} TotalCons(es: seq<Slot>, b: nat)
    requires es != []
    ensures Total(es, b) == Total(es[1..], b) + if es[0].h % 256 < b then 1 else 0
    decreases b
  {
    hide Bucket;
    if b > 0 {
      BucketCons(es, b - 1);
      TotalCons(es, b - 1);
    }
  }

  lemma {:induction false} TotalNone(b: nat)
    ensures Total([], b) == 0
  {
    if b > 0 {
      TotalNone(b - 1);
    }
  }

  /** The tables share the entries out. */
  lemma {:induction false} TotalAll(es: seq<Slot>)
    ensures Total(es, 256) == |es|
  {
    if es == [] {
      TotalNone(256);
    } else {
      TotalCons(es, 256);
      TotalAll(es[1..]);
    }
  }

  lemma {:induction false} TotalMonotone(es: seq<Slot>, a: nat, b: nat)
    requires a <= b
    ensures Total(es, a) <= Total(es, b)
  {
    if a < b {
      TotalMonotone(es, a, b - 1);
    }
  }

  lemma {:induction false} BodyPrefix(rs: seq<Record>, k: nat)
    requires k <= |rs|
    ensures |Body(rs[..k])| + 8 * (|rs| - k) <= |Body(rs)|
    decreases |rs|
  {
    if k < |rs| {
      var init := rs[..|rs| - 1];
      BodyPrefix(init, k);
      assert init[..k] == rs[..k];
    } else {
      assert rs[..k] == rs;
    }
  }

  lemma {:induction false} EntryAt(rs: seq<Record>, k: nat)
    requires k < |rs|
    ensures Entries(rs)[k] == Slot(Hash(rs[k].key), U32(PosOf(rs, k)))
    decreases |rs|
  {
    var init := rs[..|rs| - 1];
    if k < |rs| - 1 {
      EntryAt(init, k);
      assert init[..k] == rs[..k];
    }
  }

  lemma {:induction false} EntriesFit(rs: seq<Record>)
    requires HEADER + |Body(rs)| < 0x1_0000_0000
    ensures Positions(Entries(rs))
    ensures forall k | 0 <= k < |rs| ::
      Entries(rs)[k].h == Hash(rs[k].key) && Entries(rs)[k].p == PosOf(rs, k)
  {
    hide Entries, Body, Hash;
    forall k | 0 <= k < |rs|
      ensures Entries(rs)[k].h == Hash(rs[k].key) && Entries(rs)[k].p == PosOf(rs, k) > 0
    {
      EntryAt(rs, k);
      BodyPrefix(rs, k);
    }
  }

  // ----- what lies where

  lemma SitsIn(a: bytes, s: bytes, b: bytes)
    ensures Sits(a + s + b, |a|, s)
  {
  }

  lemma SitsFirst(s: bytes, a: bytes, b: bytes)
    ensures Sits(s + a + b, 0, s)
  {
  }

  lemma SitsDeeper(image: bytes, at: nat, s: bytes, k: nat, x: bytes)
    requires Sits(image, at, s) && Sits(s, k, x)
    ensures Sits(image, at + k, x)
  {
    forall i | 0 <= i < |x| ensures image[at + k + i] == x[i] {
      assert image[at + (k + i)] == s[k + i];
    }
  }

  lemma SitsSplit(image: bytes, at: nat, s: bytes, x: bytes)
    requires Sits(image, at, s + x)
    ensures Sits(image, at, s) && Sits(image, at + |s|, x)
  {
    assert Sits(s + x, 0, s) && Sits(s + x, |s|, x);
    SitsDeeper(image, at, s + x, 0, s);
    SitsDeeper(image, at, s + x, |s|, x);
  }

  lemma SitsWord(image: bytes, at: nat, u: uint32)
    requires Sits(image, at, Pack(u))
    ensures Readable(image, at, 4) && Word(image, at) == u
  {
    hide Pack, Unpack;
    assert image[at..at + 4] == Pack(u) + [];
    UnpackPack(u, []);
  }

  lemma SitsWords(image: bytes, at: nat, u: uint32, v: uint32)
    requires Sits(image, at, Pack(u) + Pack(v))
    ensures Readable(image, at, 8) && Word(image, at) == u && Word(image, at + 4) == v
  {
    hide Pack, Unpack;
    SitsSplit(image, at, Pack(u), Pack(v));
    SitsWord(image, at, u);
    SitsWord(image, at + 4, v);
  }

  predicate SlotHere(image: bytes, at: nat, x: Slot) {
    Readable(image, at, 8) && Word(image, at) == x.h && Word(image, at + 4) == x.p
  }

  lemma {:induction false} RecordInBody(rs: seq<Record>, k: nat)
    requires k < |rs|
    ensures Sits(Body(rs), |Body(rs[..k])|, RecordBytes(rs[k]))
    decreases |rs|
  {
    hide RecordBytes;
    var init := rs[..|rs| - 1];
    if k < |rs| - 1 {
      RecordInBody(init, k);
      assert init[..k] == rs[..k];
    }
  }

  lemma {:induction false} SlotInTable(t: Table, w: nat)
    requires w < |t|
    ensures Sits(TableBytes(t), 8 * w, SlotBytes(t[w]))
    decreases |t|
  {
    hide SlotBytes;
    if w < |t| - 1 {
      SlotInTable(t[..|t| - 1], w);
    }
  }

  lemma {:induction false} EntryInHeader(es: seq<Slot>, pos: nat, b: nat, n: nat)
    requires b < n
    ensures Sits(Header(es, pos, n), 8 * b, HeaderEntry(es, pos, b))
    decreases n
  {
    hide HeaderEntry;
    if b < n - 1 {
      EntryInHeader(es, pos, b, n - 1);
    }
  }

  lemma {:induction false} TableInTables(es: seq<Slot>, b: nat, n: nat)
    requires Positions(es) && b < n
    ensures Positions(Bucket(es, b))
    ensures Sits(Tables(es, n), 16 * Total(es, b), TableBytes(TableOf(Bucket(es, b))))
    decreases n
  {
    hide TableBytes, TableOf, Bucket;
    BucketPositions(es, b);
    if b < n - 1 {
      TableInTables(es, b, n - 1);
    }
  }

  /** The start of table b. */
  function TablePos(rs: seq<Record>, b: nat): nat {
    HEADER + |Body(rs)| + 16 * Total(Entries(rs), b)
  }

  lemma ImageSize(rs: seq<Record>)
    requires Fits(rs)
    ensures |Image(rs)| == HEADER + |Body(rs)| + 16 * |rs| < 0x1_0000_0000
  {
    hide Body;
    EntriesFit(rs);
    TotalAll(Entries(rs));
  }

  lemma TableBounds(rs: seq<Record>, b: nat)
    requires Fits(rs) && b < 256
    ensures TablePos(rs, b) + 16 * |Bucket(Entries(rs), b)| <= |Image(rs)|
  {
    hide Body, Entries, Bucket;
    TotalMonotone(Entries(rs), b + 1, 256);
    ImageSize(rs);
    EntriesFit(rs);
  }

  lemma HeaderSits(rs: seq<Record>, b: nat)
    requires Fits(rs) && b < 256
    ensures Sits(Image(rs), 8 * b, HeaderEntry(Entries(rs), HEADER + |Body(rs)|, b))
  {
    hide Body, Entries, Bucket, Total, Tables, Header, Pack, Word, HeaderEntry, Sits;
    EntriesFit(rs);
    var es, pos := Entries(rs), HEADER + |Body(rs)|;
    EntryInHeader(es, pos, b, 256);
    SitsFirst(Header(es, pos, 256), Body(rs), Tables(es, 256));
    SitsDeeper(Image(rs), 0, Header(es, pos, 256), 8 * b, HeaderEntry(es, pos, b));
  }

  lemma HeaderAt(rs: seq<Record>, b: nat)
    requires Fits(rs) && b < 256
    ensures Readable(Image(rs), 8 * b, 8)
    ensures Word(Image(rs), 8 * b) == TablePos(rs, b)
    ensures Word(Image(rs), 8 * b + 4) == 2 * |Bucket(Entries(rs), b)|
  {
    hide Body, Entries, Bucket, Total, Tables, Header, Pack, Word, Image, Sits;
    HeaderSits(rs, b);
    TableBounds(rs, b);
    ImageSize(rs);
    SitsWords(Image(rs), 8 * b, TablePos(rs, b), 2 * |Bucket(Entries(rs), b)|);
  }

  lemma {:induction false} SlotAt(rs: seq<Record>, b: nat, w: nat)
    requires Fits(rs) && b < 256 && w < |HashTable(rs, b)|
    ensures SlotHere(Image(rs), TablePos(rs, b) + 8 * w, HashTable(rs, b)[w])
  {
    hide Body, Entries, Bucket, Total, Tables, Header, Pack, Word, TableOf, TableBytes;
    EntriesFit(rs);
    var es, pos, t := Entries(rs), HEADER + |Body(rs)|, HashTable(rs, b);
    TableInTables(es, b, 256);
    SlotInTable(t, w);
    SitsDeeper(Tables(es, 256), 16 * Total(es, b), TableBytes(t), 8 * w, SlotBytes(t[w]));
    SitsIn(Header(es, pos, 256) + Body(rs), Tables(es, 256), []);
    assert Header(es, pos, 256) + Body(rs) + Tables(es, 256) + [] == Image(rs);
    SitsDeeper(Image(rs), pos, Tables(es, 256), 16 * Total(es, b) + 8 * w, SlotBytes(t[w]));
    SitsWords(Image(rs), TablePos(rs, b) + 8 * w, t[w].h, t[w].p);
  }

  lemma RecordSits(rs: seq<Record>, k: nat)
    requires Fits(rs) && k < |rs|
    ensures Sits(Image(rs), PosOf(rs, k), RecordBytes(rs[k]))
  {
    hide Body, Entries, Tables, Header, RecordBytes;
    EntriesFit(rs);
    var es, pos := Entries(rs), HEADER + |Body(rs)|;
    RecordInBody(rs, k);
    SitsIn(Header(es, pos, 256), Body(rs), Tables(es, 256));
    SitsDeeper(Image(rs), HEADER, Body(rs), |Body(rs[..k])|, RecordBytes(rs[k]));
  }

  /** A record at a position of the image. */
  ghost predicate RecordHere(image: bytes, at: nat, r: Record) {
    && Readable(image, at, 8)
    && Word(image, at) == |r.key| && Word(image, at + 4) == |r.data|
    && Sits(image, at + 8, r.key) && Sits(image, at + 8 + |r.key|, r.data)
  }

  lemma RecordParts(image: bytes, at: nat, r: Record)
    requires Sits(image, at, RecordBytes(r)) && |r.key| < 0x1_0000_0000 && |r.data| < 0x1_0000_0000
    ensures RecordHere(image, at, r)
  {
    hide Word, Pack, Sits;
    var head := Pack(U32(|r.key|)) + Pack(U32(|r.data|));
    SitsSplit(image, at, head + r.key, r.data);
    SitsSplit(image, at, head, r.key);
    SitsWords(image, at, |r.key|, |r.data|);
  }

  lemma RecordAt(rs: seq<Record>, k: nat)
    requires Fits(rs) && k < |rs|
    ensures RecordHere(Image(rs), PosOf(rs, k), rs[k])
  {
    RecordSits(rs, k);
    ImageSize(rs);
    RecordParts(Image(rs), PosOf(rs, k), rs[k]);
  }
}
