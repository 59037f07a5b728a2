/** Lookups in the image of a list of records agree with a search of the list. */
module CdbLookup {
  import opened Bytes
  import opened CdbFormat
  import opened CdbTable
  import opened CdbFind
  import opened CdbImage

  // ----- comparing keys

  lemma SitsBlocks(image: bytes, pos: nat, key: bytes, n: nat)
    requires pos + |key| <= |image| && n <= |key|
    ensures Sits(image, pos, key) <==> image[pos..pos + n] == key[..n] && Sits(image, pos + n, key[n..])
  {
    assert key == key[..n] + key[n..];
    if Sits(image, pos, key) {
      SitsSplit(image, pos, key[..n], key[n..]);
    }
    if image[pos..pos + n] == key[..n] && Sits(image, pos + n, key[n..]) {
      forall i | 0 <= i < |key| ensures image[pos + i] == key[i] {
        if i < n {
          assert image[pos..pos + n][i] == key[..n][i];
        } else {
          assert image[pos + n + (i - n)] == key[n..][i - n];
        }
      }
    }
  }

  lemma U32Small(x: nat)
    requires x < 0x1_0000_0000
    ensures U32(x) == x
  {
  }

  lemma SitsUnique(image: bytes, at: nat, a: bytes, b: bytes)
    requires Sits(image, at, a) && |a| == |b|
    ensures Sits(image, at, b) <==> a == b
  {
    if Sits(image, at, b) {
      forall i | 0 <= i < |a| ensures a[i] == b[i] {
        assert image[at + i] == a[i];
      }
    }
  }

  /** In an image below 4 GB, comparing block by block compares the whole key. */
  lemma {:induction false} MatchIs(image: bytes, key: bytes, pos: nat)
    requires |image| < 0x1_0000_0000 && pos + |key| <= |image|
    ensures Match(image, key, pos) == if Sits(image, pos, key) then 1 else 0
    decreases |key|
  {
    if key != [] {
      hide Sits, U32;
      var n := if |key| < 32 then |key| else 32;
      MatchIs(image, key[n..], pos + n);
      SitsBlocks(image, pos, key, n);
      U32Small(pos + n);
      assert Readable(image, pos, n);
    }
  }

  /** Whether the record at p has this key. */
  ghost predicate HasKey(image: bytes, key: bytes, p: uint32) {
    Readable(image, p, 8) && Word(image, p) == |key| && Sits(image, p + 8, key)
  }

  ghost function KeyQuery(image: bytes, key: bytes): Query {
    Query(Hash(key), (p: uint32) => HasKey(image, key, p))
  }

  // ----- probing the bytes

  /** The key of the record at p is inside the image. */
  predicate Inside(image: bytes, p: nat) {
    Readable(image, p, 8) && p + 8 + Word(image, p) <= |image|
  }

  /** Table t lies at hpos and its slots lead to records. */
  ghost predicate TableHere(image: bytes, hpos: nat, t: Table) {
    && |image| < 0x1_0000_0000 && hpos + 8 * |t| <= |image|
    && forall w | 0 <= w < |t| :: SlotHere(image, hpos + 8 * w, t[w]) && (t[w].p != 0 ==> Inside(image, t[w].p))
  }

  /** A cursor d slots along the probe sequence that begins at slot s. */
  ghost predicate OnPath(c: Cursor, hpos: nat, len: nat, s: nat, d: nat, h: uint32) {
    && s < len && d <= len
    && c.loop == d && c.hslots == len && c.khash == h
    && c.hpos == hpos && c.kpos == hpos + 8 * At(s, d, len)
  }

  lemma {:induction false} AdvanceOnPath(c: Cursor, hpos: nat, len: nat, s: nat, d: nat, h: uint32)
    requires OnPath(c, hpos, len, s, d, h) && d < len && hpos + 8 * len < 0x1_0000_0000
    ensures OnPath(Advance(c), hpos, len, s, d + 1, h)
    ensures Advance(c).dpos == c.dpos && Advance(c).dlen == c.dlen
  {
    assert U32(c.kpos + 8) == c.kpos + 8 && U32(hpos + U32(len * 8)) == hpos + 8 * len;
    hide U32;
    AdvanceIs(c);
    hide Advance;
  }

  /** One call of the probe loop: it gives the next hit and stops just after it,
      or it says 0 and stays where there is nothing left. */
  ghost predicate Answers(image: bytes, key: bytes, t: Table, s: nat, d: nat, hpos: nat, r: int, c: Cursor)
    requires s < |t|
  {
    var q := KeyQuery(image, key);
    var hits := Hits(t, s, d, q);
    && d <= c.loop
    && OnPath(c, hpos, |t|, s, c.loop, Hash(key))
    && if hits == [] then r == 0 && Hits(t, s, c.loop, q) == []
       else
         && r == 1 && Hits(t, s, c.loop, q) == hits[1..] && c.loop > 0
         && Inside(image, hits[0].p)
         && c.dpos == hits[0].p + 8 + |key| && c.dlen == Word(image, hits[0].p + 4)
  }

  lemma TestIs(image: bytes, key: bytes, p: uint32)
    requires |image| < 0x1_0000_0000 && Inside(image, p)
    ensures KeyQuery(image, key).test(p) <==> Word(image, p) == |key| && Match(image, key, U32(p + 8)) == 1
    ensures Word(image, p) == |key| ==> Match(image, key, U32(p + 8)) in {0, 1}
  {
    assert U32(p + 8) == p + 8;
    hide Word, Match, Sits, U32, Hash;
    if Word(image, p) == |key| {
      MatchIs(image, key, p + 8);
    }
  }

  lemma HitsStep(t: Table, s: nat, d: nat, q: Query)
    requires s < |t| && d < |t| && t[At(s, d, |t|)].p != 0
    ensures var x := t[At(s, d, |t|)]; var more := Hits(t, s, d + 1, q);
            if Hit(q, x) then Hits(t, s, d, q) != [] && Hits(t, s, d, q)[0] == x && Hits(t, s, d, q)[1..] == more
            else Hits(t, s, d, q) == more
  {
  }

  lemma {:induction false} ProbeAnswers(image: bytes, key: bytes, t: Table, s: nat, d: nat, hpos: nat, c: Cursor)
    requires TableHere(image, hpos, t)
    requires OnPath(c, hpos, |t|, s, d, Hash(key))
    ensures var (r, e) := Probe(image, c, key); Answers(image, key, t, s, d, hpos, r, e)
    decreases |t| - d
  {
    hide Hash, Word, Match, Advance, Probe, HasKey;
    ProbeStep(image, c, key);
    if d < |t| {
      var w := At(s, d, |t|);
      assert SlotHere(image, hpos + 8 * w, t[w]);
      if t[w].p != 0 {
        hide Hits;
        AdvanceOnPath(c, hpos, |t|, s, d, Hash(key));
        ProbeAnswers(image, key, t, s, d + 1, hpos, Advance(c));
        HitsStep(t, s, d, KeyQuery(image, key));
        TestIs(image, key, t[w].p);
      }
    }
  }

  // ----- the reference: a search of the list

  /** The indices from k on of the records with this key. */
  function MatchesFrom(rs: seq<Record>, key: bytes, k: nat): (m: seq<nat>)
    ensures forall i | 0 <= i < |m| :: k <= m[i] < |rs| && rs[m[i]].key == key
    ensures forall i, j | 0 <= i < j < |m| :: m[i] < m[j]
    ensures forall i | k <= i < |rs| && rs[i].key == key :: i in m
    decreases |rs| - k
  {
    if k >= |rs| then [] else (if rs[k].key == key then [k] else []) + MatchesFrom(rs, key, k + 1)
  }

  function Matches(rs: seq<Record>, key: bytes): (m: seq<nat>)
    ensures forall i | 0 <= i < |m| :: m[i] < |rs| && rs[m[i]].key == key
    ensures forall i, j | 0 <= i < j < |m| :: m[i] < m[j]
    ensures forall i | 0 <= i < |rs| && rs[i].key == key :: i in m
  {
    MatchesFrom(rs, key, 0)
  }

  // ----- the image holds what the reference finds

  lemma {:induction false} SelectBucket(es: seq<Slot>, b: nat, q: Query)
    requires q.h % 256 == b
    ensures Select(Bucket(es, b), q) == Select(es, q)
  {
    if es != [] {
      SelectBucket(es[1..], b, q);
      if es[0].h % 256 == b {
        assert Bucket(es, b)[1..] == Bucket(es[1..], b);
      } else {
        assert Bucket(es, b) == Bucket(es[1..], b);
        assert Select(es, q) == Select(es[1..], q);
      }
    }
  }

  lemma HitIsKey(rs: seq<Record>, key: bytes, k: nat)
    requires Fits(rs) && k < |rs|
    ensures Hit(KeyQuery(Image(rs), key), Entries(rs)[k]) <==> rs[k].key == key
  {
    hide Image, Hash, Body, Word, Sits, PosOf, Entries;
    EntriesFit(rs);
    RecordAt(rs, k);
    if |rs[k].key| == |key| {
      SitsUnique(Image(rs), PosOf(rs, k) + 8, rs[k].key, key);
    }
  }

  ghost predicate SlotsAre(rs: seq<Record>, hits: seq<Slot>, m: seq<nat>) {
    && |hits| == |m|
    && forall i | 0 <= i < |m| :: m[i] < |rs| && hits[i].p == PosOf(rs, m[i])
  }

  lemma {:induction false} SelectEntries(rs: seq<Record>, key: bytes, k: nat)
    requires Fits(rs) && k <= |rs|
    ensures SlotsAre(rs, Select(Entries(rs)[k..], KeyQuery(Image(rs), key)), MatchesFrom(rs, key, k))
    decreases |rs| - k
  {
    hide Image, Hash, Body, KeyQuery, Entries, PosOf, Hit;
    if k < |rs| {
      HitIsKey(rs, key, k);
      EntriesFit(rs);
      SelectEntries(rs, key, k + 1);
      assert Entries(rs)[k..][1..] == Entries(rs)[k + 1..];
    }
  }

  lemma {:induction false} BucketWithin(es: seq<Slot>, b: nat, j: nat)
    requires j < |Bucket(es, b)|
    ensures Bucket(es, b)[j] in es
  {
    if es[0].h % 256 != b {
      BucketWithin(es[1..], b, j);
    } else if j > 0 {
      BucketWithin(es[1..], b, j - 1);
    }
  }

  lemma SlotInside(rs: seq<Record>, b: nat, w: nat)
    requires Fits(rs) && b < 256 && w < |HashTable(rs, b)|
    ensures var p := HashTable(rs, b)[w].p; p != 0 ==> Inside(Image(rs), p)
  {
    hide Image, Body, Bucket, Hash, Fill, Owner, Word;
    EntriesFit(rs);
    BucketPositions(Entries(rs), b);
    var bucket := Bucket(Entries(rs), b);
    FillOwner(bucket, 2 * |bucket|, |bucket|, w);
    var j := Owner(bucket, 2 * |bucket|, |bucket|, w);
    if j >= 0 {
      BucketWithin(Entries(rs), b, j);
      var k :| 0 <= k < |rs| && Entries(rs)[k] == bucket[j];
      EntriesFit(rs);
      RecordAt(rs, k);
    }
  }

  lemma TableIsHere(rs: seq<Record>, b: nat)
    requires Fits(rs) && b < 256
    ensures TableHere(Image(rs), TablePos(rs, b), HashTable(rs, b))
  {
    hide Image, Body, Bucket, Word, HashTable, Inside;
    ImageSize(rs);
    TableBounds(rs, b);
    var t := HashTable(rs, b);
    forall w | 0 <= w < |t|
      ensures SlotHere(Image(rs), TablePos(rs, b) + 8 * w, t[w]) && (t[w].p != 0 ==> Inside(Image(rs), t[w].p))
    {
      SlotAt(rs, b, w);
      SlotInside(rs, b, w);
    }
  }

  // ----- whole searches

  /** A cursor after j answers about the key. */
  ghost predicate Stage(rs: seq<Record>, key: bytes, c: Cursor, j: nat)
    requires Fits(rs)
  {
    var t := HashTable(rs, Hash(key) % 256);
    var m := Matches(rs, key);
    && j <= |m|
    && if c.loop == 0 then j == 0 else
         && t != []
         && OnPath(c, TablePos(rs, Hash(key) % 256), |t|, Start(Hash(key), |t|), c.loop, Hash(key))
         && SlotsAre(rs, Hits(t, Start(Hash(key), |t|), c.loop, KeyQuery(Image(rs), key)), m[j..])
  }

  /** From the first slot of its table, a key's probe sequence meets the records
      with that key. */
  lemma PathFindsAll(rs: seq<Record>, key: bytes)
    requires Fits(rs)
    ensures var t := HashTable(rs, Hash(key) % 256);
            if t == [] then Matches(rs, key) == []
            else SlotsAre(rs, Hits(t, Start(Hash(key), |t|), 0, KeyQuery(Image(rs), key)), Matches(rs, key))
  {
    hide Image, Body, Hash, Fill, Hits, Select, Bucket;
    var b, q := Hash(key) % 256, KeyQuery(Image(rs), key);
    EntriesFit(rs);
    BucketPositions(Entries(rs), b);
    SelectBucket(Entries(rs), b, q);
    SelectEntries(rs, key, 0);
    assert Entries(rs)[0..] == Entries(rs);
    var bucket := Bucket(Entries(rs), b);
    if bucket == [] {
      SelectNone(q);
    } else {
      ProbeFindsAll(bucket, 2 * |bucket|, q);
    }
  }

  lemma SelectNone(q: Query)
    ensures Select([], q) == []
  {
  }

  /** The answer to a call made after j answers: record j of the matches, and 0
      for good when there is none left. */
  ghost predicate Tells(rs: seq<Record>, key: bytes, j: nat, r: int, c: Cursor)
    requires Fits(rs)
  {
    var m := Matches(rs, key);
    if j < |m| then
      && r == 1
      && c.dpos == PosOf(rs, m[j]) + 8 + |key| && c.dlen == |rs[m[j]].data|
      && Sits(Image(rs), c.dpos, rs[m[j]].data)
    else r == 0
  }

  /** The cursor with which the probe loop starts. */
  function Entered(rs: seq<Record>, key: bytes, c: Cursor, len: nat): Cursor
    requires 0 < len < 0x1_0000_0000 && TablePos(rs, Hash(key) % 256) < 0x1_0000_0000
  {
    if c.loop != 0 then c else
    var hpos := TablePos(rs, Hash(key) % 256);
    c.(hslots := len, hpos := hpos, khash := Hash(key), kpos := U32(hpos + U32(Hash(key) / 256 % len * 8)))
  }

  lemma TableOfHash(u: uint32)
    ensures u * 8 % 2048 == 8 * (u % 256)
  {
  }

  lemma FindEnters(rs: seq<Record>, key: bytes, c: Cursor, len: nat)
    requires Fits(rs) && len == 2 * |Bucket(Entries(rs), Hash(key) % 256)|
    ensures len < 0x1_0000_0000 && TablePos(rs, Hash(key) % 256) < 0x1_0000_0000
    ensures FindNext(Image(rs), c, key) ==
      if c.loop == 0 && len == 0 then (0, c.(hslots := 0)) 
      else if len == 0 then Probe(Image(rs), c, key)
      else Probe(Image(rs), Entered(rs, key, c, len), key)
  {
    hide Image, Hash, Bucket, Body, Word, Probe, Total, Entries, U32;
    TableBounds(rs, Hash(key) % 256);
    ImageSize(rs);
    HeaderAt(rs, Hash(key) % 256);
    TableOfHash(Hash(key));
  }

  lemma EnteredOnPath(rs: seq<Record>, key: bytes, c: Cursor, len: nat)
    requires 0 < len && TablePos(rs, Hash(key) % 256) + 8 * len < 0x1_0000_0000 && c.loop == 0
    ensures OnPath(Entered(rs, key, c, len), TablePos(rs, Hash(key) % 256), len, Start(Hash(key), len), 0, Hash(key))
  {
    hide Hash, TablePos, U32;
    var u, hpos := Hash(key), TablePos(rs, Hash(key) % 256);
    U32Small(u / 256 % len * 8);
    U32Small(hpos + u / 256 % len * 8);
  }

  /** An answer of the probe loop about the remaining matches m[j..]. */
  lemma {:induction false} AnswerTells(rs: seq<Record>, key: bytes, j: nat, hits: seq<Slot>, r: int, c: Cursor)
    requires Fits(rs) && j <= |Matches(rs, key)| && SlotsAre(rs, hits, Matches(rs, key)[j..])
    requires hits == [] ==> r == 0
    requires hits != [] ==>
      && r == 1 && Inside(Image(rs), hits[0].p)
      && c.dpos == hits[0].p + 8 + |key| && c.dlen == Word(Image(rs), hits[0].p + 4)
    ensures Tells(rs, key, j, r, c)
    ensures hits != [] ==> SlotsAre(rs, hits[1..], Matches(rs, key)[j + 1..])
  {
    hide Image, Body, Word, PosOf;
    var m := Matches(rs, key);
    if hits != [] {
      assert m[j..][0] == m[j] && m[j..][1..] == m[j + 1..];
      RecordAt(rs, m[j]);
    }
  }

  lemma StageEnters(rs: seq<Record>, key: bytes, c: Cursor, j: nat, t: Table)
    requires Fits(rs) && Stage(rs, key, c, j)
    requires t == HashTable(rs, Hash(key) % 256) && t != []
    ensures |t| < 0x1_0000_0000 && TablePos(rs, Hash(key) % 256) < 0x1_0000_0000
    ensures var (s, hpos) := (Start(Hash(key), |t|), TablePos(rs, Hash(key) % 256));
            && OnPath(Entered(rs, key, c, |t|), hpos, |t|, s, c.loop, Hash(key))
            && j <= |Matches(rs, key)|
            && SlotsAre(rs, Hits(t, s, c.loop, KeyQuery(Image(rs), key)), Matches(rs, key)[j..])
  {
    hide Image, Hash, Bucket, Hits, Matches, KeyQuery, TablePos, HashTable, OnPath, SlotsAre;
    TableBounds(rs, Hash(key) % 256);
    ImageSize(rs);
    if c.loop == 0 {
      EnteredOnPath(rs, key, c, |t|);
      PathFindsAll(rs, key);
      assert Matches(rs, key)[0..] == Matches(rs, key);
    }
  }

  lemma SlotsCount(rs: seq<Record>, hits: seq<Slot>, m: seq<nat>)
    requires SlotsAre(rs, hits, m)
    ensures |hits| == |m|
  {
    hide PosOf;
  }

  lemma StageNext(rs: seq<Record>, key: bytes, c: Cursor, j: nat)
    requires Fits(rs) && Stage(rs, key, c, j)
    ensures var (r, e) := FindNext(Image(rs), c, key);
            && Tells(rs, key, j, r, e)
            && Stage(rs, key, e, if j < |Matches(rs, key)| then j + 1 else j)
  {
    hide Image, Body, Hash, Fill, Bucket, Word, Probe, HashTable, Matches, Hits, KeyQuery, FindNext, Entered, OnPath,
      TablePos, SlotsAre, Inside;
    var b := Hash(key) % 256;
    TableIsHere(rs, b);
    PathFindsAll(rs, key);
    var t := HashTable(rs, b);
    FindEnters(rs, key, c, |t|);
    if t == [] {
      assert Tells(rs, key, 0, 0, c.(hslots := 0));
    } else {
      var s, hpos, first := Start(Hash(key), |t|), TablePos(rs, b), Entered(rs, key, c, |t|);
      StageEnters(rs, key, c, j, t);
      ProbeAnswers(Image(rs), key, t, s, c.loop, hpos, first);
      var (r, e) := Probe(Image(rs), first, key);
      var hits := Hits(t, s, c.loop, KeyQuery(Image(rs), key));
      SlotsCount(rs, hits, Matches(rs, key)[j..]);
      AnswerTells(rs, key, j, hits, r, e);
    }
  }

  /** The cursor after n calls of `cdb_findnext`. */
  function Calls(image: bytes, c: Cursor, key: bytes, n: nat): Cursor {
    if n == 0 then c else FindNext(image, Calls(image, c, key, n - 1), key).1
  }

  lemma {:induction false} CallsStage(rs: seq<Record>, key: bytes, c: Cursor, n: nat)
    requires Fits(rs) && c.loop == 0
    ensures var m := |Matches(rs, key)|;
            Stage(rs, key, Calls(Image(rs), c, key, n), if n < m then n else m)
  {
    hide Image, FindNext, Matches, Stage;
    if n == 0 {
      StageFirst(rs, key, c);
    } else {
      CallsStage(rs, key, c, n - 1);
      var m := |Matches(rs, key)|;
      StageNext(rs, key, Calls(Image(rs), c, key, n - 1), if n - 1 < m then n - 1 else m);
    }
  }

  lemma StageFirst(rs: seq<Record>, key: bytes, c: Cursor)
    requires Fits(rs) && c.loop == 0
    ensures Stage(rs, key, c, 0)
  {
  }

  /** Successive calls list the records with a key once each, in the order in
      which they were added, and from then on answer 0; no call fails. */
  lemma FindsAllInOrder(rs: seq<Record>, key: bytes, c: Cursor, n: nat)
    requires Fits(rs) && c.loop == 0
    ensures var (r, e) := FindNext(Image(rs), Calls(Image(rs), c, key, n), key); Tells(rs, key, n, r, e)
  {
    hide Image, FindNext, Matches, Stage;
    CallsStage(rs, key, c, n);
    var m := |Matches(rs, key)|;
    StageNext(rs, key, Calls(Image(rs), c, key, n), if n < m then n else m);
  }

  /** `cdb_find` gives the first record added with the key, and 0 exactly when no
      record has it. */
  lemma {:induction false} FindsFirst(rs: seq<Record>, key: bytes, c: Cursor)
    requires Fits(rs)
    ensures var (r, e) := FindNext(Image(rs), c.(loop := 0), key);
            if exists k | 0 <= k < |rs| :: rs[k].key == key then
              exists k | 0 <= k < |rs| ::
                && rs[k].key == key && (forall i | 0 <= i < k :: rs[i].key != key)
                && r == 1 && e.dpos == PosOf(rs, k) + 8 + |key| && e.dlen == |rs[k].data|
                && Sits(Image(rs), e.dpos, rs[k].data)
            else r == 0
  {
    hide Image, FindNext, PosOf;
    FindsAllInOrder(rs, key, c.(loop := 0), 0);
    var m := Matches(rs, key);
    if m != [] {
      assert rs[m[0]].key == key;
      forall i | 0 <= i < m[0] ensures rs[i].key != key {
        assert rs[i].key == key ==> i in m;
      }
    }
  }

  // ----- the program on top

  /** `cdbget`: past the first skip answers, then the data in blocks. */
  method Get(db: Cdb, ghost rs: seq<Record>, key: bytes, skip: nat) returns (found: bool, data: bytes)
    requires Fits(rs) && db.image == Image(rs) && |key| < 0x1_0000_0000
    modifies db
    ensures found <==> skip < |Matches(rs, key)|
    ensures found ==> data == rs[Matches(rs, key)[skip]].data
  {
    hide Image, FindNext, Matches, Stage, PosOf;
    db.FindStart();
    StageFirst(rs, key, db.State());
    var u: nat := skip;
    found, data := false, [];
    while !found
      invariant u <= skip && skip - u <= |Matches(rs, key)|
      invariant !found ==> Stage(rs, key, db.State(), skip - u)
      invariant found ==> skip < |Matches(rs, key)| && Tells(rs, key, skip, 1, db.State())
      decreases u, !found
    {
      StageNext(rs, key, db.State(), skip - u);
      var r := db.Next(key);
      if r != 1 { return; }
      if u == 0 { found := true; } else { u := u - 1; }
    }
    ImageSize(rs);
    data := ReadData(db, rs[Matches(rs, key)[skip]].data);
  }

  /** Copies the data the cursor has found, at most 1024 bytes at a time. */
  method ReadData(db: Cdb, ghost d: bytes) returns (data: bytes)
    requires |db.image| < 0x1_0000_0000 && db.dlen == |d| && Sits(db.image, db.dpos, d)
    ensures data == d
  {
    data := [];
    var pos, len := db.dpos, db.dlen;
    while len > 0
      invariant pos == db.dpos + |data| && len == |d| - |data|
      invariant data == d[..|data|]
    {
      var r := if len < 1024 then len else 1024;
      var ok, buf := db.Read(r, pos);
      assert buf == d[|data|..|data| + r];
      data := data + buf;
      pos := U32(pos + r);
      len := len - r;
    }
  }
}
