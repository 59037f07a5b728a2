/** Open addressing in tables twice as long as their content: what the builder
    stores (libs/cdb/cdb_make.c:123-140) is what a probe sequence meets
    (libs/cdb/cdb.c:106-127). */
module CdbTable {
  import opened Bytes
  import opened CdbFormat

  /** The first empty slot met from s, at distance d or more. */
  function FreeFrom(t: Table, s: nat, d: nat): (r: nat)
    requires s < |t| && d < |t|
    requires exists e | d <= e < |t| :: t[At(s, e, |t|)].p == 0
    ensures d <= r < |t| && t[At(s, r, |t|)].p == 0
    ensures forall e | d <= e < r :: t[At(s, e, |t|)].p != 0
    decreases |t| - d
  {
    if t[At(s, d, |t|)].p == 0 then d else FreeFrom(t, s, d + 1)
  }

  lemma RoomFrom(t: Table, s: nat)
    requires s < |t| && Used(t) < |t|
    ensures exists e | 0 <= e < |t| :: t[At(s, e, |t|)].p == 0
  {
    RoomLeft(t);
    var w :| 0 <= w < |t| && t[w].p == 0;
    var e := if w >= s then w - s else w - s + |t|;
    assert At(s, e, |t|) == w;
  }

  function Blank(len: nat): Table {
    seq(len, _ => EMPTY)
  }

  lemma {:induction false} BlankUsed(len: nat)
    ensures Used(Blank(len)) == 0
  {
    if len > 0 {
      BlankUsed(len - 1);
      assert Blank(len)[1..] == Blank(len - 1);
    }
  }

  ghost predicate Storable(bucket: seq<Slot>, len: nat) {
    |bucket| < len && forall j | 0 <= j < |bucket| :: bucket[j].p != 0
  }

  /** The table after its first k insertions. */
  function Fill(bucket: seq<Slot>, len: nat, k: nat): (t: Table)
    requires Storable(bucket, len) && k <= |bucket|
    ensures |t| == len && Used(t) == k
    decreases k
  {
    if k == 0 then BlankUsed(len); Blank(len)
    else
      var t := Fill(bucket, len, k - 1);
      var s := Start(bucket[k - 1].h, len);
      RoomFrom(t, s);
      var w := At(s, FreeFrom(t, s, 0), len);
      UsedUpdate(t, w, bucket[k - 1]);
      t[w := bucket[k - 1]]
  }

  /** How far from its first slot entry j was put. */
  function Disp(bucket: seq<Slot>, len: nat, j: nat): (d: nat)
    requires Storable(bucket, len) && j < |bucket|
    ensures d < len
  {
    var t := Fill(bucket, len, j);
    RoomFrom(t, Start(bucket[j].h, len));
    FreeFrom(t, Start(bucket[j].h, len), 0)
  }

  function Where(bucket: seq<Slot>, len: nat, j: nat): (w: nat)
    requires Storable(bucket, len) && j < |bucket|
    ensures w < len
  {
    At(Start(bucket[j].h, len), Disp(bucket, len, j), len)
  }

  /** The entry held by slot w after k insertions, or -1. */
  function Owner(bucket: seq<Slot>, len: nat, k: nat, w: nat): (j: int)
    requires Storable(bucket, len) && k <= |bucket| && w < len
    ensures -1 <= j < k
    decreases k
  {
    if k == 0 then -1
    else if Where(bucket, len, k - 1) == w then k - 1
    else Owner(bucket, len, k - 1, w)
  }

  lemma {:induction false} FillOwner(bucket: seq<Slot>, len: nat, k: nat, w: nat)
    requires Storable(bucket, len) && k <= |bucket| && w < len
    ensures var j := Owner(bucket, len, k, w);
            Fill(bucket, len, k)[w] == (if j < 0 then EMPTY else bucket[j])
    decreases k
  {
    if k > 0 {
      FillOwner(bucket, len, k - 1, w);
    }
  }

  lemma WhereFree(bucket: seq<Slot>, len: nat, j: nat)
    requires Storable(bucket, len) && j < |bucket|
    ensures Fill(bucket, len, j)[Where(bucket, len, j)].p == 0
  {
    hide Fill;
  }

  /** A slot is never overwritten. */
  lemma {:induction false} OwnerStays(bucket: seq<Slot>, len: nat, i: nat, k: nat, w: nat)
    requires Storable(bucket, len) && i <= k <= |bucket| && w < len
    requires Owner(bucket, len, i, w) >= 0
    ensures Owner(bucket, len, k, w) == Owner(bucket, len, i, w)
    decreases k
  {
    hide Fill, Where;
    if i < k {
      OwnerStays(bucket, len, i, k - 1, w);
      FillOwner(bucket, len, k - 1, w);
      WhereFree(bucket, len, k - 1);
    }
  }

  /** The slot of entry j is its own, and the slots passed on the way there
      belong to earlier entries. */
  lemma Passed(bucket: seq<Slot>, len: nat, j: nat, d: nat)
    requires Storable(bucket, len) && j < |bucket| && d <= Disp(bucket, len, j)
    ensures var o := Owner(bucket, len, |bucket|, At(Start(bucket[j].h, len), d, len));
            if d == Disp(bucket, len, j) then o == j else 0 <= o < j
  {
    var w := At(Start(bucket[j].h, len), d, len);
    if d == Disp(bucket, len, j) {
      OwnerStays(bucket, len, j + 1, |bucket|, w);
    } else {
      FillOwner(bucket, len, j, w);
      assert Fill(bucket, len, j)[w].p != 0;
      OwnerStays(bucket, len, j, |bucket|, w);
    }
  }

  /** Entries with the same first slot are met in the order of insertion. */
  lemma SameStart(bucket: seq<Slot>, len: nat, i: nat, j: nat)
    requires Storable(bucket, len) && i < j < |bucket|
    requires Start(bucket[i].h, len) == Start(bucket[j].h, len)
    ensures Disp(bucket, len, i) < Disp(bucket, len, j)
  {
    Passed(bucket, len, i, Disp(bucket, len, i));
    Passed(bucket, len, j, Disp(bucket, len, j));
    if Disp(bucket, len, j) < Disp(bucket, len, i) {
      Passed(bucket, len, i, Disp(bucket, len, j));
    }
  }

  // ----- probing

  /** What a reader looks for: a hash, and a test on the record's position. */
  datatype Query = Query(h: uint32, test: uint32 -> bool)

  predicate Hit(q: Query, x: Slot) {
    x.h == q.h && q.test(x.p)
  }

  /** The entries a probe sequence gives from distance d on, up to the first empty
      slot or once around. */
  function Hits(t: Table, s: nat, d: nat, q: Query): seq<Slot>
    requires s < |t|
    decreases |t| - d
  {
    if d >= |t| || t[At(s, d, |t|)].p == 0 then []
    else (if Hit(q, t[At(s, d, |t|)]) then [t[At(s, d, |t|)]] else []) + Hits(t, s, d + 1, q)
  }

  function Select(entries: seq<Slot>, q: Query): seq<Slot> {
    if entries == [] then []
    else (if Hit(q, entries[0]) then [entries[0]] else []) + Select(entries[1..], q)
  }

  lemma {:induction false} SelectSkip(entries: seq<Slot>, q: Query, m: nat, j: nat)
    requires m <= j <= |entries|
    requires forall i | m <= i < j :: !Hit(q, entries[i])
    ensures Select(entries[m..], q) == Select(entries[j..], q)
    decreases j - m
  {
    if m < j {
      assert entries[m..][1..] == entries[m + 1..];
      SelectSkip(entries, q, m + 1, j);
    }
  }

  /** m splits the entries of hash h into those met before distance d and after. */
  ghost predicate Split(bucket: seq<Slot>, len: nat, h: uint32, d: nat, m: nat)
    requires Storable(bucket, len)
  {
    && m <= |bucket|
    && forall j | 0 <= j < |bucket| && bucket[j].h == h :: (j < m <==> Disp(bucket, len, j) < d)
  }

  lemma AtInjective(s: nat, d: nat, e: nat, len: nat)
    requires s < len && d < len && e < len && At(s, d, len) == At(s, e, len)
    ensures d == e
  {
  }

  lemma SplitBounds(bucket: seq<Slot>, len: nat, h: uint32, d: nat, m: nat)
    requires Storable(bucket, len) && Split(bucket, len, h, d, m)
    ensures m <= |bucket|
    ensures forall j | 0 <= j < |bucket| && bucket[j].h == h :: j < m <==> Disp(bucket, len, j) < d
  {
    hide Disp;
  }

  lemma {:induction false} HitsFrom(bucket: seq<Slot>, len: nat, q: Query, d: nat, m: nat)
    requires Storable(bucket, len) && Split(bucket, len, q.h, d, m)
    ensures Hits(Fill(bucket, len, |bucket|), Start(q.h, len), d, q) == Select(bucket[m..], q)
    decreases len - d
  {
    hide Fill, Owner, Disp, Split;
    var t := Fill(bucket, len, |bucket|);
    var s := Start(q.h, len);
    SplitBounds(bucket, len, q.h, d, m);
    if d >= len {
      SelectSkip(bucket, q, m, |bucket|);
      return;
    }
    var w := At(s, d, len);
    FillOwner(bucket, len, |bucket|, w);
    var j := Owner(bucket, len, |bucket|, w);
    if j < 0 {
      forall i | m <= i < |bucket| ensures !Hit(q, bucket[i]) {
        if bucket[i].h == q.h { Passed(bucket, len, i, d); }
      }
      SelectSkip(bucket, q, m, |bucket|);
    } else {
      OwnerAt(bucket, len, q.h, d, j);
      if bucket[j].h == q.h {
        forall i | m <= i < j ensures !Hit(q, bucket[i]) {
          if bucket[i].h == q.h { SameStart(bucket, len, i, j); }
        }
        SelectSkip(bucket, q, m, j);
        assert bucket[j..][1..] == bucket[j + 1..];
        SplitNext(bucket, len, q.h, d, m, j);
        HitsFrom(bucket, len, q, d + 1, j + 1);
      } else {
        SplitSame(bucket, len, q.h, d, m, j);
        HitsFrom(bucket, len, q, d + 1, m);
      }
    }
  }

  /** The owner of a slot on the probe path of hash h, if its hash is h, was put
      there at that distance. */
  lemma {:induction false} OwnerWhere(bucket: seq<Slot>, len: nat, k: nat, w: nat)
    requires Storable(bucket, len) && k <= |bucket| && w < len
    ensures var j := Owner(bucket, len, k, w); j >= 0 ==> Where(bucket, len, j) == w
    decreases k
  {
    if k > 0 { OwnerWhere(bucket, len, k - 1, w); }
  }

  lemma OwnerAt(bucket: seq<Slot>, len: nat, h: uint32, d: nat, j: nat)
    requires Storable(bucket, len) && d < len
    requires j == Owner(bucket, len, |bucket|, At(Start(h, len), d, len))
    ensures bucket[j].h == h ==> Disp(bucket, len, j) == d
  {
    OwnerWhere(bucket, len, |bucket|, At(Start(h, len), d, len));
    if bucket[j].h == h {
      AtInjective(Start(h, len), d, Disp(bucket, len, j), len);
    }
  }

  lemma SplitNext(bucket: seq<Slot>, len: nat, h: uint32, d: nat, m: nat, j: nat)
    requires Storable(bucket, len) && Split(bucket, len, h, d, m) && j < |bucket|
    requires bucket[j].h == h && Disp(bucket, len, j) == d
    ensures Split(bucket, len, h, d + 1, j + 1)
  {
    forall i | 0 <= i < |bucket| && bucket[i].h == h ensures i < j + 1 <==> Disp(bucket, len, i) < d + 1 {
      if i < j { SameStart(bucket, len, i, j); }
      if i > j { SameStart(bucket, len, j, i); }
    }
  }

  lemma SplitSame(bucket: seq<Slot>, len: nat, h: uint32, d: nat, m: nat, j: nat)
    requires Storable(bucket, len) && Split(bucket, len, h, d, m) && j < |bucket| && d < len
    requires bucket[j].h != h && j == Owner(bucket, len, |bucket|, At(Start(h, len), d, len))
    ensures Split(bucket, len, h, d + 1, m)
  {
    forall i | 0 <= i < |bucket| && bucket[i].h == h ensures i < m <==> Disp(bucket, len, i) < d + 1 {
      if Disp(bucket, len, i) == d { Passed(bucket, len, i, d); }
    }
  }

  /** A probe sequence gives exactly the wanted entries of the bucket, each once,
      in the order in which they were added. */
  lemma ProbeFindsAll(bucket: seq<Slot>, len: nat, q: Query)
    requires Storable(bucket, len)
    ensures Hits(Fill(bucket, len, |bucket|), Start(q.h, len), 0, q) == Select(bucket, q)
  {
    HitsFrom(bucket, len, q, 0, 0);
    assert bucket[0..] == bucket;
  }
}
