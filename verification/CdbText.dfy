/** Databases as text: what `cdbdump` prints and `cdbmake` reads
    (libs/cdb/cdbdump.c:21-83, libs/cdb/cdbmake.c:61-103, libs/cdb/fmt_ulong.c:3-13). */
module CdbText {
  import opened Bytes
  import opened Numerals
  import opened CdbFormat
  import opened CdbFind
  import opened CdbImage
  import opened CdbMake

  const PLUS: byte := 0x2b
  const COMMA: byte := 0x2c
  const COLON: byte := 0x3a
  const ARROW: bytes := [0x2d, 0x3e]
  const NEWLINE: byte := 0x0a

  lemma DecimalStep(n: nat)
    ensures n >= 10 ==> Decimal(n) == Decimal(n / 10) + [ZERO + n % 10]
    ensures n < 10 ==> Decimal(n) == [ZERO + n]
  {
  }

  method CountDigits(u: nat) returns (len: nat)
    ensures len == |Decimal(u)|
  {
    hide Decimal;
    len := 1;
    var q := u;
    DecimalStep(q);
    while q > 9
      invariant len + |Decimal(q)| == |Decimal(u)| + 1
    {
      DecimalStep(q);
      len := len + 1;
      q := q / 10;
    }
    DecimalStep(q);
  }

  /** `fmt_ulong`: the digits are counted, then written from the last one. */
  method FmtULong(u: nat) returns (s: bytes)
    ensures s == Decimal(u)
  {
    hide Decimal;
    var len := CountDigits(u);
    var a := new byte[len](_ => 0);
    var k, r := len, u;
    var first := true;
    while first || r > 0
      invariant 0 <= k <= len == a.Length && fresh(a)
      invariant first ==> k == len && r == u
      invariant if first || r > 0 then Decimal(u) == Decimal(r) + a[k..] else Decimal(u) == a[k..]
      decreases r, first
    {
      DecimalStep(r);
      ghost var tail := a[k..];
      assert |Decimal(u)| == |Decimal(r)| + |tail|;
      k := k - 1;
      a[k] := ZERO + r % 10;
      assert a[k..] == [ZERO + r % 10] + tail;
      r := r / 10;
      first := false;
    }
    s := a[..];
    assert a[k..] == a[..];
  }

  function RecordText(r: Record): bytes {
    [PLUS] + Decimal(|r.key|) + [COMMA] + Decimal(|r.data|) + [COLON] + r.key + ARROW + r.data + [NEWLINE]
  }

  /** The records from k on, and the empty line at the end. */
  function TextFrom(rs: seq<Record>, k: nat): bytes
    decreases |rs| - k
  {
    if k >= |rs| then [NEWLINE] else RecordText(rs[k]) + TextFrom(rs, k + 1)
  }

  // ----- dumping

  /** The records between pos and eod; None if the file ends too early. */
  function DumpFrom(image: bytes, pos: nat, eod: nat): Option<bytes>
    decreases eod - pos
  {
    if pos >= eod then Some([NEWLINE])
    else if !Readable(image, pos, 8) then None
    else
      var klen, dlen := Word(image, pos), Word(image, pos + 4);
      if !Readable(image, pos + 8, klen + dlen) then None else
      var r := Record(image[pos + 8..pos + 8 + klen], image[pos + 8 + klen..pos + 8 + klen + dlen]);
      match DumpFrom(image, pos + 8 + klen + dlen, eod)
      case None => None
      case Some(more) => Some(RecordText(r) + more)
  }

  function DumpOf(image: bytes): Option<bytes> {
    if |image| < HEADER then None else DumpFrom(image, HEADER, Word(image, 0))
  }

  lemma DumpStep(image: bytes, pos: nat, eod: nat, r: Record)
    requires pos < eod && RecordHere(image, pos, r)
    ensures DumpFrom(image, pos, eod) ==
      match DumpFrom(image, pos + 8 + |r.key| + |r.data|, eod)
      case None => None
      case Some(more) => Some(RecordText(r) + more)
  {
    hide RecordText, Word;
    assert image[pos + 8..pos + 8 + |r.key|] == r.key;
    assert image[pos + 8 + |r.key|..pos + 8 + |r.key| + |r.data|] == r.data;
  }

  lemma {:induction false} DumpRecords(rs: seq<Record>, k: nat)
    requires Fits(rs) && k <= |rs|
    ensures DumpFrom(Image(rs), PosOf(rs, k), HEADER + |Body(rs)|) == Some(TextFrom(rs, k))
    decreases |rs| - k
  {
    hide Image, RecordText, RecordHere, DumpFrom;
    if k == |rs| {
      assert rs[..k] == rs;
      DumpEnd(Image(rs), PosOf(rs, k), HEADER + |Body(rs)|);
    } else {
      RecordAt(rs, k);
      BodyPrefix(rs, k);
      DumpStep(Image(rs), PosOf(rs, k), HEADER + |Body(rs)|, rs[k]);
      NextPos(rs, k);
      DumpRecords(rs, k + 1);
    }
  }

  lemma DumpEnd(image: bytes, pos: nat, eod: nat)
    requires pos >= eod
    ensures DumpFrom(image, pos, eod) == Some([NEWLINE])
  {
  }

  lemma NextPos(rs: seq<Record>, k: nat)
    requires k < |rs|
    ensures PosOf(rs, k + 1) == PosOf(rs, k) + 8 + |rs[k].key| + |rs[k].data|
  {
    assert rs[..k + 1][..k] == rs[..k];
  }

  /** Dumping a finished database lists the added records in order. */
  lemma DumpImage(rs: seq<Record>)
    requires Fits(rs)
    ensures DumpOf(Image(rs)) == Some(TextFrom(rs, 0))
  {
    hide Image, Body, Word, DumpFrom;
    ImageSize(rs);
    HeaderAt(rs, 0);
    DumpRecords(rs, 0);
    NoBody();
    assert rs[..0] == [];
  }

  lemma NoBody()
    ensures Body([]) == []
  {
  }

  /** After printing text up to pos, the rest of the dump is still to come. */
  ghost predicate Printed(image: bytes, text: bytes, pos: nat, eod: nat) {
    match DumpFrom(image, pos, eod)
    case None => DumpOf(image).None?
    case Some(more) => DumpOf(image) == Some(text + more)
  }

  lemma PrintedFirst(image: bytes)
    requires |image| >= HEADER
    ensures Printed(image, [], HEADER, Word(image, 0))
  {
    hide DumpFrom, Word;
    var d := DumpFrom(image, HEADER, Word(image, 0));
    assert d.Some? ==> [] + d.value == d.value;
  }

  lemma PrintedNext(image: bytes, text: bytes, pos: nat, eod: nat, r: Record)
    requires Printed(image, text, pos, eod) && pos < eod && RecordHere(image, pos, r)
    ensures Printed(image, text + RecordText(r), pos + 8 + |r.key| + |r.data|, eod)
  {
    hide DumpFrom, RecordText, DumpOf, RecordHere;
    DumpStep(image, pos, eod, r);
    var d := DumpFrom(image, pos + 8 + |r.key| + |r.data|, eod);
    assert d.Some? ==> text + (RecordText(r) + d.value) == text + RecordText(r) + d.value;
  }

  lemma PrintedShort(image: bytes, text: bytes, pos: nat, eod: nat)
    requires Printed(image, text, pos, eod) && pos < eod
    requires Readable(image, pos, 8) ==> !Readable(image, pos + 8, Word(image, pos) as int + Word(image, pos + 4) as int)
    ensures DumpOf(image).None?
  {
    hide DumpOf, Word;
  }

  /** `cdbdump`. */
  method Dump(image: bytes) returns (ok: bool, text: bytes)
    requires |image| < 0x1_0000_0000
    ensures ok <==> DumpOf(image).Some?
    ensures ok ==> text == DumpOf(image).value
  {
    hide Word, RecordText, DumpFrom, Printed;
    if |image| < 4 { return false, []; }
    var eod := Word(image, 0);
    var pos := 4;
    while pos < HEADER
      invariant pos <= HEADER && pos % 4 == 0 && pos <= |image|
    {
      if |image| - pos < 4 { return false, []; }
      pos := pos + 4;
    }
    text := [];
    PrintedFirst(image);
    while pos < eod
      invariant HEADER <= pos <= |image| && Printed(image, text, pos, eod)
      decreases eod - pos
    {
      if |image| - pos < 8 { PrintedShort(image, text, pos, eod); return false, []; }
      var klen: int, dlen: int := Word(image, pos), Word(image, pos + 4);
      if |image| - pos - 8 < klen + dlen { PrintedShort(image, text, pos, eod); return false, []; }
      var key := image[pos + 8..pos + 8 + klen];
      var data := image[pos + 8 + klen..pos + 8 + klen + dlen];
      var k := FmtULong(klen);
      var d := FmtULong(dlen);
      LineIs(Record(key, data), k, d);
      PrintedNext(image, text, pos, eod, Record(key, data));
      text := text + ([PLUS] + k + [COMMA] + d + [COLON] + key + ARROW + data + [NEWLINE]);
      pos := pos + 8 + klen + dlen;
    }
    DumpEnd(image, pos, eod);
    text := text + [NEWLINE];
    ok := true;
    PrintedAll(image, text[..|text| - 1], pos, eod);
    assert text == text[..|text| - 1] + [NEWLINE];
  }

  lemma PrintedAll(image: bytes, text: bytes, pos: nat, eod: nat)
    requires Printed(image, text, pos, eod) && pos >= eod
    ensures DumpOf(image) == Some(text + [NEWLINE])
  {
    hide DumpOf;
  }

  lemma LineIs(r: Record, k: bytes, d: bytes)
    requires k == Decimal(|r.key|) && d == Decimal(|r.data|)
    ensures [PLUS] + k + [COMMA] + d + [COLON] + r.key + ARROW + r.data + [NEWLINE] == RecordText(r)
  {
  }

  // ----- making

  /** Larger numbers are refused before another digit. */
  const LIMIT := 429496720

  /** Digits up to the character stop; the number and the place after it. */
  function Num(s: bytes, p: nat, stop: byte, acc: nat): Option<(nat, nat)>
    decreases |s| - p
  {
    if p >= |s| then None
    else if s[p] == stop then Some((acc, p + 1))
    else if !IsDigit(s[p]) || acc > LIMIT then None
    else Num(s, p + 1, stop, acc * 10 + (s[p] - ZERO))
  }

  /** A record after its plus sign; the record and the place after its line. */
  function ParseRecord(s: bytes, p: nat): Option<(Record, nat)> {
    match Num(s, p, COMMA, 0)
    case None => None
    case Some(k) =>
      match Num(s, k.1, COLON, 0)
      case None => None
      case Some(d) =>
        var (key, data) := (d.1, d.1 + k.0 + 2);
        var end := data + d.0;
        if end >= |s| || s[key + k.0..data] != ARROW || s[end] != NEWLINE then None
        else Some((Record(s[key..key + k.0], s[data..end]), end + 1))
  }

  lemma {:induction false} NumForward(s: bytes, p: nat, stop: byte, acc: nat)
    ensures var r := Num(s, p, stop, acc); r.Some? ==> p < r.value.1 <= |s|
    decreases |s| - p
  {
    if p < |s| && s[p] != stop && IsDigit(s[p]) && acc <= LIMIT {
      NumForward(s, p + 1, stop, acc * 10 + (s[p] - ZERO));
    }
  }

  lemma RecordForward(s: bytes, p: nat)
    ensures var r := ParseRecord(s, p); r.Some? ==> p < r.value.1 <= |s|
  {
    hide Num;
    NumForward(s, p, COMMA, 0);
    if Num(s, p, COMMA, 0).Some? {
      NumForward(s, Num(s, p, COMMA, 0).value.1, COLON, 0);
    }
  }

  /** The records up to an empty line; what follows is not read. */
  function ParseRecords(s: bytes, p: nat): Option<seq<Record>>
    decreases |s| - p
  {
    if p >= |s| then None
    else if s[p] == NEWLINE then Some([])
    else if s[p] != PLUS then None
    else
      RecordForward(s, p + 1);
      match ParseRecord(s, p + 1)
      case None => None
      case Some(r) =>
        match ParseRecords(s, r.1)
        case None => None
        case Some(more) => Some([r.0] + more)
  }

  // ----- making from a dump

  lemma {:induction false} NumRun(s: bytes, p: nat, stop: byte, n: nat)
    requires Sits(s, p, Decimal(n)) && n / 10 <= LIMIT && !IsDigit(stop)
    ensures Num(s, p, stop, 0) == Num(s, p + |Decimal(n)|, stop, n)
    decreases n
  {
    if n < 10 {
      assert s[p + 0] == Decimal(n)[0];
    } else {
      var d: bytes := [ZERO + n % 10];
      SitsSplit(s, p, Decimal(n / 10), d);
      NumRun(s, p, stop, n / 10);
      var q := p + |Decimal(n / 10)|;
      assert s[q + 0] == d[0];
    }
  }

  lemma SitsSlice(s: bytes, p: nat, x: bytes)
    requires Sits(s, p, x)
    ensures p + |x| <= |s| && s[p..p + |x|] == x
  {
  }

  lemma NumBack(s: bytes, p: nat, stop: byte, n: nat)
    requires Sits(s, p, Decimal(n)) && Sits(s, p + |Decimal(n)|, [stop]) && n / 10 <= LIMIT && !IsDigit(stop)
    ensures Num(s, p, stop, 0) == Some((n, p + |Decimal(n)| + 1))
  {
    hide Decimal;
    NumRun(s, p, stop, n);
    SitsSlice(s, p + |Decimal(n)|, [stop]);
    assert s[p + |Decimal(n)|..p + |Decimal(n)| + 1][0] == stop;
  }

  /** Where the parts of a record's text stand. */
  lemma RecordParts(s: bytes, p: nat, r: Record)
    requires Sits(s, p, RecordText(r))
    ensures var (k, d) := (Decimal(|r.key|), Decimal(|r.data|));
            var (key, data) := (p + |k| + |d| + 3, p + |k| + |d| + 3 + |r.key| + 2);
            && Sits(s, p, [PLUS]) && Sits(s, p + 1, k) && Sits(s, p + 1 + |k|, [COMMA])
            && Sits(s, p + |k| + 2, d) && Sits(s, p + |k| + 2 + |d|, [COLON])
            && Sits(s, key, r.key) && Sits(s, key + |r.key|, ARROW)
            && Sits(s, data, r.data) && Sits(s, data + |r.data|, [NEWLINE])
            && p + |RecordText(r)| == data + |r.data| + 1
  {
    hide Decimal, Sits;
    var k, d := Decimal(|r.key|), Decimal(|r.data|);
    var a := [PLUS] + k;
    var b := a + [COMMA];
    var c := b + d;
    var e := c + [COLON];
    var f := e + r.key;
    var g := f + ARROW;
    var h := g + r.data;
    SitsSplit(s, p, h, [NEWLINE]);
    SitsSplit(s, p, g, r.data);
    SitsSplit(s, p, f, ARROW);
    SitsSplit(s, p, e, r.key);
    SitsSplit(s, p, c, [COLON]);
    SitsSplit(s, p, b, d);
    SitsSplit(s, p, a, [COMMA]);
    SitsSplit(s, p, [PLUS], k);
  }

  lemma OneSits(s: bytes, p: nat, c: byte)
    requires Sits(s, p, [c])
    ensures p < |s| && s[p] == c
  {
    assert s[p + 0] == [c][0];
  }

  lemma RecordBack(s: bytes, p: nat, r: Record)
    requires Sits(s, p, RecordText(r)) && |r.key| / 10 <= LIMIT && |r.data| / 10 <= LIMIT
    ensures p < |s| && s[p] == PLUS && ParseRecord(s, p + 1) == Some((r, p + |RecordText(r)|))
  {
    hide Decimal, Num, Sits, RecordText;
    var k, d := Decimal(|r.key|), Decimal(|r.data|);
    var key, data := p + |k| + |d| + 3, p + |k| + |d| + 3 + |r.key| + 2;
    RecordParts(s, p, r);
    OneSits(s, p, PLUS);
    NumBack(s, p + 1, COMMA, |r.key|);
    NumBack(s, p + |k| + 2, COLON, |r.data|);
    SitsSlice(s, key, r.key);
    SitsSlice(s, key + |r.key|, ARROW);
    SitsSlice(s, data, r.data);
    OneSits(s, data + |r.data|, NEWLINE);
  }

  lemma SizeLimit(rs: seq<Record>, k: nat)
    requires Fits(rs) && k < |rs|
    ensures |rs[k].key| / 10 <= LIMIT && |rs[k].data| / 10 <= LIMIT
  {
    BodyPrefix(rs, k + 1);
    assert rs[..k + 1][..k] == rs[..k];
  }

  lemma {:induction false} RecordsBack(s: bytes, p: nat, rs: seq<Record>, k: nat)
    requires Fits(rs) && k <= |rs| && Sits(s, p, TextFrom(rs, k))
    ensures ParseRecords(s, p) == Some(rs[k..])
    decreases |rs| - k
  {
    hide RecordText, Sits, ParseRecord;
    if k == |rs| {
      SitsSlice(s, p, [NEWLINE]);
      assert s[p..p + 1][0] == s[p];
    } else {
      SitsSplit(s, p, RecordText(rs[k]), TextFrom(rs, k + 1));
      SizeLimit(rs, k);
      RecordBack(s, p, rs[k]);
      RecordsBack(s, p + |RecordText(rs[k])|, rs, k + 1);
      assert [rs[k]] + rs[k + 1..] == rs[k..];
    }
  }

  /** What a dump prints is read back as the same records, so that a database made
      from it is the same file. */
  lemma DumpParses(rs: seq<Record>)
    requires Fits(rs)
    ensures DumpOf(Image(rs)).Some? && ParseRecords(DumpOf(Image(rs)).value, 0) == Some(rs)
  {
    hide Image, DumpOf, ParseRecords;
    DumpImage(rs);
    var text := TextFrom(rs, 0);
    assert Sits(text, 0, text);
    RecordsBack(text, 0, rs, 0);
    assert rs[0..] == rs;
  }

  // ----- the program

  method ReadNum(s: bytes, at: nat, stop: byte) returns (r: Option<(nat, nat)>)
    ensures r == Num(s, at, stop, 0)
  {
    var p: nat, n: nat := at, 0;
    while true
      invariant Num(s, p, stop, n) == Num(s, at, stop, 0)
      decreases |s| - p
    {
      if p >= |s| { return None; }
      if s[p] == stop { return Some((n, p + 1)); }
      if !IsDigit(s[p]) { return None; }
      if n > LIMIT { return None; }
      n := n * 10 + (s[p] - ZERO);
      p := p + 1;
    }
  }

  /** What was added and what is still to be read are the records of the text. */
  ghost predicate Added(s: bytes, p: nat, done: seq<Record>) {
    match ParseRecords(s, p)
    case None => ParseRecords(s, 0).None?
    case Some(more) => ParseRecords(s, 0) == Some(done + more)
  }

  lemma AddedNext(s: bytes, p: nat, done: seq<Record>)
    requires Added(s, p, done) && p < |s| && s[p] == PLUS && ParseRecord(s, p + 1).Some?
    ensures var r := ParseRecord(s, p + 1).value; p < r.1 <= |s| && Added(s, r.1, done + [r.0])
  {
    hide ParseRecord;
    RecordForward(s, p + 1);
    var r := ParseRecord(s, p + 1).value;
    var more := ParseRecords(s, r.1);
    assert more.Some? ==> done + ([r.0] + more.value) == done + [r.0] + more.value;
  }

  lemma AddedFirst(s: bytes)
    ensures Added(s, 0, [])
  {
    hide ParseRecords;
    var r := ParseRecords(s, 0);
    assert r.Some? ==> [] + r.value == r.value;
  }

  /** Where reading stops. */
  lemma AddedHere(s: bytes, p: nat, done: seq<Record>)
    requires Added(s, p, done)
    ensures p >= |s| || (s[p] != NEWLINE && (s[p] != PLUS || ParseRecord(s, p + 1).None?)) ==> ParseRecords(s, 0).None?
    ensures p < |s| && s[p] == NEWLINE ==> ParseRecords(s, 0) == Some(done)
  {
    hide ParseRecord;
    assert done + [] == done;
  }

  lemma {:induction false} NumSize(s: bytes, p: nat, stop: byte, acc: nat)
    requires acc <= LIMIT * 10 + 9
    ensures var r := Num(s, p, stop, acc); r.Some? ==> r.value.0 <= LIMIT * 10 + 9
    decreases |s| - p
  {
    if p < |s| && s[p] != stop && IsDigit(s[p]) && acc <= LIMIT {
      NumSize(s, p + 1, stop, acc * 10 + (s[p] - ZERO));
    }
  }

  lemma RecordSizes(s: bytes, p: nat)
    requires ParseRecord(s, p).Some?
    ensures var r := ParseRecord(s, p).value.0; |r.key| < 0x1_0000_0000 && |r.data| < 0x1_0000_0000
  {
    hide Num;
    NumSize(s, p, COMMA, 0);
    NumSize(s, Num(s, p, COMMA, 0).value.1, COLON, 0);
  }

  /** Records that do not fit make the file too large, whatever follows. */
  lemma TooLarge(s: bytes, p: nat, done: seq<Record>)
    requires Added(s, p, done) && HEADER + |Body(done)| >= 0x1_0000_0000
    ensures ParseRecords(s, 0).Some? ==> !Fits(ParseRecords(s, 0).value)
  {
    hide ParseRecords;
    var r := ParseRecords(s, 0);
    if r.Some? {
      BodyPrefix(r.value, |done|);
      assert r.value[..|done|] == done;
    }
  }

  method ReadRecord(s: bytes, p: nat) returns (r: Option<(Record, nat)>)
    ensures r == ParseRecord(s, p)
  {
    hide Num;
    var k := ReadNum(s, p, COMMA);
    if k.None? { return None; }
    var d := ReadNum(s, k.value.1, COLON);
    if d.None? { return None; }
    var key, data := d.value.1, d.value.1 + k.value.0 + 2;
    var end := data + d.value.0;
    if end >= |s| || s[key + k.value.0..data] != ARROW || s[end] != NEWLINE { return None; }
    r := Some((Record(s[key..key + k.value.0], s[data..end]), end + 1));
  }

  /** `cdbmake`: the file of the records of the text; it fails exactly when the text
      is malformed or the file would be too large. */
  method Make(input: bytes) returns (ok: bool, image: bytes)
    ensures ok <==> ParseRecords(input, 0).Some? && Fits(ParseRecords(input, 0).value)
    ensures ok ==> image == Image(ParseRecords(input, 0).value)
  {
    hide ParseRecord, Added, Body, Image;
    var b := new Builder();
    var p := 0;
    AddedFirst(input);
    while true
      invariant fresh(b) && b.Valid() && p <= |input| && Added(input, p, b.records)
      decreases |input| - p
    {
      AddedHere(input, p, b.records);
      if p >= |input| { return false, []; }
      if input[p] == NEWLINE { break; }
      if input[p] != PLUS { return false, []; }
      var r := ReadRecord(input, p + 1);
      if r.None? { return false, []; }
      AddedNext(input, p, b.records);
      RecordSizes(input, p + 1);
      ghost var was := b.records;
      var added := b.Add(r.value.0.key, r.value.0.data);
      assert b.records == was + [r.value.0];
      if !added {
        TooLarge(input, r.value.1, b.records);
        return false, [];
      }
      p := r.value.1;
    }
    ok, image := b.Finish();
  }
}
