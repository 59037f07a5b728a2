/** A file of one record, byte by byte: the key "a" with the data "b". */
module CdbExample {
  import opened Bytes
  import opened CdbFormat
  import opened CdbTable
  import opened CdbFind
  import opened CdbImage
  import opened CdbText

  const FILE: seq<Record> := [Record([0x61], [0x62])]

  lemma PackExamples()
    ensures Pack(1) == [1, 0, 0, 0] && Pack(2) == [2, 0, 0, 0] && Pack(2048) == [0, 8, 0, 0]
    ensures Pack(2058) == [0x0a, 8, 0, 0] && Pack(177604) == [0xc4, 0xb5, 2, 0] && Pack(0) == [0, 0, 0, 0]
  {
  }

  lemma FileParts()
    ensures Body(FILE) == Pack(1) + Pack(1) + [0x61] + [0x62]
    ensures Fits(FILE) && Entries(FILE) == [Slot(177604, 2048)]
  {
    hide Pack, Hash;
    HashOfA();
    assert FILE[..0] == [];
    assert Body(FILE[..0]) == [];
  }

  lemma FileBuckets(b: nat)
    ensures Bucket(Entries(FILE), b) == if b == 196 then Entries(FILE) else []
  {
    FileParts();
    var es := Entries(FILE);
    assert es[1..] == [] && [es[0]] + [] == es;
  }

  lemma {:induction false} FileTotal(b: nat)
    ensures Total(Entries(FILE), b) == if b <= 196 then 0 else 1
  {
    hide Bucket, Entries;
    FileParts();
    if b > 0 {
      FileTotal(b - 1);
      FileBuckets(b - 1);
    }
  }

  /** Shifted right by eight bits, the hash is odd: the entry is in the second slot. */
  lemma FileTable()
    requires Fits(FILE)
    ensures HashTable(FILE, 196) == [EMPTY, Slot(177604, 2048)]
  {
    hide Hash, Body;
    FileParts();
    FileBuckets(196);
    var es := Entries(FILE);
    assert Start(177604, 2) == 1;
  }

  /** Two words, by their bytes. */
  lemma WordsHere(t: bytes, at: nat, u: uint32, v: uint32)
    requires Readable(t, at, 8) && Word(t, at) == u && Word(t, at + 4) == v
    ensures t[at..at + 8] == Pack(u) + Pack(v)
  {
    hide Pack, Unpack;
    PackUnpack(t[at..at + 4]);
    PackUnpack(t[at + 4..at + 8]);
    assert t[at..at + 8] == t[at..at + 4] + t[at + 4..at + 8];
  }

  lemma FileSize()
    ensures Fits(FILE) && |Image(FILE)| == 2074
  {
    hide Image, Hash, Entries;
    FileParts();
    ImageSize(FILE);
  }

  lemma FileRecord()
    requires Fits(FILE) && |Image(FILE)| == 2074
    ensures Image(FILE)[2048..2058] == [1, 0, 0, 0, 1, 0, 0, 0, 0x61, 0x62]
  {
    PackExamples();
    hide Image, Pack, Hash, Body;
    RecordSits(FILE, 0);
    assert FILE[..0] == [];
    assert Body(FILE[..0]) == [] by { NoBody(); }
    var t, r := Image(FILE), RecordBytes(FILE[0]);
    assert t[2048..2048 + |r|] == r;
  }

  lemma NoBody()
    ensures Body([]) == []
  {
  }

  lemma FileHeader()
    requires Fits(FILE) && |Image(FILE)| == 2074
    ensures Image(FILE)[1568..1576] == [0x0a, 8, 0, 0, 2, 0, 0, 0]
  {
    PackExamples();
    hide Image, Pack, Unpack, Entries, Bucket, Total, Hash, Body, Word;
    FileParts();
    HeaderAt(FILE, 196);
    FileTotal(196);
    FileBuckets(196);
    WordsHere(Image(FILE), 1568, 2058, 2);
  }

  lemma FileSlot(w: nat)
    requires Fits(FILE) && |Image(FILE)| == 2074 && w < 2
    ensures Image(FILE)[2058 + 8 * w..2058 + 8 * w + 8] ==
      if w == 0 then [0, 0, 0, 0, 0, 0, 0, 0] else [0xc4, 0xb5, 2, 0, 0, 8, 0, 0]
  {
    PackExamples();
    hide Image, Pack, Unpack, Entries, Bucket, Total, HashTable, Hash, Body, Word;
    FileParts();
    FileTable();
    FileTotal(196);
    SlotAt(FILE, 196, w);
    var x := HashTable(FILE, 196)[w];
    WordsHere(Image(FILE), 2058 + 8 * w, x.h, x.p);
  }

  /** The record after the header, the header's entry for table 196, and that table. */
  lemma OneRecordFile()
    ensures Fits(FILE) && |Image(FILE)| == 2074
    ensures Image(FILE)[2048..2058] == [1, 0, 0, 0, 1, 0, 0, 0, 0x61, 0x62]
    ensures Image(FILE)[1568..1576] == [0x0a, 8, 0, 0, 2, 0, 0, 0]
    ensures Image(FILE)[2058..2066] == [0, 0, 0, 0, 0, 0, 0, 0]
    ensures Image(FILE)[2066..2074] == [0xc4, 0xb5, 2, 0, 0, 8, 0, 0]
  {
    hide *;
    FileSize();
    FileRecord();
    FileHeader();
    FileSlot(0);
    FileSlot(1);
  }

  /** Its text: +1,1:a->b and two ends of line. */
  lemma OneRecordText()
    ensures TextFrom(FILE, 0) == [0x2b, 0x31, 0x2c, 0x31, 0x3a, 0x61, 0x2d, 0x3e, 0x62, 0x0a, 0x0a]
  {
    assert TextFrom(FILE, 1) == [0x0a];
  }
}
