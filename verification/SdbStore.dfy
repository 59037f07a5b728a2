/** Table cells in RAM: a list of chunks written and read back in sequence
    (libs/bysant/sdb_write.c:20-146, libs/bysant/sdb_read.c:92-159). */
module SdbStore {
  import opened Bytes

  const CHUNK: nat := 0x1_0000
  const MIN_CHUNK: nat := 0x100
  const LIMIT: nat := 0x1_0000
  const MINBUFF: nat := 3
  const SDB_ETOOBIG := -2
  const SDB_EINTERNAL := -101

  /** The smallest power of two that is at least x; 0 for 0. */
  function NextPow2(x: nat): (p: nat)
    requires x <= CHUNK
    ensures x <= p <= CHUNK && (x > 0 ==> p < 2 * x)
  {
    if x <= 2 then x else if x <= 4 then 4 else if x <= 8 then 8 else if x <= 0x10 then 0x10
    else if x <= 0x20 then 0x20 else if x <= 0x40 then 0x40 else if x <= 0x80 then 0x80
    else if x <= 0x100 then 0x100 else if x <= 0x200 then 0x200 else if x <= 0x400 then 0x400
    else if x <= 0x800 then 0x800 else if x <= 0x1000 then 0x1000 else if x <= 0x2000 then 0x2000
    else if x <= 0x4000 then 0x4000 else if x <= 0x8000 then 0x8000 else 0x1_0000
  }

  /** Byte p of the store. */
  predicate Holds(chunks: seq<bytes>, p: nat, b: byte) {
    p / CHUNK < |chunks| && p % CHUNK < |chunks[p / CHUNK]| && chunks[p / CHUNK][p % CHUNK] == b
  }

  /** The chunks hold the bytes written, in order. */
  ghost predicate Represents(chunks: seq<bytes>, flat: bytes) {
    forall p | 0 <= p < |flat| :: Holds(chunks, p, flat[p])
  }

  /** Every chunk but the last is full size; the last is not filled. */
  ghost predicate Shaped(chunks: seq<bytes>, n: nat, last: nat) {
    && |chunks| == n / CHUNK + 1
    && (forall i | 0 <= i < |chunks| - 1 :: |chunks[i]| == CHUNK)
    && |chunks[|chunks| - 1]| == last <= CHUNK && n % CHUNK <= last && MIN_CHUNK <= last
  }

  lemma WriteInside(chunks: seq<bytes>, flat: bytes, last: nat, data: bytes, chunk: bytes)
    requires Shaped(chunks, |flat|, last) && Represents(chunks, flat)
    requires |flat| % CHUNK + |data| < CHUNK && |chunk| <= CHUNK && |flat| % CHUNK + |data| <= |chunk| && MIN_CHUNK <= |chunk|
    requires var used := |flat| % CHUNK;
      chunk[..used] == chunks[|chunks| - 1][..used] && chunk[used..used + |data|] == data
    ensures var cs := chunks[|chunks| - 1 := chunk];
      Shaped(cs, |flat + data|, |chunk|) && Represents(cs, flat + data)
  {
    var cs := chunks[|chunks| - 1 := chunk];
    var used := |flat| % CHUNK;
    forall p | 0 <= p < |flat + data| ensures Holds(cs, p, (flat + data)[p]) {
      if p < |flat| {
        assert Holds(chunks, p, flat[p]);
        if p / CHUNK == |chunks| - 1 {
          assert chunk[..used][p % CHUNK] == chunks[|chunks| - 1][..used][p % CHUNK];
        }
      } else {
        assert chunk[used..used + |data|][p - |flat|] == data[p - |flat|];
      }
    }
  }

  lemma WriteAcross(chunks: seq<bytes>, flat: bytes, data: bytes, chunk: bytes)
    requires Shaped(chunks, |flat|, CHUNK) && Represents(chunks, flat)
    requires CHUNK <= |flat| % CHUNK + |data| < 2 * CHUNK && MIN_CHUNK <= |chunk| <= CHUNK
    requires var left := CHUNK - |flat| % CHUNK;
      |data| - left <= |chunk| && chunk[..|data| - left] == data[left..]
    ensures var used := |flat| % CHUNK;
      var left := CHUNK - used;
      var cs := chunks[|chunks| - 1 := chunks[|chunks| - 1][..used] + data[..left]] + [chunk];
      Shaped(cs, |flat + data|, |chunk|) && Represents(cs, flat + data)
  {
    var used := |flat| % CHUNK;
    var left := CHUNK - used;
    var full := chunks[|chunks| - 1][..used] + data[..left];
    var cs := chunks[|chunks| - 1 := full] + [chunk];
    forall p | 0 <= p < |flat + data| ensures Holds(cs, p, (flat + data)[p]) {
      if p < |flat| {
        assert Holds(chunks, p, flat[p]);
      } else if p < |flat| + left {
        assert full[p % CHUNK] == data[p - |flat|];
      } else {
        assert chunk[..|data| - left][p % CHUNK] == data[left..][p % CHUNK];
      }
    }
  }

  class Store {
    var chunks: seq<bytes>
    /** The size of the last chunk; 0 stands for the full size. */
    var lastSize: nat
    var nwritten: nat
    ghost var flat: bytes

    ghost function Capacity(): nat
      reads this`lastSize
    {
      if lastSize == 0 then CHUNK else lastSize
    }

    ghost predicate Valid()
      reads this
    {
      nwritten == |flat| && Shaped(chunks, nwritten, Capacity()) && Represents(chunks, flat)
    }

    constructor ()
      ensures Valid() && flat == []
    {
      chunks, lastSize, nwritten, flat := [seq(MIN_CHUNK, _ => 0)], MIN_CHUNK, 0, [];
    }

    /** The last chunk reallocated; what it held is kept. */
    method SetLastSize(size: nat)
      requires Valid() && nwritten % CHUNK <= size <= CHUNK && MIN_CHUNK <= size
      modifies this`chunks, this`lastSize
      ensures Valid() && Capacity() == size
      ensures |chunks| == old(|chunks|) && chunks[..|chunks| - 1] == old(chunks[..|chunks| - 1])
    {
      var prev := if lastSize == 0 then CHUNK else lastSize;
      if size != prev {
        var c := chunks[|chunks| - 1];
        var d := if size <= |c| then c[..size] else c + seq(size - |c|, _ => 0);
        WriteInside(chunks, flat, prev, [], d);
        assert flat + [] == flat;
        chunks := chunks[|chunks| - 1 := d];
        lastSize := if size == CHUNK then 0 else size;
      }
    }

    /** `sdb_bss_ram_writer`: the bytes are appended, or refused if there are too many. */
    method Write(data: bytes) returns (r: int)
      requires Valid()
      modifies this
      ensures Valid()
      ensures r == if |data| >= LIMIT then SDB_ETOOBIG else |data|
      ensures flat == if |data| >= LIMIT then old(flat) else old(flat) + data
    {
      hide Represents, Shaped;
      var used := nwritten % CHUNK;
      var left := CHUNK - used;
      if |data| >= LIMIT { return SDB_ETOOBIG; }
      if left > |data| {
        WriteHere(data, used);
      } else {
        WriteOver(data, used, left);
      }
      r := |data|;
    }

    /** All the bytes go into the last chunk. */
    method WriteHere(data: bytes, used: nat)
      requires Valid() && used == nwritten % CHUNK && used + |data| < CHUNK
      modifies this
      ensures Valid() && flat == old(flat) + data
    {
      var needed := NextPow2(used + |data|);
      if lastSize != 0 && lastSize < needed { SetLastSize(needed); }
      var c := chunks[|chunks| - 1];
      var d := c[..used] + data + c[used + |data|..];
      WriteInside(chunks, flat, Capacity(), data, d);
      chunks := chunks[|chunks| - 1 := d];
      flat := flat + data;
      nwritten := nwritten + |data|;
    }

    /** The last chunk is filled and a new one takes the rest, so that no chunk is
        ever left full. */
    method WriteOver(data: bytes, used: nat, left: nat)
      requires Valid() && used == nwritten % CHUNK && left == CHUNK - used && left <= |data| < LIMIT
      modifies this
      ensures Valid() && flat == old(flat) + data
    {
      if lastSize != 0 { SetLastSize(CHUNK); }
      var rest := |data| - left;
      var size := NextPow2(rest);
      if size < MIN_CHUNK { size := MIN_CHUNK; }
      var c := data[left..] + seq(size - rest, _ => 0);
      WriteAcross(chunks, flat, data, c);
      chunks := chunks[|chunks| - 1 := chunks[|chunks| - 1][..used] + data[..left]] + [c];
      lastSize := if size == CHUNK then 0 else size;
      flat := flat + data;
      nwritten := nwritten + |data|;
    }
  }

  // ----- reading back

  /** The decoder, as far as sizes go: the size of the value at the beginning of a
      buffer, minus the size when the buffer is cut short, 0 on an error. */
  type Codec = bytes -> int

  /** e is the serialized form of one value: it is read whatever follows, and three
      bytes of it are enough to know its size. */
  ghost predicate IsCell(read: Codec, e: bytes) {
    && 0 < |e| < LIMIT
    && (forall rest :: read(e + rest) == |e|)
    && (forall k | MINBUFF <= k < |e| :: read(e[..k]) == -|e|)
  }

  /** e stands at p among the bytes written. */
  ghost predicate Stands(flat: bytes, p: nat, e: bytes) {
    p + |e| <= |flat| && forall i | 0 <= i < |e| :: flat[p + i] == e[i]
  }

  lemma InChunk(chunks: seq<bytes>, flat: bytes, last: nat, p: nat, e: bytes)
    requires Shaped(chunks, |flat|, last) && Represents(chunks, flat) && Stands(flat, p, e) && e != []
    requires p % CHUNK + |e| <= CHUNK
    ensures p / CHUNK < |chunks| && p % CHUNK + |e| <= |chunks[p / CHUNK]|
    ensures chunks[p / CHUNK][p % CHUNK..p % CHUNK + |e|] == e
  {
    var c, off := p / CHUNK, p % CHUNK;
    forall i | 0 <= i < |e| ensures c < |chunks| && off + i < |chunks[c]| && chunks[c][off + i] == e[i] {
      assert Holds(chunks, p + i, flat[p + i]);
    }
    assert off + (|e| - 1) < |chunks[c]|;
  }

  lemma AcrossChunks(chunks: seq<bytes>, flat: bytes, last: nat, p: nat, e: bytes)
    requires Shaped(chunks, |flat|, last) && Represents(chunks, flat) && Stands(flat, p, e)
    requires p % CHUNK + |e| > CHUNK && |e| < LIMIT
    ensures p / CHUNK + 1 < |chunks| && |chunks[p / CHUNK]| == CHUNK
    ensures var left := CHUNK - p % CHUNK;
      && chunks[p / CHUNK][p % CHUNK..] == e[..left]
      && |e| - left <= |chunks[p / CHUNK + 1]| && chunks[p / CHUNK + 1][..|e| - left] == e[left..]
  {
    var c, off := p / CHUNK, p % CHUNK;
    var left := CHUNK - off;
    forall i | 0 <= i < left ensures off + i < |chunks[c]| && chunks[c][off + i] == e[i] {
      assert Holds(chunks, p + i, flat[p + i]);
    }
    forall i | left <= i < |e| ensures i - left < |chunks[c + 1]| && chunks[c + 1][i - left] == e[i] {
      assert Holds(chunks, p + i, flat[p + i]);
    }
    assert |e| - 1 - left < |chunks[c + 1]|;
  }

  lemma ReadWhole(read: Codec, e: bytes, buffer: bytes)
    requires IsCell(read, e) && |e| <= |buffer| && buffer[..|e|] == e
    ensures read(buffer) == |e|
  {
    assert buffer == e + buffer[|e|..];
  }

  lemma ReadCut(read: Codec, e: bytes, buffer: bytes)
    requires IsCell(read, e) && MINBUFF <= |buffer| < |e| && buffer == e[..|buffer|]
    ensures read(buffer) == -|e|
  {
  }

  class CellReader {
    const store: Store
    const read: Codec
    var chunk: nat
    var nread: nat
    var count: nat

    ghost predicate Valid()
      reads this, store
    {
      store.Valid() && chunk == nread / CHUNK && nread <= |store.flat|
    }

    constructor (store: Store, read: Codec)
      requires store.Valid()
      ensures this.store == store && this.read == read && Valid() && nread == 0 && count == 0
    {
      this.store := store;
      this.read := read;
      chunk, nread, count := 0, 0, 0;
    }

    /** There are three bytes to look at. */
    ghost predicate Visible()
      reads this, store
    {
      CHUNK - nread % CHUNK >= MINBUFF || nread / CHUNK + 1 < |store.chunks|
    }

    /** `sdb_read_ram_data`: the next cell, wherever the boundaries of chunks fall. */
    method ReadData(skip: bool, ghost e: bytes) returns (r: int, out: bytes)
      requires Valid() && IsCell(read, e) && Stands(store.flat, nread, e)
      modifies this
      ensures Valid()
      ensures old(Visible()) ==> r == |e| && nread == old(nread) + |e| && count == old(count) + 1 && (!skip ==> out == e)
      ensures !old(Visible()) ==> r == SDB_EINTERNAL && nread == old(nread) && count == old(count)
    {
      hide Represents, Shaped, IsCell, Stands;
      var off := nread % CHUNK;
      var left := CHUNK - off;
      Located(e);
      var here := store.chunks[chunk];
      if left < MINBUFF {
        if chunk + 1 >= |store.chunks| { return SDB_EINTERNAL, []; }
        var mini := here[off..] + store.chunks[chunk + 1][..MINBUFF - left];
        MiniBuffer(e, mini);
        r := read(mini);
        if r > 0 {
          out := mini[..r];
          nread := nread + r;
          count := count + 1;
          if r >= left { chunk := chunk + 1; }
          return;
        }
      } else {
        InPlace(e, here[off..]);
        r := read(here[off..]);
      }
      if r > 0 {
        out := here[off..off + r];
        nread := nread + r;
        count := count + 1;
        if r == left { chunk := chunk + 1; }
      } else {
        var needed := -r;
        if chunk + 1 >= |store.chunks| { return SDB_EINTERNAL, []; }
        out := [];
        if !skip {
          out := here[off..] + store.chunks[chunk + 1][..needed - left];
          ReadWhole(read, e, out);
          r := read(out);
          if needed != r { return SDB_EINTERNAL, []; }
        }
        r := needed;
        chunk := chunk + 1;
        nread := nread + needed;
        count := count + 1;
      }
    }

    /** Where the cell lies. */
    lemma Located(e: bytes)
      requires Valid() && IsCell(read, e) && Stands(store.flat, nread, e)
      ensures chunk < |store.chunks| && 0 < |e| < LIMIT && nread % CHUNK <= |store.chunks[chunk]|
      ensures nread + |e| <= |store.flat|
      ensures nread % CHUNK + |e| <= CHUNK ==>
        && nread % CHUNK + |e| <= |store.chunks[chunk]|
        && store.chunks[chunk][nread % CHUNK..nread % CHUNK + |e|] == e
      ensures nread % CHUNK + |e| > CHUNK ==>
        && chunk + 1 < |store.chunks| && |store.chunks[chunk]| == CHUNK
        && |e| - (CHUNK - nread % CHUNK) <= |store.chunks[chunk + 1]|
        && e == store.chunks[chunk][nread % CHUNK..] + store.chunks[chunk + 1][..|e| - (CHUNK - nread % CHUNK)]
      ensures forall i | chunk < i < |store.chunks| :: |store.chunks[i]| >= MIN_CHUNK
      ensures chunk + 1 < |store.chunks| ==> |store.chunks[chunk]| == CHUNK
    {
      if nread % CHUNK + |e| <= CHUNK {
        InChunk(store.chunks, store.flat, store.Capacity(), nread, e);
      } else {
        AcrossChunks(store.chunks, store.flat, store.Capacity(), nread, e);
        assert e == e[..CHUNK - nread % CHUNK] + e[CHUNK - nread % CHUNK..];
      }
    }

    /** Three bytes around the end of a chunk give the cell or its size. */
    lemma MiniBuffer(e: bytes, mini: bytes)
      requires Valid() && IsCell(read, e) && Stands(store.flat, nread, e)
      requires CHUNK - nread % CHUNK < MINBUFF && chunk + 1 < |store.chunks|
      requires |store.chunks[chunk]| == CHUNK && |store.chunks[chunk + 1]| >= MINBUFF
      requires mini == store.chunks[chunk][nread % CHUNK..] + store.chunks[chunk + 1][..MINBUFF - (CHUNK - nread % CHUNK)]
      ensures if |e| <= MINBUFF then read(mini) == |e| && mini[..|e|] == e else read(mini) == -|e|
    {
      hide Represents, Shaped, IsCell, Stands;
      Located(e);
      if |e| <= MINBUFF {
        assert mini[..|e|] == e;
        ReadWhole(read, e, mini);
      } else {
        assert mini == e[..MINBUFF];
        ReadCut(read, e, mini);
      }
    }

    /** The rest of a chunk, of three bytes or more, gives the cell or its size. */
    lemma InPlace(e: bytes, rest: bytes)
      requires Valid() && IsCell(read, e) && Stands(store.flat, nread, e)
      requires CHUNK - nread % CHUNK >= MINBUFF
      requires chunk < |store.chunks| && nread % CHUNK <= |store.chunks[chunk]| && rest == store.chunks[chunk][nread % CHUNK..]
      ensures if nread % CHUNK + |e| <= CHUNK then read(rest) == |e| else read(rest) == -|e|
    {
      hide Represents, Shaped, IsCell, Stands;
      Located(e);
      if nread % CHUNK + |e| <= CHUNK {
        assert rest[..|e|] == store.chunks[chunk][nread % CHUNK..nread % CHUNK + |e|];
        ReadWhole(read, e, rest);
      } else {
        assert rest == e[..|rest|];
        ReadCut(read, e, rest);
      }
    }
  }

  // ----- whole tables

  /** Where cell i begins. */
  function Offset(cells: seq<bytes>, i: nat): nat
    requires i <= |cells|
  {
    if i == 0 then 0 else Offset(cells, i - 1) + |cells[i - 1]|
  }

  function Concat(cells: seq<bytes>, i: nat): (s: bytes)
    requires i <= |cells|
    ensures |s| == Offset(cells, i)
  {
    if i == 0 then [] else Concat(cells, i - 1) + cells[i - 1]
  }

  lemma {:induction false} CellStands(cells: seq<bytes>, i: nat, n: nat)
    requires i < n <= |cells|
    ensures Stands(Concat(cells, n), Offset(cells, i), cells[i])
    decreases n
  {
    if i < n - 1 { CellStands(cells, i, n - 1); }
  }

  /** Of n bytes written, a cell at p has three in its chunk or a chunk after it. */
  predicate Seen(p: nat, n: nat) {
    CHUNK - p % CHUNK >= MINBUFF || p / CHUNK < n / CHUNK
  }

  method WriteAll(read: Codec, cells: seq<bytes>) returns (store: Store)
    requires forall i | 0 <= i < |cells| :: IsCell(read, cells[i])
    ensures fresh(store) && store.Valid() && store.flat == Concat(cells, |cells|)
  {
    hide IsCell, Represents, Shaped;
    store := new Store();
    for i := 0 to |cells|
      invariant fresh(store) && store.Valid() && store.flat == Concat(cells, i)
    {
      CellSize(read, cells[i]);
      var r := store.Write(cells[i]);
    }
  }

  /** Cells written one after the other are read back one by one, each with its own
      bytes; reading stops early exactly at a cell that is not seen. */
  method StoreAndRead(read: Codec, cells: seq<bytes>) returns (ok: bool, outs: seq<bytes>)
    requires forall i | 0 <= i < |cells| :: IsCell(read, cells[i])
    ensures outs <= cells && (ok <==> outs == cells)
    ensures ok <==> forall i | 0 <= i < |cells| :: Seen(Offset(cells, i), Offset(cells, |cells|))
  {
    hide IsCell, Represents, Shaped, Seen, Stands, Concat, CellReader.Visible;
    var store := WriteAll(read, cells);
    var reader := new CellReader(store, read);
    outs := [];
    for i := 0 to |cells|
      invariant fresh(reader) && reader.store == store && reader.read == read && reader.Valid()
      invariant store.flat == Concat(cells, |cells|) && reader.nread == Offset(cells, i) && outs == cells[..i]
      invariant forall j | 0 <= j < i :: Seen(Offset(cells, j), Offset(cells, |cells|))
    {
      CellStands(cells, i, |cells|);
      CellSize(read, cells[i]);
      SeenIs(reader);
      var r, out := reader.ReadData(false, cells[i]);
      if r < 0 { return false, outs; }
      outs := outs + [out];
    }
    assert cells[..|cells|] == cells;
    ok := true;
  }

  lemma CellSize(read: Codec, e: bytes)
    requires IsCell(read, e)
    ensures 0 < |e| < LIMIT
  {
  }

  lemma SeenIs(reader: CellReader)
    requires reader.Valid()
    ensures reader.Visible() <==> Seen(reader.nread, |reader.store.flat|)
  {
  }
}
