/** Serialized integers and strings are cells in the sense of the chunk store: the
    decoder knows their size from three bytes (libs/bysant/bysantd.c:170-221 and
    272-303, libs/bysant/sdb_read.c:97-118). */
module SdbCells {
  import opened Bytes
  import opened BysantCommon
  import opened BysantEncoding
  import opened BysantValues
  import D = BysantDecoding
  import R = BysantRoundTrip
  import S = SdbStore

  /** The number that `bsd_read` returns at top level. */
  function TopSize(classes: Classes): S.Codec {
    (buffer: bytes) => D.ReadNext(D.DEC_INIT, classes, buffer, |buffer|).n
  }

  /** At top level the size is that of the value decoded in the global context. */
  lemma TopIs(classes: Classes, buffer: bytes, n: int)
    requires D.DecodeIn(buffer, |buffer|, D.Last(D.DEC_INIT), false, classes).n == n
    ensures TopSize(classes)(buffer) == n
  {
    hide D.DecodeIn;
  }

  lemma IntegerCut(x: int64, k: nat, classes: Classes)
    requires 1 <= k < |IntegerBytes(x, GLOBAL_INTEGER)|
    ensures var e := IntegerBytes(x, GLOBAL_INTEGER); TopSize(classes)(e[..k]) == -|e|
  {
    hide D.DecodeInteger, IntegerBytes;
    IntegerPrefix(x, GLOBAL_INTEGER, k);
    TopIs(classes, IntegerBytes(x, GLOBAL_INTEGER)[..k], -|IntegerBytes(x, GLOBAL_INTEGER)|);
  }

  /** Every integer is a cell. */
  lemma IntegerCell(x: int64, classes: Classes)
    ensures S.IsCell(TopSize(classes), IntegerBytes(x, GLOBAL_INTEGER))
  {
    var e, top := IntegerBytes(x, GLOBAL_INTEGER), D.Last(D.DEC_INIT);
    assert 0 < |e| <= 9;
    hide D.DecodeIn, TopSize, IntegerBytes;
    forall rest ensures TopSize(classes)(e + rest) == |e| {
      R.IntItem(x, top, false, classes, rest);
      TopIs(classes, e + rest, |e|);
    }
    forall k | S.MINBUFF <= k < |e| ensures TopSize(classes)(e[..k]) == -|e| {
      IntegerCut(x, k, classes);
    }
  }

  lemma StringCut(data: bytes, k: nat, classes: Classes)
    requires |data| <= GLOBAL_STRING.largeLimit && 3 <= k < |StringBytes(data, GLOBAL_STRING)|
    ensures var e := StringBytes(data, GLOBAL_STRING); TopSize(classes)(e[..k]) == -|e|
  {
    hide D.DecodeInteger, D.DecodeString, StringBytes;
    var e, top := StringBytes(data, GLOBAL_STRING), D.Last(D.DEC_INIT);
    R.StringOpcode(data);
    assert D.At(e[..k], 0) == e[0];
    R.Dispatch(e[..k], k, top, false);
    StringPrefix(data, k, false, GLOBAL_STRING);
    TopIs(classes, e[..k], -|e|);
  }

  /** Every string whose serialized form is under 64 KiB is a cell. */
  lemma StringCell(data: bytes, classes: Classes)
    requires |data| <= GLOBAL_STRING.largeLimit && |StringBytes(data, GLOBAL_STRING)| < S.LIMIT
    ensures S.IsCell(TopSize(classes), StringBytes(data, GLOBAL_STRING))
  {
    hide D.DecodeIn, TopSize, StringBytes;
    var e, top := StringBytes(data, GLOBAL_STRING), D.Last(D.DEC_INIT);
    R.StringOpcode(data);
    forall rest ensures TopSize(classes)(e + rest) == |e| {
      R.StringItem(data, top, false, classes, rest);
      TopIs(classes, e + rest, |e|);
    }
    forall k | S.MINBUFF <= k < |e| ensures TopSize(classes)(e[..k]) == -|e| {
      StringCut(data, k, classes);
    }
  }
}
