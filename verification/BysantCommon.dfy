/** Definitions shared by the Bysant serializer and deserializer
    (libs/bysant/bysant.h and the opcode tables of libs/bysant/bysant_common.c). */
module BysantCommon {
  import opened Bytes

  type int64 = x: int | -0x8000_0000_0000_0000 <= x < 0x8000_0000_0000_0000
  type int32 = x: int | -0x8000_0000 <= x < 0x8000_0000

  // Data contexts. A context travels as one raw byte, so it stays a number.
  const CTX_GLOBAL := 0
  const CTX_UIS := 1
  const CTX_NUMBER := 2
  const CTX_INT32 := 3
  const CTX_FLOAT := 4
  const CTX_DOUBLE := 5
  const CTX_LISTMAP := 6
  const CTX_LAST := 7
  const CTX_CHUNKED := 256
  const CTX_OBJECT := 257

  /** Both codecs hold their frames in an array of this size. */
  const STACK_SIZE := 16

  datatype Kind = FTop | FMap | FZMap | FObject | FList | FZList | FChunked

  /** A class: one context per field, and `beyond`, the context found one place
      past the last field, which is what a lookup on a full object reads. */
  datatype Class = Class(fields: seq<int>, beyond: int)
  type Classes = map<uint32, Class>

  /** One stack frame; both codecs use the same layout. `even` is meaningful for
      maps only, `klass` for objects only, `missing` for fixed containers only. */
  datatype Frame = Frame(kind: Kind, ctxid: int, missing: int, even: bool, klass: Class)

  const NO_CLASS := Class([], CTX_GLOBAL)
  const TOP_FRAME := Frame(FTop, CTX_GLOBAL, -1, false, NO_CLASS)

  predicate IsMap(f: Frame) {
    f.kind.FMap? || f.kind.FZMap?
  }

  /** Containers that declare how many children they hold. */
  predicate IsFixed(f: Frame) {
    f.kind.FMap? || f.kind.FList? || f.kind.FObject?
  }

  /** `getctxid`: the context in which the next child is coded. */
  function CtxOf(f: Frame): int {
    if IsMap(f) && f.even then CTX_UIS
    else if f.kind.FObject? then
      var i := |f.klass.fields| - f.missing;
      if 0 <= i < |f.klass.fields| then f.klass.fields[i] else f.klass.beyond
    else f.ctxid
  }

  datatype IntEncoding = IntEncoding(
    tinyMin: int, tinyMax: int, tinyZero: byte,
    smallMin: int, smallMax: int, smallNeg: byte, smallPos: byte,
    mediumMin: int, mediumMax: int, mediumNeg: byte, mediumPos: byte,
    largeMin: int, largeMax: int, largeNeg: byte, largePos: byte, lastLargeNeg: byte,
    int32Op: byte, int64Op: byte)

  const GLOBAL_INTEGER := IntEncoding(
    -31, 64, 0x9f,
    -2079, 2112, 0xe8, 0xe0,
    -264223, 264256, 0xf4, 0xf0,
    -33818655, 33818688, 0xfa, 0xf8, 0xfb,
    0xfc, 0xfd)

  const NUMBER_INTEGER := IntEncoding(
    -97, 97, 0x62,
    -4193, 4193, 0xd4, 0xc4,
    -528481, 528481, 0xec, 0xe4,
    -67637345, 67637345, 0xf8, 0xf4, 0xfb,
    0xfc, 0xfd)

  // Limits of the unsigned integers of the unsigned-or-string context.
  const UTI_MAX := 139
  const USI_MAX := 8331
  const UMI_MAX := 1056907
  const ULI_MAX := 135274635

  datatype StringEncoding = StringEncoding(
    smallLimit: nat, smallOp: byte,
    mediumLimit: nat, mediumOp: byte,
    largeLimit: nat, largeOp: byte,
    chunkedOp: byte)

  const GLOBAL_STRING := StringEncoding(32, 0x03, 1056, 0x24, 66592, 0x28, 0x29)
  const UIS_STRING := StringEncoding(47, 0x01, 2095, 0x31, 67631, 0x39, 0x3a)

  datatype CollEncoding = CollEncoding(
    emptyOp: byte, variableTyped: byte, variableUntyped: byte,
    smallLimit: nat, smallTyped: byte, smallUntyped: byte,
    longTyped: byte, longUntyped: byte,
    fixedKind: Kind, variableKind: Kind)

  const GLOBAL_LIST := CollEncoding(0x2a, 0x40, 0x35, 9, 0x36, 0x2b, 0x3f, 0x34, FList, FZList)
  const GLOBAL_MAP := CollEncoding(0x41, 0x57, 0x4c, 9, 0x4d, 0x42, 0x56, 0x4b, FMap, FZMap)
  const LISTMAP_LIST := CollEncoding(0x01, 0x7d, 0x3f, 60, 0x40, 0x02, 0x7c, 0x3e, FList, FZList)
  const LISTMAP_MAP := CollEncoding(0x83, 0xff, 0xc1, 60, 0xc2, 0x84, 0xfe, 0xc0, FMap, FZMap)
}
