/** The S-box and its inverse (libs/openaes/oaes_lib.c:92-133 and 255-285). */
module AesBox {
  import opened Bytes

  /** The S-box, row by row. */
  function Box(n: byte): byte {
    var x, y := n % 16, n / 16;
    if y == 0 then BoxRow0(x)
    else if y == 1 then BoxRow1(x)
    else if y == 2 then BoxRow2(x)
    else if y == 3 then BoxRow3(x)
    else if y == 4 then BoxRow4(x)
    else if y == 5 then BoxRow5(x)
    else if y == 6 then BoxRow6(x)
    else if y == 7 then BoxRow7(x)
    else if y == 8 then BoxRow8(x)
    else if y == 9 then BoxRow9(x)
    else if y == 10 then BoxRow10(x)
    else if y == 11 then BoxRow11(x)
    else if y == 12 then BoxRow12(x)
    else if y == 13 then BoxRow13(x)
    else if y == 14 then BoxRow14(x)
    else BoxRow15(x)
  }

  function BoxRow0(x: nat): byte {
    if x == 0 then 0x63 else if x == 1 then 0x7c else if x == 2 then 0x77 else if x == 3 then 0x7b else if x == 4 then 0xf2
    else if x == 5 then 0x6b else if x == 6 then 0x6f else if x == 7 then 0xc5 else if x == 8 then 0x30 else if x == 9 then 0x01
    else if x == 10 then 0x67 else if x == 11 then 0x2b else if x == 12 then 0xfe else if x == 13 then 0xd7 else if x == 14 then 0xab else 0x76
  }

  function BoxRow1(x: nat): byte {
    if x == 0 then 0xca else if x == 1 then 0x82 else if x == 2 then 0xc9 else if x == 3 then 0x7d else if x == 4 then 0xfa
    else if x == 5 then 0x59 else if x == 6 then 0x47 else if x == 7 then 0xf0 else if x == 8 then 0xad else if x == 9 then 0xd4
    else if x == 10 then 0xa2 else if x == 11 then 0xaf else if x == 12 then 0x9c else if x == 13 then 0xa4 else if x == 14 then 0x72 else 0xc0
  }

  function BoxRow2(x: nat): byte {
    if x == 0 then 0xb7 else if x == 1 then 0xfd else if x == 2 then 0x93 else if x == 3 then 0x26 else if x == 4 then 0x36
    else if x == 5 then 0x3f else if x == 6 then 0xf7 else if x == 7 then 0xcc else if x == 8 then 0x34 else if x == 9 then 0xa5
    else if x == 10 then 0xe5 else if x == 11 then 0xf1 else if x == 12 then 0x71 else if x == 13 then 0xd8 else if x == 14 then 0x31 else 0x15
  }

  function BoxRow3(x: nat): byte {
    if x == 0 then 0x04 else if x == 1 then 0xc7 else if x == 2 then 0x23 else if x == 3 then 0xc3 else if x == 4 then 0x18
    else if x == 5 then 0x96 else if x == 6 then 0x05 else if x == 7 then 0x9a else if x == 8 then 0x07 else if x == 9 then 0x12
    else if x == 10 then 0x80 else if x == 11 then 0xe2 else if x == 12 then 0xeb else if x == 13 then 0x27 else if x == 14 then 0xb2 else 0x75
  }

  function BoxRow4(x: nat): byte {
    if x == 0 then 0x09 else if x == 1 then 0x83 else if x == 2 then 0x2c else if x == 3 then 0x1a else if x == 4 then 0x1b
    else if x == 5 then 0x6e else if x == 6 then 0x5a else if x == 7 then 0xa0 else if x == 8 then 0x52 else if x == 9 then 0x3b
    else if x == 10 then 0xd6 else if x == 11 then 0xb3 else if x == 12 then 0x29 else if x == 13 then 0xe3 else if x == 14 then 0x2f else 0x84
  }

  function BoxRow5(x: nat): byte {
    if x == 0 then 0x53 else if x == 1 then 0xd1 else if x == 2 then 0x00 else if x == 3 then 0xed else if x == 4 then 0x20
    else if x == 5 then 0xfc else if x == 6 then 0xb1 else if x == 7 then 0x5b else if x == 8 then 0x6a else if x == 9 then 0xcb
    else if x == 10 then 0xbe else if x == 11 then 0x39 else if x == 12 then 0x4a else if x == 13 then 0x4c else if x == 14 then 0x58 else 0xcf
  }

  function BoxRow6(x: nat): byte {
    if x == 0 then 0xd0 else if x == 1 then 0xef else if x == 2 then 0xaa else if x == 3 then 0xfb else if x == 4 then 0x43
    else if x == 5 then 0x4d else if x == 6 then 0x33 else if x == 7 then 0x85 else if x == 8 then 0x45 else if x == 9 then 0xf9
    else if x == 10 then 0x02 else if x == 11 then 0x7f else if x == 12 then 0x50 else if x == 13 then 0x3c else if x == 14 then 0x9f else 0xa8
  }

  function BoxRow7(x: nat): byte {
    if x == 0 then 0x51 else if x == 1 then 0xa3 else if x == 2 then 0x40 else if x == 3 then 0x8f else if x == 4 then 0x92
    else if x == 5 then 0x9d else if x == 6 then 0x38 else if x == 7 then 0xf5 else if x == 8 then 0xbc else if x == 9 then 0xb6
    else if x == 10 then 0xda else if x == 11 then 0x21 else if x == 12 then 0x10 else if x == 13 then 0xff else if x == 14 then 0xf3 else 0xd2
  }

  function BoxRow8(x: nat): byte {
    if x == 0 then 0xcd else if x == 1 then 0x0c else if x == 2 then 0x13 else if x == 3 then 0xec else if x == 4 then 0x5f
    else if x == 5 then 0x97 else if x == 6 then 0x44 else if x == 7 then 0x17 else if x == 8 then 0xc4 else if x == 9 then 0xa7
    else if x == 10 then 0x7e else if x == 11 then 0x3d else if x == 12 then 0x64 else if x == 13 then 0x5d else if x == 14 then 0x19 else 0x73
  }

  function BoxRow9(x: nat): byte {
    if x == 0 then 0x60 else if x == 1 then 0x81 else if x == 2 then 0x4f else if x == 3 then 0xdc else if x == 4 then 0x22
    else if x == 5 then 0x2a else if x == 6 then 0x90 else if x == 7 then 0x88 else if x == 8 then 0x46 else if x == 9 then 0xee
    else if x == 10 then 0xb8 else if x == 11 then 0x14 else if x == 12 then 0xde else if x == 13 then 0x5e else if x == 14 then 0x0b else 0xdb
  }

  function BoxRow10(x: nat): byte {
    if x == 0 then 0xe0 else if x == 1 then 0x32 else if x == 2 then 0x3a else if x == 3 then 0x0a else if x == 4 then 0x49
    else if x == 5 then 0x06 else if x == 6 then 0x24 else if x == 7 then 0x5c else if x == 8 then 0xc2 else if x == 9 then 0xd3
    else if x == 10 then 0xac else if x == 11 then 0x62 else if x == 12 then 0x91 else if x == 13 then 0x95 else if x == 14 then 0xe4 else 0x79
  }

  function BoxRow11(x: nat): byte {
    if x == 0 then 0xe7 else if x == 1 then 0xc8 else if x == 2 then 0x37 else if x == 3 then 0x6d else if x == 4 then 0x8d
    else if x == 5 then 0xd5 else if x == 6 then 0x4e else if x == 7 then 0xa9 else if x == 8 then 0x6c else if x == 9 then 0x56
    else if x == 10 then 0xf4 else if x == 11 then 0xea else if x == 12 then 0x65 else if x == 13 then 0x7a else if x == 14 then 0xae else 0x08
  }

  function BoxRow12(x: nat): byte {
    if x == 0 then 0xba else if x == 1 then 0x78 else if x == 2 then 0x25 else if x == 3 then 0x2e else if x == 4 then 0x1c
    else if x == 5 then 0xa6 else if x == 6 then 0xb4 else if x == 7 then 0xc6 else if x == 8 then 0xe8 else if x == 9 then 0xdd
    else if x == 10 then 0x74 else if x == 11 then 0x1f else if x == 12 then 0x4b else if x == 13 then 0xbd else if x == 14 then 0x8b else 0x8a
  }

  function BoxRow13(x: nat): byte {
    if x == 0 then 0x70 else if x == 1 then 0x3e else if x == 2 then 0xb5 else if x == 3 then 0x66 else if x == 4 then 0x48
    else if x == 5 then 0x03 else if x == 6 then 0xf6 else if x == 7 then 0x0e else if x == 8 then 0x61 else if x == 9 then 0x35
    else if x == 10 then 0x57 else if x == 11 then 0xb9 else if x == 12 then 0x86 else if x == 13 then 0xc1 else if x == 14 then 0x1d else 0x9e
  }

  function BoxRow14(x: nat): byte {
    if x == 0 then 0xe1 else if x == 1 then 0xf8 else if x == 2 then 0x98 else if x == 3 then 0x11 else if x == 4 then 0x69
    else if x == 5 then 0xd9 else if x == 6 then 0x8e else if x == 7 then 0x94 else if x == 8 then 0x9b else if x == 9 then 0x1e
    else if x == 10 then 0x87 else if x == 11 then 0xe9 else if x == 12 then 0xce else if x == 13 then 0x55 else if x == 14 then 0x28 else 0xdf
  }

  function BoxRow15(x: nat): byte {
    if x == 0 then 0x8c else if x == 1 then 0xa1 else if x == 2 then 0x89 else if x == 3 then 0x0d else if x == 4 then 0xbf
    else if x == 5 then 0xe6 else if x == 6 then 0x42 else if x == 7 then 0x68 else if x == 8 then 0x41 else if x == 9 then 0x99
    else if x == 10 then 0x2d else if x == 11 then 0x0f else if x == 12 then 0xb0 else if x == 13 then 0x54 else if x == 14 then 0xbb else 0x16
  }

  /** The inverse box. */
  function InvBox(n: byte): byte {
    var x, y := n % 16, n / 16;
    if y == 0 then InvBoxRow0(x)
    else if y == 1 then InvBoxRow1(x)
    else if y == 2 then InvBoxRow2(x)
    else if y == 3 then InvBoxRow3(x)
    else if y == 4 then InvBoxRow4(x)
    else if y == 5 then InvBoxRow5(x)
    else if y == 6 then InvBoxRow6(x)
    else if y == 7 then InvBoxRow7(x)
    else if y == 8 then InvBoxRow8(x)
    else if y == 9 then InvBoxRow9(x)
    else if y == 10 then InvBoxRow10(x)
    else if y == 11 then InvBoxRow11(x)
    else if y == 12 then InvBoxRow12(x)
    else if y == 13 then InvBoxRow13(x)
    else if y == 14 then InvBoxRow14(x)
    else InvBoxRow15(x)
  }

  function InvBoxRow0(x: nat): byte {
    if x == 0 then 0x52 else if x == 1 then 0x09 else if x == 2 then 0x6a else if x == 3 then 0xd5 else if x == 4 then 0x30
    else if x == 5 then 0x36 else if x == 6 then 0xa5 else if x == 7 then 0x38 else if x == 8 then 0xbf else if x == 9 then 0x40
    else if x == 10 then 0xa3 else if x == 11 then 0x9e else if x == 12 then 0x81 else if x == 13 then 0xf3 else if x == 14 then 0xd7 else 0xfb
  }

  function InvBoxRow1(x: nat): byte {
    if x == 0 then 0x7c else if x == 1 then 0xe3 else if x == 2 then 0x39 else if x == 3 then 0x82 else if x == 4 then 0x9b
    else if x == 5 then 0x2f else if x == 6 then 0xff else if x == 7 then 0x87 else if x == 8 then 0x34 else if x == 9 then 0x8e
    else if x == 10 then 0x43 else if x == 11 then 0x44 else if x == 12 then 0xc4 else if x == 13 then 0xde else if x == 14 then 0xe9 else 0xcb
  }

  function InvBoxRow2(x: nat): byte {
    if x == 0 then 0x54 else if x == 1 then 0x7b else if x == 2 then 0x94 else if x == 3 then 0x32 else if x == 4 then 0xa6
    else if x == 5 then 0xc2 else if x == 6 then 0x23 else if x == 7 then 0x3d else if x == 8 then 0xee else if x == 9 then 0x4c
    else if x == 10 then 0x95 else if x == 11 then 0x0b else if x == 12 then 0x42 else if x == 13 then 0xfa else if x == 14 then 0xc3 else 0x4e
  }

  function InvBoxRow3(x: nat): byte {
    if x == 0 then 0x08 else if x == 1 then 0x2e else if x == 2 then 0xa1 else if x == 3 then 0x66 else if x == 4 then 0x28
    else if x == 5 then 0xd9 else if x == 6 then 0x24 else if x == 7 then 0xb2 else if x == 8 then 0x76 else if x == 9 then 0x5b
    else if x == 10 then 0xa2 else if x == 11 then 0x49 else if x == 12 then 0x6d else if x == 13 then 0x8b else if x == 14 then 0xd1 else 0x25
  }

  function InvBoxRow4(x: nat): byte {
    if x == 0 then 0x72 else if x == 1 then 0xf8 else if x == 2 then 0xf6 else if x == 3 then 0x64 else if x == 4 then 0x86
    else if x == 5 then 0x68 else if x == 6 then 0x98 else if x == 7 then 0x16 else if x == 8 then 0xd4 else if x == 9 then 0xa4
    else if x == 10 then 0x5c else if x == 11 then 0xcc else if x == 12 then 0x5d else if x == 13 then 0x65 else if x == 14 then 0xb6 else 0x92
  }

  function InvBoxRow5(x: nat): byte {
    if x == 0 then 0x6c else if x == 1 then 0x70 else if x == 2 then 0x48 else if x == 3 then 0x50 else if x == 4 then 0xfd
    else if x == 5 then 0xed else if x == 6 then 0xb9 else if x == 7 then 0xda else if x == 8 then 0x5e else if x == 9 then 0x15
    else if x == 10 then 0x46 else if x == 11 then 0x57 else if x == 12 then 0xa7 else if x == 13 then 0x8d else if x == 14 then 0x9d else 0x84
  }

  function InvBoxRow6(x: nat): byte {
    if x == 0 then 0x90 else if x == 1 then 0xd8 else if x == 2 then 0xab else if x == 3 then 0x00 else if x == 4 then 0x8c
    else if x == 5 then 0xbc else if x == 6 then 0xd3 else if x == 7 then 0x0a else if x == 8 then 0xf7 else if x == 9 then 0xe4
    else if x == 10 then 0x58 else if x == 11 then 0x05 else if x == 12 then 0xb8 else if x == 13 then 0xb3 else if x == 14 then 0x45 else 0x06
  }

  function InvBoxRow7(x: nat): byte {
    if x == 0 then 0xd0 else if x == 1 then 0x2c else if x == 2 then 0x1e else if x == 3 then 0x8f else if x == 4 then 0xca
    else if x == 5 then 0x3f else if x == 6 then 0x0f else if x == 7 then 0x02 else if x == 8 then 0xc1 else if x == 9 then 0xaf
    else if x == 10 then 0xbd else if x == 11 then 0x03 else if x == 12 then 0x01 else if x == 13 then 0x13 else if x == 14 then 0x8a else 0x6b
  }

  function InvBoxRow8(x: nat): byte {
    if x == 0 then 0x3a else if x == 1 then 0x91 else if x == 2 then 0x11 else if x == 3 then 0x41 else if x == 4 then 0x4f
    else if x == 5 then 0x67 else if x == 6 then 0xdc else if x == 7 then 0xea else if x == 8 then 0x97 else if x == 9 then 0xf2
    else if x == 10 then 0xcf else if x == 11 then 0xce else if x == 12 then 0xf0 else if x == 13 then 0xb4 else if x == 14 then 0xe6 else 0x73
  }

  function InvBoxRow9(x: nat): byte {
    if x == 0 then 0x96 else if x == 1 then 0xac else if x == 2 then 0x74 else if x == 3 then 0x22 else if x == 4 then 0xe7
    else if x == 5 then 0xad else if x == 6 then 0x35 else if x == 7 then 0x85 else if x == 8 then 0xe2 else if x == 9 then 0xf9
    else if x == 10 then 0x37 else if x == 11 then 0xe8 else if x == 12 then 0x1c else if x == 13 then 0x75 else if x == 14 then 0xdf else 0x6e
  }

  function InvBoxRow10(x: nat): byte {
    if x == 0 then 0x47 else if x == 1 then 0xf1 else if x == 2 then 0x1a else if x == 3 then 0x71 else if x == 4 then 0x1d
    else if x == 5 then 0x29 else if x == 6 then 0xc5 else if x == 7 then 0x89 else if x == 8 then 0x6f else if x == 9 then 0xb7
    else if x == 10 then 0x62 else if x == 11 then 0x0e else if x == 12 then 0xaa else if x == 13 then 0x18 else if x == 14 then 0xbe else 0x1b
  }

  function InvBoxRow11(x: nat): byte {
    if x == 0 then 0xfc else if x == 1 then 0x56 else if x == 2 then 0x3e else if x == 3 then 0x4b else if x == 4 then 0xc6
    else if x == 5 then 0xd2 else if x == 6 then 0x79 else if x == 7 then 0x20 else if x == 8 then 0x9a else if x == 9 then 0xdb
    else if x == 10 then 0xc0 else if x == 11 then 0xfe else if x == 12 then 0x78 else if x == 13 then 0xcd else if x == 14 then 0x5a else 0xf4
  }

  function InvBoxRow12(x: nat): byte {
    if x == 0 then 0x1f else if x == 1 then 0xdd else if x == 2 then 0xa8 else if x == 3 then 0x33 else if x == 4 then 0x88
    else if x == 5 then 0x07 else if x == 6 then 0xc7 else if x == 7 then 0x31 else if x == 8 then 0xb1 else if x == 9 then 0x12
    else if x == 10 then 0x10 else if x == 11 then 0x59 else if x == 12 then 0x27 else if x == 13 then 0x80 else if x == 14 then 0xec else 0x5f
  }

  function InvBoxRow13(x: nat): byte {
    if x == 0 then 0x60 else if x == 1 then 0x51 else if x == 2 then 0x7f else if x == 3 then 0xa9 else if x == 4 then 0x19
    else if x == 5 then 0xb5 else if x == 6 then 0x4a else if x == 7 then 0x0d else if x == 8 then 0x2d else if x == 9 then 0xe5
    else if x == 10 then 0x7a else if x == 11 then 0x9f else if x == 12 then 0x93 else if x == 13 then 0xc9 else if x == 14 then 0x9c else 0xef
  }

  function InvBoxRow14(x: nat): byte {
    if x == 0 then 0xa0 else if x == 1 then 0xe0 else if x == 2 then 0x3b else if x == 3 then 0x4d else if x == 4 then 0xae
    else if x == 5 then 0x2a else if x == 6 then 0xf5 else if x == 7 then 0xb0 else if x == 8 then 0xc8 else if x == 9 then 0xeb
    else if x == 10 then 0xbb else if x == 11 then 0x3c else if x == 12 then 0x83 else if x == 13 then 0x53 else if x == 14 then 0x99 else 0x61
  }

  function InvBoxRow15(x: nat): byte {
    if x == 0 then 0x17 else if x == 1 then 0x2b else if x == 2 then 0x04 else if x == 3 then 0x7e else if x == 4 then 0xba
    else if x == 5 then 0x77 else if x == 6 then 0xd6 else if x == 7 then 0x26 else if x == 8 then 0xe1 else if x == 9 then 0x69
    else if x == 10 then 0x14 else if x == 11 then 0x63 else if x == 12 then 0x55 else if x == 13 then 0x21 else if x == 14 then 0x0c else 0x7d
  }

  lemma {:induction false} RowUndone0(n: byte)
    requires n / 16 == 0
    ensures InvBox(Box(n)) == n
  {
  }

  lemma {:induction false} RowUndone1(n: byte)
    requires n / 16 == 1
    ensures InvBox(Box(n)) == n
  {
  }

  lemma {:induction false} RowUndone2(n: byte)
    requires n / 16 == 2
    ensures InvBox(Box(n)) == n
  {
  }

  lemma {:induction false} RowUndone3(n: byte)
    requires n / 16 == 3
    ensures InvBox(Box(n)) == n
  {
  }

  lemma {:induction false} RowUndone4(n: byte)
    requires n / 16 == 4
    ensures InvBox(Box(n)) == n
  {
  }

  lemma {:induction false} RowUndone5(n: byte)
    requires n / 16 == 5
    ensures InvBox(Box(n)) == n
  {
  }

  lemma {:induction false} RowUndone6(n: byte)
    requires n / 16 == 6
    ensures InvBox(Box(n)) == n
  {
  }

  lemma {:induction false} RowUndone7(n: byte)
    requires n / 16 == 7
    ensures InvBox(Box(n)) == n
  {
  }

  lemma {:induction false} RowUndone8(n: byte)
    requires n / 16 == 8
    ensures InvBox(Box(n)) == n
  {
  }

  lemma {:induction false} RowUndone9(n: byte)
    requires n / 16 == 9
    ensures InvBox(Box(n)) == n
  {
  }

  lemma {:induction false} RowUndone10(n: byte)
    requires n / 16 == 10
    ensures InvBox(Box(n)) == n
  {
  }

  lemma {:induction false} RowUndone11(n: byte)
    requires n / 16 == 11
    ensures InvBox(Box(n)) == n
  {
  }

  lemma {:induction false} RowUndone12(n: byte)
    requires n / 16 == 12
    ensures InvBox(Box(n)) == n
  {
  }

  lemma {:induction false} RowUndone13(n: byte)
    requires n / 16 == 13
    ensures InvBox(Box(n)) == n
  {
  }

  lemma {:induction false} RowUndone14(n: byte)
    requires n / 16 == 14
    ensures InvBox(Box(n)) == n
  {
  }

  lemma {:induction false} RowUndone15(n: byte)
    requires n / 16 == 15
    ensures InvBox(Box(n)) == n
  {
  }

  /** The inverse box undoes the box. */
  lemma {:induction false} BoxUndone(n: byte)
    ensures InvBox(Box(n)) == n
  {
    hide Box, InvBox;
    var y := n / 16;
    if y == 0 {
      RowUndone0(n);
    } else if y == 1 {
      RowUndone1(n);
    } else if y == 2 {
      RowUndone2(n);
    } else if y == 3 {
      RowUndone3(n);
    } else if y == 4 {
      RowUndone4(n);
    } else if y == 5 {
      RowUndone5(n);
    } else if y == 6 {
      RowUndone6(n);
    } else if y == 7 {
      RowUndone7(n);
    } else if y == 8 {
      RowUndone8(n);
    } else if y == 9 {
      RowUndone9(n);
    } else if y == 10 {
      RowUndone10(n);
    } else if y == 11 {
      RowUndone11(n);
    } else if y == 12 {
      RowUndone12(n);
    } else if y == 13 {
      RowUndone13(n);
    } else if y == 14 {
      RowUndone14(n);
    } else {
      RowUndone15(n);
    }
  }
}
