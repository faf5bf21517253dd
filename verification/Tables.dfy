/** The constant tables of the AES (FIPS-197) and SM4 (GB/T 32907-2016) key schedules. */
module Tables {
  import opened Bytes
  import opened Words
  import AesSbox
  import ScheduleScan
  import Sm4Schedule

  /** One row of the SM4 S-box: the entries with this high half. */
  function Sm4Row(h: nat): (row: seq<byte>)
    requires h < 16
    ensures |row| == 16
  {
    match h
    case 0 => [0xd6, 0x90, 0xe9, 0xfe, 0xcc, 0xe1, 0x3d, 0xb7, 0x16, 0xb6, 0x14, 0xc2, 0x28, 0xfb, 0x2c, 0x05]
    case 1 => [0x2b, 0x67, 0x9a, 0x76, 0x2a, 0xbe, 0x04, 0xc3, 0xaa, 0x44, 0x13, 0x26, 0x49, 0x86, 0x06, 0x99]
    case 2 => [0x9c, 0x42, 0x50, 0xf4, 0x91, 0xef, 0x98, 0x7a, 0x33, 0x54, 0x0b, 0x43, 0xed, 0xcf, 0xac, 0x62]
    case 3 => [0xe4, 0xb3, 0x1c, 0xa9, 0xc9, 0x08, 0xe8, 0x95, 0x80, 0xdf, 0x94, 0xfa, 0x75, 0x8f, 0x3f, 0xa6]
    case 4 => [0x47, 0x07, 0xa7, 0xfc, 0xf3, 0x73, 0x17, 0xba, 0x83, 0x59, 0x3c, 0x19, 0xe6, 0x85, 0x4f, 0xa8]
    case 5 => [0x68, 0x6b, 0x81, 0xb2, 0x71, 0x64, 0xda, 0x8b, 0xf8, 0xeb, 0x0f, 0x4b, 0x70, 0x56, 0x9d, 0x35]
    case 6 => [0x1e, 0x24, 0x0e, 0x5e, 0x63, 0x58, 0xd1, 0xa2, 0x25, 0x22, 0x7c, 0x3b, 0x01, 0x21, 0x78, 0x87]
    case 7 => [0xd4, 0x00, 0x46, 0x57, 0x9f, 0xd3, 0x27, 0x52, 0x4c, 0x36, 0x02, 0xe7, 0xa0, 0xc4, 0xc8, 0x9e]
    case 8 => [0xea, 0xbf, 0x8a, 0xd2, 0x40, 0xc7, 0x38, 0xb5, 0xa3, 0xf7, 0xf2, 0xce, 0xf9, 0x61, 0x15, 0xa1]
    case 9 => [0xe0, 0xae, 0x5d, 0xa4, 0x9b, 0x34, 0x1a, 0x55, 0xad, 0x93, 0x32, 0x30, 0xf5, 0x8c, 0xb1, 0xe3]
    case 10 => [0x1d, 0xf6, 0xe2, 0x2e, 0x82, 0x66, 0xca, 0x60, 0xc0, 0x29, 0x23, 0xab, 0x0d, 0x53, 0x4e, 0x6f]
    case 11 => [0xd5, 0xdb, 0x37, 0x45, 0xde, 0xfd, 0x8e, 0x2f, 0x03, 0xff, 0x6a, 0x72, 0x6d, 0x6c, 0x5b, 0x51]
    case 12 => [0x8d, 0x1b, 0xaf, 0x92, 0xbb, 0xdd, 0xbc, 0x7f, 0x11, 0xd9, 0x5c, 0x41, 0x1f, 0x10, 0x5a, 0xd8]
    case 13 => [0x0a, 0xc1, 0x31, 0x88, 0xa5, 0xcd, 0x7b, 0xbd, 0x2d, 0x74, 0xd0, 0x12, 0xb8, 0xe5, 0xb4, 0xb0]
    case 14 => [0x89, 0x69, 0x97, 0x4a, 0x0c, 0x96, 0x77, 0x7e, 0x65, 0xb9, 0xf1, 0x09, 0xc5, 0x6e, 0xc6, 0x84]
    case _ => [0x18, 0xf0, 0x7d, 0xec, 0x3a, 0xdc, 0x4d, 0x20, 0x79, 0xee, 0x5f, 0x3e, 0xd7, 0xcb, 0x39, 0x48]
  }

  const SM4_FK: seq<Word> := [
    [0xa3, 0xb1, 0xba, 0xc6], [0x56, 0xaa, 0x33, 0x50], [0x67, 0x7d, 0x91, 0x97], [0xb2, 0x70, 0x22, 0xdc]
  ]

  /** Byte j of CK[i] is 7 * (4 * i + j) mod 256. */
  function Ck(i: nat): Word {
    seq(4, j requires 0 <= j < 4 => (7 * (4 * i + j) % 256) as byte)
  }

  const SM4_CK: seq<Word> := seq(32, i requires 0 <= i < 32 => Ck(i))

  lemma TableSizes()
    ensures |SM4_FK| == 4 && |SM4_CK| == 32
  {}

  function Sm4Box(b: byte): byte {
    Sm4Row((b >> 4) as nat)[(b & 0xf) as nat]
  }

  function Sm4Params(): (p: Sm4Schedule.Params)
    ensures p.Valid()
  {
    TableSizes();
    Sm4Schedule.Params(Sm4Box, SM4_FK, SM4_CK)
  }

  /** The key-schedule scan with the tables of the two standards. */
  method ScanDump(dump: seq<byte>) returns (hits: seq<ScheduleScan.Hit>, tried: nat)
    ensures hits == ScheduleScan.AllHits(AesSbox.SubByte, Sm4Params(), dump)
    ensures tried == (ScheduleScan.AesTotalFor(dump, ScheduleScan.AES_SIZES) + ScheduleScan.Sm4Total(dump)) % U64
  {
    hits, tried := ScheduleScan.ScanKeySchedules(AesSbox.SubByte, Sm4Params(), dump);
  }

  lemma ExampleBytes()
    ensures Sm4Box(0x82) == 0x8a && Sm4Box(0x83) == 0xd2 && Sm4Box(0xcb) == 0x41 && Sm4Box(0x69) == 0x22
  {}

  lemma CkByte(i: nat, j: nat, b: byte)
    requires j < 4 && b as nat == 7 * (4 * i + j) % 256
    ensures Ck(i)[j] == b
  {
    NatOfByte(b);
  }

  lemma FirstCk()
    ensures |SM4_CK| == 32 && SM4_CK[0] == [0x00, 0x07, 0x0e, 0x15]
  {
    CkByte(0, 0, 0x00);
    CkByte(0, 1, 0x07);
    CkByte(0, 2, 0x0e);
    CkByte(0, 3, 0x15);
    assert Ck(0) == [0x00, 0x07, 0x0e, 0x15];
  }

  /** The first round key of the example in appendix A of GB/T 32907-2016. */
  lemma ExampleRoundKey(key: seq<byte>)
    requires key == [0x01, 0x23, 0x45, 0x67, 0x89, 0xab, 0xcd, 0xef, 0xfe, 0xdc, 0xba, 0x98, 0x76, 0x54, 0x32, 0x10]
    ensures Sm4Schedule.RoundKey(Sm4Params(), key, 0) == [0xf1, 0x21, 0x86, 0xf9]
  {
    ExampleBytes();
    FirstCk();
    assert key[0..4] == [0x01, 0x23, 0x45, 0x67] && key[4..8] == [0x89, 0xab, 0xcd, 0xef];
    assert key[8..12] == [0xfe, 0xdc, 0xba, 0x98] && key[12..16] == [0x76, 0x54, 0x32, 0x10];
    Sm4Schedule.ExampleRoundKey(Sm4Params(), Sm4Schedule.MasterWords(key));
  }
}
