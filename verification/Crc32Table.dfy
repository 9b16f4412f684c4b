/**
 The constant table of boot/common/crc32.c, eight words to a row in the source's
 order, and the proof that every word of it is what eight shifts of the register
 make of its index.
 */
module Crc32Table {
  import opened CrcRegister

  function Pick(i: bv3, w0: bv32, w1: bv32, w2: bv32, w3: bv32,
                w4: bv32, w5: bv32, w6: bv32, w7: bv32): bv32
  {
    match i
    case 0 => w0
    case 1 => w1
    case 2 => w2
    case 3 => w3
    case 4 => w4
    case 5 => w5
    case 6 => w6
    case _ => w7
  }

  function Row0(i: bv3): bv32 {
    Pick(i, 0x00000000, 0x77073096, 0xee0e612c, 0x990951ba,
            0x076dc419, 0x706af48f, 0xe963a535, 0x9e6495a3)
  }
  function Row1(i: bv3): bv32 {
    Pick(i, 0x0edb8832, 0x79dcb8a4, 0xe0d5e91e, 0x97d2d988,
            0x09b64c2b, 0x7eb17cbd, 0xe7b82d07, 0x90bf1d91)
  }
  function Row2(i: bv3): bv32 {
    Pick(i, 0x1db71064, 0x6ab020f2, 0xf3b97148, 0x84be41de,
            0x1adad47d, 0x6ddde4eb, 0xf4d4b551, 0x83d385c7)
  }
  function Row3(i: bv3): bv32 {
    Pick(i, 0x136c9856, 0x646ba8c0, 0xfd62f97a, 0x8a65c9ec,
            0x14015c4f, 0x63066cd9, 0xfa0f3d63, 0x8d080df5)
  }
  function Row4(i: bv3): bv32 {
    Pick(i, 0x3b6e20c8, 0x4c69105e, 0xd56041e4, 0xa2677172,
            0x3c03e4d1, 0x4b04d447, 0xd20d85fd, 0xa50ab56b)
  }
  function Row5(i: bv3): bv32 {
    Pick(i, 0x35b5a8fa, 0x42b2986c, 0xdbbbc9d6, 0xacbcf940,
            0x32d86ce3, 0x45df5c75, 0xdcd60dcf, 0xabd13d59)
  }
  function Row6(i: bv3): bv32 {
    Pick(i, 0x26d930ac, 0x51de003a, 0xc8d75180, 0xbfd06116,
            0x21b4f4b5, 0x56b3c423, 0xcfba9599, 0xb8bda50f)
  }
  function Row7(i: bv3): bv32 {
    Pick(i, 0x2802b89e, 0x5f058808, 0xc60cd9b2, 0xb10be924,
            0x2f6f7c87, 0x58684c11, 0xc1611dab, 0xb6662d3d)
  }
  function Row8(i: bv3): bv32 {
    Pick(i, 0x76dc4190, 0x01db7106, 0x98d220bc, 0xefd5102a,
            0x71b18589, 0x06b6b51f, 0x9fbfe4a5, 0xe8b8d433)
  }
  function Row9(i: bv3): bv32 {
    Pick(i, 0x7807c9a2, 0x0f00f934, 0x9609a88e, 0xe10e9818,
            0x7f6a0dbb, 0x086d3d2d, 0x91646c97, 0xe6635c01)
  }
  function Row10(i: bv3): bv32 {
    Pick(i, 0x6b6b51f4, 0x1c6c6162, 0x856530d8, 0xf262004e,
            0x6c0695ed, 0x1b01a57b, 0x8208f4c1, 0xf50fc457)
  }
  function Row11(i: bv3): bv32 {
    Pick(i, 0x65b0d9c6, 0x12b7e950, 0x8bbeb8ea, 0xfcb9887c,
            0x62dd1ddf, 0x15da2d49, 0x8cd37cf3, 0xfbd44c65)
  }
  function Row12(i: bv3): bv32 {
    Pick(i, 0x4db26158, 0x3ab551ce, 0xa3bc0074, 0xd4bb30e2,
            0x4adfa541, 0x3dd895d7, 0xa4d1c46d, 0xd3d6f4fb)
  }
  function Row13(i: bv3): bv32 {
    Pick(i, 0x4369e96a, 0x346ed9fc, 0xad678846, 0xda60b8d0,
            0x44042d73, 0x33031de5, 0xaa0a4c5f, 0xdd0d7cc9)
  }
  function Row14(i: bv3): bv32 {
    Pick(i, 0x5005713c, 0x270241aa, 0xbe0b1010, 0xc90c2086,
            0x5768b525, 0x206f85b3, 0xb966d409, 0xce61e49f)
  }
  function Row15(i: bv3): bv32 {
    Pick(i, 0x5edef90e, 0x29d9c998, 0xb0d09822, 0xc7d7a8b4,
            0x59b33d17, 0x2eb40d81, 0xb7bd5c3b, 0xc0ba6cad)
  }
  function Row16(i: bv3): bv32 {
    Pick(i, 0xedb88320, 0x9abfb3b6, 0x03b6e20c, 0x74b1d29a,
            0xead54739, 0x9dd277af, 0x04db2615, 0x73dc1683)
  }
  function Row17(i: bv3): bv32 {
    Pick(i, 0xe3630b12, 0x94643b84, 0x0d6d6a3e, 0x7a6a5aa8,
            0xe40ecf0b, 0x9309ff9d, 0x0a00ae27, 0x7d079eb1)
  }
  function Row18(i: bv3): bv32 {
    Pick(i, 0xf00f9344, 0x8708a3d2, 0x1e01f268, 0x6906c2fe,
            0xf762575d, 0x806567cb, 0x196c3671, 0x6e6b06e7)
  }
  function Row19(i: bv3): bv32 {
    Pick(i, 0xfed41b76, 0x89d32be0, 0x10da7a5a, 0x67dd4acc,
            0xf9b9df6f, 0x8ebeeff9, 0x17b7be43, 0x60b08ed5)
  }
  function Row20(i: bv3): bv32 {
    Pick(i, 0xd6d6a3e8, 0xa1d1937e, 0x38d8c2c4, 0x4fdff252,
            0xd1bb67f1, 0xa6bc5767, 0x3fb506dd, 0x48b2364b)
  }
  function Row21(i: bv3): bv32 {
    Pick(i, 0xd80d2bda, 0xaf0a1b4c, 0x36034af6, 0x41047a60,
            0xdf60efc3, 0xa867df55, 0x316e8eef, 0x4669be79)
  }
  function Row22(i: bv3): bv32 {
    Pick(i, 0xcb61b38c, 0xbc66831a, 0x256fd2a0, 0x5268e236,
            0xcc0c7795, 0xbb0b4703, 0x220216b9, 0x5505262f)
  }
  function Row23(i: bv3): bv32 {
    Pick(i, 0xc5ba3bbe, 0xb2bd0b28, 0x2bb45a92, 0x5cb36a04,
            0xc2d7ffa7, 0xb5d0cf31, 0x2cd99e8b, 0x5bdeae1d)
  }
  function Row24(i: bv3): bv32 {
    Pick(i, 0x9b64c2b0, 0xec63f226, 0x756aa39c, 0x026d930a,
            0x9c0906a9, 0xeb0e363f, 0x72076785, 0x05005713)
  }
  function Row25(i: bv3): bv32 {
    Pick(i, 0x95bf4a82, 0xe2b87a14, 0x7bb12bae, 0x0cb61b38,
            0x92d28e9b, 0xe5d5be0d, 0x7cdcefb7, 0x0bdbdf21)
  }
  function Row26(i: bv3): bv32 {
    Pick(i, 0x86d3d2d4, 0xf1d4e242, 0x68ddb3f8, 0x1fda836e,
            0x81be16cd, 0xf6b9265b, 0x6fb077e1, 0x18b74777)
  }
  function Row27(i: bv3): bv32 {
    Pick(i, 0x88085ae6, 0xff0f6a70, 0x66063bca, 0x11010b5c,
            0x8f659eff, 0xf862ae69, 0x616bffd3, 0x166ccf45)
  }
  function Row28(i: bv3): bv32 {
    Pick(i, 0xa00ae278, 0xd70dd2ee, 0x4e048354, 0x3903b3c2,
            0xa7672661, 0xd06016f7, 0x4969474d, 0x3e6e77db)
  }
  function Row29(i: bv3): bv32 {
    Pick(i, 0xaed16a4a, 0xd9d65adc, 0x40df0b66, 0x37d83bf0,
            0xa9bcae53, 0xdebb9ec5, 0x47b2cf7f, 0x30b5ffe9)
  }
  function Row30(i: bv3): bv32 {
    Pick(i, 0xbdbdf21c, 0xcabac28a, 0x53b39330, 0x24b4a3a6,
            0xbad03605, 0xcdd70693, 0x54de5729, 0x23d967bf)
  }
  function Row31(i: bv3): bv32 {
    Pick(i, 0xb3667a2e, 0xc4614ab8, 0x5d681b02, 0x2a6f2b94,
            0xb40bbe37, 0xc30c8ea1, 0x5a05df1b, 0x2d02ef8d)
  }

  /** crc32_tab[i] */
  function Table(i: bv8): bv32 {
    var lo := (i & 7) as bv3;
    match i >> 3
    case 0 => Row0(lo)
    case 1 => Row1(lo)
    case 2 => Row2(lo)
    case 3 => Row3(lo)
    case 4 => Row4(lo)
    case 5 => Row5(lo)
    case 6 => Row6(lo)
    case 7 => Row7(lo)
    case 8 => Row8(lo)
    case 9 => Row9(lo)
    case 10 => Row10(lo)
    case 11 => Row11(lo)
    case 12 => Row12(lo)
    case 13 => Row13(lo)
    case 14 => Row14(lo)
    case 15 => Row15(lo)
    case 16 => Row16(lo)
    case 17 => Row17(lo)
    case 18 => Row18(lo)
    case 19 => Row19(lo)
    case 20 => Row20(lo)
    case 21 => Row21(lo)
    case 22 => Row22(lo)
    case 23 => Row23(lo)
    case 24 => Row24(lo)
    case 25 => Row25(lo)
    case 26 => Row26(lo)
    case 27 => Row27(lo)
    case 28 => Row28(lo)
    case 29 => Row29(lo)
    case 30 => Row30(lo)
    case _ => Row31(lo)
  }

  lemma Row0Shifts(i: bv3) ensures Row0(i) == Shift8((i as bv32) | 0x00) {}
  lemma Row1Shifts(i: bv3) ensures Row1(i) == Shift8((i as bv32) | 0x08) {}
  lemma Row2Shifts(i: bv3) ensures Row2(i) == Shift8((i as bv32) | 0x10) {}
  lemma Row3Shifts(i: bv3) ensures Row3(i) == Shift8((i as bv32) | 0x18) {}
  lemma Row4Shifts(i: bv3) ensures Row4(i) == Shift8((i as bv32) | 0x20) {}
  lemma Row5Shifts(i: bv3) ensures Row5(i) == Shift8((i as bv32) | 0x28) {}
  lemma Row6Shifts(i: bv3) ensures Row6(i) == Shift8((i as bv32) | 0x30) {}
  lemma Row7Shifts(i: bv3) ensures Row7(i) == Shift8((i as bv32) | 0x38) {}
  lemma Row8Shifts(i: bv3) ensures Row8(i) == Shift8((i as bv32) | 0x40) {}
  lemma Row9Shifts(i: bv3) ensures Row9(i) == Shift8((i as bv32) | 0x48) {}
  lemma Row10Shifts(i: bv3) ensures Row10(i) == Shift8((i as bv32) | 0x50) {}
  lemma Row11Shifts(i: bv3) ensures Row11(i) == Shift8((i as bv32) | 0x58) {}
  lemma Row12Shifts(i: bv3) ensures Row12(i) == Shift8((i as bv32) | 0x60) {}
  lemma Row13Shifts(i: bv3) ensures Row13(i) == Shift8((i as bv32) | 0x68) {}
  lemma Row14Shifts(i: bv3) ensures Row14(i) == Shift8((i as bv32) | 0x70) {}
  lemma Row15Shifts(i: bv3) ensures Row15(i) == Shift8((i as bv32) | 0x78) {}
  lemma Row16Shifts(i: bv3) ensures Row16(i) == Shift8((i as bv32) | 0x80) {}
  lemma Row17Shifts(i: bv3) ensures Row17(i) == Shift8((i as bv32) | 0x88) {}
  lemma Row18Shifts(i: bv3) ensures Row18(i) == Shift8((i as bv32) | 0x90) {}
  lemma Row19Shifts(i: bv3) ensures Row19(i) == Shift8((i as bv32) | 0x98) {}
  lemma Row20Shifts(i: bv3) ensures Row20(i) == Shift8((i as bv32) | 0xa0) {}
  lemma Row21Shifts(i: bv3) ensures Row21(i) == Shift8((i as bv32) | 0xa8) {}
  lemma Row22Shifts(i: bv3) ensures Row22(i) == Shift8((i as bv32) | 0xb0) {}
  lemma Row23Shifts(i: bv3) ensures Row23(i) == Shift8((i as bv32) | 0xb8) {}
  lemma Row24Shifts(i: bv3) ensures Row24(i) == Shift8((i as bv32) | 0xc0) {}
  lemma Row25Shifts(i: bv3) ensures Row25(i) == Shift8((i as bv32) | 0xc8) {}
  lemma Row26Shifts(i: bv3) ensures Row26(i) == Shift8((i as bv32) | 0xd0) {}
  lemma Row27Shifts(i: bv3) ensures Row27(i) == Shift8((i as bv32) | 0xd8) {}
  lemma Row28Shifts(i: bv3) ensures Row28(i) == Shift8((i as bv32) | 0xe0) {}
  lemma Row29Shifts(i: bv3) ensures Row29(i) == Shift8((i as bv32) | 0xe8) {}
  lemma Row30Shifts(i: bv3) ensures Row30(i) == Shift8((i as bv32) | 0xf0) {}
  lemma Row31Shifts(i: bv3) ensures Row31(i) == Shift8((i as bv32) | 0xf8) {}

  lemma IndexSplits(i: bv8)
    ensures i as bv32 == (((i & 7) as bv3) as bv32) | ((i & 0xf8) as bv32)
  {
  }

  /** Every word of the table is eight shifts of its index. */
  lemma TableShifts(i: bv8)
    ensures Table(i) == Shift8(i as bv32)
  {
    IndexSplits(i);
    var lo := (i & 7) as bv3;
    match i >> 3
    case 0 => assert i & 0xf8 == 0; Row0Shifts(lo);
    case 1 => assert i & 0xf8 == 8; Row1Shifts(lo);
    case 2 => assert i & 0xf8 == 16; Row2Shifts(lo);
    case 3 => assert i & 0xf8 == 24; Row3Shifts(lo);
    case 4 => assert i & 0xf8 == 32; Row4Shifts(lo);
    case 5 => assert i & 0xf8 == 40; Row5Shifts(lo);
    case 6 => assert i & 0xf8 == 48; Row6Shifts(lo);
    case 7 => assert i & 0xf8 == 56; Row7Shifts(lo);
    case 8 => assert i & 0xf8 == 64; Row8Shifts(lo);
    case 9 => assert i & 0xf8 == 72; Row9Shifts(lo);
    case 10 => assert i & 0xf8 == 80; Row10Shifts(lo);
    case 11 => assert i & 0xf8 == 88; Row11Shifts(lo);
    case 12 => assert i & 0xf8 == 96; Row12Shifts(lo);
    case 13 => assert i & 0xf8 == 104; Row13Shifts(lo);
    case 14 => assert i & 0xf8 == 112; Row14Shifts(lo);
    case 15 => assert i & 0xf8 == 120; Row15Shifts(lo);
    case 16 => assert i & 0xf8 == 128; Row16Shifts(lo);
    case 17 => assert i & 0xf8 == 136; Row17Shifts(lo);
    case 18 => assert i & 0xf8 == 144; Row18Shifts(lo);
    case 19 => assert i & 0xf8 == 152; Row19Shifts(lo);
    case 20 => assert i & 0xf8 == 160; Row20Shifts(lo);
    case 21 => assert i & 0xf8 == 168; Row21Shifts(lo);
    case 22 => assert i & 0xf8 == 176; Row22Shifts(lo);
    case 23 => assert i & 0xf8 == 184; Row23Shifts(lo);
    case 24 => assert i & 0xf8 == 192; Row24Shifts(lo);
    case 25 => assert i & 0xf8 == 200; Row25Shifts(lo);
    case 26 => assert i & 0xf8 == 208; Row26Shifts(lo);
    case 27 => assert i & 0xf8 == 216; Row27Shifts(lo);
    case 28 => assert i & 0xf8 == 224; Row28Shifts(lo);
    case 29 => assert i & 0xf8 == 232; Row29Shifts(lo);
    case 30 => assert i & 0xf8 == 240; Row30Shifts(lo);
    case _ => assert i & 0xf8 == 248; Row31Shifts(lo);
  }
}
