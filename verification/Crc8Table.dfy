/** CRC8_TABLE (standard_robot_pp_ros2/src/crc8_crc16.cpp:21-38) as sixteen rows of sixteen entries:
    row h, column c holds entry 16*h + c. */
module Crc8Table {
  function Row0(c: bv8): bv8 {
    match c
    case 0 => 0x00 case 1 => 0x5e case 2 => 0xbc case 3 => 0xe2 case 4 => 0x61 case 5 => 0x3f case 6 => 0xdd case 7 => 0x83
    case 8 => 0xc2 case 9 => 0x9c case 10 => 0x7e case 11 => 0x20 case 12 => 0xa3 case 13 => 0xfd case 14 => 0x1f case _ => 0x41
  }

  function Row1(c: bv8): bv8 {
    match c
    case 0 => 0x9d case 1 => 0xc3 case 2 => 0x21 case 3 => 0x7f case 4 => 0xfc case 5 => 0xa2 case 6 => 0x40 case 7 => 0x1e
    case 8 => 0x5f case 9 => 0x01 case 10 => 0xe3 case 11 => 0xbd case 12 => 0x3e case 13 => 0x60 case 14 => 0x82 case _ => 0xdc
  }

  function Row2(c: bv8): bv8 {
    match c
    case 0 => 0x23 case 1 => 0x7d case 2 => 0x9f case 3 => 0xc1 case 4 => 0x42 case 5 => 0x1c case 6 => 0xfe case 7 => 0xa0
    case 8 => 0xe1 case 9 => 0xbf case 10 => 0x5d case 11 => 0x03 case 12 => 0x80 case 13 => 0xde case 14 => 0x3c case _ => 0x62
  }

  function Row3(c: bv8): bv8 {
    match c
    case 0 => 0xbe case 1 => 0xe0 case 2 => 0x02 case 3 => 0x5c case 4 => 0xdf case 5 => 0x81 case 6 => 0x63 case 7 => 0x3d
    case 8 => 0x7c case 9 => 0x22 case 10 => 0xc0 case 11 => 0x9e case 12 => 0x1d case 13 => 0x43 case 14 => 0xa1 case _ => 0xff
  }

  function Row4(c: bv8): bv8 {
    match c
    case 0 => 0x46 case 1 => 0x18 case 2 => 0xfa case 3 => 0xa4 case 4 => 0x27 case 5 => 0x79 case 6 => 0x9b case 7 => 0xc5
    case 8 => 0x84 case 9 => 0xda case 10 => 0x38 case 11 => 0x66 case 12 => 0xe5 case 13 => 0xbb case 14 => 0x59 case _ => 0x07
  }

  function Row5(c: bv8): bv8 {
    match c
    case 0 => 0xdb case 1 => 0x85 case 2 => 0x67 case 3 => 0x39 case 4 => 0xba case 5 => 0xe4 case 6 => 0x06 case 7 => 0x58
    case 8 => 0x19 case 9 => 0x47 case 10 => 0xa5 case 11 => 0xfb case 12 => 0x78 case 13 => 0x26 case 14 => 0xc4 case _ => 0x9a
  }

  function Row6(c: bv8): bv8 {
    match c
    case 0 => 0x65 case 1 => 0x3b case 2 => 0xd9 case 3 => 0x87 case 4 => 0x04 case 5 => 0x5a case 6 => 0xb8 case 7 => 0xe6
    case 8 => 0xa7 case 9 => 0xf9 case 10 => 0x1b case 11 => 0x45 case 12 => 0xc6 case 13 => 0x98 case 14 => 0x7a case _ => 0x24
  }

  function Row7(c: bv8): bv8 {
    match c
    case 0 => 0xf8 case 1 => 0xa6 case 2 => 0x44 case 3 => 0x1a case 4 => 0x99 case 5 => 0xc7 case 6 => 0x25 case 7 => 0x7b
    case 8 => 0x3a case 9 => 0x64 case 10 => 0x86 case 11 => 0xd8 case 12 => 0x5b case 13 => 0x05 case 14 => 0xe7 case _ => 0xb9
  }

  function Row8(c: bv8): bv8 {
    match c
    case 0 => 0x8c case 1 => 0xd2 case 2 => 0x30 case 3 => 0x6e case 4 => 0xed case 5 => 0xb3 case 6 => 0x51 case 7 => 0x0f
    case 8 => 0x4e case 9 => 0x10 case 10 => 0xf2 case 11 => 0xac case 12 => 0x2f case 13 => 0x71 case 14 => 0x93 case _ => 0xcd
  }

  function Row9(c: bv8): bv8 {
    match c
    case 0 => 0x11 case 1 => 0x4f case 2 => 0xad case 3 => 0xf3 case 4 => 0x70 case 5 => 0x2e case 6 => 0xcc case 7 => 0x92
    case 8 => 0xd3 case 9 => 0x8d case 10 => 0x6f case 11 => 0x31 case 12 => 0xb2 case 13 => 0xec case 14 => 0x0e case _ => 0x50
  }

  function RowA(c: bv8): bv8 {
    match c
    case 0 => 0xaf case 1 => 0xf1 case 2 => 0x13 case 3 => 0x4d case 4 => 0xce case 5 => 0x90 case 6 => 0x72 case 7 => 0x2c
    case 8 => 0x6d case 9 => 0x33 case 10 => 0xd1 case 11 => 0x8f case 12 => 0x0c case 13 => 0x52 case 14 => 0xb0 case _ => 0xee
  }

  function RowB(c: bv8): bv8 {
    match c
    case 0 => 0x32 case 1 => 0x6c case 2 => 0x8e case 3 => 0xd0 case 4 => 0x53 case 5 => 0x0d case 6 => 0xef case 7 => 0xb1
    case 8 => 0xf0 case 9 => 0xae case 10 => 0x4c case 11 => 0x12 case 12 => 0x91 case 13 => 0xcf case 14 => 0x2d case _ => 0x73
  }

  function RowC(c: bv8): bv8 {
    match c
    case 0 => 0xca case 1 => 0x94 case 2 => 0x76 case 3 => 0x28 case 4 => 0xab case 5 => 0xf5 case 6 => 0x17 case 7 => 0x49
    case 8 => 0x08 case 9 => 0x56 case 10 => 0xb4 case 11 => 0xea case 12 => 0x69 case 13 => 0x37 case 14 => 0xd5 case _ => 0x8b
  }

  function RowD(c: bv8): bv8 {
    match c
    case 0 => 0x57 case 1 => 0x09 case 2 => 0xeb case 3 => 0xb5 case 4 => 0x36 case 5 => 0x68 case 6 => 0x8a case 7 => 0xd4
    case 8 => 0x95 case 9 => 0xcb case 10 => 0x29 case 11 => 0x77 case 12 => 0xf4 case 13 => 0xaa case 14 => 0x48 case _ => 0x16
  }

  function RowE(c: bv8): bv8 {
    match c
    case 0 => 0xe9 case 1 => 0xb7 case 2 => 0x55 case 3 => 0x0b case 4 => 0x88 case 5 => 0xd6 case 6 => 0x34 case 7 => 0x6a
    case 8 => 0x2b case 9 => 0x75 case 10 => 0x97 case 11 => 0xc9 case 12 => 0x4a case 13 => 0x14 case 14 => 0xf6 case _ => 0xa8
  }

  function RowF(c: bv8): bv8 {
    match c
    case 0 => 0x74 case 1 => 0x2a case 2 => 0xc8 case 3 => 0x96 case 4 => 0x15 case 5 => 0x4b case 6 => 0xa9 case 7 => 0xf7
    case 8 => 0xb6 case 9 => 0xe8 case 10 => 0x0a case 11 => 0x54 case 12 => 0xd7 case 13 => 0x89 case 14 => 0x6b case _ => 0x35
  }

  /** The table lookup: entry `i` of the 256-entry array. */
  function Entry(i: bv8): bv8 {
    var c := i & 0x0f;
    match i >> 4
    case 0 => Row0(c) case 1 => Row1(c) case 2 => Row2(c) case 3 => Row3(c)
    case 4 => Row4(c) case 5 => Row5(c) case 6 => Row6(c) case 7 => Row7(c)
    case 8 => Row8(c) case 9 => Row9(c) case 10 => RowA(c) case 11 => RowB(c)
    case 12 => RowC(c) case 13 => RowD(c) case 14 => RowE(c) case _ => RowF(c)
  }
}
