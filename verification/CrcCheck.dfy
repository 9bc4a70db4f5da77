/** The check values the catalogues of CRCs list: the checksums of the digits 1 to 9. */
module CrcCheck {
  import opened Bytes
  import opened Crc
  import opened CrcRegister

  const NINE: seq<Byte> := [0x31, 0x32, 0x33, 0x34, 0x35, 0x36, 0x37, 0x38, 0x39]

  lemma ModbusSteps()
    ensures ByteStep(Modbus16, 0xFFFF, 0x31) == 0x947E
    ensures ByteStep(Modbus16, 0x947E, 0x32) == 0xF595
    ensures ByteStep(Modbus16, 0xF595, 0x33) == 0x7A75
    ensures ByteStep(Modbus16, 0x7A75, 0x34) == 0x30BA
    ensures ByteStep(Modbus16, 0x30BA, 0x35) == 0xA471
    ensures ByteStep(Modbus16, 0xA471, 0x36) == 0x32E4
    ensures ByteStep(Modbus16, 0x32E4, 0x37) == 0x9D73
    ensures ByteStep(Modbus16, 0x9D73, 0x38) == 0x37DD
    ensures ByteStep(Modbus16, 0x37DD, 0x39) == 0x4B37
  {
  }

  lemma XzSteps()
    ensures ByteStep(Xz64, 0xFFFFFFFFFFFFFFFF, 0x31) == 0xD5D0F17A6B6A3512
    ensures ByteStep(Xz64, 0xD5D0F17A6B6A3512, 0x32) == 0xFBE29281D80DA6A7
    ensures ByteStep(Xz64, 0xFBE29281D80DA6A7, 0x33) == 0xCFDCD7BBF8E33A9E
    ensures ByteStep(Xz64, 0xCFDCD7BBF8E33A9E, 0x34) == 0x31B1786C99473CD7
    ensures ByteStep(Xz64, 0x31B1786C99473CD7, 0x35) == 0xA258B9005AFBA316
    ensures ByteStep(Xz64, 0xA258B9005AFBA316, 0x36) == 0xFB951AC9A23C3731
    ensures ByteStep(Xz64, 0xFB951AC9A23C3731, 0x37) == 0x8FAF60C99E6DC25F
    ensures ByteStep(Xz64, 0x8FAF60C99E6DC25F, 0x38) == 0xA3747FB7D45387F6
    ensures ByteStep(Xz64, 0xA3747FB7D45387F6, 0x39) == 0x66A2364420E6C605
  {
  }

  /** CRC-16/MODBUS 0x4B37 and CRC-64/XZ 0x995DC9BBDF1939FA. */
  lemma CheckValues()
    ensures Compute(Modbus16, NINE) == 0x4B37 && Compute(Xz64, NINE) == 0x995DC9BBDF1939FA
  {
    hide ByteStep;
    ModbusSteps();
    XzSteps();
    assert NINE[9..] == [];
    assert Absorb(Modbus16, 0x37DD, NINE[8..]) == 0x4B37;
  }
}
