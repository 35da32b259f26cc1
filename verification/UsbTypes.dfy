/** Records and constants shared by the USB modules. */
module UsbTypes {
  import opened Words

  const BM_RCVTOG0: Byte := 0x10
  const BM_RCVTOG1: Byte := 0x20
  const BM_SNDTOG0: Byte := 0x40

  const TOK_IN: Byte := 0x00
  const TOK_SETUP: Byte := 0x10
  const TOK_INHS: Byte := 0x80
  const TOK_OUTHS: Byte := 0xA0

  /** Endpoint information, as kept in the device table. */
  datatype EpRecord = EpRecord(
      epAddr: Byte, attr: Byte, maxPktSize: Word, interval: Byte, sndToggle: Byte, rcvToggle: Byte)

  /** The stored form of a receive toggle: false is DATA0. */
  function ToggleBits(toggle: bool): Byte
  {
    if toggle then BM_RCVTOG1 else BM_RCVTOG0
  }
}
