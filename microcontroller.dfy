/** The device profile the upload consumes, and its boot-section lookup. */
module Microcontrollers {
  import opened Outcomes
  import opened HexText

  /** A device profile as the configuration loader yields it. The boot
      table is keyed by strings such as "0x02". */
  datatype Microcontroller = Microcontroller(
    name: string,
    signature: seq<byte>,
    flashSize: int,
    pageSize: int,
    bootFlashSizeDictionary: map<string, int>,
    bootConfigMask: byte)

  /** The return value and the `out bool` of `GetBootConfigSize`. */
  datatype BootConfig = BootConfig(size: int, bootResetEnabled: bool)

  /** `highFuseBits & BootConfigMask` on bytes. */
  function MaskedFuse(highFuseBits: byte, mask: byte): byte {
    ((highFuseBits as bv8) & (mask as bv8)) as int
  }

  /** `$"0x{highFuseBits & BootConfigMask:X2}"`. */
  function BootConfigKey(highFuseBits: byte, mask: byte): (key: string)
    ensures |key| == 4 && key[..2] == "0x"
    ensures IsUpperHexDigit(key[2]) && IsUpperHexDigit(key[3])
    ensures 16 * DigitValue(key[2]) + DigitValue(key[3]) == MaskedFuse(highFuseBits, mask)
  {
    HexLiteral(MaskedFuse(highFuseBits, mask))
  }

  /** `GetBootConfigSize`: a key absent from the table means the boot reset
      vector is not enabled and the size is 0; a key present means it is
      enabled and the size is the table's entry. */
  function GetBootConfigSize(mcu: Microcontroller, highFuseBits: byte): (r: BootConfig)
    ensures var key := BootConfigKey(highFuseBits, mcu.bootConfigMask);
            && (r.bootResetEnabled <==> key in mcu.bootFlashSizeDictionary)
            && (r.bootResetEnabled ==> r.size == mcu.bootFlashSizeDictionary[key])
            && (!r.bootResetEnabled ==> r.size == 0)
  {
    var key := BootConfigKey(highFuseBits, mcu.bootConfigMask);
    if key !in mcu.bootFlashSizeDictionary then BootConfig(0, false)
    else BootConfig(mcu.bootFlashSizeDictionary[key], true)
  }

  /** Bit i (0 = least significant) of a byte. */
  function Bit(b: byte, i: nat): bool
    requires i < 8
  {
    ((b as bv8) >> i) & 1 == 1
  }

  /** Only the fuse bits selected by the mask matter: two fuse bytes that
      agree on every bit set in the mask give the same lookup result. */
  lemma MaskedBitsDecide(mcu: Microcontroller, fuse1: byte, fuse2: byte)
    requires forall i: nat :: i < 8 && Bit(mcu.bootConfigMask, i) ==> Bit(fuse1, i) == Bit(fuse2, i)
    ensures GetBootConfigSize(mcu, fuse1) == GetBootConfigSize(mcu, fuse2)
  {
    var m := mcu.bootConfigMask;
    assert Bit(m, 0) ==> Bit(fuse1, 0) == Bit(fuse2, 0);
    assert Bit(m, 1) ==> Bit(fuse1, 1) == Bit(fuse2, 1);
    assert Bit(m, 2) ==> Bit(fuse1, 2) == Bit(fuse2, 2);
    assert Bit(m, 3) ==> Bit(fuse1, 3) == Bit(fuse2, 3);
    assert Bit(m, 4) ==> Bit(fuse1, 4) == Bit(fuse2, 4);
    assert Bit(m, 5) ==> Bit(fuse1, 5) == Bit(fuse2, 5);
    assert Bit(m, 6) ==> Bit(fuse1, 6) == Bit(fuse2, 6);
    assert Bit(m, 7) ==> Bit(fuse1, 7) == Bit(fuse2, 7);
    assert MaskedFuse(fuse1, m) == MaskedFuse(fuse2, m);
  }

  /** The key names the masked fuse value uniquely: it reads back as that
      value, so different masked values never share a table entry. */
  lemma BootConfigKeyReadsBack(highFuseBits: byte, mask: byte)
    ensures ParseHexLiteral(BootConfigKey(highFuseBits, mask)) == Some(MaskedFuse(highFuseBits, mask))
  {
    ParseHexLiteralRoundTrip(MaskedFuse(highFuseBits, mask));
  }

  lemma BootConfigKeyInjective(f1: byte, f2: byte, mask: byte)
    requires BootConfigKey(f1, mask) == BootConfigKey(f2, mask)
    ensures MaskedFuse(f1, mask) == MaskedFuse(f2, mask)
  {
    BootConfigKeyReadsBack(f1, mask);
    BootConfigKeyReadsBack(f2, mask);
  }

  /** Sample profiles from the static device table. That table keys its boot
      sizes by integers; here they are keyed by their "0x%02X" strings, as
      the configuration file does. The table gives 4086 bytes for the 0x02
      setting, where the other settings are powers of two; 4096 is meant. */
  function BootSizes128AsWritten(): map<string, int> {
    map["0x00" := 8192, "0x02" := 4086, "0x04" := 2048, "0x06" := 1024]
  }

  /** The boot section sizes of the ATmega128 and ATmega1284: 4096, 2048,
      1024 and 512 words, in bytes. */
  function BootSizes128(): map<string, int> {
    map["0x00" := 8192, "0x02" := 4096, "0x04" := 2048, "0x06" := 1024]
  }

  /** The ATmega128 entry as the table writes it. */
  function ATmega128AsWritten(): Microcontroller {
    Microcontroller("ATmega128", [0x1E, 0x97, 0x02], 131072, 256, BootSizes128AsWritten(), 0x07)
  }

  function ATmega128(): Microcontroller {
    Microcontroller("ATmega128", [0x1E, 0x97, 0x02], 131072, 256, BootSizes128(), 0x07)
  }

  /** The ATmega1284 entry as the table writes it, with the same 4086. */
  function ATmega1284AsWritten(): Microcontroller {
    Microcontroller("ATmega1284", [0x1E, 0x97, 0x06], 131072, 256, BootSizes128AsWritten(), 0x07)
  }

  function ATmega1284(): Microcontroller {
    Microcontroller("ATmega1284", [0x1E, 0x97, 0x06], 131072, 256, BootSizes128(), 0x07)
  }

  /** The ATmega32 entry sets no boot table and leaves the mask at 0. */
  function ATmega32(): Microcontroller {
    Microcontroller("ATmega32", [0x1E, 0x95, 0x02], 32768, 128, map[], 0x00)
  }

  /** With the ATmega32 profile no fuse value enables the boot reset vector. */
  lemma ATmega32NeverBootEnabled(highFuseBits: byte)
    ensures GetBootConfigSize(ATmega32(), highFuseBits) == BootConfig(0, false)
  {
  }

  /** A high fuse byte of 0xDA selects the 0x02 entry of the ATmega128 table:
      a 4096-byte boot section. */
  lemma ATmega128FuseDA()
    ensures GetBootConfigSize(ATmega128(), 0xDA) == BootConfig(4096, true)
  {
    assert MaskedFuse(0xDA, 0x07) == 2;
    assert BootConfigKey(0xDA, 0x07) == "0x02";
  }

  /** As written, the same fuse byte reports a 4086-byte boot section, ten
      bytes short of the section the fuse reserves. */
  lemma ATmega128AsWrittenFuseDA()
    ensures GetBootConfigSize(ATmega128AsWritten(), 0xDA) == BootConfig(4086, true)
  {
    assert MaskedFuse(0xDA, 0x07) == 2;
    assert BootConfigKey(0xDA, 0x07) == "0x02";
  }

  /** The ATmega1284 entry shares the table and so the slip: fuse byte 0xDA
      selects 4086 bytes as written and 4096 once corrected. */
  lemma ATmega1284FuseDA()
    ensures GetBootConfigSize(ATmega1284AsWritten(), 0xDA) == BootConfig(4086, true)
    ensures GetBootConfigSize(ATmega1284(), 0xDA) == BootConfig(4096, true)
  {
    assert MaskedFuse(0xDA, 0x07) == 2;
    assert BootConfigKey(0xDA, 0x07) == "0x02";
  }
}
