/** The decision `StartBootloadProcess` takes once the device has answered
    the ready-to-update command with its signature and high fuse byte. */
module Handshake {
  import opened Outcomes
  import opened HexText
  import opened Microcontrollers

  /** "RTU\0" as written to the port. */
  const ReadyToUpdateCommand: seq<byte> := [0x52, 0x54, 0x55, 0x00]

  /** What the two reads yield: the 3-byte signature buffer and the fuse
      byte, or a read timeout. */
  datatype DeviceReply = ReadTimeout | Reply(signature: seq<byte>, highFuseBits: byte)

  /** The fault the handshake raises, or None to go on writing flash. The
      checks run in the source's order: the read, the signature (unless
      forced), the boot reset vector, then the size against the flash left
      above the boot section. */
  function HandshakeFault(mcu: Microcontroller, reply: DeviceReply, force: bool, programDataCount: int): Option<Fault> {
    if reply.ReadTimeout? then Some(CommunicationFailed)
    else
      var config := GetBootConfigSize(mcu, reply.highFuseBits);
      if mcu.signature != reply.signature && !force then Some(DeviceError(SignatureMismatch))
      else if !config.bootResetEnabled then Some(DeviceError(BootResetDisabled))
      else if programDataCount > mcu.flashSize - config.size then Some(Fault.ProgramSizeTooLarge)
      else None
  }

  /** The upload goes on exactly when the device answered, its signature
      matched or the update is forced, its boot reset vector is enabled and
      the program fits beside the boot section. */
  lemma ProceedIff(mcu: Microcontroller, reply: DeviceReply, force: bool, programDataCount: int)
    ensures HandshakeFault(mcu, reply, force, programDataCount).None? <==>
              && reply.Reply?
              && (mcu.signature == reply.signature || force)
              && GetBootConfigSize(mcu, reply.highFuseBits).bootResetEnabled
              && programDataCount <= mcu.flashSize - GetBootConfigSize(mcu, reply.highFuseBits).size
  {
  }

  /** The handshake only ever raises the four faults of its own. */
  lemma FaultKinds(mcu: Microcontroller, reply: DeviceReply, force: bool, programDataCount: int)
    ensures HandshakeFault(mcu, reply, force, programDataCount) in
              {None, Some(CommunicationFailed), Some(DeviceError(SignatureMismatch)),
               Some(DeviceError(BootResetDisabled)), Some(Fault.ProgramSizeTooLarge)}
  {
  }

  /** A mismatched signature is reported before the fuse byte is looked at. */
  lemma SignatureCheckedFirst(mcu: Microcontroller, signature: seq<byte>, fuse1: byte, fuse2: byte, c1: int, c2: int)
    requires mcu.signature != signature
    ensures HandshakeFault(mcu, Reply(signature, fuse1), false, c1)
         == HandshakeFault(mcu, Reply(signature, fuse2), false, c2)
         == Some(DeviceError(SignatureMismatch))
  {
  }

  /** A disabled boot reset vector is reported whatever the program size. */
  lemma BootResetCheckedBeforeSize(mcu: Microcontroller, reply: DeviceReply, force: bool, c1: int, c2: int)
    requires reply.Reply? && (mcu.signature == reply.signature || force)
    requires !GetBootConfigSize(mcu, reply.highFuseBits).bootResetEnabled
    ensures HandshakeFault(mcu, reply, force, c1) == HandshakeFault(mcu, reply, force, c2)
                                                    == Some(DeviceError(BootResetDisabled))
  {
  }

  /** Forcing the update is the same as the device reporting the expected
      signature: only the signature check is skipped. */
  lemma ForceSkipsOnlySignature(mcu: Microcontroller, signature: seq<byte>, fuse: byte, count: int)
    ensures HandshakeFault(mcu, Reply(signature, fuse), true, count)
         == HandshakeFault(mcu, Reply(mcu.signature, fuse), false, count)
  {
  }

  /** A program that fits still fits when it is shorter. */
  lemma SmallerProgramStillFits(mcu: Microcontroller, reply: DeviceReply, force: bool, count: int, smaller: int)
    requires smaller <= count
    requires HandshakeFault(mcu, reply, force, count).None?
    ensures HandshakeFault(mcu, reply, force, smaller).None?
  {
  }

  /** With the ATmega32 profile the handshake never lets an upload start. */
  lemma ATmega32NeverProceeds(reply: DeviceReply, force: bool, count: int)
    ensures HandshakeFault(ATmega32(), reply, force, count).Some?
  {
    if reply.Reply? {
      ATmega32NeverBootEnabled(reply.highFuseBits);
    }
  }

  /** An ATmega128 whose fuse byte selects the 4096-byte boot section takes
      at most 131072 - 4096 bytes of program: the application section. */
  lemma ATmega128SizeBound(count: int)
    ensures HandshakeFault(ATmega128(), Reply(ATmega128().signature, 0xDA), false, count).None?
            <==> count <= 131072 - 4096
  {
    ATmega128FuseDA();
  }

  /** With the table as written, a program ten bytes longer than the
      application section passes the handshake, so its last page would be
      written into the boot section; the corrected table refuses it. */
  lemma AsWrittenAdmitsBootOverlap()
    ensures HandshakeFault(ATmega128AsWritten(), Reply(ATmega128AsWritten().signature, 0xDA), false,
                           131072 - 4096 + 10).None?
    ensures HandshakeFault(ATmega128(), Reply(ATmega128().signature, 0xDA), false,
                           131072 - 4096 + 10) == Some(Fault.ProgramSizeTooLarge)
  {
    ATmega128AsWrittenFuseDA();
    ATmega128FuseDA();
  }
}
