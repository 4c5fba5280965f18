# qbdude upload core in Dafny

qbdude is a command-line tool. It flashes a firmware image, read from an
Intel-HEX-style file, into an AVR microcontroller that runs a matching
serial bootloader. This project models the part of the tool that decides
what goes over the wire and when. That part has five pieces:

- **Hex reader** (`HexReader`). It checks the file's structure, cuts out each
  record's data field, and decodes it the way the regular expression
  `[A-F0-9]{2}` scans it. It then applies the 131072-byte bound.
- **Page framing** (`Pages`, `UploadUtility.UploadSession.DefinePageDataQueue`).
  The program is split into pages of the device's page size. Each page
  becomes a frame: a 2-byte big-endian page index, the page padded with
  0xFF, and a status byte. The status byte is 0xFE on the last frame and
  0xFF on all others.
- **Handshake** (`Handshake`, `UploadUtility.UploadSession.StartBootloadProcess`).
  The tool sends "RTU\0". It then checks the device's signature, the boot
  reset vector (looked up through `Microcontrollers.GetBootConfigSize`), and
  the program size against the flash left above the boot section.
- **Transfer loop** (`TransferLoop`, `UploadUtility.UploadSession.TransmitData`).
  It keeps a receive buffer, the frame queue, a progress bar and a
  stopwatch. Each '\r' from the device counts one acknowledged byte. A
  "CTU" or "Page" sends the next frame. The loop ends when the bar shows
  100%, when the upload is cancelled, or after 5 s without a signal. It can
  also end when a '\r' reaches a bar that has nothing to complete: the
  division by zero throws.
- **Progress bar** (`Progress`). The transfer loop's completion test is
  `CurrentPercentage == 100`, so the bar's integer update rule is part of
  the protocol. It is modelled as a class with the source's fields.

Two JSON converters are also modelled: one between a byte and a literal
such as "0x1E", and one between a byte array and a list of such literals.
The device profiles are read through them. The exit codes the command
handler reports are modelled too.

The source's static fields and its objects with methods are Dafny classes:
`UploadUtility.UploadSession`, `Progress.ProgressBar`. Their loops are
`while` loops with invariants. Each stateful method is proved equal to a
function of its inputs and old state: `Pages.Frames`,
`Handshake.HandshakeFault`, `TransferLoop.Transfer`, `UploadUtility.Upload`,
`Progress.Updated`, `HexReader.ProgramImage`,
`HexByteArrayConverter.Decoded`. The lemmas state what the source promises
about those functions.

The serial port becomes parameters. `portOpens` and `cancelledAtOpen`
decide `OpenComPort`. A `DeviceReply` is what the signature and fuse reads
return, or a read timeout. A script of steps drives the transfer loop.
Each step holds the cancellation flag, the text `ReadExisting` returned,
and the ticks that passed. Every write to the port is appended to
`written`, so the order of writes can be stated.

Three points of ordering in the code shape the model:
- `OpenComPort` tries the port once, with no retry
  (UploadUtility.cs:69-84).
- `StartBootloadProcess` checks the signature before the boot reset vector
  (UploadUtility.cs:150-158).
- The transfer loop checks its timeout at the end of each pass, after the
  acknowledgements and signals have been handled (UploadUtility.cs:220-223).

## Model

| member | source | states |
|---|---|---|
| Outcomes.ExitCodeOf | qbdude-console-app/ExtensionMethods/RootCommandExtensions.cs:126-136 | A fault never maps to Success. It maps to UploadCanceled exactly for a cancellation, and to Error exactly for the device errors (constructed with `ErrorResult`) and unclassified exceptions. |
| HexText.FormatX2 | qbdude-console-app/Converters/HexByteConverter.cs:38 | `X2` gives exactly two upper-case hex digits, high nibble first, whose value is the byte. |
| HexText.FormatX2Injective | qbdude-console-app/Converters/HexByteConverter.cs:38 | Different bytes never format to the same text. |
| HexText.HexLiteral | qbdude-console-app/Converters/HexByteConverter.cs:38 | `0x{b:X2}` is "0x" followed by two upper-case digits denoting b. |
| HexText.StripHexPrefix | qbdude-console-app/Converters/HexByteConverter.cs:20-23 | One leading "0x" or "0X" is removed when present; otherwise the text is unchanged. |
| HexText.ParseFormatX2 | qbdude-console-app/Converters/HexByteConverter.cs:25 | `byte.Parse(_, HexNumber)` reads `X2` text back as the same byte. |
| HexText.ParseHexLiteralRoundTrip | qbdude-console-app/Converters/HexByteConverter.cs:20-38 | Stripping the prefix and parsing recovers the byte from its written literal. |
| HexByteConverter.ReadJson | qbdude-console-app/Converters/HexByteConverter.cs:12-34 | A non-string token reads as 0. A string that fails to parse (too long, bad digits) reads as 0. Otherwise the result is the parsed value of the string with one prefix stripped. Parsing allows white space around the digits, then trailing '\0' characters. |
| HexByteConverter.WriteJson | qbdude-console-app/Converters/HexByteConverter.cs:36-39 | The value written is four characters: "0x" and two upper-case digits denoting the byte. |
| HexByteConverter.RoundTrip | qbdude-console-app/Converters/HexByteConverter.cs:12-39 | Reading what is written gives back every byte. |
| HexByteConverter.PrefixIgnoresCase | qbdude-console-app/Converters/HexByteConverter.cs:20 | "0X…" reads the same as "0x…". |
| HexByteConverter.SecondPrefixNotStripped | qbdude-console-app/Converters/HexByteConverter.cs:20-25 | Only one prefix is stripped: "0x0x12" reads as 0. |
| HexByteConverter.BareLowerCaseDigits | qbdude-console-app/Converters/HexByteConverter.cs:20-25 | The prefix is optional and lower-case digits parse: "ab" reads as 0xAB. |
| HexByteConverter.TrailingNulsAccepted | qbdude-console-app/Converters/HexByteConverter.cs:25 | '\0' characters after the digits and any trailing white space are accepted: "0xAB \0\0" reads as 0xAB. |
| HexByteConverter.WhiteAfterNulRejected | qbdude-console-app/Converters/HexByteConverter.cs:25-33 | White space after a '\0' is not accepted: "0xAB\0 " reads as 0. |
| HexByteConverter.OutOfRangeReadsZero | qbdude-console-app/Converters/HexByteConverter.cs:25-33 | A value above 255 ("0x100") is swallowed and reads as 0. |
| HexByteArrayConverter.ParseElementsSpec | qbdude-console-app/Converters/HexByteArrayConverter.cs:27-39 | The list parses exactly when every element does. Then the array has the list's length, and element i is element i parsed. |
| HexByteArrayConverter.ElementFailureFailsList | qbdude-console-app/Converters/HexByteArrayConverter.cs:38-50 | Any one element that fails (including a null element) makes the result the fallback [0, 0, 0], whatever the other elements are. |
| HexByteArrayConverter.AllElementsParsed | qbdude-console-app/Converters/HexByteArrayConverter.cs:27-41 | An array filled element by element with the parsed values is the decoded result. |
| HexByteArrayConverter.FallbackArray | qbdude-console-app/Converters/HexByteArrayConverter.cs:50 | The fallback is a new array holding [0, 0, 0]. |
| HexByteArrayConverter.ReadJson | qbdude-console-app/Converters/HexByteArrayConverter.cs:17-51 | The array's contents are the decoded list: the parsed elements in order, or [0, 0, 0] for a non-array token, a null list or any failing element. |
| HexByteArrayConverter.TrailingNulElement | qbdude-console-app/Converters/HexByteArrayConverter.cs:29-39 | An element with a trailing '\0' parses (["0xAB\0", "0x01"] gives [0xAB, 0x01]), so the list is not replaced by the fallback. |
| HexByteArrayConverter.WriteJson | qbdude-console-app/Converters/HexByteArrayConverter.cs:53-67 | A byte array gives one "0x"+X2 literal per byte, in index order. Any other value writes nothing. |
| HexByteArrayConverter.RoundTrip | qbdude-console-app/Converters/HexByteArrayConverter.cs:17-67 | Reading back what is written gives every byte array again, the empty one included. |
| Microcontrollers.BootConfigKey | qbdude-console-app/Models/Microcontroller.cs:56 | The key is "0x" and two upper-case digits whose value is `highFuseBits & BootConfigMask`. |
| Microcontrollers.GetBootConfigSize | qbdude-console-app/Models/Microcontroller.cs:54-66 | The boot reset vector counts as enabled exactly when the key is in the table. Then the size is the table's entry; otherwise it is 0. |
| Microcontrollers.MaskedBitsDecide | qbdude-console-app/Models/Microcontroller.cs:56 | Two fuse bytes that agree on every bit of the mask give the same result. |
| Microcontrollers.BootConfigKeyReadsBack | qbdude-console-app/Models/Microcontroller.cs:56 | The key parses back to the masked fuse value. |
| Microcontrollers.BootConfigKeyInjective | qbdude-console-app/Models/Microcontroller.cs:56 | Different masked fuse values never share a key. |
| Microcontrollers.ATmega32NeverBootEnabled | qbdude-console-app/Microcontroller.cs:46 | The ATmega32 entry has no boot table, so no fuse value enables the boot reset vector. |
| Microcontrollers.ATmega128FuseDA | qbdude-console-app/Microcontroller.cs:11-25 | With the corrected table, fuse byte 0xDA on the ATmega128 selects a 4096-byte boot section. |
| Microcontrollers.ATmega128AsWrittenFuseDA | qbdude-console-app/Microcontroller.cs:21 | With the table as written, the same fuse byte selects 4086 bytes. |
| Microcontrollers.ATmega1284FuseDA | qbdude-console-app/Microcontroller.cs:29-43 | The ATmega1284 entry has the same table: fuse byte 0xDA selects 4086 bytes as written and 4096 once corrected. |
| HexReader.DataField | qbdude-console-app/Utilities/HexReaderUtility.cs:56 | The data field has length-11 characters, character i being record character 9+i. |
| HexReader.MatchedBytes | qbdude-console-app/Utilities/HexReaderUtility.cs:64 | The regex scan yields at most one byte per two characters. |
| HexReader.ExtractProgramData | qbdude-console-app/Utilities/HexReaderUtility.cs:30-77 | The loop's result or fault equals `ProgramImage`, the function the lemmas below are about. |
| HexReader.DecodeRecordsOkIff | qbdude-console-app/Utilities/HexReaderUtility.cs:53-62 | The record loop succeeds exactly when every record is reached before cancellation and has a data field of even length. |
| HexReader.DecodedIsConcatenation | qbdude-console-app/Utilities/HexReaderUtility.cs:53-68 | On success the bytes are the concatenation of every record's decoded bytes, in file order. |
| HexReader.FirstRejectedRecordDecides | qbdude-console-app/Utilities/HexReaderUtility.cs:53-62 | The first record the loop cannot pass decides the fault: Cancelled if the token is set by then, otherwise InvalidHexFile. |
| HexReader.ProgramImageOkIff | qbdude-console-app/Utilities/HexReaderUtility.cs:30-77 | Reading succeeds exactly when all of these hold: the file exists, is non-empty and well formed; every record is accepted; and the bytes fit in 131072. The image is then the concatenation of the records' bytes. |
| HexReader.MissingFileFirst | qbdude-console-app/Utilities/HexReaderUtility.cs:34-37 | A missing file gives HexFileNotFound, whatever its lines would be. |
| HexReader.StructureCheckedFirst | qbdude-console-app/Utilities/HexReaderUtility.cs:47-50 | A last line other than ":00000001FF", or any line shorter than 11 characters, gives InvalidHexFile before any record is decoded or cancellation looked at. |
| HexReader.OddFieldBeatsSizeBound | qbdude-console-app/Utilities/HexReaderUtility.cs:59-74 | An odd-length data field gives InvalidHexFile even when the bytes before it already exceed the bound. The bound is applied only after the last record. |
| HexReader.OversizeImageRejected | qbdude-console-app/Utilities/HexReaderUtility.cs:71-74 | Well-formed records that are all accepted, but carry more than 131072 bytes together, give ProgramSizeTooLarge. |
| HexReader.EofRecordContributesNothing | qbdude-console-app/Utilities/HexReaderUtility.cs:53-66 | The 11-character EOF record adds no bytes. |
| HexReader.UpperHexDecodesPairwise | qbdude-console-app/Utilities/HexReaderUtility.cs:64 | A run of upper-case digits decodes pair by pair. Byte k comes from characters 2k (high nibble) and 2k+1. |
| HexReader.UpperHexRecordLength | qbdude-console-app/Utilities/HexReaderUtility.cs:56-64 | A record whose data field is all upper-case hex contributes exactly (length-11)/2 bytes. |
| HexReader.DecodeInvertsEncode | qbdude-console-app/Utilities/HexReaderUtility.cs:64 | The scan recovers every byte of their X2 text. |
| HexReader.NonDigitSkipped | qbdude-console-app/Utilities/HexReaderUtility.cs:19 | A character that is not an upper-case digit is skipped, not rejected. |
| HexReader.LowerCaseDigitsSkipped | qbdude-console-app/Utilities/HexReaderUtility.cs:19 | Lower-case digits are not matched, and matches need not start at an even offset: "0a1B2C" gives 0x1B, 0x2C. |
| HexReader.HeaderAndChecksumIgnored | qbdude-console-app/Utilities/HexReaderUtility.cs:56 | The first 9 and the last 2 characters of a record (length, address, type, checksum) do not affect its bytes. |
| HexReader.FourByteFile | qbdude-console-app/Utilities/HexReaderUtility.cs:30-77 | A data record followed by the EOF record yields its four bytes. |
| Progress.PercentageIsFloor | qbdude-console-app/UI/ProgressBar.cs:81 | For a positive total, the percentage is the floor of 100 × completed / total. |
| Progress.PercentageMonotone | qbdude-console-app/UI/ProgressBar.cs:81 | More items completed never give a lower percentage. |
| Progress.UpdatePreservesConsistent | qbdude-console-app/UI/ProgressBar.cs:74-102 | An update keeps the bar consistent. The shown percentage stays even, between 0 and 100, and never ahead of the items completed. |
| Progress.StartAndDisposePreserveConsistent | qbdude-console-app/UI/ProgressBar.cs:41-67 | Starting and disposing keep the bar consistent. |
| Progress.UpdateIgnoredUnlessActive | qbdude-console-app/UI/ProgressBar.cs:76-77 | Before Start has activated the bar, and after Dispose, an update changes nothing. |
| Progress.UpdateAlwaysCounts | qbdude-console-app/UI/ProgressBar.cs:79 | On an active bar every update adds its items, whether or not the shown percentage moves. |
| Progress.PercentageMovesOnlyToEvenFloor | qbdude-console-app/UI/ProgressBar.cs:81-101 | The shown percentage only changes to an even value of at most 100. That value is the floor percentage of the new count, and the total is non-zero. |
| Progress.HundredReached | qbdude-console-app/UI/ProgressBar.cs:81-101 | An update that brings the floor percentage to exactly 100 shows 100. |
| Progress.HundredMeansAllItems | qbdude-console-app/UI/ProgressBar.cs:81-101 | A consistent bar showing 100 has a positive total and has completed at least all of it. |
| Progress.StartIdempotent | qbdude-console-app/UI/ProgressBar.cs:54-67 | Starting twice is starting once, and a disposed bar does not start again. |
| Progress.ProgressBar.constructor | qbdude-console-app/UI/ProgressBar.cs:32-36 | A new bar is inactive, at 0 of the given total, with an empty filled container and 50 empty cells. |
| Progress.ProgressBar.Start | qbdude-console-app/UI/ProgressBar.cs:54-67 | The new state is the old one started: activated unless already active or disposed. |
| Progress.ProgressBar.Update | qbdude-console-app/UI/ProgressBar.cs:74-102 | The new state is the old one updated. The flag is set exactly when an active bar has nothing to complete, i.e. the division by zero. Afterwards the containers hold CurrentPercentage/2 filled cells and 50 - CurrentPercentage/2 empty ones. |
| Progress.ProgressBar.Dispose | qbdude-console-app/UI/ProgressBar.cs:41-48 | The bar becomes disposed and inactive; nothing else changes. |
| Pages.Padding | qbdude-console-app/Utilities/UploadUtility.cs:110-113 | n bytes, all 0xFF. |
| Pages.PageFrame | qbdude-console-app/Utilities/UploadUtility.cs:101-121 | A frame is page size + 3 bytes: the index bytes, then the chunk padded with 0xFF to a page, then 0xFE on the last frame or 0xFF otherwise. |
| Pages.FrameIndex | qbdude-console-app/Utilities/UploadUtility.cs:116-117 | The two index bytes read big-endian are the page number modulo 2^16. |
| Pages.AssembledFrame | qbdude-console-app/Utilities/UploadUtility.cs:110-121 | Padding the chunk, inserting `(byte)k` then `(byte)(k >> 8)` in front and appending the status byte builds exactly the page's frame. |
| Pages.Frames | qbdude-console-app/Utilities/UploadUtility.cs:97-125 | Every frame enqueued is page size + 3 bytes long. |
| Pages.FramesCount | qbdude-console-app/Utilities/UploadUtility.cs:97-125 | Exactly ceil(n / page size) frames are enqueued, and none exactly when there is no program data. |
| Pages.FrameHeader | qbdude-console-app/Utilities/UploadUtility.cs:101-124 | Frame i has index (k+i) mod 2^16. Its status byte is 0xFE exactly on the final frame and 0xFF on every other frame. |
| Pages.FramePayload | qbdude-console-app/Utilities/UploadUtility.cs:101-113 | Frame i's payload is the data from i × page size for up to one page, right-padded with 0xFF. |
| Pages.OnlyLastFramePadded | qbdude-console-app/Utilities/UploadUtility.cs:101-113 | Every frame but the last carries a full page of program bytes, with no padding. |
| Pages.PayloadsRestoreData | qbdude-console-app/Utilities/UploadUtility.cs:97-125 | The payloads read back in order are the program data, then fewer than one page of 0xFF. |
| Pages.ThreeBytesTwoPages | qbdude-console-app/Utilities/UploadUtility.cs:93-126 | Three bytes with page size 2 give [00 00 AA BB FF] and [00 01 CC FF FE]. |
| Handshake.ProceedIff | qbdude-console-app/Utilities/UploadUtility.cs:140-170 | The upload goes on exactly when all of these hold: the device answered; its signature matched or the update is forced; the boot reset vector is enabled; and the program fits beside the boot section. |
| Handshake.FaultKinds | qbdude-console-app/Utilities/UploadUtility.cs:140-170 | The handshake raises only CommunicationFailed, the two device errors or ProgramSizeTooLarge. |
| Handshake.SignatureCheckedFirst | qbdude-console-app/Utilities/UploadUtility.cs:150-158 | An unforced signature mismatch is reported whatever the fuse byte and the program size. |
| Handshake.BootResetCheckedBeforeSize | qbdude-console-app/Utilities/UploadUtility.cs:155-163 | A disabled boot reset vector is reported whatever the program size. |
| Handshake.ForceSkipsOnlySignature | qbdude-console-app/Utilities/UploadUtility.cs:150 | Forcing acts as if the device had sent the expected signature, and changes nothing else. |
| Handshake.SmallerProgramStillFits | qbdude-console-app/Utilities/UploadUtility.cs:160 | If a program passes the handshake, any shorter one does too. |
| Handshake.ATmega32NeverProceeds | qbdude-console-app/Utilities/UploadUtility.cs:155-158 | With the ATmega32 profile no reply lets the upload start. |
| Handshake.ATmega128SizeBound | qbdude-console-app/Utilities/UploadUtility.cs:160 | An ATmega128 with fuse 0xDA accepts exactly the programs of at most 131072 - 4096 bytes. |
| Handshake.AsWrittenAdmitsBootOverlap | qbdude-console-app/Microcontroller.cs:21 | With the table as written, a program 10 bytes larger than the application section passes. The corrected table refuses it with ProgramSizeTooLarge. |
| TransferLoop.CountOf | qbdude-console-app/Utilities/UploadUtility.cs:200 | The count is at most the length, and 0 exactly when the character is absent. |
| TransferLoop.Without | qbdude-console-app/Utilities/UploadUtility.cs:203 | The character no longer occurs, and the text is shorter by its count. A text without the character is kept whole. |
| TransferLoop.WithoutAppend | qbdude-console-app/Utilities/UploadUtility.cs:203 | Removing the character from a joined text removes it from each part. Together with `Without`'s contract, this means `Replace` keeps the other characters in order. |
| TransferLoop.CountOfAppend | qbdude-console-app/Utilities/UploadUtility.cs:200 | Counting over a joined buffer is the sum of the counts of its parts. |
| TransferLoop.ContainsAppend | qbdude-console-app/Utilities/UploadUtility.cs:195 | A token found in either part is found in the two joined. |
| TransferLoop.CancellationFirst | qbdude-console-app/Utilities/UploadUtility.cs:194 | A cancellation is seen before anything is read, and ends the loop with nothing changed. |
| TransferLoop.StrippedIsWithout | qbdude-console-app/Utilities/UploadUtility.cs:195-208 | The buffer a pass searches for "CTU" and "Page" is the carried-over buffer and the new read, in order, without their '\r's. |
| TransferLoop.QuietPassAccumulates | qbdude-console-app/Utilities/UploadUtility.cs:192-218 | A pass that is not cancelled, does not throw and sees no signal sends nothing. It carries the carried-over buffer and the new read, without the '\r's, over to the next pass. |
| TransferLoop.TokenSplitAcrossPasses | qbdude-console-app/Utilities/UploadUtility.cs:192-218 | A "CTU" or "Page" whose characters arrive over two consecutive reads, with '\r's anywhere among them, is seen by the second pass. That pass clears the buffer, restarts the stopwatch and sends the head frame if there is one. |
| TransferLoop.PageSplitAcrossReads | qbdude-console-app/Utilities/UploadUtility.cs:195-218 | "Pa" then "ge" is recognised. The head frame is written, the buffer cleared and the stopwatch restarted. |
| TransferLoop.AckCounted | qbdude-console-app/Utilities/UploadUtility.cs:198-205 | Each '\r' adds exactly one to the bar's count. Unless the bar throws, all of them are stripped from the buffer. |
| TransferLoop.AckWithoutTotalThrows | qbdude-console-app/Utilities/UploadUtility.cs:198-202 | A '\r' reaching a bar with nothing to complete ends the loop with an unclassified exception. |
| TransferLoop.AtMostOneFrame | qbdude-console-app/Utilities/UploadUtility.cs:208-218 | One pass writes no frame, or writes the head of the queue and removes exactly that frame. |
| TransferLoop.SignalClearsBuffer | qbdude-console-app/Utilities/UploadUtility.cs:208-218 | A "CTU" or "Page" clears the buffer and restarts the stopwatch even when the queue is empty, and sends a frame when one is left. |
| TransferLoop.TimeoutIff | qbdude-console-app/Utilities/UploadUtility.cs:220-223 | A pass fails with CommunicationFailed exactly when it saw neither an acknowledgement nor a signal and more than 5 s have passed since the last one. |
| TransferLoop.IterateKeepsConsistent | qbdude-console-app/Utilities/UploadUtility.cs:192-224 | A pass keeps the bar consistent. |
| TransferLoop.TransferKeepsFifo | qbdude-console-app/Utilities/UploadUtility.cs:192-224 | The frames written followed by those still queued never change, and the write log only grows. |
| TransferLoop.SendsQueueInOrder | qbdude-console-app/Utilities/UploadUtility.cs:208-214 | The frames the loop writes are a prefix of its queue, in queue order, and what remains queued is the rest. |
| TransferLoop.TransferEndings | qbdude-console-app/Utilities/UploadUtility.cs:192-224 | The loop completes exactly when the bar shows 100. Otherwise it ends by cancellation, a timeout, or (only with nothing to complete) the division by zero. The bar's total never changes. |
| TransferLoop.CompletedMeansAllAcknowledged | qbdude-console-app/Utilities/UploadUtility.cs:182-224 | A completed loop had a positive total, and at least that many bytes were acknowledged. |
| TransferLoop.EmptyQueueNeverCompletes | qbdude-console-app/Utilities/UploadUtility.cs:182-224 | With total 0 the loop never completes. |
| UploadUtility.EndingExitCode | qbdude-console-app/ExtensionMethods/RootCommandExtensions.cs:115-136 | The handler reports Success exactly for a completed upload. Every ending gets an exit code except the model's own `ScriptEnded`. |
| UploadUtility.PortFailureWritesNothing | qbdude-console-app/Utilities/UploadUtility.cs:69-84 | A port that fails to open writes nothing and reports FailedToOpenCom. |
| UploadUtility.RejectedHandshakeWritesNoFrame | qbdude-console-app/Utilities/UploadUtility.cs:58-61 | A rejecting handshake ends the upload with its fault, after writing "RTU\0" and no frame. |
| UploadUtility.FramesSentInOrder | qbdude-console-app/Utilities/UploadUtility.cs:56-62 | "RTU\0" is the first write. The frames written after it, then those still queued, are exactly the program's frames in order. |
| UploadUtility.EmptyProgramNeverSucceeds | qbdude-console-app/Utilities/UploadUtility.cs:47-63 | An empty program never completes an upload. |
| UploadUtility.CompletedMeansAllAcknowledged | qbdude-console-app/Utilities/UploadUtility.cs:47-63 | A completed upload had program data, and at least ceil(n / page size) × (page size + 3) bytes were acknowledged. |
| UploadUtility.UploadSession.constructor | qbdude-console-app/Utilities/UploadUtility.cs:30-36 | A session starts with no program data, an empty queue and nothing written. |
| UploadUtility.UploadSession.OpenComPort | qbdude-console-app/Utilities/UploadUtility.cs:69-84 | ComPortTimeout exactly when the port fails to open; Cancelled exactly when it opens and cancellation was requested; otherwise no fault. |
| UploadUtility.UploadSession.DefinePageDataQueue | qbdude-console-app/Utilities/UploadUtility.cs:93-126 | The queue grows by exactly the frames of the program data, and the program data is left empty. The captured count and everything else are unchanged. |
| UploadUtility.UploadSession.StartBootloadProcess | qbdude-console-app/Utilities/UploadUtility.cs:135-171 | Writes "RTU\0" and returns the handshake's decision over the captured count. Nothing else changes. |
| UploadUtility.UploadSession.TransmitData | qbdude-console-app/Utilities/UploadUtility.cs:179-226 | The ending, the remaining queue and the write log are those of the transfer loop started on the queue with a bar over queue length × (page size + 3). |
| UploadUtility.UploadSession.TransmitPass | qbdude-console-app/Utilities/UploadUtility.cs:193-223 | One pass of the loop body moves the buffer, queue, bar, stopwatch and write log exactly as one step of the loop function. |
| UploadUtility.UploadSession.UploadProgramData | qbdude-console-app/Utilities/UploadUtility.cs:47-63 | The ending, the write log and the queue are those of `Upload`. The session records the profile, the count and the force flag. The program data is left empty once the port has opened. |

## Left out

- Serial transport: opening and configuring the port is one succeed/fail outcome. `Task.Delay` is not modelled. The signature and fuse reads are one `DeviceReply`, so a short read and an end-of-stream byte are not modelled. `ReadExisting` is a scripted chunk, and the only read failure modelled is the timeout.
- Time: the stopwatch is a tick count that grows once per pass, by the step's elapsed ticks. Time passing between the read and the check inside one pass is not separated.
- The script may run out while the real loop would keep polling. That ending is `ScriptEnded`, which no exit code stands for.
- File system: `File.Exists`, `File.ReadAllLines` and `FileInfo.Length` are an existence flag and the list of lines.
- The cancellation token inside the hex reader is the index of the first record at which it is seen set.
- The reader's own progress bar ("Reading") is not modelled: its updates never change the result.
- Progress bar display: the timer callback, the lock, the elapsed time in `double`, the time column and all console drawing. The 1 s delay in `Start` is taken as already awaited, so the bar is active when the transfer loop begins.
- Progress.ProgressBar.Update: takes a non-negative item count, because every caller passes a count of received characters. Negative updates are not modelled.
- `long` and `int` arithmetic is unbounded here. `totalBytes` and `pageCount` cannot overflow for programs of at most 131072 bytes. The page index bytes are modelled exactly, modulo 2^16.
- UploadUtility.UploadSession.TransmitData: requires a positive page size, as `UploadProgramData` and `Upload` do. With a zero page size and some program data, `DefinePageDataQueue` never terminates. Every profile has a positive page size.
- UploadUtility.UploadSession.TransmitPass: the source has this loop body inline in `TransmitData`. It is a separate method here so that the loop's proof stays small.
- In the source, `_programData` is the caller's own list, so framing empties the list the caller passed in. Here the session's field is emptied; the aliasing with the caller's value is not modelled.
- Exceptions are `Fault` values, and `UploadProgramData` returns how it ended. The command handler's mapping to an exit code is `ExitCodeOf` and `EndingExitCode`. The handler's console output and logging are not modelled.
- JSON plumbing: the reader, the serializer, `AppConfig` loading and logging. A token is given by its kind and text, and writing yields the strings it would serialize.
- The static device table is used only for sample profiles. Its integer keys are written as the "0x%02X" strings the lookup uses.
- Console, command-line parsing, port enumeration and the Win32 helpers are not part of this model.

## Findings

| source | as written | input that shows it | evidently intended | confidence | as-written member | corrected member |
|---|---|---|---|---|---|---|
| qbdude-console-app/Microcontroller.cs:21 | The boot section for setting 0x02 is 4086 bytes (also at line 39 for the ATmega1284, shown by Microcontrollers.ATmega1284FuseDA). The other settings are 8192, 2048 and 1024. | ATmega128, fuse byte 0xDA, a program of 131072 - 4096 + 10 bytes: the handshake lets it through, so its last page overlaps the boot section. | 4096 bytes (2048 words), so the size check refuses that program. | high that 4096 is meant; not executed. The command handler takes its profiles from the device dictionary loaded from microcontrollers.json, which is not part of this model. So the shipped tool shows the overlap only if that file carries the same 4086. | Handshake.AsWrittenAdmitsBootOverlap | Handshake.ATmega128SizeBound |
