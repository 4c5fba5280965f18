/** Reading a firmware file of Intel-HEX-style records into the flat list of
    program bytes. The file system is replaced by an existence flag and the
    file's lines; the cancellation token by the index of the first record at
    which it is observed set. */
module HexReader {
  import opened Outcomes
  import opened HexText

  const IntelEofRecord: string := ":00000001FF"
  const HexRecordMinimumLength: nat := 11
  const ProgramDataFieldIndex: nat := 9
  const MaxProgramDataSize: nat := 131072

  /** `record.Substring(9, record.Length - 11)`: what lies between the
      ':LLAAAATT' header and the two checksum characters. */
  function DataField(record: string): (field: string)
    requires |record| >= HexRecordMinimumLength
    ensures |field| == |record| - HexRecordMinimumLength
    ensures forall i :: 0 <= i < |field| ==> field[i] == record[ProgramDataFieldIndex + i]
  {
    record[ProgramDataFieldIndex..|record| - 2]
  }

  /** The decoding of the matches of the regular expression `[A-F0-9]{2}`,
      found left to right without overlap: at each position either two
      upper-case digits form a match (one byte, high nibble first) and the
      scan moves past both, or the scan moves on by one character. */
  function MatchedBytes(s: string): (bytes: seq<byte>)
    ensures |bytes| <= |s| / 2
  {
    if |s| < 2 then []
    else if IsUpperHexDigit(s[0]) && IsUpperHexDigit(s[1]) then
      [16 * DigitValue(s[0]) + DigitValue(s[1])] + MatchedBytes(s[2..])
    else MatchedBytes(s[1..])
  }

  /** The structural test made before any record is decoded. */
  predicate WellFormed(records: seq<string>)
    requires records != []
  {
    records[|records| - 1] == IntelEofRecord &&
    forall i :: 0 <= i < |records| ==> |records[i]| >= HexRecordMinimumLength
  }

  function Prepend(bytes: seq<byte>, r: Result<seq<byte>>): Result<seq<byte>> {
    match r
    case Ok(rest) => Ok(bytes + rest)
    case Fail(f) => Fail(f)
  }

  /** The loop over the records from index `from` on: the cancellation test
      first, then the odd-length test, then the record's bytes. */
  function DecodeRecords(records: seq<string>, from: nat, cancelledAt: nat): Result<seq<byte>>
    requires forall i :: 0 <= i < |records| ==> |records[i]| >= HexRecordMinimumLength
    decreases |records| - from
  {
    if from >= |records| then Ok([])
    else if from >= cancelledAt then Fail(Cancelled)
    else if |DataField(records[from])| % 2 != 0 then Fail(Fault.InvalidHexFile)
    else Prepend(MatchedBytes(DataField(records[from])), DecodeRecords(records, from + 1, cancelledAt))
  }

  /** What `ExtractProgramData` returns or throws. An empty file makes
      `.Last()` throw, which nothing classifies. */
  function ProgramImage(fileExists: bool, records: seq<string>, cancelledAt: nat): Result<seq<byte>> {
    if !fileExists then Fail(Fault.HexFileNotFound)
    else if records == [] then Fail(Unclassified)
    else if !WellFormed(records) then Fail(Fault.InvalidHexFile)
    else match DecodeRecords(records, 0, cancelledAt)
      case Fail(f) => Fail(f)
      case Ok(data) =>
        if |data| > MaxProgramDataSize then Fail(Fault.ProgramSizeTooLarge) else Ok(data)
  }

  /** `ExtractProgramData`: the structural checks, then a loop that decodes
      each record's data field and appends its bytes, then the size bound. */
  method ExtractProgramData(fileExists: bool, fileRecords: seq<string>, cancelledAt: nat)
    returns (r: Result<seq<byte>>)
    ensures r == ProgramImage(fileExists, fileRecords, cancelledAt)
  {
    if !fileExists {
      return Fail(Fault.HexFileNotFound);
    }
    var programData: seq<byte> := [];
    if |fileRecords| == 0 {
      return Fail(Unclassified);
    }
    if fileRecords[|fileRecords| - 1] != IntelEofRecord
       || exists i :: 0 <= i < |fileRecords| && |fileRecords[i]| < HexRecordMinimumLength
    {
      return Fail(Fault.InvalidHexFile);
    }
    var i := 0;
    ghost var all := DecodeRecords(fileRecords, 0, cancelledAt);
    if all.Ok? {
      assert programData + all.value == all.value;
    }
    while i < |fileRecords|
      invariant 0 <= i <= |fileRecords|
      invariant DecodeRecords(fileRecords, 0, cancelledAt)
                == Prepend(programData, DecodeRecords(fileRecords, i, cancelledAt))
    {
      if i >= cancelledAt {
        return Fail(Cancelled);
      }
      var record := fileRecords[i];
      var dataString := record[ProgramDataFieldIndex..|record| - 2];
      if |dataString| % 2 != 0 {
        return Fail(Fault.InvalidHexFile);
      }
      var dataArray := MatchedBytes(dataString);
      ghost var rest := DecodeRecords(fileRecords, i + 1, cancelledAt);
      if rest.Ok? {
        assert programData + (dataArray + rest.value) == (programData + dataArray) + rest.value;
      }
      programData := programData + dataArray;
      i := i + 1;
    }
    assert programData + [] == programData;
    if |programData| > MaxProgramDataSize {
      return Fail(Fault.ProgramSizeTooLarge);
    }
    return Ok(programData);
  }

  // ---------------------------------------------------------------------
  // Properties of the specification

  /** The bytes each record contributes, in file order. */
  function LineBytes(records: seq<string>): (lines: seq<seq<byte>>)
    requires forall i :: 0 <= i < |records| ==> |records[i]| >= HexRecordMinimumLength
    ensures |lines| == |records|
    ensures forall i :: 0 <= i < |records| ==> lines[i] == MatchedBytes(DataField(records[i]))
  {
    seq(|records|, i requires 0 <= i < |records| => MatchedBytes(DataField(records[i])))
  }

  /** Concatenation of a sequence of byte runs. */
  function Flatten(runs: seq<seq<byte>>): seq<byte> {
    if runs == [] then [] else runs[0] + Flatten(runs[1..])
  }

  /** A record the loop gets past: reached before cancellation and with a
      data field of even length. */
  predicate Accepted(records: seq<string>, i: nat, cancelledAt: nat)
    requires i < |records| && |records[i]| >= HexRecordMinimumLength
  {
    i < cancelledAt && |DataField(records[i])| % 2 == 0
  }

  /** The loop succeeds exactly when it gets past every record. */
  lemma {:induction false} DecodeRecordsOkIff(records: seq<string>, from: nat, cancelledAt: nat)
    requires forall i :: 0 <= i < |records| ==> |records[i]| >= HexRecordMinimumLength
    ensures DecodeRecords(records, from, cancelledAt).Ok? <==>
            forall i :: from <= i < |records| ==> Accepted(records, i, cancelledAt)
    decreases |records| - from
  {
    if from < |records| {
      DecodeRecordsOkIff(records, from + 1, cancelledAt);
      var rest := DecodeRecords(records, from + 1, cancelledAt);
      if Accepted(records, from, cancelledAt) {
        assert DecodeRecords(records, from, cancelledAt)
               == Prepend(MatchedBytes(DataField(records[from])), rest);
        assert DecodeRecords(records, from, cancelledAt).Ok? <==> rest.Ok?;
      } else {
        assert DecodeRecords(records, from, cancelledAt).Fail?;
      }
    }
  }

  /** When it succeeds, the result is the concatenation of every record's
      bytes, in file order. */
  lemma {:induction false} DecodedIsConcatenation(records: seq<string>, from: nat, cancelledAt: nat)
    requires forall i :: 0 <= i < |records| ==> |records[i]| >= HexRecordMinimumLength
    requires from <= |records| && DecodeRecords(records, from, cancelledAt).Ok?
    ensures DecodeRecords(records, from, cancelledAt).value == Flatten(LineBytes(records)[from..])
    decreases |records| - from
  {
    if from < |records| {
      DecodedIsConcatenation(records, from + 1, cancelledAt);
      var lines := LineBytes(records)[from..];
      assert lines[1..] == LineBytes(records)[from + 1..];
    }
  }

  /** The first record the loop cannot get past decides the error: a
      cancellation if the token is set by then, otherwise an invalid file,
      whatever the later records hold and however many bytes came before. */
  lemma {:induction false} FirstRejectedRecordDecides(records: seq<string>, from: nat, cancelledAt: nat, k: nat)
    requires forall i :: 0 <= i < |records| ==> |records[i]| >= HexRecordMinimumLength
    requires from <= k < |records|
    requires forall i :: from <= i < k ==> Accepted(records, i, cancelledAt)
    requires !Accepted(records, k, cancelledAt)
    ensures DecodeRecords(records, from, cancelledAt)
            == Fail(if k >= cancelledAt then Cancelled else Fault.InvalidHexFile)
    decreases k - from
  {
    if from < k {
      FirstRejectedRecordDecides(records, from + 1, cancelledAt, k);
      assert Accepted(records, from, cancelledAt);
      assert DecodeRecords(records, from, cancelledAt)
             == Prepend(MatchedBytes(DataField(records[from])), DecodeRecords(records, from + 1, cancelledAt));
    }
  }

  /** The whole contract of `ExtractProgramData` on its success path: the
      file exists, is non-empty and well formed, every record is accepted and
      the concatenated bytes fit the bound; the image is then exactly that
      concatenation. */
  lemma ProgramImageOkIff(fileExists: bool, records: seq<string>, cancelledAt: nat)
    ensures ProgramImage(fileExists, records, cancelledAt).Ok? <==>
            && fileExists && records != [] && WellFormed(records)
            && (forall i :: 0 <= i < |records| ==> Accepted(records, i, cancelledAt))
            && |Flatten(LineBytes(records))| <= MaxProgramDataSize
    ensures ProgramImage(fileExists, records, cancelledAt).Ok? ==>
            ProgramImage(fileExists, records, cancelledAt).value == Flatten(LineBytes(records))
  {
    if fileExists && records != [] && WellFormed(records) {
      DecodeRecordsOkIff(records, 0, cancelledAt);
      if DecodeRecords(records, 0, cancelledAt).Ok? {
        DecodedIsConcatenation(records, 0, cancelledAt);
        assert LineBytes(records)[0..] == LineBytes(records);
      }
    }
  }

  /** A missing file is reported before anything is read. */
  lemma MissingFileFirst(records: seq<string>, cancelledAt: nat)
    ensures ProgramImage(false, records, cancelledAt) == Fail(Fault.HexFileNotFound)
  {
  }

  /** A last line other than the EOF literal, or any line shorter than 11
      characters, makes the file invalid whatever else it holds: no record is
      decoded, no cancellation is observed and no size is checked. */
  lemma StructureCheckedFirst(records: seq<string>, cancelledAt: nat)
    requires records != []
    requires records[|records| - 1] != IntelEofRecord ||
             exists i :: 0 <= i < |records| && |records[i]| < HexRecordMinimumLength
    ensures ProgramImage(true, records, cancelledAt) == Fail(Fault.InvalidHexFile)
  {
  }

  /** A well-formed file with a record whose data field has odd length is
      invalid even if the bytes decoded so far exceed the size bound: the
      bound is checked only after the last record. */
  lemma OddFieldBeatsSizeBound(records: seq<string>, k: nat)
    requires records != [] && WellFormed(records) && k < |records|
    requires forall i :: 0 <= i < k ==> |DataField(records[i])| % 2 == 0
    requires |DataField(records[k])| % 2 != 0
    ensures ProgramImage(true, records, |records|) == Fail(Fault.InvalidHexFile)
  {
    FirstRejectedRecordDecides(records, 0, |records|, k);
  }

  /** Records that all pass but together carry more than 131072 bytes give
      ProgramSizeTooLarge. */
  lemma OversizeImageRejected(records: seq<string>, cancelledAt: nat)
    requires records != [] && WellFormed(records)
    requires forall i :: 0 <= i < |records| ==> Accepted(records, i, cancelledAt)
    requires |Flatten(LineBytes(records))| > MaxProgramDataSize
    ensures ProgramImage(true, records, cancelledAt) == Fail(Fault.ProgramSizeTooLarge)
  {
    DecodeRecordsOkIff(records, 0, cancelledAt);
    DecodedIsConcatenation(records, 0, cancelledAt);
    assert LineBytes(records)[0..] == LineBytes(records);
  }

  lemma {:induction false} FlattenAppend(runs: seq<seq<byte>>, last: seq<byte>)
    ensures Flatten(runs + [last]) == Flatten(runs) + last
  {
    if runs != [] {
      assert (runs + [last])[1..] == runs[1..] + [last];
      FlattenAppend(runs[1..], last);
    }
  }

  /** The EOF record contributes no bytes: the image of a well-formed file is
      the concatenation of the records before it. */
  lemma EofRecordContributesNothing(records: seq<string>)
    requires records != [] && WellFormed(records)
    ensures Flatten(LineBytes(records)) == Flatten(LineBytes(records[..|records| - 1]))
  {
    var body := records[..|records| - 1];
    assert DataField(records[|records| - 1]) == [];
    assert LineBytes(records) == LineBytes(body) + [[]];
    FlattenAppend(LineBytes(body), []);
  }

  predicate AllUpperHexDigits(s: string) {
    forall i :: 0 <= i < |s| ==> IsUpperHexDigit(s[i])
  }

  /** A run of upper-case digits decodes pair by pair: |s|/2 bytes, byte k
      from characters 2k (high nibble) and 2k+1 (low nibble); a trailing odd
      character is ignored. */
  lemma {:induction false} UpperHexDecodesPairwise(s: string)
    requires AllUpperHexDigits(s)
    ensures |MatchedBytes(s)| == |s| / 2
    ensures forall k :: 0 <= k < |s| / 2 ==>
              MatchedBytes(s)[k] == 16 * DigitValue(s[2 * k]) + DigitValue(s[2 * k + 1])
  {
    if |s| >= 2 {
      var t := s[2..];
      assert forall i :: 0 <= i < |t| ==> t[i] == s[i + 2];
      UpperHexDecodesPairwise(t);
      forall k | 0 <= k < |s| / 2
        ensures MatchedBytes(s)[k] == 16 * DigitValue(s[2 * k]) + DigitValue(s[2 * k + 1])
      {
        if k > 0 {
          assert s[2 * k] == t[2 * (k - 1)] && s[2 * k + 1] == t[2 * (k - 1) + 1];
        }
      }
    }
  }

  /** A record whose data field is all upper-case digits contributes exactly
      (length - 11) / 2 bytes. */
  lemma UpperHexRecordLength(record: string)
    requires |record| >= HexRecordMinimumLength && AllUpperHexDigits(DataField(record))
    ensures |MatchedBytes(DataField(record))| == (|record| - HexRecordMinimumLength) / 2
  {
    UpperHexDecodesPairwise(DataField(record));
  }

  /** The text `X2` gives for a run of bytes, one pair per byte. */
  function EncodeX2(bytes: seq<byte>): (s: string)
    ensures |s| == 2 * |bytes| && AllUpperHexDigits(s)
  {
    if bytes == [] then [] else FormatX2(bytes[0]) + EncodeX2(bytes[1..])
  }

  /** Decoding inverts encoding: the scan recovers every byte of a run of
      upper-case pairs. */
  lemma {:induction false} DecodeInvertsEncode(bytes: seq<byte>)
    ensures MatchedBytes(EncodeX2(bytes)) == bytes
  {
    if bytes != [] {
      var s := EncodeX2(bytes);
      assert s[2..] == EncodeX2(bytes[1..]);
      DecodeInvertsEncode(bytes[1..]);
    }
  }

  /** A character that is not an upper-case digit is skipped, not rejected. */
  lemma NonDigitSkipped(c: char, s: string)
    requires !IsUpperHexDigit(c)
    ensures MatchedBytes([c] + s) == MatchedBytes(s)
  {
    if |s| >= 1 {
      assert ([c] + s)[1..] == s;
    }
  }

  /** Lower-case digits are not matched, and matches need not start at even
      offsets: "0a1B2C" yields just 0x1B and 0x2C. */
  lemma LowerCaseDigitsSkipped()
    ensures MatchedBytes("0a1B2C") == [0x1B, 0x2C]
  {
    assert "0a1B2C"[1..] == "a1B2C";
    assert "a1B2C"[1..] == "1B2C";
    assert "1B2C"[2..] == "2C";
    assert "2C"[2..] == "";
  }

  /** The header (length, address, record type) and the checksum play no
      part: records that agree on their data field give the same bytes. */
  lemma HeaderAndChecksumIgnored(r1: string, r2: string)
    requires |r1| == |r2| >= HexRecordMinimumLength
    requires forall i :: ProgramDataFieldIndex <= i < |r1| - 2 ==> r1[i] == r2[i]
    ensures MatchedBytes(DataField(r1)) == MatchedBytes(DataField(r2))
  {
    assert DataField(r1) == DataField(r2);
  }

  /** A data record followed by the EOF record yields its four bytes. */
  lemma FourByteFile()
    ensures ProgramImage(true, [":0400000001020304F2", IntelEofRecord], 2) == Ok([0x01, 0x02, 0x03, 0x04])
  {
    var records := [":0400000001020304F2", IntelEofRecord];
    assert DataField(records[0]) == "01020304";
    assert DataField(records[1]) == "";
    UpperHexDecodesPairwise("01020304");
    assert MatchedBytes("01020304") == [0x01, 0x02, 0x03, 0x04];
    var none: seq<byte> := [];
    var four: seq<byte> := [0x01, 0x02, 0x03, 0x04];
    assert MatchedBytes("") == none;
    assert DecodeRecords(records, 1, 2) == Prepend(none, Ok(none));
    assert none + none == none && four + none == four;
    assert DecodeRecords(records, 0, 2) == Prepend(four, Ok(none));
  }
}
