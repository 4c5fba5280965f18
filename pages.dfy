/** The page frames the upload sends: a 2-byte big-endian page index, one
    page of program bytes padded with 0xFF, and a status byte that says
    whether another page follows. */
module Pages {
  import opened HexText

  const PageContinuationIndicator: byte := 0xFF
  const LastPageIndicator: byte := 0xFE

  function Min(a: int, b: int): int {
    if a <= b then a else b
  }

  /** `n` bytes of 0xFF. */
  function Padding(n: nat): (s: seq<byte>)
    ensures |s| == n && forall i :: 0 <= i < n ==> s[i] == 0xFF
  {
    seq(n, _ => 0xFF)
  }

  /** `(byte)(k >> 8)` and `(byte)k`: the two low bytes of the page index,
      high byte first. */
  function IndexBytes(k: nat): seq<byte> {
    [(k / 256) % 256, k % 256]
  }

  lemma NonNegativeProduct(a: nat, b: nat)
    ensures a * b >= 0
  {
  }

  /** Quotient and remainder are unique. */
  lemma DivModUnique(x: int, d: int, q: int, m: int)
    requires d > 0 && 0 <= m < d && x == d * q + m
    ensures x / d == q && x % d == m
  {
    var q', m' := x / d, x % d;
    assert x == d * q' + m';
    var e := q - q';
    assert d * e == m' - m;
    if e >= 1 {
      assert d * e == d + d * (e - 1);
      NonNegativeProduct(d, e - 1);
    } else if e <= -1 {
      assert d * (-e) == d + d * (-e - 1);
      NonNegativeProduct(d, -e - 1);
    }
  }

  /** The two index bytes, read big-endian, are k modulo 2^16. */
  lemma IndexValue(k: nat)
    ensures 256 * ((k / 256) % 256) + k % 256 == k % 65536
  {
    var q, r := k / 256, k % 256;
    var a, b := q / 256, q % 256;
    assert k == 65536 * a + (256 * b + r);
    DivModUnique(k, 65536, a, 256 * b + r);
  }

  /** The frame of page k holding `chunk`. */
  function PageFrame(k: nat, chunk: seq<byte>, pageSize: nat, last: bool): (f: seq<byte>)
    requires |chunk| <= pageSize
    ensures |f| == pageSize + 3
    ensures f[..2] == IndexBytes(k)
    ensures f[2..pageSize + 2] == chunk + Padding(pageSize - |chunk|)
    ensures f[pageSize + 2] == if last then LastPageIndicator else PageContinuationIndicator
  {
    IndexBytes(k) + chunk + Padding(pageSize - |chunk|) + [if last then LastPageIndicator else PageContinuationIndicator]
  }

  /** The two index bytes of a frame, read big-endian, are its page index
      modulo 2^16. */
  lemma FrameIndex(k: nat, chunk: seq<byte>, pageSize: nat, last: bool)
    requires |chunk| <= pageSize
    ensures var f := PageFrame(k, chunk, pageSize, last);
            256 * (f[0] as int) + f[1] as int == k % 65536
  {
    var f := PageFrame(k, chunk, pageSize, last);
    assert f[0] == f[..2][0] && f[1] == f[..2][1];
    IndexValue(k);
  }

  /** The bytes `DefinePageDataQueue` assembles for one page, the index
      bytes inserted in front one at a time, are that page's frame. */
  lemma AssembledFrame(k: nat, chunk: seq<byte>, padded: seq<byte>, pageSize: nat, last: bool)
    requires |chunk| <= pageSize && padded == chunk + Padding(pageSize - |chunk|)
    ensures [(k / 256) % 256] + ([k % 256] + padded) + [if last then LastPageIndicator else PageContinuationIndicator]
         == PageFrame(k, chunk, pageSize, last)
  {
  }

  /** The frames `DefinePageDataQueue` enqueues for `data`, numbered from k:
      each takes the next min(remaining, pageSize) bytes, and the frame that
      takes the last byte is marked last. */
  function Frames(data: seq<byte>, pageSize: nat, k: nat): (frames: seq<seq<byte>>)
    requires pageSize > 0
    ensures forall i :: 0 <= i < |frames| ==> |frames[i]| == pageSize + 3
    decreases |data|
  {
    if data == [] then []
    else
      var n := Min(|data|, pageSize);
      [PageFrame(k, data[..n], pageSize, n == |data|)] + Frames(data[n..], pageSize, k + 1)
  }

  /** Enqueueing the first frame leaves the frames of the rest of the data
      still to come, numbered on from k + 1. */
  lemma EnqueueFirstFrame(queue: seq<seq<byte>>, data: seq<byte>, pageSize: nat, k: nat)
    requires pageSize > 0 && data != []
    ensures var n := Min(|data|, pageSize);
            queue + Frames(data, pageSize, k)
            == (queue + [PageFrame(k, data[..n], pageSize, n == |data|)]) + Frames(data[n..], pageSize, k + 1)
  {
  }

  /** ceil(n / pageSize). */
  function PageCount(n: nat, pageSize: nat): nat
    requires pageSize > 0
  {
    (n + pageSize - 1) / pageSize
  }

  lemma PageCountStep(n: nat, pageSize: nat)
    requires pageSize > 0 && n > pageSize
    ensures PageCount(n, pageSize) == PageCount(n - pageSize, pageSize) + 1
  {
    var m := n - pageSize + pageSize - 1;
    assert n + pageSize - 1 == m + pageSize;
    var q, r := m / pageSize, m % pageSize;
    assert m + pageSize == pageSize * (q + 1) + r;
    DivModUnique(m + pageSize, pageSize, q + 1, r);
  }

  /** Exactly ceil(n / pageSize) frames, none for no data. */
  lemma {:induction false} FramesCount(data: seq<byte>, pageSize: nat, k: nat)
    requires pageSize > 0
    ensures |Frames(data, pageSize, k)| == PageCount(|data|, pageSize)
    ensures |Frames(data, pageSize, k)| == 0 <==> data == []
    decreases |data|
  {
    if data != [] {
      var n := Min(|data|, pageSize);
      FramesCount(data[n..], pageSize, k + 1);
      if |data| > pageSize {
        PageCountStep(|data|, pageSize);
      } else {
        DivModUnique(|data| + pageSize - 1, pageSize, 1, |data| - 1);
      }
    }
  }

  /** Dropping the first frame leaves the frames of the rest of the data. */
  lemma FramesShift(data: seq<byte>, pageSize: nat, k: nat)
    requires pageSize > 0 && data != []
    ensures var n := Min(|data|, pageSize);
            && Frames(data, pageSize, k)[0] == PageFrame(k, data[..n], pageSize, n == |data|)
            && Frames(data, pageSize, k)[1..] == Frames(data[n..], pageSize, k + 1)
  {
  }

  /** Frame i of the queue: PageSize + 3 bytes, page index k + i, and the
      last-page marker on the final frame only. */
  lemma {:induction false} FrameHeader(data: seq<byte>, pageSize: nat, k: nat, i: nat)
    requires pageSize > 0 && i < |Frames(data, pageSize, k)|
    ensures var f := Frames(data, pageSize, k)[i];
            && |f| == pageSize + 3
            && 256 * (f[0] as int) + f[1] as int == (k + i) % 65536
            && (f[pageSize + 2] == LastPageIndicator <==> i == |Frames(data, pageSize, k)| - 1)
            && (f[pageSize + 2] != LastPageIndicator ==> f[pageSize + 2] == PageContinuationIndicator)
    decreases |data|
  {
    var n := Min(|data|, pageSize);
    var rest := data[n..];
    FramesShift(data, pageSize, k);
    FramesCount(rest, pageSize, k + 1);
    FrameIndex(k, data[..n], pageSize, n == |data|);
    if i > 0 {
      FrameHeader(rest, pageSize, k + 1, i - 1);
      assert Frames(data, pageSize, k)[i] == Frames(rest, pageSize, k + 1)[i - 1];
    } else {
      assert n == |data| <==> rest == [];
    }
  }

  /** Where page i starts in the program data; i * pageSize, written as a
      sum so that the proofs below stay linear. */
  function PageStart(i: nat, pageSize: nat): nat {
    if i == 0 then 0 else PageStart(i - 1, pageSize) + pageSize
  }

  lemma {:induction false} PageStartIsProduct(i: nat, pageSize: nat)
    ensures PageStart(i, pageSize) == i * pageSize
  {
    if i > 0 {
      PageStartIsProduct(i - 1, pageSize);
      assert i * pageSize == (i - 1) * pageSize + pageSize;
    }
  }

  /** The payload of frame i is the i-th page-sized slice of the data,
      padded with 0xFF to a full page. */
  lemma {:induction false} FramePayload(data: seq<byte>, pageSize: nat, k: nat, i: nat)
    requires pageSize > 0 && i < |Frames(data, pageSize, k)|
    ensures PageStart(i, pageSize) < |data|
    ensures var lo := PageStart(i, pageSize);
            var top := Min(|data|, lo + pageSize);
            Frames(data, pageSize, k)[i][2..pageSize + 2] == data[lo..top] + Padding(lo + pageSize - top)
    decreases |data|
  {
    if i > 0 {
      FrameOfRest(data, pageSize, k, i);
      var rest := data[pageSize..];
      FramePayload(rest, pageSize, k + 1, i - 1);
      var f := Frames(data, pageSize, k)[i];
      assert f == Frames(rest, pageSize, k + 1)[i - 1];
      assert |f| == pageSize + 3;
      FramePayloadStep(data, pageSize, f, i);
    } else {
      FirstFramePayload(data, pageSize, k);
    }
  }

  /** The step of the induction: a frame whose payload is the page at lo
      of the data after the first page is the page at lo + pageSize of the
      whole data. */
  lemma FramePayloadStep(data: seq<byte>, pageSize: nat, f: seq<byte>, i: nat)
    requires pageSize > 0 && i > 0 && |data| > pageSize && |f| == pageSize + 3
    requires PageStart(i - 1, pageSize) < |data[pageSize..]|
    requires var lo := PageStart(i - 1, pageSize);
             var top := Min(|data[pageSize..]|, lo + pageSize);
             f[2..pageSize + 2] == data[pageSize..][lo..top] + Padding(lo + pageSize - top)
    ensures PageStart(i, pageSize) < |data|
    ensures var lo := PageStart(i, pageSize);
            var top := Min(|data|, lo + pageSize);
            f[2..pageSize + 2] == data[lo..top] + Padding(lo + pageSize - top)
  {
    var lo' := PageStart(i - 1, pageSize);
    var top' := Min(|data| - pageSize, lo' + pageSize);
    ShiftedPayload(f[2..pageSize + 2], data, pageSize, lo', top');
  }

  /** Frame i > 0 is frame i - 1 of what follows the first page. */
  lemma FrameOfRest(data: seq<byte>, pageSize: nat, k: nat, i: nat)
    requires pageSize > 0 && 0 < i < |Frames(data, pageSize, k)|
    ensures |data| > pageSize && i - 1 < |Frames(data[pageSize..], pageSize, k + 1)|
    ensures Frames(data, pageSize, k)[i] == Frames(data[pageSize..], pageSize, k + 1)[i - 1]
  {
    FramesShift(data, pageSize, k);
    assert Frames(data[Min(|data|, pageSize)..], pageSize, k + 1) != [];
  }

  /** The first frame carries the first page of the data. */
  lemma FirstFramePayload(data: seq<byte>, pageSize: nat, k: nat)
    requires pageSize > 0 && data != []
    ensures var top := Min(|data|, pageSize);
            Frames(data, pageSize, k)[0][2..pageSize + 2] == data[0..top] + Padding(pageSize - top)
  {
    var n := Min(|data|, pageSize);
    assert Frames(data, pageSize, k)[0] == PageFrame(k, data[..n], pageSize, n == |data|);
    assert data[0..n] == data[..n];
  }

  /** A payload read from the data after its first d bytes, seen from the
      start of the data. */
  lemma ShiftedPayload(payload: seq<byte>, data: seq<byte>, d: nat, lo: nat, top: nat)
    requires d <= |data| && lo <= top <= |data| - d && top <= lo + d
    requires payload == data[d..][lo..top] + Padding(lo + d - top)
    ensures payload == data[lo + d..top + d] + Padding((lo + d) + d - (top + d))
  {
    assert data[d..][lo..top] == data[lo + d..top + d];
  }

  /** Only the final frame carries padding: every earlier one is a full
      page of program bytes, page i starting at byte i * pageSize. */
  lemma OnlyLastFramePadded(data: seq<byte>, pageSize: nat, k: nat, i: nat)
    requires pageSize > 0 && i + 1 < |Frames(data, pageSize, k)|
    ensures (i + 1) * pageSize < |data|
    ensures Frames(data, pageSize, k)[i][2..pageSize + 2] == data[i * pageSize..(i + 1) * pageSize]
  {
    FramePayload(data, pageSize, k, i + 1);
    FramePayload(data, pageSize, k, i);
    PageStartIsProduct(i, pageSize);
    PageStartIsProduct(i + 1, pageSize);
  }

  /** The payload section of each frame, concatenated in queue order. */
  function Payloads(frames: seq<seq<byte>>, pageSize: nat): seq<byte>
    requires forall i :: 0 <= i < |frames| ==> |frames[i]| == pageSize + 3
  {
    if frames == [] then [] else frames[0][2..pageSize + 2] + Payloads(frames[1..], pageSize)
  }

  lemma {:induction false} PayloadsLength(frames: seq<seq<byte>>, pageSize: nat)
    requires forall i :: 0 <= i < |frames| ==> |frames[i]| == pageSize + 3
    ensures |Payloads(frames, pageSize)| == pageSize * |frames|
  {
    if frames != [] {
      PayloadsLength(frames[1..], pageSize);
      assert pageSize * |frames| == pageSize + pageSize * |frames[1..]|;
    }
  }

  /** Segmentation loses nothing: the payloads, read back in order, are the
      program data followed by nothing but 0xFF padding, less than one page. */
  lemma {:induction false} PayloadsRestoreData(data: seq<byte>, pageSize: nat, k: nat)
    requires pageSize > 0
    ensures var p := Payloads(Frames(data, pageSize, k), pageSize);
            && |p| == pageSize * |Frames(data, pageSize, k)|
            && |data| <= |p| < |data| + pageSize
            && p[..|data|] == data
            && forall j :: |data| <= j < |p| ==> p[j] == 0xFF
    decreases |data|
  {
    PayloadsLength(Frames(data, pageSize, k), pageSize);
    if data != [] {
      var n := Min(|data|, pageSize);
      var rest := data[n..];
      var frames := Frames(data, pageSize, k);
      PayloadsRestoreData(rest, pageSize, k + 1);
      assert frames[1..] == Frames(rest, pageSize, k + 1);
      var head := frames[0][2..pageSize + 2];
      assert head == data[..n] + Padding(pageSize - n);
      var tail := Payloads(Frames(rest, pageSize, k + 1), pageSize);
      assert Payloads(frames, pageSize) == head + tail;
      if n < |data| {
        assert head == data[..n];
        assert data == data[..n] + rest;
        assert (head + tail)[..|data|] == data[..n] + tail[..|rest|];
      } else {
        assert rest == [] && tail == [];
        assert (head + tail)[..|data|] == data;
      }
    }
  }

  /** Two pages of size 2 for three bytes: the second is padded and last. */
  lemma ThreeBytesTwoPages()
    ensures Frames([0xAA, 0xBB, 0xCC], 2, 0)
         == [[0x00, 0x00, 0xAA, 0xBB, 0xFF], [0x00, 0x01, 0xCC, 0xFF, 0xFE]]
  {
    var data: seq<byte> := [0xAA, 0xBB, 0xCC];
    var last: seq<byte> := [0xCC];
    var none: seq<byte> := [];
    assert data[..2] == [0xAA, 0xBB] && data[2..] == last;
    assert last[..1] == last && last[1..] == none;
    var ff: seq<byte> := [0xFF];
    assert Padding(0) == none && Padding(1) == ff;
    assert PageFrame(0, [0xAA, 0xBB], 2, false) == [0x00, 0x00, 0xAA, 0xBB, 0xFF];
    assert PageFrame(1, last, 2, true) == [0x00, 0x01, 0xCC, 0xFF, 0xFE];
    assert Frames(last, 2, 1) == [PageFrame(1, last, 2, true)];
    assert Frames(data, 2, 0) == [PageFrame(0, [0xAA, 0xBB], 2, false)] + Frames(last, 2, 1);
  }
}
