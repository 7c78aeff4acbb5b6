/** Streaming acquired frames from the ring buffer to raw files on disk.

    `RawWriter` appends a frame to the open file in chunks of at most
    `WRITE_CHUNK_SIZE` bytes. The worker's streaming loop repeatedly asks the
    ring buffer for the frame it wants next; when it gets that frame it opens a
    file (if none is open) or appends the frame, rolling over to a new,
    numbered file once the per-file frame cap is reached; when it gets a later
    frame it has fallen behind and re-aims at the newest one.

    Here the file is a list of byte chunks, each loop iteration is a step
    function over the stream's counters and the files written so far, and the
    worker thread's start/stop handshake is a pair of flags.
 */
module FileStreamWorker {
  import opened NativeInt
  import opened Optional

  const WRITE_CHUNK_SIZE: int := 1048576

  newtype byte = x: int | 0 <= x < 256

  // ---------------------------------------------------------------------------
  // RawWriter

  /** A raw binary file writer: whether a file is open, its name, the chunks
      handed to the file stream since it was opened, and `total_bytes_written`. */
  datatype RawWriter = RawWriter(isOpen: bool, name: string, chunks: seq<seq<byte>>, totalBytesWritten: int)

  /** The bytes of a list of chunks, in order. */
  function Concat(cs: seq<seq<byte>>): seq<byte>
  {
    if |cs| == 0 then [] else Concat(cs[..|cs| - 1]) + cs[|cs| - 1]
  }

  lemma ConcatAppend(cs: seq<seq<byte>>, c: seq<byte>)
    ensures Concat(cs + [c]) == Concat(cs) + c
  {
    assert (cs + [c])[..|cs|] == cs;
  }

  /** The bytes of two lists of chunks written one after the other. */
  lemma {:induction false} ConcatJoin(a: seq<seq<byte>>, b: seq<seq<byte>>)
    ensures Concat(a + b) == Concat(a) + Concat(b)
    decreases |b|
  {
    if |b| > 0 {
      var b0 := b[..|b| - 1];
      assert a + b == (a + b0) + [b[|b| - 1]];
      ConcatAppend(a + b0, b[|b| - 1]);
      ConcatJoin(a, b0);
      ConcatAppend(b0, b[|b| - 1]);
      assert b0 + [b[|b| - 1]] == b;
    } else {
      assert a + b == a;
    }
  }

  /** The writer's counter agrees with what has reached the file. */
  predicate BytesCounted(w: RawWriter)
  {
    w.totalBytesWritten == |Concat(w.chunks)|
  }

  /** `RawWriter::open` on a closed writer: the file is created empty (or
      truncated) and the byte counter is reset. The stream opens a file only
      while none is open. Failure to open is not modelled. */
  function Open(w: RawWriter, name: string): (r: RawWriter)
    requires !w.isOpen
    ensures r.isOpen && r.name == name
    ensures r.chunks == [] && Concat(r.chunks) == [] && r.totalBytesWritten == 0
    ensures BytesCounted(r)
  {
    RawWriter(true, name, [], 0)
  }

  /** `RawWriter::close`: flush and close; what was written stays written. */
  function Close(w: RawWriter): (r: RawWriter)
    ensures !r.isOpen
    ensures r.name == w.name && r.chunks == w.chunks && r.totalBytesWritten == w.totalBytesWritten
    ensures BytesCounted(w) ==> BytesCounted(r)
  {
    w.(isOpen := false)
  }

  /** `RawWriter::writeFrame(f, frame_size)`. The frame is written in order as
      chunks of `WRITE_CHUNK_SIZE` bytes, the last one possibly shorter; a
      non-positive size writes nothing. The chunks reach the file only while it
      is open, but `total_bytes_written` counts them either way. */
  method WriteFrame(w: RawWriter, f: seq<byte>, frameSize: int) returns (r: RawWriter, chunks: seq<seq<byte>>)
    requires frameSize <= |f|
    ensures forall i :: 0 <= i < |chunks| ==> 0 < |chunks[i]| <= WRITE_CHUNK_SIZE
    ensures forall i :: 0 <= i < |chunks| - 1 ==> |chunks[i]| == WRITE_CHUNK_SIZE
    ensures Concat(chunks) == f[..Max0(frameSize)]
    ensures r.totalBytesWritten == w.totalBytesWritten + Max0(frameSize)
    ensures r.chunks == if w.isOpen then w.chunks + chunks else w.chunks
    ensures r.isOpen == w.isOpen && r.name == w.name
    ensures w.isOpen && BytesCounted(w) ==> BytesCounted(r)
  {
    var toBeWritten := frameSize;
    var written := 0;
    chunks := [];
    while toBeWritten > 0
      invariant written + toBeWritten == frameSize
      invariant 0 <= written <= Max0(frameSize)
      invariant frameSize <= 0 ==> written == 0
      invariant frameSize > 0 ==> toBeWritten >= 0
      invariant Concat(chunks) == f[..written]
      invariant forall i :: 0 <= i < |chunks| ==> 0 < |chunks[i]| <= WRITE_CHUNK_SIZE
      invariant forall i :: 0 <= i < |chunks| - 1 ==> |chunks[i]| == WRITE_CHUNK_SIZE
      invariant toBeWritten > 0 ==> forall i :: 0 <= i < |chunks| ==> |chunks[i]| == WRITE_CHUNK_SIZE
      decreases toBeWritten
    {
      var n;
      if toBeWritten >= WRITE_CHUNK_SIZE {
        n := WRITE_CHUNK_SIZE;
      } else {
        n := toBeWritten;
      }
      ConcatAppend(chunks, f[written..written + n]);
      assert f[..written] + f[written..written + n] == f[..written + n];
      chunks := chunks + [f[written..written + n]];
      written := written + n;
      toBeWritten := toBeWritten - n;
    }
    r := w.(chunks := if w.isOpen then w.chunks + chunks else w.chunks,
            totalBytesWritten := w.totalBytesWritten + written);
    ConcatJoin(w.chunks, chunks);
  }

  /** The first `size` bytes of every frame, in order: what a file holds after
      those frames were written to it. */
  function Frames(fs: seq<seq<byte>>, size: int): (r: seq<byte>)
    requires forall i :: 0 <= i < |fs| ==> size <= |fs[i]|
  {
    if |fs| == 0 then [] else Frames(fs[..|fs| - 1], size) + fs[|fs| - 1][..Max0(size)]
  }

  lemma FramesStep(fs: seq<seq<byte>>, size: int, i: int)
    requires forall j :: 0 <= j < |fs| ==> size <= |fs[j]|
    requires 0 <= i < |fs|
    ensures Frames(fs[..i + 1], size) == Frames(fs[..i], size) + fs[i][..Max0(size)]
    ensures (i + 1) * Max0(size) == i * Max0(size) + Max0(size)
  {
    assert fs[..i + 1][..i] == fs[..i];
  }

  /** Open a file and write frames to it one after the other, as the streaming
      loop does with the frames it obtains: the file holds the frames in order
      and the counter is a whole number of frames. */
  method WriteFrames(w: RawWriter, name: string, fs: seq<seq<byte>>, frameSize: int) returns (r: RawWriter)
    requires !w.isOpen
    requires forall i :: 0 <= i < |fs| ==> frameSize <= |fs[i]|
    ensures r.isOpen && r.name == name
    ensures Concat(r.chunks) == Frames(fs, frameSize)
    ensures r.totalBytesWritten == |fs| * Max0(frameSize)
    ensures BytesCounted(r)
  {
    r := Open(w, name);
    var i := 0;
    while i < |fs|
      invariant 0 <= i <= |fs|
      invariant r.isOpen && r.name == name
      invariant Concat(r.chunks) == Frames(fs[..i], frameSize)
      invariant r.totalBytesWritten == i * Max0(frameSize)
      invariant BytesCounted(r)
    {
      var before, cs := r.chunks, [];
      r, cs := WriteFrame(r, fs[i], frameSize);
      ConcatJoin(before, cs);
      FramesStep(fs, frameSize, i);
      i := i + 1;
    }
    assert fs[..|fs|] == fs;
  }

  // ---------------------------------------------------------------------------
  // File names

  function DigitChar(d: int): char
    requires 0 <= d < 10
  {
    ((('0' as int) + d) as char)
  }

  /** The decimal digits of `n`, most significant first, no leading zeros. */
  function Decimal(n: nat): (s: string)
    ensures |s| >= 1
    ensures forall i :: 0 <= i < |s| ==> '0' <= s[i] <= '9'
    ensures n >= 10 ==> s[0] != '0'
  {
    if n < 10 then [DigitChar(n)] else Decimal(n / 10) + [DigitChar(n % 10)]
  }

  function ZeroChars(k: nat): (s: string)
    ensures |s| == k && forall i :: 0 <= i < k ==> s[i] == '0'
  {
    seq(k, _ => '0')
  }

  /** `%04d` for a non-negative value: at least four digits, zero-padded. */
  function Pad4(n: nat): (s: string)
    ensures |s| >= 4
    ensures forall i :: 0 <= i < |s| ==> '0' <= s[i] <= '9'
  {
    var d := Decimal(n);
    if |d| < 4 then ZeroChars(4 - |d|) + d else d
  }

  /** The value of a string of decimal digits. */
  function ParseDecimal(s: string): nat
    requires forall i :: 0 <= i < |s| ==> '0' <= s[i] <= '9'
  {
    if |s| == 0 then 0
    else ParseDecimal(s[..|s| - 1]) * 10 + ((s[|s| - 1] as int) - ('0' as int))
  }

  lemma {:induction false} ParseDecimalOfDecimal(n: nat)
    ensures ParseDecimal(Decimal(n)) == n
  {
    if n >= 10 {
      var d := Decimal(n);
      assert d[..|d| - 1] == Decimal(n / 10);
      ParseDecimalOfDecimal(n / 10);
    }
  }

  lemma {:induction false} LeadingZerosIgnored(k: nat, s: string)
    requires forall i :: 0 <= i < |s| ==> '0' <= s[i] <= '9'
    ensures ParseDecimal(ZeroChars(k) + s) == ParseDecimal(s)
    decreases |s|
  {
    var z := ZeroChars(k);
    if |s| == 0 {
      assert z + s == z;
      AllZerosParse(k);
    } else {
      assert (z + s)[..|z + s| - 1] == z + s[..|s| - 1];
      LeadingZerosIgnored(k, s[..|s| - 1]);
    }
  }

  lemma {:induction false} AllZerosParse(k: nat)
    ensures ParseDecimal(ZeroChars(k)) == 0
  {
    if k > 0 {
      assert ZeroChars(k)[..k - 1] == ZeroChars(k - 1);
      AllZerosParse(k - 1);
    }
  }

  /** Reading the zero-padded field back gives the number that was printed. */
  lemma Pad4RoundTrip(n: nat)
    ensures ParseDecimal(Pad4(n)) == n
  {
    var d := Decimal(n);
    ParseDecimalOfDecimal(n);
    if |d| < 4 {
      assert Pad4(n) == ZeroChars(4 - |d|) + d;
      LeadingZerosIgnored(4 - |d|, d);
    } else {
      assert Pad4(n) == d;
    }
  }

  function Pow10(k: nat): (p: nat)
    ensures p >= 1
  {
    if k == 0 then 1 else 10 * Pow10(k - 1)
  }

  /** A number below 10^k prints in at most k digits. */
  lemma {:induction false} DecimalLength(n: nat, k: nat)
    requires 1 <= k && n < Pow10(k)
    ensures |Decimal(n)| <= k
  {
    if n >= 10 {
      assert Pow10(1) == 10;
      assert n / 10 < Pow10(k - 1);
      DecimalLength(n / 10, k - 1);
    }
  }

  /** `%04d` prints exactly four digits for every value below 10000. */
  lemma Pad4Width(n: nat)
    requires n < 10000
    ensures |Pad4(n)| == 4
  {
    assert Pow10(4) == 10000;
    DecimalLength(n, 4);
  }

  /** The name of the file with rollover number `inc`: the base name plus
      `.bin` for the first file, and the base name, `_`, the number padded to
      four digits and `.bin` for every later one. */
  function FileName(base: string, inc: nat): string
  {
    if inc == 0 then base + ".bin" else base + "_" + Pad4(inc) + ".bin"
  }

  /** Different rollover numbers give different names, so no file of a stream
      is opened twice (opening truncates). */
  lemma FileNameInjective(base: string, i: nat, j: nat)
    requires FileName(base, i) == FileName(base, j)
    ensures i == j
  {
    var a, b := FileName(base, i), FileName(base, j);
    if i > 0 && j > 0 {
      var lo := |base| + 1;
      assert a[lo..|a| - 4] == Pad4(i);
      assert b[lo..|b| - 4] == Pad4(j);
      Pad4RoundTrip(i);
      Pad4RoundTrip(j);
    }
  }

  /** The shape of a later file's name: base name, `_`, a digit field that
      reads back as the rollover number (four digits wide below 10000), `.bin`. */
  lemma FileNameFormat(base: string, inc: nat)
    requires inc > 0
    ensures var name := FileName(base, inc);
            && |name| >= |base| + 9
            && name[..|base| + 1] == base + "_"
            && name[|name| - 4..] == ".bin"
            && (forall i :: |base| + 1 <= i < |name| - 4 ==> '0' <= name[i] <= '9')
            && ParseDecimal(name[|base| + 1..|name| - 4]) == inc
            && (inc < 10000 ==> |name| == |base| + 9)
  {
    var name := FileName(base, inc);
    assert name[|base| + 1..|name| - 4] == Pad4(inc);
    Pad4RoundTrip(inc);
    if inc < 10000 {
      Pad4Width(inc);
    }
  }

  // ---------------------------------------------------------------------------
  // The streaming loop

  /** `max_frames_per_file`: the per-file byte budget divided (truncating) by
      the frame size, but never less than one frame. */
  function MaxFramesPerFile(fileMaxBytes: int, frameSizeBytes: int): (r: int)
    requires frameSizeBytes != 0
    ensures r >= 1
    ensures fileMaxBytes >= frameSizeBytes > 0 ==>
              r * frameSizeBytes <= fileMaxBytes < (r + 1) * frameSizeBytes
    ensures frameSizeBytes > 0 && fileMaxBytes < frameSizeBytes ==> r == 1
    ensures frameSizeBytes < 0 ==> r == 1 || fileMaxBytes < 0
  {
    var m := CDiv(fileMaxBytes, frameSizeBytes);
    QuotientBounds(fileMaxBytes, frameSizeBytes);
    if m < 1 then 1 else m
  }

  /** What a stream was started with: the base file name, the per-file frame
      cap, the number of frames to stream (-1 for no bound) and the frame size
      in bytes. */
  datatype StreamConfig = StreamConfig(baseName: string, maxFramesPerFile: int, nToStream: int, frameSizeBytes: int)

  /** A file the stream wrote: the rollover number it was opened with (which
      determines its name), the frame numbers appended to it in order, and its
      `total_bytes_written`. */
  datatype FileRecord = FileRecord(inc: nat, frames: seq<int>, bytesWritten: int)

  /** The name the file was opened under. */
  function NameOf(cfg: StreamConfig, f: FileRecord): string
  {
    FileName(cfg.baseName, f.inc)
  }

  /** The loop's state: whether a file is open (it is then the last record),
      `frames_in_current_file`, `file_name_inc`, `n_streamed` and
      `latest_frame_n`, the frame number requested next. */
  datatype Stream = Stream(
    cfg: StreamConfig,
    isOpen: bool,
    files: seq<FileRecord>,
    framesInCurrentFile: int,
    fileNameInc: int,
    nStreamed: int,
    latestFrameN: int)

  /** Every frame number written, file after file. */
  function AllFrames(files: seq<FileRecord>): seq<int>
  {
    if |files| == 0 then [] else AllFrames(files[..|files| - 1]) + files[|files| - 1].frames
  }

  lemma AllFramesAppend(files: seq<FileRecord>, f: FileRecord)
    ensures AllFrames(files + [f]) == AllFrames(files) + f.frames
  {
    assert (files + [f])[..|files|] == files;
  }

  lemma AllFramesUpdateLast(files: seq<FileRecord>, f: FileRecord, x: int)
    requires |files| > 0 && files[|files| - 1].frames + [x] == f.frames
    ensures AllFrames(files[|files| - 1 := f]) == AllFrames(files) + [x]
  {
    var k := |files| - 1;
    assert files[k := f][..k] == files[..k];
  }

  /** `total_bytes_written` of a file is its frame count times the frame size. */
  ghost predicate BytesMatchFrames(f: FileRecord, frameSizeBytes: int)
  {
    f.bytesWritten == |f.frames| * Max0(frameSizeBytes)
  }

  ghost predicate StrictlyIncreasing(s: seq<int>)
  {
    forall i, j :: 0 <= i < j < |s| ==> s[i] < s[j]
  }

  /** What holds of the files of a stream at every point: file `i` is named
      with rollover number `i`, no file holds more than the cap, the frames
      written are strictly increasing, and `n_streamed` counts them. */
  ghost predicate FilesWellFormed(s: Stream)
  {
    && s.cfg.maxFramesPerFile >= 1
    && (forall i :: 0 <= i < |s.files| ==> s.files[i].inc == i)
    && (forall i :: 0 <= i < |s.files| ==> |s.files[i].frames| <= s.cfg.maxFramesPerFile)
    && (forall i :: 0 <= i < |s.files| ==> BytesMatchFrames(s.files[i], s.cfg.frameSizeBytes))
    && StrictlyIncreasing(AllFrames(s.files))
    && s.nStreamed == |AllFrames(s.files)|
    && (s.cfg.nToStream != -1 ==> s.nStreamed <= Max0(s.cfg.nToStream))
  }

  /** The loop invariant: the files are well formed, the open file is the last
      one and below the cap, one file per rollover number so far, and every
      frame written is older than the one requested next. */
  ghost predicate Inv(s: Stream)
  {
    && FilesWellFormed(s)
    && s.fileNameInc >= 0
    && |s.files| == s.fileNameInc + (if s.isOpen then 1 else 0)
    && 0 <= s.framesInCurrentFile <= s.cfg.maxFramesPerFile
    && s.framesInCurrentFile <= s.nStreamed
    && (s.isOpen ==> s.framesInCurrentFile < s.cfg.maxFramesPerFile
                     && |s.files[|s.files| - 1].frames| == s.framesInCurrentFile)
    && (forall i :: 0 <= i < |AllFrames(s.files)| ==> AllFrames(s.files)[i] < s.latestFrameN)
  }

  /** How many of the files are closed: all but the last while one is open. */
  function ClosedFiles(s: Stream): int
  {
    |s.files| - (if s.isOpen then 1 else 0)
  }

  /** The rollover rule: a file is closed only once it holds exactly
      `max_frames_per_file` frames. */
  ghost predicate ClosedFilesFull(s: Stream)
  {
    forall i :: 0 <= i < ClosedFiles(s) && i < |s.files| ==> |s.files[i].frames| == s.cfg.maxFramesPerFile
  }

  /** The loop guard, given that the worker is still running. */
  predicate Continues(s: Stream)
  {
    s.cfg.nToStream > s.nStreamed || s.cfg.nToStream == -1
  }

  /** The state before the first iteration. Without an explicit start index the
      stream aims five frames past the buffer's count, to let the scanner
      settle. */
  function InitialStream(cfg: StreamConfig, initBufferIndex: int, countAtStart: int): (s: Stream)
    requires cfg.maxFramesPerFile >= 1
    ensures Inv(s) && !s.isOpen && s.files == [] && s.nStreamed == 0
    ensures ClosedFilesFull(s)
    ensures s.latestFrameN == if initBufferIndex == -1 then countAtStart + 5 else initBufferIndex
  {
    Stream(cfg, false, [], 0, 0, 0, if initBufferIndex == -1 then countAtStart + 5 else initBufferIndex)
  }

  /** Append frame `n` to the open file. */
  function WriteCurrent(s: Stream, n: int): Stream
    requires |s.files| > 0
  {
    var k := |s.files| - 1;
    var f := s.files[k];
    s.(files := s.files[k := f.(frames := f.frames + [n], bytesWritten := f.bytesWritten + Max0(s.cfg.frameSizeBytes))],
       framesInCurrentFile := s.framesInCurrentFile + 1,
       nStreamed := s.nStreamed + 1)
  }

  /** The requested frame arrived while no file is open: open the file for
      the current rollover number and restart the per-file count. The frame
      itself is not written. */
  function OpenFile(s: Stream): (r: Stream)
    requires Inv(s) && !s.isOpen
    ensures Inv(r) && r.cfg == s.cfg
    ensures r.isOpen && r.framesInCurrentFile == 0
    ensures r.files == s.files + [FileRecord(s.fileNameInc, [], 0)]
    ensures NameOf(r.cfg, r.files[|r.files| - 1]) == FileName(s.cfg.baseName, s.fileNameInc)
    ensures AllFrames(r.files) == AllFrames(s.files) && r.nStreamed == s.nStreamed
    ensures r.fileNameInc == s.fileNameInc && r.latestFrameN == s.latestFrameN + 1
  {
    var f := FileRecord(s.fileNameInc, [], 0);
    OpenFilePreserves(s, f);
    s.(latestFrameN := s.latestFrameN + 1, isOpen := true, files := s.files + [f], framesInCurrentFile := 0)
  }

  lemma OpenFilePreserves(s: Stream, f: FileRecord)
    requires Inv(s) && !s.isOpen
    requires s.fileNameInc >= 0 && f == FileRecord(s.fileNameInc, [], 0)
    ensures AllFrames(s.files + [f]) == AllFrames(s.files)
    ensures Inv(s.(latestFrameN := s.latestFrameN + 1, isOpen := true, files := s.files + [f], framesInCurrentFile := 0))
  {
    AllFramesAppend(s.files, f);
    AppendEmptyFile(s, f);
  }

  lemma AppendEmptyFile(s: Stream, f: FileRecord)
    requires FilesWellFormed(s)
    requires f.inc == |s.files| && f.frames == [] && f.bytesWritten == 0
    ensures FilesWellFormed(s.(files := s.files + [f]))
  {
    var fs := s.files + [f];
    AllFramesAppend(s.files, f);
    assert AllFrames(fs) == AllFrames(s.files);
    forall i | 0 <= i < |fs|
      ensures fs[i].inc == i
      ensures |fs[i].frames| <= s.cfg.maxFramesPerFile
      ensures BytesMatchFrames(fs[i], s.cfg.frameSizeBytes)
    {
      if i < |s.files| {
        assert fs[i] == s.files[i];
      }
    }
  }

  /** The requested frame arrived while a file is open: append it (the branch
      that instead closes the file is kept as written, and is never taken), and
      once the file holds `max_frames_per_file` frames close it and move to the
      next rollover number. */
  function AppendFrame(s: Stream): (r: Stream)
    requires Inv(s) && Continues(s) && s.isOpen
    ensures Inv(r) && r.cfg == s.cfg
    ensures r.nStreamed == s.nStreamed + 1
    ensures AllFrames(r.files) == AllFrames(s.files) + [s.latestFrameN]
    ensures |r.files| == |s.files| && r.files[..|s.files| - 1] == s.files[..|s.files| - 1]
    ensures r.latestFrameN == s.latestFrameN + 1
    ensures s.framesInCurrentFile + 1 == s.cfg.maxFramesPerFile ==>
              !r.isOpen && r.fileNameInc == s.fileNameInc + 1
    ensures s.framesInCurrentFile + 1 < s.cfg.maxFramesPerFile ==>
              && r.isOpen && r.fileNameInc == s.fileNameInc
              && r.framesInCurrentFile == s.framesInCurrentFile + 1
  {
    var n := s.latestFrameN;
    var s1 := s.(latestFrameN := n + 1);
    AppendFacts(s);
    AppendKeepsInv(s);
    CloseBranchUnreachable(s);
    var s2 :=
      if s.cfg.nToStream == -1 || s.framesInCurrentFile < s.cfg.nToStream then
        WriteCurrent(s1, n)
      else
        s1.(isOpen := false);
    assert s2 == WriteCurrent(s1, n);
    if s2.framesInCurrentFile == s.cfg.maxFramesPerFile then
      s2.(fileNameInc := s2.fileNameInc + 1, isOpen := false)
    else
      s2
  }

  /** Appending the requested frame records it after every frame written so
      far, touches only the open file and advances the counters by one. */
  lemma AppendFacts(s: Stream)
    requires Inv(s) && Continues(s) && s.isOpen
    ensures var n := s.latestFrameN;
            var s2 := WriteCurrent(s.(latestFrameN := n + 1), n);
            && FilesWellFormed(s2)
            && AllFrames(s2.files) == AllFrames(s.files) + [n]
            && |s2.files| == |s.files| && s2.files[..|s.files| - 1] == s.files[..|s.files| - 1]
            && |s2.files[|s2.files| - 1].frames| == s2.framesInCurrentFile
            && s2.cfg == s.cfg && s2.isOpen && s2.fileNameInc == s.fileNameInc
            && s2.nStreamed == s.nStreamed + 1 && s2.latestFrameN == n + 1
            && s2.framesInCurrentFile == s.framesInCurrentFile + 1
  {
    var n := s.latestFrameN;
    var s1 := s.(latestFrameN := n + 1);
    WriteCurrentPreserves(s1, n);
    var s2 := WriteCurrent(s1, n);
    assert s2.files[..|s.files| - 1] == s.files[..|s.files| - 1];
  }

  /** Appending the requested frame, and closing the file at the cap, keep the
      loop invariant. */
  lemma AppendKeepsInv(s: Stream)
    requires Inv(s) && Continues(s) && s.isOpen
    ensures var n := s.latestFrameN;
            var s2 := WriteCurrent(s.(latestFrameN := n + 1), n);
            && Inv(s2.(fileNameInc := s2.fileNameInc + 1, isOpen := false))
            && (s2.framesInCurrentFile < s.cfg.maxFramesPerFile ==> Inv(s2))
  {
    AppendFacts(s);
    var n := s.latestFrameN;
    var s2 := WriteCurrent(s.(latestFrameN := n + 1), n);
    var all := AllFrames(s2.files);
    assert forall i :: 0 <= i < |all| ==> all[i] < s2.latestFrameN by {
      assert all == AllFrames(s.files) + [n];
    }
  }

  /** A later frame than requested arrived: the requested one was dropped.
      Nothing is written and the next request aims past the buffer's count. */
  function DropFrame(s: Stream, countNow: int): (r: Stream)
    requires Inv(s) && countNow >= s.latestFrameN
    ensures Inv(r)
    ensures r.latestFrameN == countNow + 1
    ensures r.files == s.files && r.isOpen == s.isOpen && r.nStreamed == s.nStreamed
    ensures r.framesInCurrentFile == s.framesInCurrentFile && r.fileNameInc == s.fileNameInc
  {
    s.(latestFrameN := countNow + 1)
  }

  /** One iteration of the loop, after `lock_out_wait(latest_frame_n)` returned
      `got` (the ring buffer never returns an older frame) and, for a dropped
      frame, `get_count()` returned `countNow` (never behind `got`). */
  function Step(s: Stream, got: int, countNow: int): (r: Stream)
    requires Inv(s) && Continues(s)
    requires got >= s.latestFrameN && countNow >= got
    ensures Inv(r) && r.cfg == s.cfg
    ensures r.nStreamed <= s.nStreamed + 1
    ensures |r.files| >= |s.files| && ClosedFiles(r) >= ClosedFiles(s)
    ensures forall i :: 0 <= i < ClosedFiles(s) ==> r.files[i] == s.files[i]
    ensures got == s.latestFrameN ==> r.latestFrameN == got + 1
    ensures got == s.latestFrameN && !s.isOpen ==> r == OpenFile(s)
    ensures got == s.latestFrameN && s.isOpen ==> r == AppendFrame(s)
    ensures got != s.latestFrameN ==> r == DropFrame(s, countNow)
  {
    if got == s.latestFrameN then
      if !s.isOpen then OpenFile(s) else AppendFrame(s)
    else
      DropFrame(s, countNow)
  }

  /** Only the file that reaches the cap is closed, so closed files stay full. */
  lemma StepKeepsFull(s: Stream, got: int, countNow: int)
    requires Inv(s) && Continues(s)
    requires got >= s.latestFrameN && countNow >= got
    ensures ClosedFilesFull(s) ==> ClosedFilesFull(Step(s, got, countNow))
  {
    if ClosedFilesFull(s) && got == s.latestFrameN {
      if !s.isOpen {
        var r := OpenFile(s);
        forall i | 0 <= i < ClosedFiles(r) && i < |r.files|
          ensures |r.files[i].frames| == r.cfg.maxFramesPerFile
        {
          assert r.files[i] == s.files[i];
        }
      } else {
        var r := AppendFrame(s);
        var k := |s.files| - 1;
        forall i | 0 <= i < ClosedFiles(r) && i < |r.files|
          ensures |r.files[i].frames| == r.cfg.maxFramesPerFile
        {
          if i < k {
            assert r.files[..k][i] == s.files[..k][i];
          } else {
            assert !r.isOpen;
          }
        }
      }
    }
  }

  /** Appending the requested frame to the open file keeps the files well
      formed and records the frame at the end of the stream's frames. */
  lemma WriteCurrentPreserves(s: Stream, n: int)
    requires FilesWellFormed(s) && |s.files| > 0
    requires |s.files[|s.files| - 1].frames| < s.cfg.maxFramesPerFile
    requires forall i :: 0 <= i < |AllFrames(s.files)| ==> AllFrames(s.files)[i] < n
    requires s.cfg.nToStream == -1 || s.nStreamed < s.cfg.nToStream
    ensures AllFrames(WriteCurrent(s, n).files) == AllFrames(s.files) + [n]
    ensures FilesWellFormed(WriteCurrent(s, n))
  {
    var k := |s.files| - 1;
    var f := s.files[k];
    var f' := f.(frames := f.frames + [n], bytesWritten := f.bytesWritten + Max0(s.cfg.frameSizeBytes));
    var r := WriteCurrent(s, n);
    assert r.files == s.files[k := f'];
    AllFramesUpdateLast(s.files, f', n);
    IncreasingAppend(AllFrames(s.files), n);
    BytesMatchAppend(f, n, s.cfg.frameSizeBytes);
    forall i | 0 <= i < |r.files|
      ensures r.files[i].inc == i
      ensures |r.files[i].frames| <= s.cfg.maxFramesPerFile
      ensures BytesMatchFrames(r.files[i], s.cfg.frameSizeBytes)
    {
      if i < k {
        assert r.files[i] == s.files[i];
      }
    }
  }

  /** Appending one frame's bytes keeps the byte counter in step with the frames. */
  lemma BytesMatchAppend(f: FileRecord, n: int, frameSizeBytes: int)
    requires BytesMatchFrames(f, frameSizeBytes)
    ensures BytesMatchFrames(f.(frames := f.frames + [n], bytesWritten := f.bytesWritten + Max0(frameSizeBytes)),
                             frameSizeBytes)
  {
    var m := Max0(frameSizeBytes);
    assert (|f.frames| + 1) * m == |f.frames| * m + m;
  }

  /** A number larger than every element extends a strictly increasing sequence. */
  lemma IncreasingAppend(xs: seq<int>, n: int)
    requires StrictlyIncreasing(xs)
    requires forall i :: 0 <= i < |xs| ==> xs[i] < n
    ensures StrictlyIncreasing(xs + [n])
  {
  }

  /** The branch that closes the file because `frames_in_current_file` reached
      `n_to_stream` can never be taken: while the loop runs a bounded stream
      has written fewer than `n_to_stream` frames in all, hence in this file. */
  lemma CloseBranchUnreachable(s: Stream)
    requires Inv(s) && Continues(s)
    ensures s.cfg.nToStream == -1 || s.framesInCurrentFile < s.cfg.nToStream
  {
  }

  /** What the ring buffer hands back on one iteration, relative to the
      request: `skipped` frames past the requested one (0: it arrived), and a
      count `backlog` frames past the frame obtained. */
  datatype Obtained = Obtained(skipped: nat, backlog: nat)

  /** The stream stops: the loop exits and an open file is closed. */
  function Finish(s: Stream): (r: Stream)
    ensures !r.isOpen && r.files == s.files && r.nStreamed == s.nStreamed
    ensures r.cfg == s.cfg && r.fileNameInc == s.fileNameInc
    ensures r.latestFrameN == s.latestFrameN && r.framesInCurrentFile == s.framesInCurrentFile
  {
    s.(isOpen := false)
  }

  /** The whole loop over what the buffer hands back, until the bound is
      reached or the worker is stopped (the end of `events`). */
  function Run(s: Stream, events: seq<Obtained>): (r: Stream)
    requires Inv(s)
    ensures FilesWellFormed(r) && !r.isOpen
    ensures r.cfg == s.cfg
    ensures |r.files| >= |s.files|
    ensures forall i :: 0 <= i < ClosedFiles(s) ==> r.files[i] == s.files[i]
    ensures r.nStreamed <= s.nStreamed + |events|
    ensures !Continues(s) ==> r == Finish(s)
    ensures ClosedFilesFull(s) ==> RolledOver(r.files, s.cfg.maxFramesPerFile)
    decreases |events|
  {
    if |events| == 0 || !Continues(s) then
      FinishRollsOver(s);
      Finish(s)
    else
      var got := s.latestFrameN + events[0].skipped;
      var s' := Step(s, got, got + events[0].backlog);
      StepKeepsFull(s, got, got + events[0].backlog);
      Run(s', events[1..])
  }

  /** Every file but the last holds exactly `cap` frames. */
  ghost predicate RolledOver(files: seq<FileRecord>, cap: int)
  {
    forall i :: 0 <= i < |files| - 1 ==> |files[i].frames| == cap
  }

  /** Closing the open file when the loop ends leaves every file but the last
      one full. */
  lemma FinishRollsOver(s: Stream)
    ensures ClosedFilesFull(s) ==> RolledOver(Finish(s).files, s.cfg.maxFramesPerFile)
  {
    if ClosedFilesFull(s) {
      forall i | 0 <= i < |s.files| - 1
        ensures |s.files[i].frames| == s.cfg.maxFramesPerFile
      {
        assert i < ClosedFiles(s);
      }
    }
  }

  /** Names in a finished stream are pairwise distinct. */
  lemma FilesDistinct(s: Stream, i: int, j: int)
    requires FilesWellFormed(s)
    requires 0 <= i < j < |s.files|
    ensures NameOf(s.cfg, s.files[i]) != NameOf(s.cfg, s.files[j])
  {
    if NameOf(s.cfg, s.files[i]) == NameOf(s.cfg, s.files[j]) {
      FileNameInjective(s.cfg.baseName, i, j);
    }
  }

  // ---------------------------------------------------------------------------
  // Starting and stopping the worker

  /** What `_start` stores for the thread: the base file name, the per-file
      byte budget, the start index in the buffer (-1: from its count), the
      frame size in bytes and the number of frames to stream (-1: unbounded). */
  datatype Request = Request(fileName: string, fileMaxBytes: int, initBufferIndex: int, frameSizeBytes: int, nToStream: int)

  /** The worker: the `_running` and `_finished` flags and the last request. */
  datatype Worker = Worker(running: bool, finished: bool, request: Option<Request>)

  /** A new worker is not running and counts as finished. */
  function NewWorker(): (w: Worker)
    ensures !IsStreaming(w) && w.request == None
  {
    Worker(false, true, None)
  }

  /** `is_streaming()`: the thread was started and has not finished. */
  predicate IsStreaming(w: Worker)
  {
    w.running && !w.finished
  }

  datatype StartResult = Refused | Started

  /** `_start`: refused (returning -1) while a stream is in progress, otherwise
      records the request, with the frame size converted from samples to bytes,
      and starts the thread. The source returns nothing on success. */
  function Start(w: Worker, fileName: string, fileMaxBytes: int, bufferHead: int,
                 frameSize: int, nToStream: int, sampleBytes: nat): (r: (Worker, StartResult))
    ensures IsStreaming(w) ==> r == (w, Refused)
    ensures !IsStreaming(w) ==>
              && r.1 == Started && IsStreaming(r.0)
              && r.0.request == Some(Request(fileName, fileMaxBytes, bufferHead, frameSize * sampleBytes, nToStream))
  {
    if IsStreaming(w) then
      (w, Refused)
    else
      (Worker(true, false, Some(Request(fileName, fileMaxBytes, bufferHead, frameSize * sampleBytes, nToStream))), Started)
  }

  /** `stop()`: clear `_running` and join the thread, which sets `_finished` as
      it exits; nothing happens if the worker is not running. */
  function Stop(w: Worker): (r: Worker)
    ensures !IsStreaming(r) && r.request == w.request
    ensures !w.running ==> r == w
  {
    if w.running then w.(running := false, finished := true) else w
  }

  /** The thread's own exit after a bounded stream completes. */
  function ThreadExits(w: Worker): (r: Worker)
    ensures !IsStreaming(r) && r.running == w.running && r.request == w.request
  {
    w.(finished := true)
  }

  /** The stream a started worker's thread runs. */
  function StreamFor(req: Request, countAtStart: int): (s: Stream)
    requires req.frameSizeBytes != 0
    ensures Inv(s) && s.nStreamed == 0 && s.cfg.nToStream == req.nToStream
    ensures s.cfg.maxFramesPerFile == MaxFramesPerFile(req.fileMaxBytes, req.frameSizeBytes)
    ensures s.cfg.baseName == req.fileName && s.cfg.frameSizeBytes == req.frameSizeBytes
    ensures !s.isOpen && s.files == [] && ClosedFilesFull(s)
    ensures s.latestFrameN == if req.initBufferIndex == -1 then countAtStart + 5 else req.initBufferIndex
  {
    InitialStream(StreamConfig(req.fileName, MaxFramesPerFile(req.fileMaxBytes, req.frameSizeBytes),
                               req.nToStream, req.frameSizeBytes),
                  req.initBufferIndex, countAtStart)
  }

  /** A second start while streaming is refused and changes nothing; after a
      stop a start is accepted again. */
  lemma StartWhileStreaming(w: Worker, fileName: string, fileMaxBytes: int, bufferHead: int,
                            frameSize: int, nToStream: int, sampleBytes: nat)
    ensures var (w1, r1) := Start(w, fileName, fileMaxBytes, bufferHead, frameSize, nToStream, sampleBytes);
            && (r1 == Started || w1 == w)
            && Start(w1, fileName, fileMaxBytes, bufferHead, frameSize, nToStream, sampleBytes) == (w1, Refused)
            && Start(Stop(w1), fileName, fileMaxBytes, bufferHead, frameSize, nToStream, sampleBytes).1 == Started
  {
  }
}
