/**
 The write-ahead log: checksummed, length-prefixed records over the file writer, and the reader
 that recovers them. The checksum (CRC32C in the source) is any function of the bytes.
 */
module Wals {
  import opened Bytes
  import opened Codec
  import opened FileWriters

  const HEADER_SIZE := 8

  type Checksum = bytes -> uint32

  datatype Status = Success | ExecFailed | Corruption

  // ---------------------------------------------------------------- the format

  function Frame(crc: Checksum, log: bytes): (r: bytes)
    ensures |r| == HEADER_SIZE + |log|
  {
    Fixed32(crc(log)) + Fixed32(ToU32(|log|)) + log
  }

  function LogFile(crc: Checksum, logs: seq<bytes>): bytes {
    if logs == [] then []
    else LogFile(crc, logs[..|logs| - 1]) + Frame(crc, logs[|logs| - 1])
  }

  lemma OneMoreLog(crc: Checksum, logs: seq<bytes>, log: bytes)
    ensures LogFile(crc, logs + [log]) == LogFile(crc, logs) + Frame(crc, log)
  {
    assert (logs + [log])[..|logs|] == logs;
  }

  // ---------------------------------------------------------------- writing

  class WALWriter {
    const writableFile: FileWriter
    const crc: Checksum
    ghost const start: bytes
    ghost var logs: seq<bytes>

    /** Between calls everything is on disk: the file's first content and every log so far. */
    ghost predicate Valid()
      reads this, writableFile
    {
      && writableFile.Valid() && writableFile.bufferOffset == 0 && writableFile.open
      && writableFile.disk == start + LogFile(crc, logs)
    }

    constructor (file: FileWriter, crc: Checksum)
      requires file.Valid() && file.bufferOffset == 0 && file.open
      ensures Valid() && writableFile == file && logs == [] && start == file.disk && this.crc == crc
    {
      writableFile := file;
      this.crc, start, logs := crc, file.disk, [];
    }

    method AddLog(log: bytes)
      requires Valid() && |log| <= INT32_MAX
      modifies this, writableFile`disk, writableFile`bufferOffset, writableFile.buffer
      ensures Valid() && logs == old(logs) + [log]
      ensures writableFile.disk == old(writableFile.disk) + Frame(crc, log)
    {
      hide Fixed32, ToU32, Frame, LogFile;
      var header := Header(crc(log), |log|);
      writableFile.Append(header[..], false);
      writableFile.Append(log, true);
      writableFile.Sync();
      FrameParts(crc, old(writableFile.disk), log);
      OneMoreLog(crc, logs, log);
      logs := logs + [log];
      assert writableFile.disk == start + LogFile(crc, old(logs)) + Frame(crc, log) == start + LogFile(crc, logs);
    }

    method Header(checksum: uint32, len: nat) returns (header: array<byte>)
      requires len <= INT32_MAX
      ensures fresh(header) && header[..] == Fixed32(checksum) + Fixed32(ToU32(len))
    {
      header := new byte[HEADER_SIZE];
      header[0] := checksum % 256;
      header[1] := checksum / 0x100 % 256;
      header[2] := checksum / 0x1_0000 % 256;
      header[3] := checksum / 0x100_0000 % 256;
      header[4] := len % 256;
      header[5] := len / 0x100 % 256;
      header[6] := len / 0x1_0000 % 256;
      header[7] := len / 0x100_0000 % 256;
      hide Fixed32, ToU32;
      Bytes4(checksum);
      Bytes4(len);
      SmallWord(len);
      assert header[..4] == Fixed32(checksum) && header[4..] == Fixed32(len);
      assert header[..] == header[..4] + header[4..];
    }
  }

  lemma Bytes4(val: uint32)
    ensures Fixed32(val) == [val % 256, val / 0x100 % 256, val / 0x1_0000 % 256, val / 0x100_0000 % 256]
  {
  }

  lemma SmallWord(len: nat)
    requires len <= INT32_MAX
    ensures ToU32(len) == len
  {
  }

  lemma FrameParts(crc: Checksum, disk: bytes, log: bytes)
    ensures disk + (Fixed32(crc(log)) + Fixed32(ToU32(|log|))) + log == disk + Frame(crc, log)
  {
    hide Fixed32, ToU32;
  }

  // ---------------------------------------------------------------- reading

  /** `FileReader::read`: exactly count bytes at the offset, or nothing. */
  function Read(file: bytes, count: int32, offset: int32): Option<bytes> {
    if 0 <= count && 0 <= offset && offset as int + count <= |file| then Some(file[offset..offset as int + count])
    else None
  }

  datatype ReadResult = ReadResult(status: Status, log: bytes, offset: nat)

  /** What one call of ReadLog at this offset does. The offset is 64 bits wide, but the file reader
      takes 32 and is passed what is left of it. */
  function LogAt(crc: Checksum, file: bytes, offset: nat): ReadResult {
    match Read(file, HEADER_SIZE, ToI32(offset))
    case None => ReadResult(ExecFailed, [], offset)
    case Some(header) =>
      var checksum, len := DecodeFixed32(header), DecodeFixed32(header[4..]);
      match Read(file, ToI32(len), ToI32(offset + HEADER_SIZE))
      case None => ReadResult(Corruption, [], offset + HEADER_SIZE)
      case Some(log) =>
        ReadResult(if crc(log) == checksum then Success else Corruption, log, offset + HEADER_SIZE + |log|)
  }

  class WALReader {
    const file: bytes
    const crc: Checksum
    var offset: nat

    constructor (file: bytes, crc: Checksum)
      ensures this.file == file && this.crc == crc && offset == 0
    {
      this.file, this.crc, offset := file, crc, 0;
    }

    predicate VerifyChecksum(data: bytes, expected: uint32) {
      crc(data) == expected
    }

    /** `was` is what the caller's string holds before the call, `log` what it holds after. */
    method ReadLog(was: bytes) returns (status: Status, log: bytes)
      modifies this`offset
      ensures var r := LogAt(crc, file, old(offset)); status == r.status && offset == r.offset
      ensures match Read(file, HEADER_SIZE, ToI32(old(offset)))
              case None => log == was
              case Some(header) =>
                && |log| == DecodeFixed32(header[4..])
                && (Read(file, ToI32(|log|), ToI32(old(offset) + HEADER_SIZE)).Some? ==>
                      log == LogAt(crc, file, old(offset)).log)
    {
      hide ToI32, DecodeFixed32, LogAt;
      NoHeader(crc, file, offset);
      log := was;
      var header := Read(file, HEADER_SIZE, ToI32(offset));
      if header.None? {
        return ExecFailed, log;
      }
      status, log := ReadPayload(header.value, was);
    }

    /** ReadLog, past the header. */
    method ReadPayload(h: bytes, was: bytes) returns (status: Status, log: bytes)
      requires |h| == HEADER_SIZE && Read(file, HEADER_SIZE, ToI32(offset)) == Some(h)
      modifies this`offset
      ensures var r := LogAt(crc, file, old(offset)); status == r.status && offset == r.offset
      ensures |log| == DecodeFixed32(h[4..])
      ensures Read(file, ToI32(|log|), ToI32(old(offset) + HEADER_SIZE)).Some? ==> log == LogAt(crc, file, old(offset)).log
    {
      hide ToI32, DecodeFixed32;
      offset := offset + HEADER_SIZE;
      var checksum := h[0] as int + h[1] as int * 0x100 + h[2] as int * 0x1_0000 + h[3] as int * 0x100_0000;
      var len := h[4] as int + h[5] as int * 0x100 + h[6] as int * 0x1_0000 + h[7] as int * 0x100_0000;
      HeaderWords(h);
      SameLength(len);
      log := Resized(was, len);
      var payload := Read(file, ToI32(len), ToI32(offset));
      if payload.None? {
        // What a failed read leaves in the resized string is anything.
        log := *;
        log := Resized(log, len);
        return Corruption, log;
      }
      log := payload.value;
      offset := offset + ToI32(len) as int;
      if !VerifyChecksum(log, checksum) {
        return Corruption, log;
      }
      return Success, log;
    }
  }

  lemma NoHeader(crc: Checksum, file: bytes, offset: nat)
    ensures Read(file, HEADER_SIZE, ToI32(offset)) == None ==> LogAt(crc, file, offset) == ReadResult(ExecFailed, [], offset)
  {
    hide ToI32, DecodeFixed32;
  }

  lemma HeaderWords(h: bytes)
    requires |h| == HEADER_SIZE
    ensures DecodeFixed32(h) == h[0] as int + h[1] as int * 0x100 + h[2] as int * 0x1_0000 + h[3] as int * 0x100_0000
    ensures DecodeFixed32(h[4..])
         == h[4] as int + h[5] as int * 0x100 + h[6] as int * 0x1_0000 + h[7] as int * 0x100_0000
  {
  }

  lemma SameLength(len: uint32)
    ensures ToI32(len) >= 0 ==> ToI32(len) == len
  {
  }

  /** `resize`: cut, or filled up with zeros. */
  function Resized(s: bytes, n: nat): (r: bytes)
    ensures |r| == n
  {
    if n <= |s| then s[..n] else s + seq(n - |s|, _ => 0)
  }

  // ---------------------------------------------------------------- what a reader recovers

  /** Success means, and only means, that a whole frame with a matching checksum stands where the
      file reader looks, and that its payload starts within reach of a 32-bit offset. Then, and for no
      other offset, the reader stands right behind that frame. */
  lemma SuccessIsFrame(crc: Checksum, file: bytes, offset: nat, log: bytes)
    requires |log| <= INT32_MAX
    ensures var at, r := ToI32(offset), LogAt(crc, file, offset);
            && (r.status == Success && r.log == log
                <==> 0 <= at <= |file| && at as int + HEADER_SIZE <= INT32_MAX && Frame(crc, log) <= file[at..])
            && (r.status == Success ==> |r.log| <= INT32_MAX && r.offset == offset + HEADER_SIZE + |r.log|)
  {
    hide Fixed32, DecodeFixed32, Frame;
    var at, r := ToI32(offset), LogAt(crc, file, offset);
    hide ToI32;
    NextWord(offset);
    if r.status == Success {
      FrameIsThere(crc, file, offset, r.log);
    }
    if 0 <= at <= |file| && at as int + HEADER_SIZE <= INT32_MAX && Frame(crc, log) <= file[at..] {
      FrameIsRead(crc, file, offset, log);
    }
  }

  /** A checksum, a length and a payload of that length standing where the file reader looks are read
      whole, the reader moves behind them, and the checksum alone decides between success and corruption. */
  lemma ChecksumDecides(crc: Checksum, file: bytes, offset: nat, checksum: uint32, log: bytes)
    requires var at := ToI32(offset);
             0 <= at <= |file| && at as int + HEADER_SIZE <= INT32_MAX
             && Fixed32(checksum) + Fixed32(ToU32(|log|)) + log <= file[at..]
    requires |log| <= INT32_MAX
    ensures LogAt(crc, file, offset)
         == ReadResult(if crc(log) == checksum then Success else Corruption, log, offset + HEADER_SIZE + |log|)
  {
    hide Fixed32, DecodeFixed32, ToI32;
    NextWord(offset);
    NextWord(|log|);
    SmallWord(|log|);
    var at, frame := ToI32(offset), Fixed32(checksum) + Fixed32(ToU32(|log|)) + log;
    var header := file[at..at as int + HEADER_SIZE];
    assert header == frame[..HEADER_SIZE] == Fixed32(checksum) + (Fixed32(ToU32(|log|)) + []);
    assert header[4..] == Fixed32(ToU32(|log|)) + [];
    Fixed32RoundTrip(checksum, Fixed32(ToU32(|log|)) + []);
    Fixed32RoundTrip(ToU32(|log|), []);
    assert file[at as int + HEADER_SIZE..at as int + HEADER_SIZE + |log|] == frame[HEADER_SIZE..] == log;
  }

  /** Without a whole header the reader stays where it is and says so. */
  lemma NoHeaderFails(crc: Checksum, file: bytes, offset: nat)
    requires ToI32(offset) < 0 || ToI32(offset) as int + HEADER_SIZE > |file|
    ensures LogAt(crc, file, offset) == ReadResult(ExecFailed, [], offset)
  {
    hide ToI32, DecodeFixed32;
  }

  /** With a header whose payload is out of reach, too long for 32 bits or not all there, the reader
      moves behind the header and answers corruption. */
  lemma NoPayloadIsCorruption(crc: Checksum, file: bytes, offset: nat)
    requires 0 <= ToI32(offset) && ToI32(offset) as int + HEADER_SIZE <= |file|
    requires var at := ToI32(offset) as int;
             var len := LittleEndian(file[at + 4..at + 8]);
             at + HEADER_SIZE > INT32_MAX || len > INT32_MAX || at + HEADER_SIZE + len > |file|
    ensures LogAt(crc, file, offset) == ReadResult(Corruption, [], offset + HEADER_SIZE)
  {
    hide DecodeFixed32, LittleEndian;
    var at := ToI32(offset) as int;
    var header := file[at..at + HEADER_SIZE];
    LittleEndian4(header[4..]);
    assert header[4..][..4] == file[at + 4..at + 8];
    NextWord(offset);
    LengthSign(DecodeFixed32(header[4..]));
  }

  lemma LengthSign(len: uint32)
    ensures len <= INT32_MAX ==> ToI32(len) == len
    ensures len > INT32_MAX ==> ToI32(len) < 0
  {
  }

  /** The bytes of a frame: checksum and length, lowest byte first, and the log. */
  lemma FrameFields(crc: Checksum, log: bytes)
    requires |log| <= INT32_MAX
    ensures LittleEndian(Frame(crc, log)[..4]) == crc(log)
    ensures LittleEndian(Frame(crc, log)[4..8]) == |log|
    ensures Frame(crc, log)[8..] == log
  {
    hide Fixed32, LittleEndian;
    Fixed32LittleEndian(crc(log));
    Fixed32LittleEndian(ToU32(|log|));
    SmallWord(|log|);
    assert Frame(crc, log)[..4] == Fixed32(crc(log)) && Frame(crc, log)[4..8] == Fixed32(ToU32(|log|));
  }

  lemma NextWord(offset: nat)
    ensures ToI32(offset) >= 0 ==>
              (ToI32(offset + HEADER_SIZE) >= 0 <==> ToI32(offset) as int + HEADER_SIZE <= INT32_MAX)
    ensures ToI32(offset) >= 0 && ToI32(offset) as int + HEADER_SIZE <= INT32_MAX ==>
              ToI32(offset + HEADER_SIZE) == ToI32(offset) as int + HEADER_SIZE
    ensures offset <= INT32_MAX ==> ToI32(offset) == offset
    ensures INT32_MAX < offset < TWO_32 ==> ToI32(offset) < 0
  {
  }

  lemma FrameIsRead(crc: Checksum, file: bytes, offset: nat, log: bytes)
    requires var at := ToI32(offset);
             0 <= at <= |file| && at as int + HEADER_SIZE <= INT32_MAX && Frame(crc, log) <= file[at..]
    requires |log| <= INT32_MAX
    ensures LogAt(crc, file, offset) == ReadResult(Success, log, offset + HEADER_SIZE + |log|)
  {
    hide Fixed32, LogAt, ToI32;
    ChecksumDecides(crc, file, offset, crc(log), log);
  }

  lemma FrameIsThere(crc: Checksum, file: bytes, offset: nat, log: bytes)
    requires LogAt(crc, file, offset).status == Success && LogAt(crc, file, offset).log == log
    ensures |log| <= INT32_MAX && LogAt(crc, file, offset).offset == offset + HEADER_SIZE + |log|
    ensures var at := ToI32(offset);
            0 <= at <= |file| && at as int + HEADER_SIZE <= INT32_MAX && Frame(crc, log) <= file[at..]
  {
    hide Fixed32, DecodeFixed32, ToI32;
    NextWord(offset);
    var at := ToI32(offset);
    var header := file[at..at as int + HEADER_SIZE];
    Fixed32Unique(header[..4]);
    Fixed32Unique(header[4..]);
    DecodeFirstFour(header);
    LengthWord(DecodeFixed32(header[4..]), |log|);
    assert header == Fixed32(crc(log)) + Fixed32(ToU32(|log|));
    assert file[at..][..HEADER_SIZE + |log|] == header + log;
  }

  lemma LengthWord(len: uint32, n: nat)
    requires ToI32(len) == n
    ensures ToU32(n) == len
  {
  }

  lemma DecodeFirstFour(data: bytes)
    requires |data| >= 4
    ensures DecodeFixed32(data) == DecodeFixed32(data[..4])
  {
  }

  datatype Replay = Replay(logs: seq<bytes>, last: Status)

  /** A successful read leaves the reader further on, and never past what 32 bits can count. */
  lemma Advances(crc: Checksum, file: bytes, offset: nat)
    requires offset < TWO_32 && LogAt(crc, file, offset).status == Success
    ensures offset < LogAt(crc, file, offset).offset < TWO_32
  {
    hide DecodeFixed32, ToI32;
    NextWord(offset);
  }

  /** Calling ReadLog until it does not succeed. */
  function ReplayFrom(crc: Checksum, file: bytes, offset: nat): Replay
    requires offset < TWO_32
    decreases TWO_32 - offset
  {
    hide LogAt;
    var r := LogAt(crc, file, offset);
    if r.status != Success then Replay([], r.status)
    else
      Advances(crc, file, offset);
      var rest := ReplayFrom(crc, file, r.offset);
      Replay([r.log] + rest.logs, rest.last)
  }

  /** The last log lies wholly within the first n bytes, and its payload starts within reach. */
  predicate LastReadable(crc: Checksum, logs: seq<bytes>, n: nat)
    requires logs != []
  {
    |LogFile(crc, logs)| <= n && |LogFile(crc, logs[..|logs| - 1])| + HEADER_SIZE <= INT32_MAX
  }

  /** How many logs can be read from the first n bytes. */
  function Readable(crc: Checksum, logs: seq<bytes>, n: nat): (k: nat)
    ensures k <= |logs| && |LogFile(crc, logs[..k])| <= n
    ensures k > 0 ==> LastReadable(crc, logs[..k], n)
    ensures k < |logs| ==> !LastReadable(crc, logs[..k + 1], n)
  {
    hide LastReadable;
    if logs == [] then 0
    else if LastReadable(crc, logs, n) then
      LastFits(crc, logs, n);
      assert logs[..|logs|] == logs;
      |logs|
    else
      var k := Readable(crc, logs[..|logs| - 1], n);
      assert logs[..|logs| - 1][..k] == logs[..k];
      assert k + 1 < |logs| ==> logs[..|logs| - 1][..k + 1] == logs[..k + 1];
      assert logs[..|logs|] == logs;
      k
  }

  lemma LastFits(crc: Checksum, logs: seq<bytes>, n: nat)
    requires logs != [] && LastReadable(crc, logs, n)
    ensures |LogFile(crc, logs)| <= n
  {
  }

  lemma {:induction false} PrefixFile(crc: Checksum, logs: seq<bytes>, i: nat)
    requires i <= |logs|
    ensures LogFile(crc, logs[..i]) <= LogFile(crc, logs)
    decreases |logs|
  {
    if i < |logs| {
      PrefixFile(crc, logs[..|logs| - 1], i);
      assert logs[..|logs| - 1][..i] == logs[..i];
    } else {
      assert logs[..i] == logs;
    }
  }

  /** Log i stands right after the logs before it. */
  lemma FrameInFile(crc: Checksum, logs: seq<bytes>, i: nat)
    requires i < |logs|
    ensures LogFile(crc, logs[..i]) + Frame(crc, logs[i]) == LogFile(crc, logs[..i + 1]) <= LogFile(crc, logs)
  {
    hide Frame, LogFile;
    OneMoreLog(crc, logs[..i], logs[i]);
    assert logs[..i] + [logs[i]] == logs[..i + 1];
    PrefixFile(crc, logs, i + 1);
  }

  /** How a reader that has read k logs of n bytes stops. */
  function Stop(crc: Checksum, logs: seq<bytes>, n: nat, k: nat): (status: Status)
    requires k <= |logs|
    ensures status != Success
  {
    var offset := |LogFile(crc, logs[..k])|;
    if offset > INT32_MAX || n - offset < HEADER_SIZE then ExecFailed else Corruption
  }

  /** Replaying a torn file from the end of its i-th log. */
  lemma {:induction false} ReplayTorn(crc: Checksum, logs: seq<bytes>, n: nat, i: nat)
    requires n <= |LogFile(crc, logs)| && i <= Readable(crc, logs, n)
    requires forall log :: log in logs ==> |log| <= INT32_MAX
    ensures |LogFile(crc, logs[..i])| < TWO_32
    ensures var k := Readable(crc, logs, n);
            ReplayFrom(crc, LogFile(crc, logs)[..n], |LogFile(crc, logs[..i])|)
            == Replay(logs[i..k], Stop(crc, logs, n, k))
    decreases |logs| - i
  {
    hide LogAt, Frame, LogFile, Readable, ReplayFrom, Stop, ToI32;
    var k, file := Readable(crc, logs, n), LogFile(crc, logs)[..n];
    var offset := |LogFile(crc, logs[..i])|;
    WithinWord(crc, logs, n, i);
    if i < k {
      ReadableFrame(crc, logs, n, i);
      NextWord(offset);
      FrameIsRead(crc, file, offset, logs[i]);
      FrameInFile(crc, logs, i);
      ReplayTorn(crc, logs, n, i + 1);
      ReplayNext(crc, file, offset);
      assert logs[i..k] == [logs[i]] + logs[i + 1..k];
    } else {
      StopsThere(crc, logs, n);
      ReplayStops(crc, file, offset);
      assert logs[i..k] == [];
    }
  }

  lemma ReplayNext(crc: Checksum, file: bytes, offset: nat)
    requires offset < TWO_32 && LogAt(crc, file, offset).status == Success
    ensures var r := LogAt(crc, file, offset);
            && r.offset < TWO_32
            && var rest := ReplayFrom(crc, file, r.offset);
               ReplayFrom(crc, file, offset) == Replay([r.log] + rest.logs, rest.last)
  {
    hide LogAt;
    Advances(crc, file, offset);
  }

  lemma ReplayStops(crc: Checksum, file: bytes, offset: nat)
    requires offset < TWO_32 && LogAt(crc, file, offset).status != Success
    ensures ReplayFrom(crc, file, offset) == Replay([], LogAt(crc, file, offset).status)
  {
    hide LogAt;
  }

  /** Every log read starts within reach, so the next offset is within one word. */
  lemma WithinWord(crc: Checksum, logs: seq<bytes>, n: nat, i: nat)
    requires i <= Readable(crc, logs, n) && forall log :: log in logs ==> |log| <= INT32_MAX
    ensures |LogFile(crc, logs[..i])| < TWO_32
    ensures i < Readable(crc, logs, n) ==> |LogFile(crc, logs[..i])| + HEADER_SIZE <= INT32_MAX
  {
    hide Frame, LogFile, Readable;
    var k := Readable(crc, logs, n);
    if i < k {
      InReach(crc, logs, n, i);
    } else if i > 0 {
      InReach(crc, logs, n, i - 1);
      FrameInFile(crc, logs, i - 1);
    } else {
      NoLogs(crc, logs);
    }
  }

  lemma NoLogs(crc: Checksum, logs: seq<bytes>)
    ensures LogFile(crc, logs[..0]) == []
  {
  }

  lemma InReach(crc: Checksum, logs: seq<bytes>, n: nat, i: nat)
    requires i < Readable(crc, logs, n)
    ensures |LogFile(crc, logs[..i])| + HEADER_SIZE <= INT32_MAX
  {
    hide Frame, LogFile, Readable;
    var k := Readable(crc, logs, n);
    assert logs[..k][..k - 1] == logs[..k - 1] && logs[..k - 1][..i] == logs[..i];
    PrefixFile(crc, logs[..k - 1], i);
  }

  lemma ReadableFrame(crc: Checksum, logs: seq<bytes>, n: nat, i: nat)
    requires n <= |LogFile(crc, logs)| && i < Readable(crc, logs, n)
    ensures |LogFile(crc, logs[..i])| <= n
    ensures Frame(crc, logs[i]) <= LogFile(crc, logs)[..n][|LogFile(crc, logs[..i])|..]
  {
    hide Frame, LogFile, Readable;
    var k := Readable(crc, logs, n);
    FrameInFile(crc, logs, i);
    PrefixFile(crc, logs[..k], i + 1);
    assert logs[..k][..i + 1] == logs[..i + 1];
    PrefixFile(crc, logs, k);
    var offset := |LogFile(crc, logs[..i])|;
    assert LogFile(crc, logs)[..n][offset..][..|Frame(crc, logs[i])|] == Frame(crc, logs[i]);
  }

  lemma HeaderThere(crc: Checksum, file: bytes, n: nat, offset: nat, log: bytes)
    requires offset + HEADER_SIZE <= n <= |file| && offset + HEADER_SIZE + |log| <= |file|
    requires file[offset..offset + HEADER_SIZE + |log|] == Frame(crc, log)
    ensures var header := file[..n][offset..offset + HEADER_SIZE];
            header == Fixed32(crc(log)) + (Fixed32(ToU32(|log|)) + []) && header[4..] == Fixed32(ToU32(|log|)) + []
  {
    hide Fixed32, ToU32;
    var header := file[..n][offset..offset + HEADER_SIZE];
    SliceOfSlice(file, offset, HEADER_SIZE + |log|, 0, HEADER_SIZE);
    assert header == file[offset..offset + HEADER_SIZE] == Frame(crc, log)[0..HEADER_SIZE];
  }

  lemma FrameStands(file: bytes, before: bytes, frame: bytes)
    requires before + frame <= file
    ensures file[|before|..|before| + |frame|] == frame
  {
    assert (before + frame)[|before|..] == frame;
    assert file[|before|..|before| + |frame|] == file[..|before + frame|][|before|..];
  }

  /** At the first log that cannot be read the reader stops, and says how. */
  lemma StopsThere(crc: Checksum, logs: seq<bytes>, n: nat)
    requires n <= |LogFile(crc, logs)| && (forall log :: log in logs ==> |log| <= INT32_MAX)
    ensures var k := Readable(crc, logs, n);
            LogAt(crc, LogFile(crc, logs)[..n], |LogFile(crc, logs[..k])|).status == Stop(crc, logs, n, k)
  {
    hide LogFile, Fixed32, DecodeFixed32, Readable, ToI32, ToU32;
    var k := Readable(crc, logs, n);
    var file, offset := LogFile(crc, logs)[..n], |LogFile(crc, logs[..k])|;
    WithinWord(crc, logs, n, k);
    NextWord(offset);
    if offset <= INT32_MAX && n - offset >= HEADER_SIZE {
      assert logs[..|logs|] == logs;
      FrameInFile(crc, logs, k);
      var len := ToU32(|logs[k]|);
      SmallWord(|logs[k]|);
      NextWord(|logs[k]|);
      FrameStands(LogFile(crc, logs), LogFile(crc, logs[..k]), Frame(crc, logs[k]));
      HeaderThere(crc, LogFile(crc, logs), n, offset, logs[k]);
      Fixed32RoundTrip(len, []);
      assert logs[..k + 1][..k] == logs[..k];
    }
  }

  /** Torn tail: from any byte-prefix of the file the logs made, the reader recovers, in order, exactly
      the logs that lie wholly inside the prefix and start within reach of a 32-bit offset, and then
      fails. */
  lemma TornTail(crc: Checksum, logs: seq<bytes>, n: nat)
    requires n <= |LogFile(crc, logs)| && (forall log :: log in logs ==> |log| <= INT32_MAX)
    ensures var k := Readable(crc, logs, n);
            ReplayFrom(crc, LogFile(crc, logs)[..n], 0) == Replay(logs[..k], Stop(crc, logs, n, k))
  {
    hide ReplayFrom, LogFile, Readable;
    NoLogs(crc, logs);
    ReplayTorn(crc, logs, n, 0);
    var k := Readable(crc, logs, n);
    assert logs[0..k] == logs[..k];
  }

  /** The whole file gives back all the logs, empty ones included, and then end of file, exactly if the
      last payload starts below 2^31. */
  lemma LogRoundTrip(crc: Checksum, logs: seq<bytes>)
    requires forall log :: log in logs ==> |log| <= INT32_MAX
    ensures ReplayFrom(crc, LogFile(crc, logs), 0) == Replay(logs, ExecFailed)
       <==> logs == [] || |LogFile(crc, logs[..|logs| - 1])| + HEADER_SIZE <= INT32_MAX
  {
    hide ReplayFrom, LogFile, Readable;
    var n := |LogFile(crc, logs)|;
    TornTail(crc, logs, n);
    assert LogFile(crc, logs)[..n] == LogFile(crc, logs) && logs[..|logs|] == logs;
    var k := Readable(crc, logs, n);
    if k < |logs| {
      PrefixFile(crc, logs, k + 1);
      assert logs[..k + 1][..k] == logs[..k] == logs[..|logs| - 1][..k];
      PrefixFile(crc, logs[..|logs| - 1], k);
      assert |logs[..k]| < |logs|;
    } else {
      assert logs[..k] == logs;
      assert logs != [] ==> LastReadable(crc, logs, n);
    }
  }

  /** A log behind one of 2^31 - 1 bytes is written and never read. */
  lemma OutOfReach(crc: Checksum, first: bytes, second: bytes)
    requires |first| == INT32_MAX && |second| <= INT32_MAX
    ensures ReplayFrom(crc, LogFile(crc, [first, second]), 0) == Replay([first], ExecFailed)
  {
    hide ReplayFrom, Frame, LogFile;
    var logs := [first, second];
    var n := |LogFile(crc, logs)|;
    TornTail(crc, logs, n);
    assert LogFile(crc, logs)[..n] == LogFile(crc, logs) && logs[..2] == logs;
    assert logs[..1] == [first] && logs[..1][..0] == logs[..0];
    FrameInFile(crc, logs, 0);
    NoLogs(crc, logs);
  }
}
