/** The buffered file writer. The file behind the descriptor is the byte sequence `disk`. */
module FileWriters {
  import opened Bytes
  import opened Codec

  const BUFFER_SIZE := 65536

  /** How much of the buffer is in use after appending len bytes to a buffer with `used` in it. */
  function UsedAfter(used: nat, len: nat): nat
    requires used <= BUFFER_SIZE
  {
    if len == 0 then used
    else if len < BUFFER_SIZE - used then used + len
    else
      var left := len - (BUFFER_SIZE - used);
      if left == 0 then 0 else (left - 1) % BUFFER_SIZE + 1
  }

  /** Without a flush the disk grows by whole buffers only, and never by one it need not. */
  lemma WholeBuffers(used: nat, len: nat)
    requires used <= BUFFER_SIZE
    ensures UsedAfter(used, len) <= BUFFER_SIZE
    ensures UsedAfter(used, len) <= used + len && (used + len - UsedAfter(used, len)) % BUFFER_SIZE == 0
    ensures UsedAfter(used, len) == 0 <==> used + len == 0 || (len > 0 && used + len == BUFFER_SIZE)
  {
    if len > 0 && len >= BUFFER_SIZE - used {
      var left := len - (BUFFER_SIZE - used);
      if left > 0 { assert left == (left - 1) / BUFFER_SIZE * BUFFER_SIZE + UsedAfter(used, len); }
    }
  }

  class FileWriter {
    const buffer: array<byte>
    var bufferOffset: nat
    var disk: bytes
    /** Whether the descriptor is open: `fd != -1`. */
    var open: bool

    ghost predicate Valid()
      reads this
    {
      buffer.Length == BUFFER_SIZE && bufferOffset <= BUFFER_SIZE
    }

    /** Everything appended so far: what is on disk, then what is in the buffer. */
    ghost function Contents(): bytes
      requires Valid()
      reads this, buffer
    {
      disk + buffer[..bufferOffset]
    }

    constructor (existing: bytes)
      ensures Valid() && fresh(buffer) && disk == existing && bufferOffset == 0 && open
    {
      buffer := new byte[BUFFER_SIZE](_ => 0);
      bufferOffset := 0;
      disk := existing;
      open := true;
    }

    predicate IsBufferFull()
      reads this
    {
      bufferOffset == BUFFER_SIZE
    }

    /** `memcpy(buffer + bufferOffset, data + from, n)`, and the offset moved past the bytes. */
    method CopyIn(data: bytes, from: nat, n: nat)
      requires Valid() && from + n <= |data| && bufferOffset + n <= BUFFER_SIZE
      modifies this`bufferOffset, buffer
      ensures Valid() && bufferOffset == old(bufferOffset) + n
      ensures buffer[..bufferOffset] == old(buffer[..bufferOffset]) + data[from..from + n]
      ensures Contents() == old(Contents()) + data[from..from + n]
    {
      ghost var was := buffer[..bufferOffset];
      forall i | 0 <= i < n {
        buffer[bufferOffset + i] := data[from + i];
      }
      assert buffer[..bufferOffset] == was;
      assert buffer[bufferOffset..bufferOffset + n] == data[from..from + n];
      assert buffer[..bufferOffset + n] == buffer[..bufferOffset] + buffer[bufferOffset..bufferOffset + n];
      bufferOffset := bufferOffset + n;
    }

    /** The write fails, and with it an assertion, once the descriptor is closed. */
    method BufPersist(len: nat)
      requires Valid() && len <= BUFFER_SIZE && open
      modifies this`disk, this`bufferOffset
      ensures Valid() && bufferOffset == 0 && disk == old(disk) + old(buffer[..len])
      ensures len == old(bufferOffset) ==> Contents() == old(Contents())
    {
      disk := disk + buffer[..len];
      bufferOffset := 0;
    }

    /** Appending these bytes reaches the descriptor: they fill the buffer, or it is flushed. */
    predicate Persists(data: bytes, flush: bool)
      reads this
    {
      data != [] && (flush || |data| + bufferOffset >= BUFFER_SIZE)
    }

    method Append(data: bytes, flush: bool)
      requires Valid() && |data| <= INT32_MAX && (Persists(data, flush) ==> open)
      modifies this`disk, this`bufferOffset, buffer
      ensures Valid() && Contents() == old(Contents()) + data && old(disk) <= disk
      ensures bufferOffset == if flush && data != [] then 0 else UsedAfter(old(bufferOffset), |data|)
    {
      var len := |data|;
      if len == 0 {
        return;
      }
      Buffer(data);
      if flush {
        assert Contents() == disk + buffer[..bufferOffset];
        BufPersist(bufferOffset);
      }
    }

    /** The copying part of Append. */
    method Buffer(data: bytes)
      requires Valid() && 0 < |data| <= INT32_MAX && (Persists(data, false) ==> open)
      modifies this`disk, this`bufferOffset, buffer
      ensures Valid() && Contents() == old(Contents()) + data && old(disk) <= disk
      ensures bufferOffset == UsedAfter(old(bufferOffset), |data|)
    {
      var remainBufSize := BUFFER_SIZE - bufferOffset;
      if |data| < remainBufSize {
        CopyIn(data, 0, |data|);
        assert data[0..|data|] == data;
      } else {
        CopyIn(data, 0, remainBufSize);
        BufPersist(BUFFER_SIZE);
        BufferRest(data, remainBufSize);
        assert data[0..remainBufSize] + data[remainBufSize..] == data;
      }
    }

    /** The copy loop: the rest of the data, through an empty buffer. */
    method BufferRest(data: bytes, from: nat)
      requires Valid() && from <= |data| && bufferOffset == 0 && open
      modifies this`disk, this`bufferOffset, buffer
      ensures Valid() && Contents() == old(Contents()) + data[from..] && old(disk) <= disk
      ensures bufferOffset == if from == |data| then 0 else (|data| - from - 1) % BUFFER_SIZE + 1
    {
      var dataOffset, len := from, |data| - from;
      ghost var start := Contents();
      while len > 0
        invariant Valid() && len + dataOffset == |data| && from <= dataOffset <= |data|
        invariant Contents() == start + data[from..dataOffset] && old(disk) <= disk
        invariant bufferOffset == if dataOffset == from then 0 else BUFFER_SIZE
        invariant (dataOffset - from) % BUFFER_SIZE == 0
      {
        if IsBufferFull() {
          BufPersist(BUFFER_SIZE);
        }
        var needCpy := if len < BUFFER_SIZE - bufferOffset then len else BUFFER_SIZE - bufferOffset;
        CopyIn(data, dataOffset, needCpy);
        Glue(start, data, from, dataOffset, dataOffset + needCpy);
        LastChunk(dataOffset - from, needCpy);
        dataOffset := dataOffset + needCpy;
        len := len - needCpy;
        if len == 0 {
          break;
        }
      }
      assert data[from..dataOffset] == data[from..];
    }

    method Flush()
      requires Valid() && (bufferOffset > 0 ==> open)
      modifies this`disk, this`bufferOffset
      ensures Valid() && bufferOffset == 0 && disk == old(Contents())
    {
      if bufferOffset > 0 {
        BufPersist(bufferOffset);
      }
    }

    /** `fsync` moves nothing the model can see. */
    method Sync()
      requires Valid() && (bufferOffset > 0 ==> open)
      modifies this`disk, this`bufferOffset
      ensures Valid() && bufferOffset == 0 && disk == old(Contents())
    {
      Flush();
    }

    method Close()
      requires Valid() && (bufferOffset > 0 ==> open)
      modifies this`disk, this`bufferOffset, this`open
      ensures Valid() && bufferOffset == 0 && disk == old(Contents()) && !open
    {
      Flush();
      open := false;
    }
  }

  lemma LastChunk(whole: nat, n: nat)
    requires whole % BUFFER_SIZE == 0 && 0 < n <= BUFFER_SIZE
    ensures (whole + n - 1) % BUFFER_SIZE + 1 == n
    ensures n == BUFFER_SIZE ==> (whole + n) % BUFFER_SIZE == 0
  {
  }

  lemma Glue(start: bytes, data: bytes, from: nat, mid: nat, to: nat)
    requires from <= mid <= to <= |data|
    ensures start + data[from..mid] + data[mid..to] == start + data[from..to]
  {
  }
}
