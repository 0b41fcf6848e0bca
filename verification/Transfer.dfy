/**
 * Chunked upload and download: the messages both sides exchange, what the other side rebuilds
 * from them, and when the 32-bit counters of the loops stay in range.
 */
module Transfer {
  import opened Bytes

  const CHUNK_SIZE: nat := 1572864

  /** C++ `int`: arithmetic outside this range is undefined in the original and refused here. */
  newtype int32 = x: int | INT_MIN <= x <= INT_MAX

  /** 1365 whole chunks fit in an `int`, 1366 do not. */
  const SIZE_LIMIT: nat := 1365 * CHUNK_SIZE

  datatype WriteRequest = WriteRequest(path: Path, buf: Bytes, size: nat, offset: nat)
  datatype ReadReply = ReadReply(buf: Bytes, numBytes: int, err: int)

  function Min(a: int, b: int): int {
    if a < b then a else b
  }

  // ---------- Upload ----------

  /** The messages that carry `buf[from..]`: full chunks, then one shorter than a chunk, possibly empty. */
  function Requests(path: Path, buf: Bytes, from: nat): (r: seq<WriteRequest>)
    requires from <= |buf|
    ensures r != []
    ensures forall m | m in r :: m.path == path && m.size == |m.buf|
    decreases |buf| - from
  {
    var n := Min(CHUNK_SIZE, |buf| - from);
    var m := WriteRequest(path, buf[from..from + n], n, from);
    if |buf| - from >= CHUNK_SIZE then [m] + Requests(path, buf, from + CHUNK_SIZE) else [m]
  }

  /** An upload sends size/CHUNK_SIZE + 1 messages: a multiple of the chunk size ends with an empty one. */
  lemma {:induction false} RequestCount(path: Path, buf: Bytes, from: nat)
    requires from <= |buf|
    ensures |Requests(path, buf, from)| == (|buf| - from) / CHUNK_SIZE + 1
    ensures (|buf| - from) % CHUNK_SIZE == 0 ==>
              Requests(path, buf, from)[|Requests(path, buf, from)| - 1] == WriteRequest(path, [], 0, |buf|)
    decreases |buf| - from
  {
    if |buf| - from >= CHUNK_SIZE {
      RequestCount(path, buf, from + CHUNK_SIZE);
      assert (|buf| - from) / CHUNK_SIZE == (|buf| - (from + CHUNK_SIZE)) / CHUNK_SIZE + 1;
    }
  }

  /** The last value of the loop's `curr`, one chunk past the start of the last message; it is the largest. */
  function LastCurr(size: nat, offset: nat): (r: nat)
    ensures r >= offset + CHUNK_SIZE
  {
    if size < CHUNK_SIZE then offset + CHUNK_SIZE else LastCurr(size - CHUNK_SIZE, offset + CHUNK_SIZE)
  }

  lemma {:induction false} LastCurrIs(size: nat, offset: nat)
    ensures LastCurr(size, offset) == offset + size - size % CHUNK_SIZE + CHUNK_SIZE
  {
    if size >= CHUNK_SIZE {
      LastCurrIs(size - CHUNK_SIZE, offset + CHUNK_SIZE);
      assert size % 1572864 == (size - 1572864) % 1572864;
    }
  }

  /**
   * Arithmetic bound, exactly: the counters of an upload from offset 0 stay within `int` if and
   * only if the size is below 1365 chunks.
   */
  lemma UploadInRangeIff(size: nat)
    ensures LastCurr(size, 0) <= INT_MAX <==> size < SIZE_LIMIT
  {
    LastCurrIs(size, 0);
    assert size % 1572864 == size - size / 1572864 * 1572864;
  }

  /** What is sent from `curr` on: one message, and the rest if more than it is left. */
  lemma TurnOfLoop(path: Path, buf: Bytes, sent: seq<WriteRequest>, curr: nat, bytesLeft: nat)
    requires curr + bytesLeft == |buf|
    ensures var n := Min(CHUNK_SIZE, bytesLeft);
            var sent' := sent + [WriteRequest(path, buf[curr..curr + n], n, curr)];
            && sent + Requests(path, buf, curr) ==
               (if bytesLeft < CHUNK_SIZE then sent' else sent' + Requests(path, buf, curr + CHUNK_SIZE))
            && LastCurr(bytesLeft, curr) ==
               (if bytesLeft < CHUNK_SIZE then curr + CHUNK_SIZE else LastCurr(bytesLeft - CHUNK_SIZE, curr + CHUNK_SIZE))
  {}

  /** The client's splitting loop. */
  method SplitUpload(path: Path, buf: Bytes, size: int32, offset: int32) returns (sent: seq<WriteRequest>)
    requires 0 <= offset && 0 <= size && offset as int + size as int == |buf|
    requires LastCurr(size as int, offset as int) <= INT_MAX
    ensures sent == Requests(path, buf, offset as int)
  {
    hide Requests, LastCurr;
    var chunk: int32 := 1572864;
    var bytesLeft, curr := size, offset;
    sent := [];
    while bytesLeft >= 0
      invariant 0 <= curr && curr as int + bytesLeft as int == |buf| && bytesLeft >= -1572864
      invariant bytesLeft >= 0 ==>
                  && LastCurr(bytesLeft as int, curr as int) == LastCurr(size as int, offset as int)
                  && sent + Requests(path, buf, curr as int) == Requests(path, buf, offset as int)
      invariant bytesLeft < 0 ==> sent == Requests(path, buf, offset as int)
      decreases bytesLeft as int + CHUNK_SIZE
    {
      var n := if chunk < bytesLeft then chunk else bytesLeft;
      var m := WriteRequest(path, buf[curr..curr as int + n as int], n as int, curr as int);
      TurnOfLoop(path, buf, sent, curr as int, bytesLeft as int);
      sent := sent + [m];
      curr := curr + chunk;
      bytesLeft := bytesLeft - chunk;
    }
  }

  /** What a `pwrite` of `size` bytes takes of the message's buffer; a longer size would read past its end. */
  function Payload(m: WriteRequest): (r: Bytes)
    ensures r <= m.buf && (m.size <= |m.buf| ==> |r| == m.size)
  {
    if m.size <= |m.buf| then m.buf[..m.size] else m.buf
  }

  lemma WholePayload(m: WriteRequest)
    requires m.size == |m.buf|
    ensures Payload(m) == m.buf
  {}

  /** A run of the server's receive loop over the messages: the temporary file after it. */
  function Received(temp: Bytes, reqs: seq<WriteRequest>, numOfBytes: nat): Bytes
    decreases |reqs|
  {
    if reqs == [] then temp
    else
      var m := reqs[0];
      var written, total := PWrite(temp, m.offset, Payload(m)), numOfBytes + |Payload(m)|;
      if total == 0 then written else Received(written, reqs[1..], total)
  }

  lemma RequestsFrom(path: Path, buf: Bytes, from: nat)
    requires from <= |buf|
    ensures var n := Min(CHUNK_SIZE, |buf| - from);
            Requests(path, buf, from) == [WriteRequest(path, buf[from..from + n], n, from)] +
                                         if |buf| - from < CHUNK_SIZE then [] else Requests(path, buf, from + CHUNK_SIZE)
  {}

  lemma ReceivedNothing(temp: Bytes, numOfBytes: nat)
    ensures Received(temp, [], numOfBytes) == temp
  {}

  lemma ReceivedCons(temp: Bytes, m: WriteRequest, rest: seq<WriteRequest>, numOfBytes: nat)
    ensures Received(temp, [m] + rest, numOfBytes) ==
            var written, total := PWrite(temp, m.offset, Payload(m)), numOfBytes + |Payload(m)|;
            if total == 0 then written else Received(written, rest, total)
  {
    assert ([m] + rest)[1..] == rest;
  }

  lemma {:induction false} ReceivedFrom(temp: Bytes, path: Path, buf: Bytes, from: nat, numOfBytes: nat)
    requires from <= |buf| && |temp| >= from && temp[..from] == buf[..from]
    requires from > 0 ==> numOfBytes > 0
    ensures Received(temp, Requests(path, buf, from), numOfBytes) == Overlay(buf, temp)
    decreases |buf| - from
  {
    hide PWrite, Overlay, Received, Requests, Payload;
    var n := Min(CHUNK_SIZE, |buf| - from);
    var m := WriteRequest(path, buf[from..from + n], n, from);
    WholePayload(m);
    var written := PWrite(temp, from, m.buf);
    RequestsFrom(path, buf, from);
    ReceivedCons(temp, m, if |buf| - from < CHUNK_SIZE then [] else Requests(path, buf, from + CHUNK_SIZE), numOfBytes);
    WriteExtendsPrefix(temp, buf, from, from + n);
    if |buf| - from >= CHUNK_SIZE {
      ReceivedFrom(written, path, buf, from + CHUNK_SIZE, numOfBytes + n);
    } else {
      ReceivedNothing(written, numOfBytes + n);
      PrefixIsOverlay(written, buf, temp);
    }
  }

  /** Writing the next part of `buf` in place extends the part already equal to `buf`. */
  lemma WriteExtendsPrefix(temp: Bytes, buf: Bytes, from: nat, to: nat)
    requires from <= to <= |buf| && from <= |temp| && temp[..from] == buf[..from]
    ensures var written := PWrite(temp, from, buf[from..to]);
            && to <= |written| && written[..to] == buf[..to]
            && Overlay(buf, written) == Overlay(buf, temp)
            && |written| == (if to < |temp| then |temp| else to)
            && (forall i | to <= i < |written| :: written[i] == temp[i])
  {
    var data := buf[from..to];
    var written := PWrite(temp, from, data);
    forall i | 0 <= i < to ensures i < |written| && written[i] == buf[i] {
      if i < from {
        assert written[i] == temp[i] == temp[..from][i] == buf[..from][i];
      } else {
        assert written[i] == written[from..from + |data|][i - from] == data[i - from];
      }
    }
  }

  lemma PrefixIsOverlay(written: Bytes, buf: Bytes, temp: Bytes)
    requires |buf| <= |written| && written[..|buf|] == buf
    requires Overlay(buf, written) == Overlay(buf, temp)
    ensures written == Overlay(buf, temp)
  {
    assert written == written[..|buf|] + written[|buf|..];
  }

  /**
   * Upload exactness: for every buffer, whatever temporary file an earlier upload left behind,
   * the server ends up with the buffer followed by the part of that leftover beyond its end.
   */
  lemma UploadExact(leftover: Bytes, path: Path, buf: Bytes)
    ensures Received(leftover, Requests(path, buf, 0), 0) == Overlay(buf, leftover)
  {
    ReceivedFrom(leftover, path, buf, 0, 0);
  }

  /** All of the messages written one after the other, without the loop's early end. */
  function AllWritten(temp: Bytes, reqs: seq<WriteRequest>): Bytes {
    if reqs == [] then temp
    else
      var m := reqs[|reqs| - 1];
      PWrite(AllWritten(temp, reqs[..|reqs| - 1]), m.offset, Payload(m))
  }

  /** What any messages leave: all of them are written, unless the first brings no bytes and ends the loop. */
  lemma ReceivedIs(temp: Bytes, reqs: seq<WriteRequest>)
    ensures Received(temp, reqs, 0) == if reqs == [] || Payload(reqs[0]) == [] then temp else AllWritten(temp, reqs)
  {
    if reqs != [] {
      assert reqs == [reqs[0]] + reqs[1..];
      var first := PWrite(temp, reqs[0].offset, Payload(reqs[0]));
      hide PWrite, Payload;
      if Payload(reqs[0]) != [] {
        ReceivedAll(first, reqs[1..], |Payload(reqs[0])|);
        AllWrittenCons(temp, reqs[0], reqs[1..]);
      }
    }
  }

  lemma {:induction false} ReceivedAll(temp: Bytes, reqs: seq<WriteRequest>, numOfBytes: nat)
    requires numOfBytes > 0
    ensures Received(temp, reqs, numOfBytes) == AllWritten(temp, reqs)
    decreases |reqs|
  {
    hide PWrite, Payload;
    if reqs != [] {
      var m := reqs[0];
      assert reqs == [m] + reqs[1..];
      ReceivedAll(PWrite(temp, m.offset, Payload(m)), reqs[1..], numOfBytes + |Payload(m)|);
      AllWrittenCons(temp, m, reqs[1..]);
    }
  }

  lemma {:induction false} AllWrittenCons(temp: Bytes, m: WriteRequest, rest: seq<WriteRequest>)
    ensures AllWritten(temp, [m] + rest) == AllWritten(PWrite(temp, m.offset, Payload(m)), rest)
    decreases |rest|
  {
    hide PWrite, Payload;
    if rest == [] {
      assert [m] + rest == [m] && [m][..0] == [];
    } else {
      AllWrittenCons(temp, m, rest[..|rest| - 1]);
      assert ([m] + rest)[..|rest|] == [m] + rest[..|rest| - 1];
    }
  }

  /** Hence the upload is exact if and only if the leftover is no longer than the buffer. */
  lemma UploadExactIff(leftover: Bytes, path: Path, buf: Bytes)
    ensures Received(leftover, Requests(path, buf, 0), 0) == buf <==> |leftover| <= |buf|
  {
    UploadExact(leftover, path, buf);
  }

  // ---------- Download ----------

  /** The replies that carry `file[from..]` in pieces of `step` bytes. Each claims `step` bytes, the last one too. */
  function Pieces(file: Bytes, step: nat, from: nat): (r: seq<ReadReply>)
    requires 0 < step
    ensures forall m | m in r :: m.numBytes == step && m.err == 0 && 0 < |m.buf| <= step
    decreases |file| - from
  {
    if from >= |file| then []
    else
      var n := Min(step, |file| - from);
      [ReadReply(file[from..from + n], step, 0)] + Pieces(file, step, from + step)
  }

  /** All replies to a request for `file`; None is a file that cannot be opened. */
  function Replies(file: Option<Bytes>): (r: seq<ReadReply>)
    ensures r != []
    ensures forall i | 0 <= i < |r| :: r[i].err == if file.None? then -1 else 0
  {
    if file.None? then [ReadReply([], 0, -1)]
    else if file.value == [] then [ReadReply([], 0, 0)]
    else Pieces(file.value, Min(CHUNK_SIZE, |file.value|), 0)
  }

  function Concat(rs: seq<ReadReply>): Bytes {
    if rs == [] then [] else Concat(rs[..|rs| - 1]) + rs[|rs| - 1].buf
  }

  lemma {:induction false} ConcatCons(r: ReadReply, rs: seq<ReadReply>)
    ensures Concat([r] + rs) == r.buf + Concat(rs)
    decreases |rs|
  {
    if rs == [] {
      assert [r] + rs == [r] && [r][..0] == [];
    } else {
      ConcatCons(r, rs[..|rs| - 1]);
      assert ([r] + rs)[..|rs|] == [r] + rs[..|rs| - 1];
      assert r.buf + Concat(rs[..|rs| - 1]) + rs[|rs| - 1].buf == r.buf + (Concat(rs[..|rs| - 1]) + rs[|rs| - 1].buf);
    }
  }

  lemma ConcatNothing()
    ensures Concat([]) == []
  {}

  lemma PiecesFrom(file: Bytes, step: nat, from: nat)
    requires 0 < step
    ensures Pieces(file, step, from) ==
            if from >= |file| then []
            else [ReadReply(file[from..Min(from + step, |file|)], step, 0)] + Pieces(file, step, from + step)
  {}

  lemma {:induction false} ConcatPieces(file: Bytes, step: nat, from: nat)
    requires 0 < step && from <= |file|
    ensures Concat(Pieces(file, step, from)) == file[from..]
    decreases |file| - from
  {
    hide Concat, Pieces;
    ConcatNothing();
    PiecesFrom(file, step, from);
    if from < |file| {
      var end := Min(from + step, |file|);
      ConcatCons(ReadReply(file[from..end], step, 0), Pieces(file, step, from + step));
      if from + step <= |file| {
        ConcatPieces(file, step, from + step);
        assert file[from..] == file[from..end] + file[end..];
      } else {
        PiecesFrom(file, step, from + step);
      }
    }
  }

  /** Download exactness: the client's concatenation of the replies is the file, for every length. */
  lemma DownloadExact(file: Bytes)
    ensures Concat(Replies(Some(file))) == file
  {
    if file == [] {
      assert [ReadReply([], 0, 0)][..0] == [];
    } else {
      ConcatPieces(file, Min(CHUNK_SIZE, |file|), 0);
    }
  }

  function Times(n: int, step: nat): int {
    n * step
  }

  lemma TimesNext(n: int, step: nat)
    ensures Times(n + 1, step) == Times(n, step) + step && Times(0, step) == 0
  {}

  lemma {:induction false} PieceCount(file: Bytes, step: nat, from: nat)
    requires 0 < step && from < |file|
    ensures var n := |Pieces(file, step, from)|;
            n > 0 && Times(n - 1, step) < |file| - from <= Times(n, step)
    decreases |file| - from
  {
    hide Times, Pieces;
    PiecesFrom(file, step, from);
    var n := |Pieces(file, step, from + step)|;
    if from + step < |file| {
      PieceCount(file, step, from + step);
    } else {
      PiecesFrom(file, step, from + step);
    }
    TimesNext(n, step);
    TimesNext(n - 1, step);
    TimesNext(0, step);
  }

  /** A download sends length/min(CHUNK_SIZE, length) replies, rounded up, although the last may over-report its bytes. */
  lemma ReplyCount(file: Bytes)
    requires file != []
    ensures var step, n := Min(CHUNK_SIZE, |file|), |Replies(Some(file))|;
            n > 0 && (n - 1) * step < |file| <= n * step
  {
    hide Pieces;
    PieceCount(file, Min(CHUNK_SIZE, |file|), 0);
  }

  /**
   * Arithmetic bound of the download, exactly: the last value of `bytesRead`, which is the number
   * of replies times their size, stays within `int` if and only if the file has at most 1365 chunks.
   */
  lemma DownloadInRangeIff(file: Bytes)
    requires file != []
    ensures |Replies(Some(file))| * Min(CHUNK_SIZE, |file|) <= INT_MAX <==> |file| <= SIZE_LIMIT
  {
    ReplyCount(file);
    var n, step := |Replies(Some(file))|, Min(CHUNK_SIZE, |file|);
    hide Replies;
    if |file| < CHUNK_SIZE {
      OneStep(n, step);
    }
  }

  lemma OneStep(n: nat, step: nat)
    requires n > 0 && (n - 1) * step < step
    ensures n == 1
  {}

  /** Round trip: what is downloaded after an upload over no longer leftover is the uploaded buffer. */
  lemma UploadThenDownload(leftover: Bytes, path: Path, buf: Bytes)
    requires |leftover| <= |buf|
    ensures Concat(Replies(Some(Received(leftover, Requests(path, buf, 0), 0)))) == buf
  {
    UploadExact(leftover, path, buf);
    DownloadExact(buf);
  }

  ghost predicate Multiple(bytes: nat, step: nat) {
    exists k: nat :: bytes == Times(k, step)
  }

  /** Whole chunks below a limit of whole chunks leave room for one more. */
  lemma RoomForOne(from: nat, step: nat, length: nat)
    requires 0 < step == Min(CHUNK_SIZE, length) && from < length <= SIZE_LIMIT && Multiple(from, step)
    ensures from + step <= INT_MAX
  {
    if step == CHUNK_SIZE {
      var k: nat :| from == Times(k, step);
    }
  }

  lemma NextMultiple(from: nat, step: nat)
    requires Multiple(from, step)
    ensures Multiple(from + step, step)
  {
    var k: nat :| from == Times(k, step);
    hide Times;
    TimesNext(k, step);
  }

  /** One turn of the sending loop overflows nothing and sends the next piece. */
  lemma TurnOfSending(buffer: Bytes, step: nat, from: nat, written: seq<ReadReply>)
    requires 0 < step == Min(CHUNK_SIZE, |buffer|) && |buffer| <= SIZE_LIMIT && from < |buffer| && Multiple(from, step)
    ensures from + step <= INT_MAX && Multiple(from + step, step)
    ensures written + Pieces(buffer, step, from) ==
            written + [ReadReply(buffer[from..Min(from + step, |buffer|)], step, 0)] + Pieces(buffer, step, from + step)
  {
    hide Multiple, Pieces;
    RoomForOne(from, step, |buffer|);
    NextMultiple(from, step);
    PiecesFrom(buffer, step, from);
  }

  lemma NothingIsMultiple(step: nat)
    ensures Multiple(0, step)
  {
    assert 0 == Times(0, step);
  }

  /** The server's sending loop over the bytes read from a non-empty file. */
  method SendFile(buffer: Bytes) returns (written: seq<ReadReply>)
    requires 0 < |buffer| <= SIZE_LIMIT
    ensures written == Replies(Some(buffer))
  {
    hide Pieces, Multiple;
    var chunk: int32 := 1572864;
    var length: int32 := |buffer| as int32;
    var bytesRead: int32 := 0;
    var minSize := if chunk < length then chunk else length;
    NothingIsMultiple(minSize as int);
    written := [];
    while bytesRead < length
      invariant 0 < minSize as int == Min(CHUNK_SIZE, |buffer|)
      invariant bytesRead >= 0 && Multiple(bytesRead as int, minSize as int)
      invariant written + Pieces(buffer, minSize as int, bytesRead as int) == Pieces(buffer, minSize as int, 0)
      decreases length as int - bytesRead as int
    {
      TurnOfSending(buffer, minSize as int, bytesRead as int, written);
      var end: int := Min(bytesRead as int + minSize as int, |buffer|);  // `substr` stops at the end of the buffer
      written := written + [ReadReply(buffer[bytesRead..end], minSize as int, 0)];
      bytesRead := bytesRead + minSize;
    }
    PiecesFrom(buffer, minSize as int, bytesRead as int);
  }

  /** The client's receiving loop; it stops after `n` replies, early only behind a negative byte count. */
  method Reassemble(replies: seq<ReadReply>) returns (buf: Bytes, err: int, n: nat)
    ensures n <= |replies| && buf == Concat(replies[..n])
    ensures forall i | 0 <= i < n - 1 :: replies[i].numBytes >= 0
    ensures n < |replies| ==> n > 0 && replies[n - 1].numBytes < 0
    ensures err == if n == 0 then 0 else replies[n - 1].err
  {
    buf, err, n := [], 0, 0;
    while n < |replies|
      invariant n <= |replies| && buf == Concat(replies[..n])
      invariant forall i | 0 <= i < n :: replies[i].numBytes >= 0
      invariant err == if n == 0 then 0 else replies[n - 1].err
    {
      assert replies[..n + 1][..n] == replies[..n];
      buf := buf + replies[n].buf;
      err := replies[n].err;
      n := n + 1;
      if replies[n - 1].numBytes < 0 {
        break;
      }
    }
  }
}
