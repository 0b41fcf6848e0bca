/** The server: its file store, its per-path logical clocks and the calls of the protocol. */
module GrpcServer {
  import opened Bytes
  import opened Transfer
  import opened AtomicReplace
  import Protocol

  /** Transfer.Received from the i-th message on, without cutting the sequence. */
  function ReceivedAt(temp: Bytes, reqs: seq<WriteRequest>, i: nat, numOfBytes: nat): Bytes
    requires i <= |reqs|
    decreases |reqs| - i
  {
    if i == |reqs| then temp
    else
      var written, total := PWrite(temp, reqs[i].offset, Payload(reqs[i])), numOfBytes + |Payload(reqs[i])|;
      if total == 0 then written else ReceivedAt(written, reqs, i + 1, total)
  }

  lemma {:induction false} ReceivedAtIs(temp: Bytes, reqs: seq<WriteRequest>, i: nat, numOfBytes: nat)
    requires i <= |reqs|
    ensures ReceivedAt(temp, reqs, i, numOfBytes) == Received(temp, reqs[i..], numOfBytes)
    decreases |reqs| - i
  {
    hide PWrite, Payload;
    if i < |reqs| {
      assert reqs[i..][1..] == reqs[i + 1..];
      ReceivedAtIs(PWrite(temp, reqs[i].offset, Payload(reqs[i])), reqs, i + 1, numOfBytes + |Payload(reqs[i])|);
    }
  }

  /** The bytes carried by the messages from the i-th on. */
  function BytesFrom(reqs: seq<WriteRequest>, i: nat): nat
    requires i <= |reqs|
    decreases |reqs| - i
  {
    if i == |reqs| then 0 else |Payload(reqs[i])| + BytesFrom(reqs, i + 1)
  }

  lemma {:induction false} BytesFromCons(m: WriteRequest, reqs: seq<WriteRequest>, i: nat)
    requires i <= |reqs|
    ensures BytesFrom([m] + reqs, i + 1) == BytesFrom(reqs, i)
    decreases |reqs| - i
  {
    if i < |reqs| {
      BytesFromCons(m, reqs, i + 1);
    }
  }

  /** The server counts as many bytes as the client meant to send. */
  lemma {:induction false} RequestsCarryAll(path: Path, buf: Bytes, from: nat)
    requires from <= |buf|
    ensures BytesFrom(Requests(path, buf, from), 0) == |buf| - from
    decreases |buf| - from
  {
    var reqs := Requests(path, buf, from);
    if |buf| - from >= CHUNK_SIZE {
      var rest := Requests(path, buf, from + CHUNK_SIZE);
      RequestsCarryAll(path, buf, from + CHUNK_SIZE);
      assert reqs == [reqs[0]] + rest;
      BytesFromCons(reqs[0], rest, 0);
    } else {
      assert |reqs| == 1;
    }
  }

  /** One turn of the receive loop, in both reckonings. */
  lemma TurnOfReceiving(temp: Bytes, reqs: seq<WriteRequest>, i: nat, numOfBytes: nat)
    requires i < |reqs|
    ensures BytesFrom(reqs, i) == |Payload(reqs[i])| + BytesFrom(reqs, i + 1)
    ensures var written, total := PWrite(temp, reqs[i].offset, Payload(reqs[i])), numOfBytes + |Payload(reqs[i])|;
            ReceivedAt(temp, reqs, i, numOfBytes) == if total == 0 then written else ReceivedAt(written, reqs, i + 1, total)
  {}

  lemma NothingReceived(temp: Bytes, reqs: seq<WriteRequest>, numOfBytes: nat)
    ensures BytesFrom(reqs, |reqs|) == 0 && ReceivedAt(temp, reqs, |reqs|, numOfBytes) == temp
  {}

  /** The path of the last message that the receive loop reads; a first message without bytes ends it. */
  function Target(reqs: seq<WriteRequest>): Path {
    if reqs == [] then [] else if Payload(reqs[0]) == [] then reqs[0].path else reqs[|reqs| - 1].path
  }

  /** `rename`: the new name gets the file, the old one is gone; renaming a file to itself changes nothing. */
  function Renamed(files: map<Path, Bytes>, from: Path, to: Path): map<Path, Bytes>
    requires from in files
  {
    if from == to then files else files[to := files[from]] - {from}
  }

  /** The server's state as a value. */
  datatype Store = Store(files: map<Path, Bytes>, serverclock: map<Path, int>)

  /** The protocol's view of one path, between calls; `serverclock[path]` inserts 0 for a path it does not know. */
  function ServerView(st: Store, p: Path): Protocol.Server {
    Protocol.Server(if p in st.files then Some(st.files[p]) else None,
                    if p in st.serverclock then st.serverclock[p] else 0, None)
  }

  class Server {
    var files: map<Path, Bytes>
    var serverclock: map<Path, int>

    constructor (files: map<Path, Bytes>)
      ensures this.files == files && serverclock == map[]
    {
      this.files := files;
      this.serverclock := map[];
    }

    function State(): Store
      reads this
    {
      Store(files, serverclock)
    }

    function View(p: Path): Protocol.Server
      reads this
    {
      ServerView(State(), p)
    }

    function Clock(p: Path): int
      reads this
    {
      View(p).clock
    }

    method GetFileAttributes(path: Path) returns (status: int, clock: int)
      modifies this`serverclock
      ensures status == if View(path).file.Some? then 0 else -1
      ensures status == 0 ==> clock == View(path).clock
      ensures forall p :: View(p) == old(View(p))
    {
      clock := 0;
      if path !in files {
        return -1, clock;
      }
      if path !in serverclock {
        serverclock := serverclock[path := 0];
      }
      return 0, serverclock[path];
    }

    method GetFileContents(path: Path) returns (replies: seq<ReadReply>)
      requires path in files ==> |files[path]| <= SIZE_LIMIT
      ensures replies == Replies(View(path).file)
    {
      if path !in files {
        return [ReadReply([], 0, -1)];
      }
      if |files[path]| == 0 {
        return [ReadReply([], 0, 0)];
      }
      replies := SendFile(files[path]);
    }

    method CreateEmptyFile(path: Path) returns (err: int)
      modifies this`files
      ensures err == 0
      ensures View(path) == Protocol.CreateStep(old(View(path)))
      ensures forall p | p != path :: View(p) == old(View(p))
    {
      if path !in files {
        files := files[path := []];
      }
      return 0;
    }

    /** The clock is dropped even if there was no file; `fs::remove` then reports error code 0. */
    method RemoveFile(path: Path) returns (status: int, erronum: int)
      modifies this
      ensures status == (if old(View(path)).file.Some? then 0 else 1) && erronum == 0
      ensures View(path) == Protocol.Server(None, 0, None)
      ensures forall p | p != path :: View(p) == old(View(p))
    {
      status, erronum := 0, 0;
      if path !in files {
        status := 1;
      }
      files := files - {path};
      serverclock := serverclock - {path};
    }

    /** One turn of the receive loop: open the temporary file if nothing has arrived yet, then write in place. */
    method StoreMessage(m: WriteRequest, tempFilePath: Path, numOfBytes: int32) returns (temp: Path)
      requires m.size <= |m.buf|
      modifies this`files
      ensures temp == if numOfBytes == 0 then Temp(m.path) else tempFilePath
      ensures files == old(files)[temp := PWrite(if temp in old(files) then old(files)[temp] else [], m.offset, Payload(m))]
    {
      temp := tempFilePath;
      if numOfBytes == 0 {
        temp := m.path + ".TMP";
      }
      if temp !in files {
        files := files[temp := []];  // O_CREAT, no O_TRUNC
      }
      files := files[temp := PWrite(files[temp], m.offset, m.buf[..m.size])];
    }

    /**
     * The receive loop, on any messages: all are written into the temporary file of the first
     * one's path, and the path of the last one read is kept.
     */
    method ReceiveInto(reqs: seq<WriteRequest>)
      returns (path: Path, tempFilePath: Path, fdOpen: bool, numOfBytes: int32)
      requires forall m | m in reqs :: m.size <= |m.buf|
      requires BytesFrom(reqs, 0) <= INT_MAX
      modifies this`files
      ensures numOfBytes as int == if reqs == [] || Payload(reqs[0]) == [] then 0 else BytesFrom(reqs, 0)
      ensures fdOpen <==> reqs != []
      ensures path == Target(reqs)
      ensures reqs != [] ==> path == (if numOfBytes == 0 then reqs[0].path else reqs[|reqs| - 1].path)
      ensures reqs == [] ==> files == old(files)
      ensures reqs != [] ==>
                && tempFilePath == Temp(reqs[0].path)
                && files == old(files)[tempFilePath := ReceivedAt(Leftover(old(files), reqs[0].path), reqs, 0, 0)]
    {
      hide PWrite, Temp, Payload, ReceivedAt, BytesFrom;
      path, tempFilePath, fdOpen, numOfBytes := [], [], false, 0;
      ghost var p := if reqs == [] then [] else reqs[0].path;
      ghost var t := Leftover(files, p);  // contents of the temporary file
      ghost var goal := ReceivedAt(t, reqs, 0, 0);
      var i, done := 0, false;
      while i < |reqs| && !done
        invariant 0 <= i <= |reqs| && (fdOpen <==> i > 0) && numOfBytes >= 0
        invariant !fdOpen ==> numOfBytes == 0 && files == old(files) && path == [] && !done && t == Leftover(files, p)
        invariant fdOpen ==> path == reqs[i - 1].path && tempFilePath == Temp(p) && files == old(files)[Temp(p) := t]
        invariant fdOpen && !done ==> numOfBytes > 0 && Payload(reqs[0]) != []
        invariant if done then t == goal else ReceivedAt(t, reqs, i, numOfBytes as int) == goal
        invariant if done then i == 1 && numOfBytes == 0 && Payload(reqs[0]) == []
                  else numOfBytes as int + BytesFrom(reqs, i) == BytesFrom(reqs, 0)
        decreases |reqs| - i
      {
        TurnOfReceiving(t, reqs, i, numOfBytes as int);
        path := reqs[i].path;
        tempFilePath := StoreMessage(reqs[i], tempFilePath, numOfBytes);
        t := PWrite(t, reqs[i].offset, Payload(reqs[i]));
        fdOpen := true;
        numOfBytes := numOfBytes + |Payload(reqs[i])| as int32;
        done := numOfBytes == 0;  // the loop's break
        i := i + 1;
      }
      NothingReceived(t, reqs, numOfBytes as int);
    }

    /**
     * Receive, rename, count. The temporary file is opened without truncation, so what an
     * earlier upload left shows through. A call without messages counts an upload of no file.
     */
    method PutFileContents(reqs: seq<WriteRequest>) returns (clock: int, numBytes: int32)
      requires forall m | m in reqs :: m.size <= |m.buf|
      requires BytesFrom(reqs, 0) <= INT_MAX
      modifies this
      ensures serverclock == old(serverclock)[Target(reqs) := old(Clock(Target(reqs))) + 1] && clock == Clock(Target(reqs))
      ensures reqs == [] ==> files == old(files)
      ensures reqs != [] ==>
                var temp, contents := Temp(reqs[0].path), Received(Leftover(old(files), reqs[0].path), reqs, 0);
                files == Renamed(old(files)[temp := contents], temp, Target(reqs))
      ensures numBytes as int == if reqs == [] || Payload(reqs[0]) == [] then 0 else BytesFrom(reqs, 0)
    {
      if reqs != [] {
        ReceivedAtIs(Leftover(files, reqs[0].path), reqs, 0, 0);
      }
      assert reqs[0..] == reqs;
      hide Received, ReceivedAt, BytesFrom, Temp, Payload, Target;
      var path, tempFilePath, fdOpen, numOfBytes := ReceiveInto(reqs);
      if fdOpen {
        files := Renamed(files, tempFilePath, path);
      }
      serverclock := serverclock[path := Clock(path) + 1];
      return serverclock[path], numOfBytes;
    }
  }

  /** The client's messages all name one path. */
  lemma TargetOfRequests(path: Path, buf: Bytes)
    ensures Target(Requests(path, buf, 0)) == path && Requests(path, buf, 0)[0].path == path
  {
    var reqs := Requests(path, buf, 0);
    hide Requests;
    assert reqs[0] in reqs && reqs[|reqs| - 1] in reqs;
  }

  /** The first message of a non-empty buffer is not the empty one that would end the receive loop. */
  lemma RequestsStartNonEmpty(path: Path, buf: Bytes)
    requires buf != []
    ensures Payload(Requests(path, buf, 0)[0]) != []
  {}
}
