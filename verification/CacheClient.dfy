/**
 * The client machine: its status cache, its cached files, the `Cache` object that every handler
 * builds, and the handlers. Each handler's contract gives the new state of its path through the
 * step functions of the protocol, and says that every other path keeps its state.
 */
module CacheClient {
  import opened Bytes
  import opened Transfer
  import opened GrpcServer
  import opened AtomicReplace
  import Protocol

  /** The name of a cached file: a hash of the path, taken to be free of collisions. */
  datatype FileName = Hashed(path: Path)

  datatype Tuple = Tuple(hash: FileName, dirtyBit: int, clock: int)

  const ENOENT: int := 2

  /** A client machine's state as a value. */
  datatype Local = Local(statusCache: map<Path, Tuple>, root: map<FileName, Bytes>)

  /** The protocol's view of one path, between calls. */
  function ClientView(l: Local, p: Path): Protocol.Client {
    Protocol.Client(
      if p in l.statusCache then Some(Protocol.Entry(l.statusCache[p].dirtyBit != 0, l.statusCache[p].clock)) else None,
      if Hashed(p) in l.root then Some(l.root[Hashed(p)]) else None,
      Protocol.Idle)
  }

  class Machine {
    var statusCache: map<Path, Tuple>
    var root: map<FileName, Bytes>

    constructor ()
      ensures statusCache == map[] && root == map[]
    {
      statusCache, root := map[], map[];
    }

    function State(): Local
      reads this
    {
      Local(statusCache, root)
    }

    function View(p: Path): Protocol.Client
      reads this
    {
      ClientView(State(), p)
    }
  }

  class Cache {
    const machine: Machine
    const relativePath: Path
    const hash: FileName
    var dirtyBit: int
    var clock: int

    constructor (machine: Machine, relativePath: Path)
      ensures this.machine == machine && this.relativePath == relativePath && hash == Hashed(relativePath)
      ensures AsEntry() == Protocol.Snapshot(machine.View(relativePath))
    {
      this.machine := machine;
      this.relativePath := relativePath;
      this.hash := Hashed(relativePath);
      if relativePath in machine.statusCache {
        dirtyBit := machine.statusCache[relativePath].dirtyBit;
        clock := machine.statusCache[relativePath].clock;
      } else {
        dirtyBit, clock := 0, 0;
      }
    }

    function AsEntry(): Protocol.Entry
      reads this
    {
      Protocol.Entry(dirtyBit != 0, clock)
    }

    predicate IsCacheValid(serverClock: int)
      reads this
    {
      !(serverClock > clock)
    }

    predicate IsCacheEntry()
      reads machine
    {
      relativePath in machine.statusCache
    }

    predicate IsDirty()
      reads this
    {
      dirtyBit != 0
    }

    /** Writes the object's fields back, but only over an existing entry. */
    method UpdateCache()
      modifies machine`statusCache
      ensures machine.statusCache ==
              if old(IsCacheEntry()) then old(machine.statusCache)[relativePath := Tuple(hash, dirtyBit, clock)]
              else old(machine.statusCache)
    {
      if relativePath in machine.statusCache {
        machine.statusCache := machine.statusCache[relativePath := Tuple(hash, dirtyBit, clock)];
      }
    }

    method SetDirtyBit()
      modifies this`dirtyBit, machine`statusCache
      ensures dirtyBit == 1
      ensures machine.statusCache ==
              if old(IsCacheEntry()) then old(machine.statusCache)[relativePath := Tuple(hash, 1, clock)]
              else old(machine.statusCache)
    {
      dirtyBit := 1;
      UpdateCache();
    }

    method ResetDirtyBit()
      modifies this`dirtyBit, machine`statusCache
      ensures dirtyBit == 0
      ensures machine.statusCache ==
              if old(IsCacheEntry()) then old(machine.statusCache)[relativePath := Tuple(hash, 0, clock)]
              else old(machine.statusCache)
    {
      dirtyBit := 0;
      UpdateCache();
    }

    method SyncClock(time: int)
      modifies this`clock, machine`statusCache
      ensures clock == time
      ensures machine.statusCache ==
              if old(IsCacheEntry()) then old(machine.statusCache)[relativePath := Tuple(hash, dirtyBit, time)]
              else old(machine.statusCache)
    {
      clock := time;
      UpdateCache();
    }

    /** Truncates and rewrites the cached file with `fputs`, then stores the object's own dirty bit and clock. */
    method CommitFileCache(buf: Bytes)
      modifies machine
      ensures machine.root == old(machine.root)[hash := CutAtNul(buf)]
      ensures machine.statusCache == old(machine.statusCache)[relativePath := Tuple(hash, dirtyBit, clock)]
    {
      machine.root := machine.root[hash := []];
      if |buf| != 0 {
        machine.root := machine.root[hash := CutAtNul(buf)];
      }
      machine.statusCache := machine.statusCache[relativePath := Tuple(hash, dirtyBit, clock)];
    }

    /** Deletes the cached file, then the entry; a missing file is an error and keeps the entry. */
    method DeleteEntry() returns (ret: int)
      modifies machine
      ensures ret == if hash in old(machine.root) then 0 else -ENOENT
      ensures ret == 0 ==> machine.root == old(machine.root) - {hash}
                           && machine.statusCache == old(machine.statusCache) - {relativePath}
      ensures ret != 0 ==> machine.root == old(machine.root) && machine.statusCache == old(machine.statusCache)
    {
      if hash !in machine.root {
        return -ENOENT;
      }
      machine.root := machine.root - {hash};
      machine.statusCache := machine.statusCache - {relativePath};
      return 0;
    }
  }

  // ---------- What a whole call does, if nothing else happens meanwhile ----------

  function OpenEffect(cl: Protocol.Client, sv: Protocol.Server): Protocol.Client {
    var asked := Protocol.AttrStep(cl, sv, false);
    if asked.phase.Opening? then Protocol.FetchStep(asked, sv) else asked
  }

  function CreateEffect(cl: Protocol.Client, sv: Protocol.Server): (Protocol.Client, Protocol.Server) {
    var asked := Protocol.AttrStep(cl, sv, true);
    if asked.phase.Creating? then
      var created := Protocol.CreateStep(sv);
      (Protocol.FetchStep(asked.(phase := Protocol.Opening(asked.phase.snapshot)), created), created)
    else (asked, sv)
  }

  // ---------- The handlers ----------

  /** The client side of a fetch, up to the reassembled contents. */
  method FetchContents(srv: Server, path: Path) returns (buf: Bytes, ret: int)
    requires path in srv.files ==> |srv.files[path]| <= SIZE_LIMIT
    ensures ret == if srv.View(path).file.Some? then 0 else -1
    ensures ret == 0 ==> Some(buf) == srv.View(path).file
  {
    var replies := srv.GetFileContents(path);
    var n;
    buf, ret, n := Reassemble(replies);
    if path in srv.files {
      DownloadExact(srv.files[path]);
    }
    assert forall r | r in replies :: r.numBytes >= 0;
    assert n == |replies| && replies[..n] == replies;
  }

  method Open(m: Machine, srv: Server, path: Path) returns (ret: int)
    requires path in srv.files ==> |srv.files[path]| <= SIZE_LIMIT
    modifies m, srv`serverclock
    ensures forall p :: srv.View(p) == old(srv.View(p))
    ensures forall p | p != path :: m.View(p) == old(m.View(p))
    ensures m.View(path) == OpenEffect(old(m.View(path)), old(srv.View(path)))
    ensures var cl, sv := old(m.View(path)), old(srv.View(path));
            m.View(path) ==
            if sv.file.None? || (cl.entry.Some? && sv.clock <= cl.entry.value.clock) then cl
            else Protocol.Client(if cl.entry.Some? then cl.entry else Some(Protocol.Entry(false, 0)),
                                 Some(CutAtNul(sv.file.value)), Protocol.Idle)
    ensures ret == if !old(Protocol.Hit(m.View(path), srv.View(path))) && old(srv.View(path)).file.None? then -1
                   else if m.View(path).copy.None? then -ENOENT else 0
  {
    hide CutAtNul;
    var c := new Cache(m, path);
    var status, clock := srv.GetFileAttributes(path);
    if !(status == 0 && c.IsCacheEntry() && c.IsCacheValid(clock)) {
      var buf;
      buf, ret := FetchContents(srv, path);
      if ret != 0 {
        return ret;
      }
      c.CommitFileCache(buf);
    }
    ret := if c.hash in m.root then 0 else -ENOENT;
  }

  method Create(m: Machine, srv: Server, path: Path) returns (ret: int)
    requires path in srv.files ==> |srv.files[path]| <= SIZE_LIMIT
    modifies m, srv
    ensures forall p | p != path :: m.View(p) == old(m.View(p)) && srv.View(p) == old(srv.View(p))
    ensures (m.View(path), srv.View(path)) == CreateEffect(old(m.View(path)), old(srv.View(path)))
    ensures var cl, sv := old(m.View(path)), old(srv.View(path));
            && srv.View(path) == sv.(file := if sv.file.None? then Some([]) else sv.file)
            && m.View(path) ==
               if sv.file.Some? && cl.entry.Some? && sv.clock <= cl.entry.value.clock then cl
               else Protocol.Client(if cl.entry.Some? then cl.entry else Some(Protocol.Entry(false, 0)),
                                    Some(if sv.file.None? then [] else CutAtNul(sv.file.value)), Protocol.Idle)
    ensures ret == if m.View(path).copy.None? then -ENOENT else 0
  {
    hide CutAtNul;
    var c := new Cache(m, path);
    var status, clock := srv.GetFileAttributes(path);
    if !(status == 0 && c.IsCacheEntry() && c.IsCacheValid(clock)) {
      ret := srv.CreateEmptyFile(path);
      if ret != 0 {
        return ret;
      }
      assert srv.View(path).file.Some?;
      var buf;
      buf, ret := FetchContents(srv, path);
      if ret != 0 {
        return ret;
      }
      c.CommitFileCache(buf);
    }
    ret := if c.hash in m.root then 0 else -ENOENT;
  }

  /** A write through an open handle on the cached file. */
  method Write(m: Machine, path: Path, data: Bytes, offset: nat) returns (ret: int)
    requires Hashed(path) in m.root
    modifies m
    ensures forall p | p != path :: m.View(p) == old(m.View(p))
    ensures m.View(path) == Protocol.WriteStep(old(m.View(path)), offset, data)
    ensures var cl := old(m.View(path));
            m.View(path) == cl.(copy := Some(PWrite(cl.copy.value, offset, data)),
                                entry := if cl.entry.Some? then Some(cl.entry.value.(dirty := true)) else None)
    ensures ret == |data|
  {
    var c := new Cache(m, path);
    m.root := m.root[c.hash := PWrite(m.root[c.hash], offset, data)];
    ret := |data|;
    if !c.IsDirty() {
      c.SetDirtyBit();
    }
  }

  /** What a close leaves on the client, given what was in the uninitialised clock variable. */
  function ClosedClient(cl: Protocol.Client, sv: Protocol.Server, junk: int): Protocol.Client {
    if !Protocol.Dirty(cl) then cl
    else if cl.copy.Some? && cl.copy.value != [] then Protocol.SyncStep(cl, sv.clock + 1)
    else Protocol.SyncStep(cl, junk)
  }

  /** What a close leaves on the server: the whole local copy, over what an earlier upload left behind. */
  function ClosedServer(cl: Protocol.Client, sv: Protocol.Server, leftover: Bytes): Protocol.Server {
    if Protocol.Dirty(cl) && cl.copy.Some? && cl.copy.value != [] then
      Protocol.Server(Some(Overlay(cl.copy.value, leftover)), sv.clock + 1, None)
    else sv
  }

  /** Send the cached file in chunks and return the clock of the reply. */
  method Upload(srv: Server, path: Path, buf: Bytes) returns (clock: int, numBytes: int32)
    requires 0 < |buf| < SIZE_LIMIT
    modifies srv
    ensures srv.files == old(srv.files)[path := Overlay(buf, Leftover(old(srv.files), path))] - {Temp(path)}
    ensures srv.serverclock == old(srv.serverclock)[path := old(srv.Clock(path)) + 1]
    ensures clock == old(srv.Clock(path)) + 1 && numBytes as int == |buf|
  {
    UploadInRangeIff(|buf|);
    var sent := SplitUpload(path, buf, |buf| as int32, 0);
    UploadExact(Leftover(srv.files, path), path, buf);
    RequestsCarryAll(path, buf, 0);
    TargetOfRequests(path, buf);
    RequestsStartNonEmpty(path, buf);
    TempDiffers(path);
    hide Requests, Received, Overlay, BytesFrom, Target;
    clock, numBytes := srv.PutFileContents(sent);
  }

  lemma TempDiffers(path: Path)
    ensures Temp(path) != path
  {
    assert |Temp(path)| == |path| + 4;
  }

  /** Flush; release differs only in which descriptor it closes. `junk` is the uninitialised clock. */
  method Flush(m: Machine, srv: Server, path: Path, junk: int) returns (ret: int)
    requires Hashed(path) in m.root ==> |m.root[Hashed(path)]| < SIZE_LIMIT
    modifies m, srv
    ensures ret == 0
    ensures forall p | p != path :: m.View(p) == old(m.View(p))
    ensures m.View(path) == ClosedClient(old(m.View(path)), old(srv.View(path)), junk)
    ensures srv.View(path) == ClosedServer(old(m.View(path)), old(srv.View(path)), Leftover(old(srv.files), path))
    ensures var cl, sv := old(m.View(path)), old(srv.View(path));
            if cl.entry.None? || !cl.entry.value.dirty then m.View(path) == cl && srv.View(path) == sv
            else if cl.copy.Some? && cl.copy.value != [] then
              && m.View(path) == cl.(entry := Some(Protocol.Entry(false, sv.clock + 1)))
              && srv.View(path).file == Some(Overlay(cl.copy.value, Leftover(old(srv.files), path)))
              && srv.View(path).clock == sv.clock + 1
            else m.View(path) == cl.(entry := Some(Protocol.Entry(false, junk))) && srv.View(path) == sv
    ensures forall p | p != path && p != Temp(path) :: srv.View(p) == old(srv.View(p))
    ensures srv.View(path) != old(srv.View(path)) ==> Temp(path) !in srv.files
    ensures srv.View(path) == old(srv.View(path)) ==> srv.files == old(srv.files)
    ensures Temp(path) in srv.files ==> Temp(path) in old(srv.files)
  {
    hide Overlay, Temp, Leftover;
    var c := new Cache(m, path);
    ret := 0;
    if !c.IsDirty() {
      return;
    }
    var logicalClock := junk;
    var buf := if c.hash in m.root then m.root[c.hash] else [];
    if |buf| > 0 {
      TempDiffers(path);
      var numOfBytes;
      logicalClock, numOfBytes := Upload(srv, path, buf);
    }
    c.ResetDirtyBit();
    c.SyncClock(logicalClock);
  }

  /**
   * Closing a file, as FUSE does it: flush, then release. The upload happens at most once; a
   * dirty, non-empty file is then on the server, counted once, and the entry is clean and current.
   */
  method Close(m: Machine, srv: Server, path: Path, junk: int, junk': int)
    requires Hashed(path) in m.root ==> |m.root[Hashed(path)]| < SIZE_LIMIT
    modifies m, srv
    ensures forall p | p != path :: m.View(p) == old(m.View(p))
    ensures forall p | p != path && p != Temp(path) :: srv.View(p) == old(srv.View(p))
    ensures m.View(path) == ClosedClient(old(m.View(path)), old(srv.View(path)), junk)
    ensures srv.View(path) == ClosedServer(old(m.View(path)), old(srv.View(path)), Leftover(old(srv.files), path))
    ensures !Protocol.Dirty(m.View(path))
    ensures var cl := old(m.View(path));
            Protocol.Dirty(cl) && cl.copy.Some? && cl.copy.value != [] ==>
              && srv.Clock(path) == old(srv.Clock(path)) + 1
              && m.View(path).entry == Some(Protocol.Entry(false, srv.Clock(path)))
              && (|Leftover(old(srv.files), path)| <= |cl.copy.value| ==> srv.View(path).file == m.View(path).copy)
  {
    var _ := Flush(m, srv, path, junk);
    var _ := Flush(m, srv, path, junk');  // release
  }

  method Unlink(m: Machine, srv: Server, path: Path) returns (ret: int)
    modifies m, srv
    ensures forall p | p != path :: m.View(p) == old(m.View(p)) && srv.View(p) == old(srv.View(p))
    ensures var cl := old(m.View(path));
            if cl.entry.Some? && cl.copy.None? then
              ret == -ENOENT && m.View(path) == cl && srv.View(path) == old(srv.View(path))
            else
              && m.View(path) == Protocol.UnlinkStep(cl).(phase := Protocol.Idle)
              && m.View(path).entry.None? && m.View(path).copy == (if cl.entry.Some? then None else cl.copy)
              && srv.View(path) == Protocol.Server(None, 0, None)
              && ret == 0
  {
    var c := new Cache(m, path);
    if c.IsCacheEntry() {
      ret := c.DeleteEntry();
      if ret != 0 {
        return -ENOENT;
      }
    }
    var status, erronum := srv.RemoveFile(path);
    ret := if status != 0 then erronum else 0;  // a missing file is no error
  }
}
