/**
 * The whole-file caching protocol for one path, at the granularity of its remote calls.
 *
 * Server and clients index all of their state by path, so the protocol of one path is a
 * state machine of its own: every handler acts on one path and leaves the others alone. An
 * upload is split where other clients can observe it: the server's rename (Swap), its clock
 * increment (Bump) and the client's update of its own entry (Done). Everything before the rename
 * happens in a temporary file; AtomicReplace.dfy shows that the rename then stores exactly the
 * client's copy as long as the server has not stopped in the middle of an upload, and Calls.dfy
 * that the handlers act as said here.
 */
module Protocol {
  import opened Bytes

  type ClientId = nat

  /** A `statusCache` tuple without the hash, which is a function of the path. */
  datatype Entry = Entry(dirty: bool, clock: int)

  /** Where a client stands in its current operation on the path. */
  datatype Phase =
    | Idle
    | Creating(snapshot: Entry)  // miss in create: createEmptyFile comes next
    | Opening(snapshot: Entry)   // miss: getFileContents comes next
    | Uploading                  // the server has renamed, not yet counted
    | Replied(clock: int)        // upload acknowledged, entry not yet updated
    | Unlinking                  // local copy deleted: removeFile comes next

  datatype Client = Client(entry: Option<Entry>, copy: Option<Bytes>, phase: Phase)

  /** `busy` is the client whose upload has been renamed into place but not yet counted. */
  datatype Server = Server(file: Option<Bytes>, clock: int, busy: Option<ClientId>)

  /**
   * History that no handler reads: the versions of the current incarnation of the file
   * (`versions[k]` is what the k-th upload stored), who uploaded each, from which version
   * each client's copy stems, and how often the file has been removed.
   */
  datatype Log = Log(versions: seq<Bytes>, authors: seq<ClientId>, base: map<ClientId, nat>, incarnation: nat)

  datatype State = State(server: Server, clients: map<ClientId, Client>, log: Log)

  datatype Action =
    | Attr(c: ClientId, create: bool)
    | CreateEmpty(c: ClientId)
    | Fetch(c: ClientId)
    | Write(c: ClientId, offset: nat, data: Bytes)
    | Swap(c: ClientId)
    | Bump(c: ClientId)
    | Done(c: ClientId)
    | CloseClean(c: ClientId)
    | CloseEmpty(c: ClientId, junk: int)
    | CloseFailed(c: ClientId, junk: int)
    | Unlink(c: ClientId)
    | Remove(c: ClientId)

  // ---------- What one call does to the client and to the server ----------

  /** The `Cache` constructor: the entry if there is one, otherwise clean with clock 0. */
  function Snapshot(cl: Client): Entry {
    if cl.entry.Some? then cl.entry.value else Entry(false, 0)
  }

  /** Whether open or create may use the local copy, given the server's answer. */
  predicate Hit(cl: Client, sv: Server) {
    sv.file.Some? && cl.entry.Some? && !(sv.clock > Snapshot(cl).clock)
  }

  function AttrStep(cl: Client, sv: Server, create: bool): Client {
    if Hit(cl, sv) then cl
    else cl.(phase := if create then Creating(Snapshot(cl)) else Opening(Snapshot(cl)))
  }

  /** `open(path, O_RDWR | O_CREAT)` on the server: an existing file is left as it is. */
  function CreateStep(sv: Server): Server {
    if sv.file.Some? then sv else sv.(file := Some([]))
  }

  /** Fetch and `commitFileCache`: the entry gets back the snapshot, its clock does not advance. */
  function FetchStep(cl: Client, sv: Server): Client
    requires cl.phase.Opening?
  {
    if sv.file.None? then cl.(phase := Idle)
    else Client(Some(cl.phase.snapshot), Some(CutAtNul(sv.file.value)), Idle)
  }

  function WriteStep(cl: Client, offset: nat, data: Bytes): Client
    requires cl.copy.Some?
  {
    Client(if cl.entry.Some? then Some(cl.entry.value.(dirty := true)) else None,
           Some(PWrite(cl.copy.value, offset, data)), cl.phase)
  }

  predicate Dirty(cl: Client) {
    cl.entry.Some? && cl.entry.value.dirty
  }

  /** `resetDirtyBit` and `syncClock(clock)`, which act only on an existing entry. */
  function SyncStep(cl: Client, clock: int): Client {
    Client(if cl.entry.Some? then Some(Entry(false, clock)) else None, cl.copy, Idle)
  }

  function UnlinkStep(cl: Client): Client {
    if cl.entry.Some? then Client(None, None, Unlinking) else cl.(phase := Unlinking)
  }

  // ---------- The state machine ----------

  predicate Enabled(s: State, a: Action) {
    a.c in s.clients &&
    var cl := s.clients[a.c];
    match a
    case Attr(_, _) => cl.phase.Idle?
    case CreateEmpty(_) => cl.phase.Creating?
    case Fetch(_) => cl.phase.Opening?
    case Write(_, _, _) => cl.phase.Idle? && cl.copy.Some?
    // uploads of one path do not overlap
    case Swap(_) => cl.phase.Idle? && Dirty(cl) && cl.copy.Some? && cl.copy.value != [] && s.server.busy.None?
    case Bump(_) => cl.phase.Uploading?
    case Done(_) => cl.phase.Replied?
    case CloseClean(_) => cl.phase.Idle? && !Dirty(cl)
    case CloseEmpty(_, _) => cl.phase.Idle? && Dirty(cl) && (cl.copy.None? || cl.copy.value == [])
    case CloseFailed(_, _) => cl.phase.Idle? && Dirty(cl) && cl.copy.Some? && cl.copy.value != []
    case Unlink(_) => cl.phase.Idle?
    case Remove(_) => cl.phase.Unlinking?
  }

  function SetClient(s: State, c: ClientId, cl: Client): State {
    s.(clients := s.clients[c := cl])
  }

  /** The next state. An action that is not enabled changes nothing. */
  function Apply(s: State, a: Action): State {
    if !Enabled(s, a) then s
    else
      var c, cl, sv, log := a.c, s.clients[a.c], s.server, s.log;
      match a
      case Attr(_, create) => SetClient(s, c, AttrStep(cl, sv, create))
      case CreateEmpty(_) =>
        State(CreateStep(sv), s.clients[c := cl.(phase := Opening(cl.phase.snapshot))],
              if sv.file.Some? then log else log.(versions := [[]]))
      case Fetch(_) =>
        SetClient(s, c, FetchStep(cl, sv)).(
        log := if sv.file.None? || log.versions == [] then log
               else log.(base := log.base[c := |log.versions| - 1]))
      case Write(_, offset, data) => SetClient(s, c, WriteStep(cl, offset, data))
      case Swap(_) =>
        State(sv.(file := cl.copy, busy := Some(c)), s.clients[c := cl.(phase := Uploading)],
              log.(versions := log.versions + [cl.copy.value], authors := log.authors + [c],
              base := log.base[c := |log.versions|]))
      case Bump(_) =>
        State(sv.(clock := sv.clock + 1, busy := None), s.clients[c := cl.(phase := Replied(sv.clock + 1))], log)
      case Done(_) => SetClient(s, c, SyncStep(cl, cl.phase.clock))
      case CloseClean(_) => s
      case CloseEmpty(_, junk) => SetClient(s, c, SyncStep(cl, junk))
      case CloseFailed(_, junk) => SetClient(s, c, SyncStep(cl, junk))
      case Unlink(_) => SetClient(s, c, UnlinkStep(cl))
      case Remove(_) =>
        State(Server(None, 0, sv.busy), s.clients[c := cl.(phase := Idle)],
              log.(versions := [], authors := [], incarnation := log.incarnation + 1))
  }

  // ---------- What whole calls do, in any state ----------

  /**
   * Open, from any state: nothing changes if the server has no file, or if there is an entry at
   * least as recent as the server's clock; otherwise the copy is fetched, and the entry keeps its
   * dirty bit and its clock, or starts clean with clock 0.
   */
  lemma OpenOutcome(s: State, c: ClientId)
    requires c in s.clients && s.clients[c].phase.Idle?
    ensures var cl, sv, t := s.clients[c], s.server, Apply(Apply(s, Attr(c, false)), Fetch(c));
            && t.server == sv
            && t.clients ==
               if sv.file.None? || (cl.entry.Some? && sv.clock <= cl.entry.value.clock) then s.clients
               else s.clients[c := Client(if cl.entry.Some? then cl.entry else Some(Entry(false, 0)),
                                          Some(CutAtNul(sv.file.value)), Idle)]
  {
    hide CutAtNul;
    assert s.clients == s.clients[c := s.clients[c]];
  }

  /** Create, from any state: the same, but a missing file is created empty first and then fetched. */
  lemma CreateOutcome(s: State, c: ClientId)
    requires c in s.clients && s.clients[c].phase.Idle?
    ensures var cl, sv := s.clients[c], s.server;
            var t := Apply(Apply(Apply(s, Attr(c, true)), CreateEmpty(c)), Fetch(c));
            && t.server == Server(if sv.file.None? then Some([]) else sv.file, sv.clock, sv.busy)
            && t.clients ==
               if sv.file.Some? && cl.entry.Some? && sv.clock <= cl.entry.value.clock then s.clients
               else s.clients[c := Client(if cl.entry.Some? then cl.entry else Some(Entry(false, 0)),
                                          Some(if sv.file.None? then [] else CutAtNul(sv.file.value)), Idle)]
  {
    assert CutAtNul([]) == [];
    hide CutAtNul;
    assert s.clients == s.clients[c := s.clients[c]];
  }

  /** Unlink, from any state: an entry goes together with the cached file; without an entry that file stays. */
  lemma UnlinkOutcome(s: State, c: ClientId)
    requires c in s.clients && s.clients[c].phase.Idle?
    ensures var cl, t := s.clients[c], Apply(Apply(s, Unlink(c)), Remove(c));
            && t.server == Server(None, 0, s.server.busy)
            && t.clients == s.clients[c := Client(None, if cl.entry.Some? then None else cl.copy, Idle)]
  {
  }

  /** Write, from any state with a file to write to: the bytes go to their place, an entry becomes dirty, none is made. */
  lemma WriteOutcome(s: State, c: ClientId, offset: nat, data: Bytes)
    requires c in s.clients && s.clients[c].phase.Idle? && s.clients[c].copy.Some?
    ensures var cl, t := s.clients[c], Apply(s, Write(c, offset, data));
            && t.server == s.server
            && t.clients == s.clients[c := Client(if cl.entry.Some? then Some(Entry(true, cl.entry.value.clock)) else None,
                                                  Some(PWrite(cl.copy.value, offset, data)), Idle)]
  {
    hide PWrite;
  }

  /** A close without upload, failed or of an empty file: the entry is clean, with whatever clock was left on the stack. */
  lemma CloseWithoutUploadOutcome(s: State, c: ClientId, junk: int, a: Action)
    requires a == CloseEmpty(c, junk) || a == CloseFailed(c, junk)
    requires Enabled(s, a)
    ensures var t := Apply(s, a);
            && t.server == s.server
            && t.clients == s.clients[c := Client(Some(Entry(false, junk)), s.clients[c].copy, Idle)]
  {
  }

  /** At start-up the server may already hold the file; no client has an entry, stale local files may exist. */
  predicate Init(s: State) {
    && s.server.clock == 0 && s.server.busy.None?
    && (forall c | c in s.clients :: s.clients[c].entry.None? && s.clients[c].phase.Idle?)
    && s.log.versions == (if s.server.file.Some? then [s.server.file.value] else [])
    && s.log.authors == []
    && s.log.base.Keys == s.clients.Keys
  }

  predicate NoEntries(s: State) {
    forall c | c in s.clients :: s.clients[c].entry.None?
  }

  /**
   * The hypotheses under which the code meets its intent: a dirty file is not empty when it is
   * closed, uploads succeed, and a file is removed only while no client holds an entry for it.
   */
  predicate Disciplined(s: State, a: Action) {
    && !a.CloseEmpty?
    && !a.CloseFailed?
    && (a.Remove? ==> NoEntries(s))
  }

  function Exec(s: State, acts: seq<Action>): State {
    if acts == [] then s else Apply(Exec(s, acts[..|acts| - 1]), acts[|acts| - 1])
  }

  /** Every action is one the code can take where it is taken. */
  predicate Possible(s: State, acts: seq<Action>) {
    acts == [] ||
    (var before := acts[..|acts| - 1];
     Possible(s, before) && Enabled(Exec(s, before), acts[|acts| - 1]))
  }

  lemma Snoc(s: State, acts: seq<Action>, a: Action)
    requires Possible(s, acts) && Enabled(Exec(s, acts), a)
    ensures Possible(s, acts + [a]) && Exec(s, acts + [a]) == Apply(Exec(s, acts), a)
  {
    assert (acts + [a])[..|acts|] == acts;
  }

  /** Every action of the run is enabled and disciplined where it is taken. */
  predicate Legal(s: State, acts: seq<Action>) {
    acts == [] ||
    (var before, a := acts[..|acts| - 1], acts[|acts| - 1];
     Legal(s, before) && Enabled(Exec(s, before), a) && Disciplined(Exec(s, before), a))
  }

  // ---------- The inductive invariant ----------

  /** The number of the last version uploaded by `c`, 0 if there is none. */
  function LastOwn(authors: seq<ClientId>, c: ClientId): (v: nat)
    ensures v <= |authors|
    ensures v > 0 ==> authors[v - 1] == c
    ensures forall i | v <= i < |authors| :: authors[i] != c
  {
    if authors == [] then 0
    else if authors[|authors| - 1] == c then |authors|
    else LastOwn(authors[..|authors| - 1], c)
  }

  /** What client `c` holds once it has version `v`: all of it if that is its own last upload, its cut if it was fetched. */
  function Held(log: Log, c: ClientId, v: nat): Bytes
    requires v < |log.versions|
  {
    if LastOwn(log.authors, c) == v > 0 then log.versions[v] else CutAtNul(log.versions[v])
  }

  predicate ServerOk(s: State) {
    var sv, log := s.server, s.log;
    && log.base.Keys == s.clients.Keys
    && (sv.file.None? ==> sv.clock == 0 && sv.busy.None? && log.versions == [] && log.authors == [])
    && (sv.file.Some? ==>
          && sv.clock >= 0
          && |log.versions| == sv.clock + 1 + (if sv.busy.Some? then 1 else 0)
          && |log.authors| == |log.versions| - 1
          && sv.file.value == log.versions[|log.versions| - 1])
    && (sv.busy.Some? ==> sv.busy.value in s.clients && s.clients[sv.busy.value].phase.Uploading?)
  }

  predicate EntryOk(s: State, c: ClientId)
    requires ServerOk(s) && c in s.clients && s.clients[c].entry.Some?
  {
    var cl, log, b := s.clients[c], s.log, s.log.base[c];
    var own := LastOwn(log.authors, c);
    && s.server.file.Some? && cl.copy.Some? && b < |log.versions|
    && 0 <= cl.entry.value.clock <= b
    && match cl.phase
       case Uploading => s.server.busy == Some(c) && 0 < b == own == |log.versions| - 1 && cl.copy.value == log.versions[b]
       case Replied(k) => 0 < b == own == k <= s.server.clock && cl.copy.value == log.versions[b]
       case Unlinking => false
       case _ =>
         && cl.entry.value.clock == own
         && (b > own > 0 ==> s.server.clock > own)  // a fetch over an own upload followed a counted one
         && (!cl.entry.value.dirty ==> cl.copy.value == Held(log, c, b))
  }

  predicate ClientOk(s: State, c: ClientId)
    requires ServerOk(s) && c in s.clients
  {
    var cl := s.clients[c];
    && (cl.phase.Opening? || cl.phase.Creating? ==>
          cl.phase.snapshot == Snapshot(cl) && (cl.entry.Some? ==> s.server.clock > cl.entry.value.clock))
    && (if cl.entry.Some? then EntryOk(s, c)
        else
          && !cl.phase.Uploading? && !cl.phase.Replied?
          && (!cl.phase.Unlinking? ==> LastOwn(s.log.authors, c) == 0))
  }

  predicate Inv(s: State) {
    ServerOk(s) && forall c | c in s.clients :: ClientOk(s, c)
  }

  lemma InitInv(s: State)
    requires Init(s)
    ensures Inv(s)
  {}

  lemma LastOwnAppend(authors: seq<ClientId>, a: ClientId, c: ClientId)
    ensures LastOwn(authors + [a], c) == if a == c then |authors| + 1 else LastOwn(authors, c)
  {
    assert (authors + [a])[..|authors|] == authors;
  }

  lemma SwapInv(s: State, a: Action)
    requires Inv(s) && a.Swap? && Enabled(s, a)
    ensures Inv(Apply(s, a))
  {
    hide CutAtNul, LastOwn;
    var t := Apply(s, a);
    assert ClientOk(s, a.c);
    LastOwnAppend(s.log.authors, a.c, a.c);
    forall c | c in t.clients && c != a.c ensures ClientOk(t, c) {
      assert ClientOk(s, c);
      LastOwnAppend(s.log.authors, a.c, c);
    }
  }

  lemma BumpInv(s: State, a: Action)
    requires Inv(s) && a.Bump? && Enabled(s, a)
    ensures Inv(Apply(s, a))
  {
    hide CutAtNul, LastOwn;
    var t := Apply(s, a);
    assert ClientOk(s, a.c);
    forall c | c in t.clients ensures ClientOk(t, c) {
      assert ClientOk(s, c);
    }
  }

  /** The fetching client's part: its base moves behind its own last upload, its copy is the cut. */
  lemma FetcherOk(s: State, a: Action)
    requires Inv(s) && a.Fetch? && Enabled(s, a)
    ensures ServerOk(Apply(s, a)) && ClientOk(Apply(s, a), a.c)
  {
    hide CutAtNul, LastOwn;
    assert ClientOk(s, a.c);
  }

  lemma FetchInv(s: State, a: Action)
    requires Inv(s) && a.Fetch? && Enabled(s, a)
    ensures Inv(Apply(s, a))
  {
    FetcherOk(s, a);
    hide CutAtNul, LastOwn;
    var t := Apply(s, a);
    forall c | c in t.clients && c != a.c ensures ClientOk(t, c) {
      assert ClientOk(s, c) && t.clients[c] == s.clients[c] && t.log.base[c] == s.log.base[c];
    }
  }

  lemma RemoveInv(s: State, a: Action)
    requires Inv(s) && a.Remove? && Enabled(s, a) && Disciplined(s, a)
    ensures Inv(Apply(s, a))
  {
    hide CutAtNul, LastOwn;
    var t := Apply(s, a);
    forall c | c in s.clients ensures ClientOk(s, c) && !s.clients[c].phase.Uploading? {}
    forall c | c in t.clients ensures ClientOk(t, c) {
      assert ClientOk(s, c);
    }
  }

  lemma CreateInv(s: State, a: Action)
    requires Inv(s) && a.CreateEmpty? && Enabled(s, a)
    ensures Inv(Apply(s, a))
  {
    hide CutAtNul, LastOwn;
    var t := Apply(s, a);
    assert ClientOk(s, a.c);
    forall c | c in t.clients ensures ClientOk(t, c) {
      assert ClientOk(s, c);
    }
  }

  /** A step that only changes client `c` keeps the invariant if it keeps that client's part. */
  lemma OwnStepInv(s: State, t: State, c: ClientId)
    requires Inv(s) && c in s.clients
    requires c in t.clients && t.server == s.server && t.log == s.log && t.clients == s.clients[c := t.clients[c]]
    requires s.server.busy == Some(c) ==> t.clients[c].phase.Uploading?
    requires ClientOk(t, c)
    ensures Inv(t)
  {
    hide CutAtNul, LastOwn;
    forall d | d in t.clients ensures ClientOk(t, d) {
      assert ClientOk(s, d);
      if d != c {
        assert t.clients[d] == s.clients[d];
      }
    }
  }

  lemma AttrOk(s: State, a: Action)
    requires Inv(s) && Enabled(s, a) && a.Attr?
    ensures ServerOk(Apply(s, a)) && ClientOk(Apply(s, a), a.c)
  {
    hide CutAtNul, LastOwn;
    assert ClientOk(s, a.c);
  }

  lemma WriteOk(s: State, a: Action)
    requires Inv(s) && Enabled(s, a) && a.Write?
    ensures ServerOk(Apply(s, a)) && ClientOk(Apply(s, a), a.c)
  {
    hide CutAtNul, LastOwn, PWrite;
    assert ClientOk(s, a.c);
  }

  lemma DoneOk(s: State, a: Action)
    requires Inv(s) && Enabled(s, a) && (a.Done? || a.CloseClean?)
    ensures ServerOk(Apply(s, a)) && ClientOk(Apply(s, a), a.c)
  {
    hide CutAtNul, LastOwn;
    assert ClientOk(s, a.c);
  }

  lemma UnlinkOk(s: State, a: Action)
    requires Inv(s) && Enabled(s, a) && a.Unlink?
    ensures ServerOk(Apply(s, a)) && ClientOk(Apply(s, a), a.c)
  {
    hide CutAtNul, LastOwn;
    assert ClientOk(s, a.c);
  }

  lemma LocalInv(s: State, a: Action)
    requires Inv(s) && Enabled(s, a)
    requires a.Attr? || a.Write? || a.Done? || a.CloseClean? || a.Unlink?
    ensures Inv(Apply(s, a))
  {
    hide Inv, EntryOk, PWrite;
    if a.Attr? {
      AttrOk(s, a);
    } else if a.Write? {
      WriteOk(s, a);
    } else if a.Unlink? {
      UnlinkOk(s, a);
    } else {
      DoneOk(s, a);
    }
    BusyIsUploading(s);
    OwnStepInv(s, Apply(s, a), a.c);
  }

  lemma BusyIsUploading(s: State)
    requires Inv(s)
    ensures s.server.busy.Some? ==> s.server.busy.value in s.clients && s.clients[s.server.busy.value].phase.Uploading?
  {}

  /** Every disciplined step keeps the invariant. */
  lemma StepInv(s: State, a: Action)
    requires Inv(s) && Enabled(s, a) && Disciplined(s, a)
    ensures Inv(Apply(s, a))
  {
    match a
    case Swap(_) => SwapInv(s, a);
    case Bump(_) => BumpInv(s, a);
    case Fetch(_) => FetchInv(s, a);
    case Remove(_) => RemoveInv(s, a);
    case CreateEmpty(_) => CreateInv(s, a);
    case _ => LocalInv(s, a);
  }

  /** The invariant holds in every reachable state, over any number of clients and removals. */
  lemma {:induction false} ReachableInv(s: State, acts: seq<Action>)
    requires Inv(s) && Legal(s, acts)
    ensures Inv(Exec(s, acts))
    decreases |acts|
  {
    if acts != [] {
      var before := acts[..|acts| - 1];
      ReachableInv(s, before);
      StepInv(Exec(s, before), acts[|acts| - 1]);
    }
  }
}
