/**
 * The handlers of all clients against one server, one call after the other. No call leaves a
 * temporary file behind, so an upload stores exactly the client's copy, and on every path the
 * calls are a run of the protocol: what Runs.dfy and Sessions.dfy prove holds of the handlers.
 */
module Calls {
  import opened Bytes
  import opened Protocol
  import opened Sessions
  import opened Transfer
  import opened GrpcServer
  import opened CacheClient
  import AtomicReplace

  /** A call by client `c` on path `p`, as FUSE passes it to a handler; release is a second flush. */
  datatype FuseCall =
    | OpenCall(c: ClientId, p: Path)
    | CreateCall(c: ClientId, p: Path)
    | WriteCall(c: ClientId, p: Path, offset: nat, data: Bytes)
    | FlushCall(c: ClientId, p: Path, junk: int)
    | UnlinkCall(c: ClientId, p: Path)

  datatype World = World(store: Store, locals: map<ClientId, Local>)

  // ---------- What a call does to its path ----------

  predicate HasContents(cl: Client) {
    cl.copy.Some? && cl.copy.value != []
  }

  /** The local delete fails: there is an entry but no file. */
  predicate CannotUnlink(cl: Client) {
    cl.entry.Some? && cl.copy.None?
  }

  function Effect(call: FuseCall, cl: Client, sv: Protocol.Server, leftover: Bytes): (Client, Protocol.Server) {
    match call
    case OpenCall(_, _) => (OpenEffect(cl, sv), sv)
    case CreateCall(_, _) => CreateEffect(cl, sv)
    case WriteCall(_, _, offset, data) => if cl.copy.Some? then (WriteStep(cl, offset, data), sv) else (cl, sv)
    case FlushCall(_, _, junk) => (ClosedClient(cl, sv, junk), ClosedServer(cl, sv, leftover))
    case UnlinkCall(_, _) =>
      if CannotUnlink(cl) then (cl, sv) else (UnlinkStep(cl).(phase := Idle), Protocol.Server(None, 0, None))
  }

  /** What the handler relies on: writes go through an open handle, and no counter of a transfer overflows. */
  predicate Feasible(call: FuseCall, cl: Client, sv: Protocol.Server) {
    match call
    case WriteCall(_, _, _, _) => cl.copy.Some?
    case FlushCall(_, _, _) => cl.copy.Some? ==> |cl.copy.value| < SIZE_LIMIT
    case UnlinkCall(_, _) => true
    case _ => sv.file.Some? ==> |sv.file.value| <= SIZE_LIMIT
  }

  /** One call, as the handlers' contracts give it. */
  ghost predicate Step(w: World, call: FuseCall, w': World) {
    && call.c in w.locals && w'.locals.Keys == w.locals.Keys
    && (forall d | d in w.locals && d != call.c :: w'.locals[d] == w.locals[d])
    && (forall q | q != call.p :: ClientView(w'.locals[call.c], q) == ClientView(w.locals[call.c], q))
    && (forall q | q != call.p && q != AtomicReplace.Temp(call.p) :: ServerView(w'.store, q) == ServerView(w.store, q))
    && (AtomicReplace.Temp(call.p) in w'.store.files ==> AtomicReplace.Temp(call.p) in w.store.files)
    && (ClientView(w'.locals[call.c], call.p), ServerView(w'.store, call.p)) ==
       Effect(call, ClientView(w.locals[call.c], call.p), ServerView(w.store, call.p),
              AtomicReplace.Leftover(w.store.files, call.p))
  }

  ghost function WorldOf(ms: map<ClientId, Machine>, srv: GrpcServer.Server): World
    reads ms.Values, srv
  {
    World(srv.State(), map c | c in ms :: ms[c].State())
  }

  /** FUSE's dispatch to the handlers of one client. */
  method Dispatch(m: Machine, srv: GrpcServer.Server, call: FuseCall)
    requires Feasible(call, m.View(call.p), srv.View(call.p))
    modifies m, srv
    ensures forall q | q != call.p :: m.View(q) == old(m.View(q))
    ensures forall q | q != call.p && q != AtomicReplace.Temp(call.p) :: srv.View(q) == old(srv.View(q))
    ensures AtomicReplace.Temp(call.p) in srv.files ==> AtomicReplace.Temp(call.p) in old(srv.files)
    ensures (m.View(call.p), srv.View(call.p)) ==
            Effect(call, old(m.View(call.p)), old(srv.View(call.p)), AtomicReplace.Leftover(old(srv.files), call.p))
  {
    hide PWrite, CutAtNul, Overlay, OpenEffect, CreateEffect, ClosedClient, ClosedServer, WriteStep;
    TempDiffers(call.p);
    ghost var tmp := srv.View(AtomicReplace.Temp(call.p)).file;
    match call {
      case OpenCall(_, p) =>
        var _ := Open(m, srv, p);
        assert srv.View(AtomicReplace.Temp(p)).file == tmp;
      case CreateCall(_, p) =>
        var _ := Create(m, srv, p);
        assert srv.View(AtomicReplace.Temp(p)).file == tmp;
      case WriteCall(_, p, offset, data) =>
        var _ := CacheClient.Write(m, p, data, offset);
      case FlushCall(_, p, junk) =>
        var _ := Flush(m, srv, p, junk);
      case UnlinkCall(_, p) =>
        var _ := CacheClient.Unlink(m, srv, p);
        assert srv.View(AtomicReplace.Temp(p)).file == tmp;
    }
  }

  /** Every call takes the world of all clients one step. */
  method Perform(ms: map<ClientId, Machine>, srv: GrpcServer.Server, call: FuseCall)
    requires call.c in ms && forall c, d | c in ms && d in ms && c != d :: ms[c] != ms[d]
    requires Feasible(call, ms[call.c].View(call.p), srv.View(call.p))
    modifies ms[call.c], srv
    ensures Step(old(WorldOf(ms, srv)), call, WorldOf(ms, srv))
  {
    hide Effect, Feasible, ClientView, ServerView, AtomicReplace.Leftover;
    var m := ms[call.c];
    ghost var w := WorldOf(ms, srv);
    Dispatch(m, srv, call);
    ghost var w' := WorldOf(ms, srv);
    assert forall d | d in ms && d != call.c :: w'.locals[d] == w.locals[d];
    forall q | q != call.p ensures ClientView(w'.locals[call.c], q) == ClientView(w.locals[call.c], q) {
      assert m.View(q) == old(m.View(q));
    }
    forall q | q != call.p && q != AtomicReplace.Temp(call.p) ensures ServerView(w'.store, q) == ServerView(w.store, q) {
      assert srv.View(q) == old(srv.View(q));
    }
  }

  // ---------- No temporary file between calls ----------

  /** The path is not the temporary file of another. */
  ghost predicate Plain(p: Path) {
    forall q :: p != AtomicReplace.Temp(q)
  }

  ghost predicate NoTemps(w: World) {
    forall q :: AtomicReplace.Temp(q) !in w.store.files
  }

  /** The worlds that a sequence of calls on plain paths goes through. */
  ghost predicate Trace(ws: seq<World>, calls: seq<FuseCall>) {
    && |ws| == |calls| + 1
    && forall i | 0 <= i < |calls| :: StepAt(ws, calls, i)
  }

  ghost predicate StepAt(ws: seq<World>, calls: seq<FuseCall>, i: nat)
    requires i < |calls| < |ws|
  {
    var w, call := ws[i], calls[i];
    && Plain(call.p) && Step(w, call, ws[i + 1])
    && Feasible(call, ClientView(w.locals[call.c], call.p), ServerView(w.store, call.p))
  }

  lemma TraceBefore(ws: seq<World>, calls: seq<FuseCall>)
    requires Trace(ws, calls) && calls != []
    ensures Trace(ws[..|calls|], calls[..|calls| - 1])
    ensures StepAt(ws, calls, |calls| - 1)
  {
    var ws', calls' := ws[..|calls|], calls[..|calls| - 1];
    forall i | 0 <= i < |calls'| ensures StepAt(ws', calls', i) {
      assert StepAt(ws, calls, i);
    }
  }

  lemma NoTempsStep(w: World, call: FuseCall, w': World)
    requires Step(w, call, w') && NoTemps(w) && Plain(call.p)
    ensures NoTemps(w')
  {
    hide Effect;
    forall q ensures AtomicReplace.Temp(q) !in w'.store.files {
      var tmp := AtomicReplace.Temp(q);
      if tmp != AtomicReplace.Temp(call.p) {
        assert ServerView(w'.store, tmp) == ServerView(w.store, tmp);
      }
    }
  }

  /** Over any sequence of calls there is no temporary file between two of them. */
  lemma {:induction false} NoTempsBetweenCalls(ws: seq<World>, calls: seq<FuseCall>)
    requires Trace(ws, calls) && NoTemps(ws[0])
    ensures NoTemps(ws[|calls|])
    decreases |calls|
  {
    hide Step, NoTemps, Plain;
    if calls != [] {
      var n := |calls| - 1;
      TraceBefore(ws, calls);
      NoTempsBetweenCalls(ws[..|calls|], calls[..n]);
      NoTempsStep(ws[n], calls[n], ws[n + 1]);
    }
  }

  // ---------- Calls are runs of the protocol ----------

  /** The protocol's actions that the handler goes through, from the state it finds. */
  function ActsOf(call: FuseCall, s: State): seq<Action>
    requires call.c in s.clients
  {
    var c, cl := call.c, s.clients[call.c];
    match call
    case OpenCall(_, _) => OpenActs(s, c, false)
    case CreateCall(_, _) => OpenActs(s, c, true)
    case WriteCall(_, _, offset, data) => [Action.Write(c, offset, data)]
    case FlushCall(_, _, junk) =>
      if !Dirty(cl) then [CloseClean(c)]
      else if HasContents(cl) then [Swap(c), Bump(c), Done(c)]
      else [CloseEmpty(c, junk)]
    case UnlinkCall(_, _) => if CannotUnlink(cl) then [] else [Action.Unlink(c), Remove(c)]
  }

  /** The hypotheses of Protocol.Disciplined, for a whole call. */
  predicate Harmless(call: FuseCall, s: State) {
    match call
    case FlushCall(c, _, _) => c in s.clients && Dirty(s.clients[c]) ==> HasContents(s.clients[c])
    case UnlinkCall(c, _) => forall d | d in s.clients && d != c :: s.clients[d].entry.None?
    case _ => true
  }

  /** Between calls: nobody is in the middle of one. */
  predicate Resting(s: State) {
    s.server.busy.None? && forall c | c in s.clients :: s.clients[c].phase.Idle?
  }

  /** From `s`, the actions lead to the client state `cl` and the server state `sv`, everybody else keeping theirs. */
  predicate Leads(s: State, acts: seq<Action>, c: ClientId, cl: Client, sv: Protocol.Server, legal: bool) {
    var t := Exec(s, acts);
    && Possible(s, acts) && (legal ==> Legal(s, acts))
    && t.server == sv && t.clients == s.clients[c := cl]
  }

  lemma LeadsOne(s: State, a: Action, c: ClientId, cl: Client, sv: Protocol.Server, legal: bool)
    requires Enabled(s, a) && (legal ==> Disciplined(s, a))
    requires Apply(s, a).server == sv && Apply(s, a).clients == s.clients[c := cl]
    ensures Leads(s, [a], c, cl, sv, legal)
  {
    hide Apply, Enabled, Disciplined;
    ExecStep(s, a);
    assert [] + [a] == [a];
    Snoc(s, [], a);
  }

  lemma PossibleTwo(s: State, a: Action, b: Action)
    requires Enabled(s, a) && Enabled(Apply(s, a), b)
    ensures Possible(s, [a, b])
  {
    hide Apply, Enabled;
    ExecStep(s, a);
    assert [] + [a] == [a] && [a] + [b] == [a, b];
    Snoc(s, [], a);
    Snoc(s, [a], b);
  }

  lemma LeadsTwo(s: State, a: Action, b: Action, c: ClientId, cl: Client, sv: Protocol.Server, legal: bool)
    requires Enabled(s, a) && Enabled(Apply(s, a), b) && (legal ==> Disciplined(s, a) && Disciplined(Apply(s, a), b))
    requires var t := Apply(Apply(s, a), b); t.server == sv && t.clients == s.clients[c := cl]
    ensures Leads(s, [a, b], c, cl, sv, legal)
  {
    hide Apply, Enabled, Disciplined;
    ExecTwo(s, a, b);
    PossibleTwo(s, a, b);
  }

  lemma LeadsThree(s: State, a: Action, b: Action, d: Action, c: ClientId, cl: Client, sv: Protocol.Server)
    requires Enabled(s, a) && Enabled(Apply(s, a), b) && Enabled(Apply(Apply(s, a), b), d)
    requires Disciplined(s, a) && Disciplined(Apply(s, a), b) && Disciplined(Apply(Apply(s, a), b), d)
    requires var t := Apply(Apply(Apply(s, a), b), d); t.server == sv && t.clients == s.clients[c := cl]
    ensures Leads(s, [a, b, d], c, cl, sv, true)
  {
    hide Apply, Enabled, Disciplined, Exec, Legal, Possible;
    ExecTwo(s, a, b);
    ExecThree(s, a, b, d);
    PossibleTwo(s, a, b);
    assert [a, b] + [d] == [a, b, d];
    Snoc(s, [a, b], d);
  }

  /** The state after a call that finds no leftover, as its effect says. */
  predicate Follows(s: State, call: FuseCall)
    requires call.c in s.clients
  {
    var (cl, sv) := Effect(call, s.clients[call.c], s.server, []);
    Leads(s, ActsOf(call, s), call.c, cl, sv, Harmless(call, s))
  }

  lemma OpenFollows(s: State, call: FuseCall)
    requires Resting(s) && call.c in s.clients && call.OpenCall?
    ensures Follows(s, call)
  {
    hide Leads, CutAtNul;
    var c := call.c;
    var (cl, sv) := Effect(call, s.clients[c], s.server, []);
    if Hit(s.clients[c], s.server) {
      LeadsOne(s, Attr(c, false), c, cl, sv, true);
    } else {
      LeadsTwo(s, Attr(c, false), Fetch(c), c, cl, sv, true);
    }
  }

  lemma CreateFollows(s: State, call: FuseCall)
    requires Resting(s) && call.c in s.clients && call.CreateCall?
    ensures Follows(s, call)
  {
    hide Leads, CutAtNul;
    var c := call.c;
    var (cl, sv) := Effect(call, s.clients[c], s.server, []);
    if Hit(s.clients[c], s.server) {
      LeadsOne(s, Attr(c, true), c, cl, sv, true);
    } else {
      LeadsThree(s, Attr(c, true), CreateEmpty(c), Fetch(c), c, cl, sv);
    }
  }

  lemma FlushFollows(s: State, call: FuseCall)
    requires Resting(s) && call.c in s.clients && call.FlushCall?
    ensures Follows(s, call)
  {
    hide Leads;
    var c := call.c;
    var (cl, sv) := Effect(call, s.clients[c], s.server, []);
    if !Dirty(s.clients[c]) {
      assert s.clients == s.clients[c := s.clients[c]];
      LeadsOne(s, CloseClean(c), c, cl, sv, true);
    } else if HasContents(s.clients[c]) {
      UploadSteps(s, c);
      LeadsThree(s, Swap(c), Bump(c), Done(c), c, cl, sv);
    } else {
      LeadsOne(s, CloseEmpty(c, call.junk), c, cl, sv, false);
    }
  }

  lemma UnlinkFollows(s: State, call: FuseCall)
    requires Resting(s) && call.c in s.clients && call.UnlinkCall?
    ensures Follows(s, call)
  {
    hide Leads;
    var c := call.c;
    var (cl, sv) := Effect(call, s.clients[c], s.server, []);
    if CannotUnlink(s.clients[c]) {
      assert s.clients == s.clients[c := s.clients[c]];
      LeadsNowhere(s, c, Harmless(call, s));
    } else {
      LeadsTwo(s, Action.Unlink(c), Remove(c), c, cl, sv, Harmless(call, s));
    }
  }

  lemma LeadsNowhere(s: State, c: ClientId, legal: bool)
    requires c in s.clients && s.clients == s.clients[c := s.clients[c]]
    ensures Leads(s, [], c, s.clients[c], s.server, legal)
  {}

  /** Every handler call that finds no leftover is a run of the protocol on its path, a legal one if it is harmless. */
  lemma CallIsRun(s: State, call: FuseCall)
    requires Resting(s) && call.c in s.clients && Feasible(call, s.clients[call.c], s.server)
    ensures Follows(s, call)
  {
    match call
    case OpenCall(_, _) => OpenFollows(s, call);
    case CreateCall(_, _) => CreateFollows(s, call);
    case FlushCall(_, _, _) => FlushFollows(s, call);
    case UnlinkCall(_, _) => UnlinkFollows(s, call);
    case WriteCall(c, _, offset, data) =>
      hide Leads, PWrite;
      LeadsOne(s, Action.Write(c, offset, data), c, WriteStep(s.clients[c], offset, data), s.server, true);
  }

  // ---------- Sequences of calls ----------

  function Clients(w: World, p: Path): map<ClientId, Client> {
    map c | c in w.locals :: ClientView(w.locals[c], p)
  }

  /** The protocol state of path `p` shows what the world holds. */
  predicate Shows(s: State, w: World, p: Path) {
    s.server == ServerView(w.store, p) && s.clients == Clients(w, p)
  }

  /** The actions of all calls on path `p`. */
  function ActsOn(s: State, calls: seq<FuseCall>, p: Path): seq<Action> {
    if calls == [] then []
    else
      var before, call := ActsOn(s, calls[..|calls| - 1], p), calls[|calls| - 1];
      if call.p == p && call.c in Exec(s, before).clients then before + ActsOf(call, Exec(s, before)) else before
  }

  /** Every call on `p` is harmless where it is made. */
  predicate HarmlessOn(s: State, calls: seq<FuseCall>, p: Path) {
    calls == [] ||
    (var before := calls[..|calls| - 1];
     && HarmlessOn(s, before, p)
     && (calls[|calls| - 1].p == p ==> Harmless(calls[|calls| - 1], Exec(s, ActsOn(s, before, p)))))
  }

  /** A call on another path leaves `p` alone. */
  lemma OtherPath(s: State, w: World, call: FuseCall, w': World, p: Path)
    requires Shows(s, w, p) && Step(w, call, w') && call.p != p && Plain(p)
    ensures Shows(s, w', p)
  {
    hide Effect;
    assert p != AtomicReplace.Temp(call.p);
    forall c | c in w.locals ensures ClientView(w'.locals[c], p) == ClientView(w.locals[c], p) {}
  }

  /** The world after a call, if the protocol state has taken the call's effect. */
  lemma ShowsAfter(s: State, w: World, call: FuseCall, w': World, t: State)
    requires Shows(s, w, call.p) && Step(w, call, w')
    requires call.c in t.clients
    requires (ClientView(w'.locals[call.c], call.p), ServerView(w'.store, call.p)) == (t.clients[call.c], t.server)
    requires t.clients == s.clients[call.c := t.clients[call.c]]
    ensures Shows(t, w', call.p)
  {
    hide Effect, ServerView, ClientView;
    assert t.clients.Keys == w'.locals.Keys;
    forall c | c in w'.locals ensures t.clients[c] == ClientView(w'.locals[c], call.p) {
      assert c != call.c ==> w'.locals[c] == w.locals[c];
    }
  }

  lemma NoLeftover(w: World, p: Path)
    requires NoTemps(w)
    ensures AtomicReplace.Leftover(w.store.files, p) == []
  {}

  lemma ShowsIsResting(s: State, w: World, p: Path)
    requires Shows(s, w, p)
    ensures Resting(s)
  {}

  /** A call on `p` takes the protocol where it takes the world. */
  lemma SamePath(s: State, w: World, call: FuseCall, w': World)
    requires Shows(s, w, call.p) && Step(w, call, w') && NoTemps(w)
    requires Feasible(call, ClientView(w.locals[call.c], call.p), ServerView(w.store, call.p))
    ensures call.c in s.clients && Possible(s, ActsOf(call, s)) && (Harmless(call, s) ==> Legal(s, ActsOf(call, s)))
    ensures Shows(Exec(s, ActsOf(call, s)), w', call.p)
  {
    hide Effect, ActsOf, Possible, Legal, Exec, Harmless, Feasible, NoTemps, ClientView, ServerView, Resting;
    NoLeftover(w, call.p);
    ShowsIsResting(s, w, call.p);
    CallIsRun(s, call);
    ShowsAfter(s, w, call, w', Exec(s, ActsOf(call, s)));
  }

  /**
   * Over any sequence of calls by any clients on any plain paths, from a server without temporary
   * files: on every path the calls are a run of the protocol, which shows what server and clients
   * hold after each of them; and a legal run, if the calls on the path are harmless.
   */
  lemma {:induction false} CallsAreRuns(s: State, ws: seq<World>, calls: seq<FuseCall>, p: Path)
    requires Trace(ws, calls) && NoTemps(ws[0]) && Plain(p) && Shows(s, ws[0], p)
    ensures Possible(s, ActsOn(s, calls, p)) && Shows(Exec(s, ActsOn(s, calls, p)), ws[|calls|], p)
    ensures HarmlessOn(s, calls, p) ==> Legal(s, ActsOn(s, calls, p))
    decreases |calls|
  {
    hide Step, NoTemps, Plain, Shows, ActsOf, Feasible, Harmless;
    if calls != [] {
      var n := |calls| - 1;
      TraceBefore(ws, calls);
      CallsAreRuns(s, ws[..|calls|], calls[..n], p);
      var before := ActsOn(s, calls[..n], p);
      var t, w, call := Exec(s, before), ws[n], calls[n];
      if call.p == p {
        NoTempsBetweenCalls(ws[..|calls|], calls[..n]);
        SamePath(t, w, call, ws[n + 1]);
        ExecAppend(s, before, ActsOf(call, t));
      } else {
        OtherPath(t, w, call, ws[n + 1], p);
      }
    }
  }

  /** The protocol state of `p` at start-up: no client has an entry, the server has counted nothing. */
  function Fresh(w: World, p: Path): State {
    var sv := ServerView(w.store, p);
    State(sv, Clients(w, p),
          Log(if sv.file.Some? then [sv.file.value] else [], [], map c | c in w.locals :: 0, 0))
  }

  predicate StartUp(w: World) {
    w.store.serverclock == map[] && forall c | c in w.locals :: w.locals[c].statusCache == map[]
  }

  /** From start-up, harmless calls are thus a run to which everything proved of runs applies. */
  lemma CallsFromStartUp(ws: seq<World>, calls: seq<FuseCall>, p: Path)
    requires Trace(ws, calls) && StartUp(ws[0]) && NoTemps(ws[0]) && Plain(p) && HarmlessOn(Fresh(ws[0], p), calls, p)
    ensures var s := Fresh(ws[0], p);
            Init(s) && Legal(s, ActsOn(s, calls, p)) && Shows(Exec(s, ActsOn(s, calls, p)), ws[|calls|], p)
  {
    var s := Fresh(ws[0], p);
    assert Init(s) && Shows(s, ws[0], p);
    hide Trace, NoTemps, Plain, HarmlessOn, Shows, Legal, Exec, ActsOn;
    CallsAreRuns(s, ws, calls, p);
  }
}
