/**
 * Why the hypotheses of Protocol.Disciplined are there, and the two others that theorems state:
 * for each a concrete run of the code that goes wrong once it is dropped, and for all states
 * exactly when it does. Every action of these runs is one the code can take.
 */
module Necessity {
  import opened Bytes
  import opened Protocol
  import Runs

  /** The file, or what a fetch stores of it. */
  predicate CopyOf(copy: Bytes, file: Bytes) {
    copy == file || copy == CutAtNul(file)
  }

  /** An open by `c` would be a hit, although its copy is not of the file that the server has and has counted. */
  predicate StaleHit(s: State, c: ClientId) {
    && c in s.clients && s.clients[c].phase.Idle? && !Dirty(s.clients[c])
    && Hit(s.clients[c], s.server) && s.server.busy.None?
    && s.clients[c].copy.Some? && !CopyOf(s.clients[c].copy.value, s.server.file.value)
  }

  /** Two clients and an empty file. */
  function Start(): State {
    State(Server(Some([]), 0, None),
          map[0 := Client(None, None, Idle), 1 := Client(None, None, Idle)],
          Log([[]], [], map[0 := 0, 1 := 0], 0))
  }

  /** Client `c` opens the file and fetches it. */
  function Open(c: ClientId): seq<Action> {
    [Attr(c, false), Fetch(c)]
  }

  /** Client `c` writes one byte at the start and closes. */
  function WriteAndClose(c: ClientId, b: Byte): seq<Action> {
    [Write(c, 0, [b]), Swap(c), Bump(c), Done(c)]
  }

  lemma OpenSteps(t: State, c: ClientId)
    requires c in t.clients && t.clients[c].phase.Idle? && !Hit(t.clients[c], t.server)
    requires t.server.file.Some? && t.log.versions != []
    ensures var u := Apply(t, Attr(c, false));
            && Enabled(t, Attr(c, false)) && Enabled(u, Fetch(c))
            && Apply(u, Fetch(c)) ==
               State(t.server,
                     t.clients[c := Client(Some(Snapshot(t.clients[c])), Some(CutAtNul(t.server.file.value)), Idle)],
                     t.log.(base := t.log.base[c := |t.log.versions| - 1]))
  {}

  lemma RunOpen(s: State, acts: seq<Action>, c: ClientId)
    requires Possible(s, acts)
    requires var t := Exec(s, acts);
             && c in t.clients && t.clients[c].phase.Idle? && !Hit(t.clients[c], t.server)
             && t.server.file.Some? && t.log.versions != []
    ensures Possible(s, acts + Open(c))
    ensures var t := Exec(s, acts);
            Exec(s, acts + Open(c)) ==
            State(t.server, t.clients[c := Client(Some(Snapshot(t.clients[c])), Some(CutAtNul(t.server.file.value)), Idle)],
                  t.log.(base := t.log.base[c := |t.log.versions| - 1]))
  {
    hide Apply, Enabled, Exec, Possible;
    OpenSteps(Exec(s, acts), c);
    Snoc(s, acts, Attr(c, false));
    Snoc(s, acts + [Attr(c, false)], Fetch(c));
    assert acts + [Attr(c, false)] + [Fetch(c)] == acts + Open(c);
  }

  lemma RunWriteAndClose(s: State, acts: seq<Action>, c: ClientId, b: Byte)
    requires Possible(s, acts)
    requires var t := Exec(s, acts);
             && c in t.clients && t.clients[c].phase.Idle? && t.server.busy.None?
             && t.clients[c].entry.Some? && t.clients[c].copy.Some? && |t.clients[c].copy.value| <= 1
    ensures Possible(s, acts + WriteAndClose(c, b))
    ensures var t := Exec(s, acts);
            Exec(s, acts + WriteAndClose(c, b)) ==
            State(Server(Some([b]), t.server.clock + 1, None),
                  t.clients[c := Client(Some(Entry(false, t.server.clock + 1)), Some([b]), Idle)],
                  Log(t.log.versions + [[b]], t.log.authors + [c], t.log.base[c := |t.log.versions|], t.log.incarnation))
  {
    hide Apply, Enabled, Exec, Possible;
    WriteAndCloseSteps(Exec(s, acts), c, b);
    Snoc(s, acts, Write(c, 0, [b]));
    var a1 := acts + [Write(c, 0, [b])];
    Snoc(s, a1, Swap(c));
    Snoc(s, a1 + [Swap(c)], Bump(c));
    Snoc(s, a1 + [Swap(c)] + [Bump(c)], Done(c));
    assert a1 + [Swap(c)] + [Bump(c)] + [Done(c)] == acts + WriteAndClose(c, b);
  }

  lemma WriteAndCloseSteps(t: State, c: ClientId, b: Byte)
    requires c in t.clients && t.clients[c].phase.Idle? && t.server.busy.None?
    requires t.clients[c].entry.Some? && t.clients[c].copy.Some? && |t.clients[c].copy.value| <= 1
    ensures var t1 := Apply(t, Write(c, 0, [b]));
            var t2 := Apply(t1, Swap(c));
            var t3 := Apply(t2, Bump(c));
            && Enabled(t, Write(c, 0, [b])) && Enabled(t1, Swap(c)) && Enabled(t2, Bump(c)) && Enabled(t3, Done(c))
            && Apply(t3, Done(c)) ==
               State(Server(Some([b]), t.server.clock + 1, None),
                     t.clients[c := Client(Some(Entry(false, t.server.clock + 1)), Some([b]), Idle)],
                     Log(t.log.versions + [[b]], t.log.authors + [c], t.log.base[c := |t.log.versions|], t.log.incarnation))
  {
    assert PWrite(t.clients[c].copy.value, 0, [b]) == [b];
  }

  /** Client `c`, which has no entry, removes the file. */
  function Delete(c: ClientId): seq<Action> {
    [Unlink(c), Remove(c)]
  }

  lemma DeleteSteps(t: State, c: ClientId)
    requires c in t.clients && t.clients[c] == Client(None, None, Idle)
    ensures var u := Apply(t, Unlink(c));
            && Enabled(t, Unlink(c)) && Enabled(u, Remove(c))
            && Apply(u, Remove(c)) ==
               State(Server(None, 0, t.server.busy), t.clients, Log([], [], t.log.base, t.log.incarnation + 1))
  {
    assert t.clients == t.clients[c := t.clients[c]];
  }

  lemma RunDelete(s: State, acts: seq<Action>, c: ClientId)
    requires Possible(s, acts)
    requires c in Exec(s, acts).clients && Exec(s, acts).clients[c] == Client(None, None, Idle)
    ensures Possible(s, acts + Delete(c))
    ensures var t := Exec(s, acts);
            Exec(s, acts + Delete(c)) ==
            State(Server(None, 0, t.server.busy), t.clients,
                  Log([], [], t.log.base, t.log.incarnation + 1))
  {
    hide Apply, Enabled, Exec, Possible;
    DeleteSteps(Exec(s, acts), c);
    Snoc(s, acts, Unlink(c));
    Snoc(s, acts + [Unlink(c)], Remove(c));
    assert acts + [Unlink(c)] + [Remove(c)] == acts + Delete(c);
  }

  /** Client `c` creates the file. */
  function Create(c: ClientId): seq<Action> {
    [Attr(c, true), CreateEmpty(c), Fetch(c)]
  }

  lemma CreateSteps(t: State, c: ClientId)
    requires t.server.file.None? && c in t.clients && t.clients[c].entry.None? && t.clients[c].phase.Idle?
    ensures var u := Apply(t, Attr(c, true));
            var w := Apply(u, CreateEmpty(c));
            && Enabled(t, Attr(c, true)) && Enabled(u, CreateEmpty(c)) && Enabled(w, Fetch(c))
            && Apply(w, Fetch(c)) ==
               State(t.server.(file := Some([])),
                     t.clients[c := Client(Some(Entry(false, 0)), Some([]), Idle)],
                     t.log.(versions := [[]], base := t.log.base[c := 0]))
  {}

  lemma RunCreate(s: State, acts: seq<Action>, c: ClientId)
    requires Possible(s, acts) && Exec(s, acts).server.file.None?
    requires c in Exec(s, acts).clients
    requires Exec(s, acts).clients[c].entry.None? && Exec(s, acts).clients[c].phase.Idle?
    ensures Possible(s, acts + Create(c))
    ensures var t := Exec(s, acts);
            Exec(s, acts + Create(c)) ==
            State(t.server.(file := Some([])),
                  t.clients[c := Client(Some(Entry(false, 0)), Some([]), Idle)],
                  t.log.(versions := [[]], base := t.log.base[c := 0]))
  {
    hide Apply, Enabled, Exec, Possible;
    CreateSteps(Exec(s, acts), c);
    Snoc(s, acts, Attr(c, true));
    Snoc(s, acts + [Attr(c, true)], CreateEmpty(c));
    Snoc(s, acts + [Attr(c, true)] + [CreateEmpty(c)], Fetch(c));
    assert acts + [Attr(c, true)] + [CreateEmpty(c)] + [Fetch(c)] == acts + Create(c);
  }

  /** Client `c` writes zero bytes to an empty file and closes it, with `junk` in the uninitialised variable. */
  function WriteNothingAndClose(c: ClientId, junk: int): seq<Action> {
    [Write(c, 0, []), CloseEmpty(c, junk)]
  }

  lemma WriteNothingSteps(t: State, c: ClientId, junk: int)
    requires c in t.clients && t.clients[c].phase.Idle? && t.clients[c].entry.Some? && t.clients[c].copy == Some([])
    ensures var u := Apply(t, Write(c, 0, []));
            && Enabled(t, Write(c, 0, [])) && Enabled(u, CloseEmpty(c, junk))
            && Apply(u, CloseEmpty(c, junk)) ==
               t.(clients := t.clients[c := Client(Some(Entry(false, junk)), Some([]), Idle)])
  {}

  lemma RunWriteNothingAndClose(s: State, acts: seq<Action>, c: ClientId, junk: int)
    requires Possible(s, acts)
    requires var t := Exec(s, acts);
             c in t.clients && t.clients[c].phase.Idle? && t.clients[c].entry.Some? && t.clients[c].copy == Some([])
    ensures Possible(s, acts + WriteNothingAndClose(c, junk))
    ensures var t := Exec(s, acts);
            Exec(s, acts + WriteNothingAndClose(c, junk)) ==
            t.(clients := t.clients[c := Client(Some(Entry(false, junk)), Some([]), Idle)])
  {
    hide Apply, Enabled, Exec, Possible;
    WriteNothingSteps(Exec(s, acts), c, junk);
    Snoc(s, acts, Write(c, 0, []));
    Snoc(s, acts + [Write(c, 0, [])], CloseEmpty(c, junk));
    assert acts + [Write(c, 0, [])] + [CloseEmpty(c, junk)] == acts + WriteNothingAndClose(c, junk);
  }

  /** Client 0 opens the empty file. */
  lemma FirstOpen()
    ensures Possible(Start(), Open(0))
    ensures Exec(Start(), Open(0)) ==
            State(Server(Some([]), 0, None),
                  map[0 := Client(Some(Entry(false, 0)), Some([]), Idle), 1 := Client(None, None, Idle)],
                  Log([[]], [], map[0 := 0, 1 := 0], 0))
  {
    assert [] + Open(0) == Open(0);
    RunOpen(Start(), [], 0);
  }

  /**
   * Closing a dirty but empty file skips the upload and stores an uninitialised clock. With 7
   * left on the stack, client 0 misses the upload that client 1 completes afterwards.
   */
  lemma EmptyCloseServesStale()
    ensures var acts := Open(0) + WriteNothingAndClose(0, 7) + Open(1) + WriteAndClose(1, 65);
            Init(Start()) && Possible(Start(), acts) && StaleHit(Exec(Start(), acts), 0)
  {
    var s := Start();
    FirstOpen();
    hide Apply, Enabled, Exec, Possible;
    RunWriteNothingAndClose(s, Open(0), 0, 7);
    RunOpen(s, Open(0) + WriteNothingAndClose(0, 7), 1);
    RunWriteAndClose(s, Open(0) + WriteNothingAndClose(0, 7) + Open(1), 1, 65);
  }

  /**
   * A failed upload still clears the dirty bit. Client 0 keeps reading a write that never
   * reached the server and that no later close will send.
   */
  lemma FailedUploadLosesWrite()
    ensures var acts := Open(0) + [Write(0, 0, [65]), CloseFailed(0, 0)];
            Init(Start()) && Possible(Start(), acts) && StaleHit(Exec(Start(), acts), 0)
            && Enabled(Exec(Start(), acts), CloseClean(0))
  {
    var s := Start();
    FirstOpen();
    hide Exec, Possible;
    var a1 := Open(0);
    assert PWrite([], 0, [65]) == [65];
    Snoc(s, a1, Write(0, 0, [65]));
    Snoc(s, a1 + [Write(0, 0, [65])], CloseFailed(0, 0));
    assert a1 + [Write(0, 0, [65])] + [CloseFailed(0, 0)] == Open(0) + [Write(0, 0, [65]), CloseFailed(0, 0)];
  }

  /**
   * Exactly when a failed close is harmless to the invariant: the variable it left uninitialised
   * happens to hold the client's own last version, and the copy is still that of its version.
   */
  lemma FailedCloseKeepsInvIff(s: State, c: ClientId, junk: int)
    requires Inv(s) && Enabled(s, CloseFailed(c, junk))
    ensures c in s.log.base && s.log.base[c] < |s.log.versions|
    ensures Inv(Apply(s, CloseFailed(c, junk))) <==>
            junk == LastOwn(s.log.authors, c) && s.clients[c].copy == Some(Held(s.log, c, s.log.base[c]))
  {
    hide LastOwn, CutAtNul;
    var t := Apply(s, CloseFailed(c, junk));
    assert ClientOk(s, c);
    if junk == LastOwn(s.log.authors, c) && s.clients[c].copy == Some(Held(s.log, c, s.log.base[c])) {
      OwnStepInv(s, t, c);
    } else {
      assert ServerOk(t) ==> !ClientOk(t, c);
    }
  }

  /**
   * Exactly when opens then read what never reached the server: the uninitialised clock is not
   * behind the server's, and the copy is neither the server's file nor what a fetch makes of it.
   */
  lemma FailedCloseServesStaleIff(s: State, c: ClientId, junk: int)
    requires Inv(s) && Enabled(s, CloseFailed(c, junk)) && s.server.busy.None?
    ensures s.server.file.Some?
    ensures StaleHit(Apply(s, CloseFailed(c, junk)), c) <==>
            junk >= s.server.clock && !CopyOf(s.clients[c].copy.value, s.server.file.value)
  {
    hide LastOwn, CutAtNul;
    assert ClientOk(s, c);
  }

  /** The client has nothing to send, now or when a call under way returns. */
  predicate Clean(cl: Client) {
    !Dirty(cl) && (cl.phase.Opening? || cl.phase.Creating? ==> !cl.phase.snapshot.dirty)
  }

  lemma CleanStep(s: State, a: Action, c: ClientId)
    requires Enabled(s, a) && c in s.clients && Clean(s.clients[c]) && !(a.Write? && a.c == c)
    ensures a != Swap(c) && c in Apply(s, a).clients && Clean(Apply(s, a).clients[c])
  {}

  /** Whatever happens next, a clean client uploads nothing before it writes again. */
  lemma {:induction false} CleanSendsNothing(s: State, acts: seq<Action>, c: ClientId)
    requires c in s.clients && Clean(s.clients[c]) && Possible(s, acts)
    requires forall i | 0 <= i < |acts| :: acts[i].Write? ==> acts[i].c != c
    ensures c in Exec(s, acts).clients && Clean(Exec(s, acts).clients[c])
    ensures forall i | 0 <= i < |acts| :: acts[i] != Swap(c)
    decreases |acts|
  {
    hide Apply, Enabled, Clean;
    if acts != [] {
      CleanSendsNothing(s, acts[..|acts| - 1], c);
      CleanStep(Exec(s, acts[..|acts| - 1]), acts[|acts| - 1], c);
    }
  }

  /** So the write is lost: after a failed close no run sends the copy until the client writes again. */
  lemma FailedWriteStaysUnsent(s: State, c: ClientId, junk: int, acts: seq<Action>)
    requires Enabled(s, CloseFailed(c, junk)) && Possible(Apply(s, CloseFailed(c, junk)), acts)
    requires forall i | 0 <= i < |acts| :: acts[i].Write? ==> acts[i].c != c
    ensures forall i | 0 <= i < |acts| :: acts[i] != Swap(c)
  {
    hide Possible;
    CleanSendsNothing(Apply(s, CloseFailed(c, junk)), acts, c);
  }

  /** Client 0 has uploaded once; then client 1 removed the file. */
  lemma UploadThenDelete()
    ensures var acts := Open(0) + WriteAndClose(0, 65) + Delete(1);
            Possible(Start(), acts) &&
            Exec(Start(), acts) ==
            State(Server(None, 0, None),
                  map[0 := Client(Some(Entry(false, 1)), Some([65]), Idle), 1 := Client(None, None, Idle)],
                  Log([], [], map[0 := 1, 1 := 0], 1))
  {
    var s := Start();
    FirstOpen();
    hide Apply, Enabled, Exec, Possible;
    RunWriteAndClose(s, Open(0), 0, 65);
    RunDelete(s, Open(0) + WriteAndClose(0, 65), 1);
  }

  /** Client 1 creates the file again. */
  lemma UploadDeleteCreate()
    ensures var acts := Open(0) + WriteAndClose(0, 65) + Delete(1) + Create(1);
            Possible(Start(), acts) &&
            Exec(Start(), acts) ==
            State(Server(Some([]), 0, None),
                  map[0 := Client(Some(Entry(false, 1)), Some([65]), Idle),
                      1 := Client(Some(Entry(false, 0)), Some([]), Idle)],
                  Log([[]], [], map[0 := 1, 1 := 0], 1))
  {
    UploadThenDelete();
    hide Apply, Enabled, Exec, Possible, Open, WriteAndClose, Delete, Create;
    RunCreate(Start(), Open(0) + WriteAndClose(0, 65) + Delete(1), 1);
  }

  /**
   * Removal restarts the clock at 0. Client 1 removes the file while client 0 still has an
   * entry, creates it again and uploads once: client 0's old clock 1 looks current.
   */
  lemma RemovalUnderEntryServesStale()
    ensures var acts := Open(0) + WriteAndClose(0, 65) + Delete(1) + Create(1) + WriteAndClose(1, 66);
            Init(Start()) && Possible(Start(), acts) && StaleHit(Exec(Start(), acts), 0)
  {
    UploadDeleteCreate();
    hide Apply, Enabled, Exec, Possible, Open, WriteAndClose, Delete, Create;
    RunWriteAndClose(Start(), Open(0) + WriteAndClose(0, 65) + Delete(1) + Create(1), 1, 66);
  }

  lemma RemoveStep(s: State, d: ClientId)
    requires Inv(s) && Enabled(s, Remove(d))
    ensures s.clients[d].entry.None?
    ensures Apply(s, Remove(d)) ==
            State(Server(None, 0, s.server.busy), s.clients[d := s.clients[d].(phase := Idle)],
                  Log([], [], s.log.base, s.log.incarnation + 1))
  {
    hide LastOwn, CutAtNul;
    assert ClientOk(s, d);
  }

  lemma ExecOne(s: State, a: Action)
    requires Enabled(s, a)
    ensures Possible(s, [a]) && Exec(s, [a]) == Apply(s, a)
  {
    assert [a][..0] == [];
  }

  lemma RunRemoveAndCreate(s: State, d: ClientId)
    requires Inv(s) && Enabled(s, Remove(d))
    ensures Possible(s, [Remove(d)] + Create(d))
    ensures Exec(s, [Remove(d)] + Create(d)) ==
            State(Server(Some([]), 0, s.server.busy), s.clients[d := Client(Some(Entry(false, 0)), Some([]), Idle)],
                  Log([[]], [], s.log.base[d := 0], s.log.incarnation + 1))
  {
    assert d in s.clients;
    hide Apply, Enabled, Exec, Possible, Create, Inv;
    RemoveStep(s, d);
    ExecOne(s, Remove(d));
    RunCreate(s, [Remove(d)], d);
  }

  /**
   * Exactly when removal and re-creation serve another, clean client stale contents: it has an
   * entry, and its copy is not empty as the new file is.
   */
  lemma RemovalServesStaleIff(s: State, d: ClientId, c: ClientId)
    requires Inv(s) && Enabled(s, Remove(d)) && s.server.busy.None?
    requires c != d && c in s.clients && s.clients[c].phase.Idle? && !Dirty(s.clients[c])
    ensures StaleHit(Exec(s, [Remove(d)] + Create(d)), c) <==>
            s.clients[c].entry.Some? && s.clients[c].copy != Some([])
  {
    assert ClientOk(s, c);
    hide Exec, Possible, Create, Inv, LastOwn;
    RunRemoveAndCreate(s, d);
  }

  /**
   * And when they still do so once the new file has had its first upload: the other client has
   * uploaded the removed file itself, so that its old clock covers the restarted one.
   */
  lemma RemovalThenUploadServesStaleIff(s: State, d: ClientId, c: ClientId, b: Byte)
    requires Inv(s) && Enabled(s, Remove(d)) && s.server.busy.None?
    requires c != d && c in s.clients && s.clients[c].phase.Idle? && !Dirty(s.clients[c])
    ensures StaleHit(Exec(s, [Remove(d)] + Create(d) + WriteAndClose(d, b)), c) <==>
            && s.clients[c].entry.Some? && LastOwn(s.log.authors, c) > 0
            && !CopyOf(s.clients[c].copy.value, [b])
  {
    assert ClientOk(s, c);
    hide Exec, Possible, Create, Inv, LastOwn, WriteAndClose, CutAtNul;
    RunRemoveAndCreate(s, d);
    RunWriteAndClose(s, [Remove(d)] + Create(d), d, b);
  }

  lemma RunWrite(s: State, acts: seq<Action>, c: ClientId, b: Byte)
    requires Possible(s, acts)
    requires var t := Exec(s, acts);
             c in t.clients && t.clients[c].phase.Idle? && t.clients[c].entry.Some? && t.clients[c].copy == Some([])
    ensures Possible(s, acts + [Write(c, 0, [b])])
    ensures var t := Exec(s, acts);
            Exec(s, acts + [Write(c, 0, [b])]) ==
            t.(clients := t.clients[c := Client(Some(t.clients[c].entry.value.(dirty := true)), Some([b]), Idle)])
  {
    hide Exec, Possible;
    assert PWrite([], 0, [b]) == [b];
    Snoc(s, acts, Write(c, 0, [b]));
  }

  /** Clients 0 and 1 have opened the empty file; 0 has written, 1 has written and closed. */
  lemma WriteBehindUpload()
    ensures var acts := Open(0) + [Write(0, 0, [65])] + Open(1) + WriteAndClose(1, 66);
            Possible(Start(), acts) &&
            Exec(Start(), acts) ==
            State(Server(Some([66]), 1, None),
                  map[0 := Client(Some(Entry(true, 0)), Some([65]), Idle),
                      1 := Client(Some(Entry(false, 1)), Some([66]), Idle)],
                  Log([[], [66]], [1], map[0 := 0, 1 := 1], 0))
  {
    hide Apply, Enabled, Exec, Possible, Open, WriteAndClose, CutAtNul;
    var s, a1 := Start(), Open(0) + [Write(0, 0, [65])];
    FirstOpen();
    RunWrite(s, Open(0), 0, 65);
    CutIsIdentityIffZeroFree([]);
    RunOpen(s, a1, 1);
    RunWriteAndClose(s, a1 + Open(1), 1, 66);
  }

  /**
   * Re-opening a dirty path fetches over the unsent write: the next close of client 0 uploads
   * what client 1 wrote. Runs.ReopenKeepsWritesIff says exactly when this happens.
   */
  lemma DirtyReopenLosesWrite()
    ensures var acts := Open(0) + [Write(0, 0, [65])] + Open(1) + WriteAndClose(1, 66) + Open(0);
            var t := Exec(Start(), acts);
            && Init(Start()) && Possible(Start(), acts)
            && 0 in t.clients && Dirty(t.clients[0]) && t.clients[0].copy == Some([66])
  {
    WriteBehindUpload();
    CutIsIdentityIffZeroFree([66]);
    hide CutAtNul, Apply, Enabled, Exec, Possible, Open, WriteAndClose;
    RunOpen(Start(), Open(0) + [Write(0, 0, [65])] + Open(1) + WriteAndClose(1, 66), 0);
  }

  /**
   * Exactly when a close is safe: whatever the uninitialised variable holds, the close of a
   * dirty file leaves the entry's clock equal to the server's if and only if the file is not
   * empty. The uploads of the path do not overlap.
   */
  lemma CloseSyncsClockIffNonEmpty(s: State, c: ClientId)
    requires Inv(s) && c in s.clients && s.clients[c].phase.Idle? && Dirty(s.clients[c]) && s.server.busy.None?
    ensures s.clients[c].copy.Some?
    ensures (forall junk: int ::
               CloseDirty(s, c, junk).clients[c].entry == Some(Entry(false, CloseDirty(s, c, junk).server.clock)))
            <==> s.clients[c].copy != Some([])
  {
    assert ClientOk(s, c);
    if s.clients[c].copy == Some([]) {
      assert CloseDirty(s, c, s.server.clock + 1).clients[c].entry == Some(Entry(false, s.server.clock + 1));
    }
  }

  /** Flush or release of a dirty file run to its end without interruption. */
  function CloseDirty(s: State, c: ClientId, junk: int): (t: State)
    requires c in s.clients
    ensures c in t.clients
  {
    if s.clients[c].copy == Some([]) then Apply(s, CloseEmpty(c, junk))
    else Apply(Apply(Apply(s, Swap(c)), Bump(c)), Done(c))
  }

  /**
   * The rename and the clock increment are two steps. An open that falls between them is a hit
   * on the version just replaced, in a run that breaks no hypothesis; this is the second case
   * of Runs.Serves, and it lasts only until the upload is counted.
   */
  lemma HitBetweenRenameAndBump()
    ensures var acts := Open(0) + Open(1) + [Write(1, 0, [65]), Swap(1)];
            var t := Exec(Start(), acts);
            && Init(Start()) && Possible(Start(), acts)
            && 0 in t.clients && Hit(t.clients[0], t.server) && t.clients[0].copy == Some([])
            && t.server.file == Some([65]) && Runs.Serves(t, [])
            && !Hit(Apply(t, Bump(1)).clients[0], Apply(t, Bump(1)).server)
  {
    var s := Start();
    FirstOpen();
    hide Exec, Possible;
    RunOpen(s, Open(0), 1);
    var a1 := Open(0) + Open(1);
    assert PWrite([], 0, [65]) == [65];
    Snoc(s, a1, Write(1, 0, [65]));
    Snoc(s, a1 + [Write(1, 0, [65])], Swap(1));
    assert a1 + [Write(1, 0, [65])] + [Swap(1)] == a1 + [Write(1, 0, [65]), Swap(1)];
  }
}
