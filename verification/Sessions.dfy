/**
 * Refinement: sessions (open or create, positioned writes, close) that do not overlap, spread
 * over any clients, behave like the same sessions on one plain local file.
 */
module Sessions {
  import opened Bytes
  import opened Protocol

  datatype Chunk = Chunk(offset: nat, data: Bytes)
  datatype Session = Session(c: ClientId, create: bool, writes: seq<Chunk>)

  // ---------- The plain file ----------

  function Written(file: Bytes, ws: seq<Chunk>): Bytes {
    if ws == [] then file
    else var w := ws[|ws| - 1]; PWrite(Written(file, ws[..|ws| - 1]), w.offset, w.data)
  }

  /** What a session on the plain file sees once open; None if there is nothing to open. */
  function PlainOpen(file: Option<Bytes>, create: bool): Option<Bytes> {
    if file.None? && create then Some([]) else file
  }

  function PlainSession(file: Option<Bytes>, ss: Session): Option<Bytes> {
    var shown := PlainOpen(file, ss.create);
    if shown.None? then None else Some(Written(shown.value, ss.writes))
  }

  function Plain(file: Option<Bytes>, ss: seq<Session>): Option<Bytes> {
    if ss == [] then file else PlainSession(Plain(file, ss[..|ss| - 1]), ss[|ss| - 1])
  }

  // ---------- The same through the cache ----------

  function OpenActs(s: State, c: ClientId, create: bool): seq<Action> {
    if c in s.clients && Hit(s.clients[c], s.server) then [Attr(c, create)]
    else if create then [Attr(c, create), CreateEmpty(c), Fetch(c)]
    else [Attr(c, create), Fetch(c)]
  }

  function WriteActs(c: ClientId, ws: seq<Chunk>): seq<Action> {
    if ws == [] then []
    else var w := ws[|ws| - 1]; WriteActs(c, ws[..|ws| - 1]) + [Write(c, w.offset, w.data)]
  }

  /** Flush, then release. */
  function CloseActs(s: State, c: ClientId): seq<Action> {
    if c in s.clients && Dirty(s.clients[c]) then [Swap(c), Bump(c), Done(c), CloseClean(c)]
    else [CloseClean(c), CloseClean(c)]
  }

  /** The session up to its first `n` writes. */
  function UpToWrite(s: State, ss: Session, n: nat): seq<Action>
    requires n <= |ss.writes|
  {
    OpenActs(s, ss.c, ss.create) + WriteActs(ss.c, ss.writes[..n])
  }

  /** All of the session; a failed open ends it. */
  function SessionActs(s: State, ss: Session): seq<Action> {
    var open := OpenActs(s, ss.c, ss.create);
    if PlainOpen(s.server.file, ss.create).None? then open
    else
      var upTo := UpToWrite(s, ss, |ss.writes|);
      upTo + CloseActs(Exec(s, upTo), ss.c)
  }

  function RunActs(s: State, ss: seq<Session>): seq<Action> {
    if ss == [] then []
    else
      var earlier := RunActs(s, ss[..|ss| - 1]);
      earlier + SessionActs(Exec(s, earlier), ss[|ss| - 1])
  }

  // ---------- Runs compose ----------

  lemma {:induction false} ExecAppend(s: State, a: seq<Action>, b: seq<Action>)
    ensures Exec(s, a + b) == Exec(Exec(s, a), b)
    ensures Legal(s, a + b) <==> Legal(s, a) && Legal(Exec(s, a), b)
    ensures Possible(s, a + b) <==> Possible(s, a) && Possible(Exec(s, a), b)
    decreases |b|
  {
    hide Apply, Enabled, Disciplined;
    if b == [] {
      assert a + b == a;
    } else {
      var b' := b[..|b| - 1];
      ExecAppend(s, a, b');
      assert (a + b)[..|a + b| - 1] == a + b';
    }
  }

  lemma ExecStep(s: State, a: Action)
    ensures Exec(s, [a]) == Apply(s, a)
    ensures Legal(s, [a]) <==> Enabled(s, a) && Disciplined(s, a)
  {
    assert [a][..0] == [];
  }

  lemma ExecTwo(s: State, a: Action, b: Action)
    ensures Exec(s, [a, b]) == Apply(Apply(s, a), b)
    ensures Enabled(s, a) && Disciplined(s, a) && Enabled(Apply(s, a), b) && Disciplined(Apply(s, a), b) ==>
              Legal(s, [a, b])
  {
    ExecStep(s, a);
    assert [a, b][..1] == [a];
  }

  lemma ExecThree(s: State, a: Action, b: Action, c: Action)
    ensures Exec(s, [a, b, c]) == Apply(Exec(s, [a, b]), c)
    ensures Legal(s, [a, b]) && Enabled(Exec(s, [a, b]), c) && Disciplined(Exec(s, [a, b]), c) ==> Legal(s, [a, b, c])
  {
    assert [a, b, c][..2] == [a, b];
  }

  lemma ExecFour(s: State, a: Action, b: Action, c: Action, d: Action)
    ensures Exec(s, [a, b, c, d]) == Apply(Exec(s, [a, b, c]), d)
    ensures Legal(s, [a, b, c]) && Enabled(Exec(s, [a, b, c]), d) && Disciplined(Exec(s, [a, b, c]), d) ==>
              Legal(s, [a, b, c, d])
  {
    assert [a, b, c, d][..3] == [a, b, c];
  }

  // ---------- One session ----------

  /** Nobody is in the middle of a call, nothing is dirty and no version contains a zero byte. */
  predicate Quiet(s: State) {
    && Inv(s) && s.server.busy.None?
    && (forall c | c in s.clients :: s.clients[c].phase.Idle? && !Dirty(s.clients[c]))
    && (forall v | v in s.log.versions :: ZeroFree(v))
  }

  /** Client `c` has the file open with contents `x` and everything else is quiet. */
  predicate OpenAt(s: State, t: State, c: ClientId, x: Bytes) {
    && Quiet(t) && t.clients.Keys == s.clients.Keys
    && t.server.file == Some(x)
    && c in t.clients && t.clients[c].entry.Some? && t.clients[c].copy == Some(x)
  }

  lemma OpenHit(s: State, c: ClientId)
    requires Quiet(s) && c in s.clients && Hit(s.clients[c], s.server)
    ensures s.server.file.Some? && OpenAt(s, s, c, s.server.file.value)
  {
    hide CutAtNul, LastOwn;
    assert ClientOk(s, c);
    CutIsIdentityIffZeroFree(s.server.file.value);
  }

  lemma FileIsVersion(s: State)
    requires Inv(s) && s.server.file.Some?
    ensures s.server.file.value in s.log.versions
  {}

  /** The fetch of a zero-free file shows all of it, and with it the call is over. */
  lemma FetchShows(s: State, u: State, c: ClientId)
    requires Quiet(s) && Inv(u) && u.server.file.Some? && u.server.busy.None?
    requires c in u.clients && u.clients[c].phase.Opening? && !u.clients[c].phase.snapshot.dirty
    requires u.clients.Keys == s.clients.Keys && forall d | d in s.clients && d != c :: u.clients[d] == s.clients[d]
    requires forall v | v in u.log.versions :: ZeroFree(v)
    ensures OpenAt(s, Apply(u, Fetch(c)), c, u.server.file.value)
  {
    hide Inv, ZeroFree;
    FileIsVersion(u);
    StepInv(u, Fetch(c));
    CutIsIdentityIffZeroFree(u.server.file.value);
  }

  lemma OpenMiss(s: State, c: ClientId)
    requires Quiet(s) && c in s.clients && !Hit(s.clients[c], s.server)
    ensures var acts := [Attr(c, false), Fetch(c)];
            Legal(s, acts) &&
            if s.server.file.Some? then OpenAt(s, Exec(s, acts), c, s.server.file.value) else Exec(s, acts) == s
  {
    hide Exec, Legal, Inv, ZeroFree, CutAtNul;
    var u := Apply(s, Attr(c, false));
    ExecTwo(s, Attr(c, false), Fetch(c));
    StepInv(s, Attr(c, false));
    if s.server.file.Some? {
      FetchShows(s, u, c);
    } else {
      assert Apply(u, Fetch(c)).clients == s.clients;
    }
  }

  lemma NoFileNoVersions(s: State)
    requires Inv(s) && s.server.file.None?
    ensures s.log.versions == []
  {}

  lemma CreateSteps(s: State, c: ClientId)
    requires Quiet(s) && c in s.clients && !Hit(s.clients[c], s.server)
    ensures var u := Apply(s, Attr(c, true));
            var w := Apply(u, CreateEmpty(c));
            && Enabled(s, Attr(c, true)) && Enabled(u, CreateEmpty(c)) && Enabled(w, Fetch(c))
            && OpenAt(s, Apply(w, Fetch(c)), c, if s.server.file.Some? then s.server.file.value else [])
  {
    hide Inv, CutAtNul, OpenAt;
    var u := Apply(s, Attr(c, true));
    var w := Apply(u, CreateEmpty(c));
    StepInv(s, Attr(c, true));
    StepInv(u, CreateEmpty(c));
    FetchShows(s, w, c);
  }

  lemma OpenCreate(s: State, c: ClientId)
    requires Quiet(s) && c in s.clients && !Hit(s.clients[c], s.server)
    ensures var acts := [Attr(c, true), CreateEmpty(c), Fetch(c)];
            Legal(s, acts)
            && OpenAt(s, Exec(s, acts), c, if s.server.file.Some? then s.server.file.value else [])
  {
    CreateSteps(s, c);
    ExecTwo(s, Attr(c, true), CreateEmpty(c));
    ExecThree(s, Attr(c, true), CreateEmpty(c), Fetch(c));
  }

  lemma OpenRuns(s: State, c: ClientId, create: bool)
    requires Quiet(s) && c in s.clients
    ensures Legal(s, OpenActs(s, c, create))
    ensures var shown, t := PlainOpen(s.server.file, create), Exec(s, OpenActs(s, c, create));
            if shown.None? then t == s else OpenAt(s, t, c, shown.value)
  {
    hide Exec, Legal, Inv;
    if Hit(s.clients[c], s.server) {
      OpenHit(s, c);
      ExecStep(s, Attr(c, create));
      assert Apply(s, Attr(c, create)).clients == s.clients;
    } else if create {
      OpenCreate(s, c);
    } else {
      OpenMiss(s, c);
    }
  }

  /** What writes make of the state: only this client's copy and dirty bit change. */
  function Wrote(s: State, c: ClientId, ws: seq<Chunk>): State
    requires c in s.clients && s.clients[c].entry.Some? && s.clients[c].copy.Some?
  {
    var cl := s.clients[c];
    SetClient(s, c, Client(Some(cl.entry.value.(dirty := cl.entry.value.dirty || ws != [])),
                           Some(Written(cl.copy.value, ws)), Idle))
  }

  lemma WroteStep(s: State, c: ClientId, ws: seq<Chunk>)
    requires c in s.clients && s.clients[c].entry.Some? && s.clients[c].copy.Some? && ws != []
    ensures var w := ws[|ws| - 1];
            var before, a := Wrote(s, c, ws[..|ws| - 1]), Write(c, w.offset, w.data);
            Enabled(before, a) && Disciplined(before, a) && Apply(before, a) == Wrote(s, c, ws)
  {
    hide PWrite;
  }

  /** The session's writes only change this client's copy and dirty bit. */
  lemma {:induction false} WritesRun(s: State, c: ClientId, ws: seq<Chunk>)
    requires c in s.clients && s.clients[c].phase.Idle? && s.clients[c].entry.Some? && s.clients[c].copy.Some?
    ensures Legal(s, WriteActs(c, ws)) && Exec(s, WriteActs(c, ws)) == Wrote(s, c, ws)
    decreases |ws|
  {
    if ws == [] {
      assert s.clients == s.clients[c := s.clients[c]];
    } else {
      hide Exec, Legal, Wrote, Enabled, Disciplined, Apply;
      var before, w := ws[..|ws| - 1], ws[|ws| - 1];
      WritesRun(s, c, before);
      WroteStep(s, c, ws);
      ExecStep(Wrote(s, c, before), Write(c, w.offset, w.data));
      ExecAppend(s, WriteActs(c, before), [Write(c, w.offset, w.data)]);
    }
  }

  lemma {:induction false} WrittenNonEmpty(file: Bytes, ws: seq<Chunk>)
    requires ws != [] && forall w | w in ws :: w.data != []
    ensures Written(file, ws) != []
  {}

  /** One client holds unsent writes, all else is quiet. */
  predicate QuietBut(s: State, c: ClientId) {
    && Inv(s) && s.server.busy.None? && c in s.clients
    && (forall d | d in s.clients :: s.clients[d].phase.Idle? && (d != c ==> !Dirty(s.clients[d])))
    && (forall v | v in s.log.versions :: ZeroFree(v))
    && Dirty(s.clients[c]) && s.clients[c].copy.Some? && s.clients[c].copy.value != []
    && ZeroFree(s.clients[c].copy.value)
  }

  /** What the upload of `c`'s copy makes of the state: everybody else keeps theirs. */
  function Uploaded(s: State, c: ClientId): State
    requires c in s.clients && s.clients[c].copy.Some?
  {
    var copy, log := s.clients[c].copy, s.log;
    State(Server(copy, s.server.clock + 1, None),
          s.clients[c := Client(Some(Entry(false, s.server.clock + 1)), copy, Idle)],
          Log(log.versions + [copy.value], log.authors + [c], log.base[c := |log.versions|], log.incarnation))
  }

  lemma UploadSteps(s: State, c: ClientId)
    requires Enabled(s, Swap(c))
    ensures var s1 := Apply(s, Swap(c));
            var s2 := Apply(s1, Bump(c));
            && Enabled(s1, Bump(c)) && Enabled(s2, Done(c)) && Apply(s2, Done(c)) == Uploaded(s, c)
  {}

  /**
   * Closing a dirty, non-empty copy, flush then release, uploads it once: server file equals
   * copy, clock plus one, entry clean and current, whatever the other clients hold.
   */
  lemma CloseDirtyRuns(s: State, c: ClientId)
    requires Enabled(s, Swap(c))
    ensures Legal(s, CloseActs(s, c)) && Exec(s, CloseActs(s, c)) == Uploaded(s, c)
  {
    var s1 := Apply(s, Swap(c));
    var s2 := Apply(s1, Bump(c));
    UploadSteps(s, c);
    assert Enabled(Uploaded(s, c), CloseClean(c)) && Apply(Uploaded(s, c), CloseClean(c)) == Uploaded(s, c);
    assert CloseActs(s, c) == [Swap(c), Bump(c), Done(c), CloseClean(c)];
    hide Exec, Legal, Enabled, Apply;
    ExecTwo(s, Swap(c), Bump(c));
    ExecThree(s, Swap(c), Bump(c), Done(c));
    ExecFour(s, Swap(c), Bump(c), Done(c), CloseClean(c));
  }

  lemma QuietAfterUpload(s: State, c: ClientId)
    requires QuietBut(s, c)
    ensures Quiet(Uploaded(s, c))
  {
    hide Inv;
    var s1 := Apply(s, Swap(c));
    var s2 := Apply(s1, Bump(c));
    UploadSteps(s, c);
    StepInv(s, Swap(c));
    StepInv(s1, Bump(c));
    StepInv(s2, Done(c));
    hide Apply;
  }

  lemma CloseCleanRuns(s: State, c: ClientId)
    requires Quiet(s) && c in s.clients
    ensures Legal(s, CloseActs(s, c)) && Exec(s, CloseActs(s, c)) == s
  {
    ExecTwo(s, CloseClean(c), CloseClean(c));
  }

  /** While the session is open, after each of its writes it reads what the plain file would hold. */
  lemma SessionReads(s: State, ss: Session, n: nat)
    requires Quiet(s) && ss.c in s.clients && n <= |ss.writes|
    requires PlainOpen(s.server.file, ss.create).Some?
    ensures Legal(s, UpToWrite(s, ss, n))
    ensures var t := Exec(s, UpToWrite(s, ss, n));
            ss.c in t.clients
            && t.clients[ss.c].copy == Some(Written(PlainOpen(s.server.file, ss.create).value, ss.writes[..n]))
  {
    var open := OpenActs(s, ss.c, ss.create);
    OpenRuns(s, ss.c, ss.create);
    WritesRun(Exec(s, open), ss.c, ss.writes[..n]);
    ExecAppend(s, open, WriteActs(ss.c, ss.writes[..n]));
  }

  lemma DirtyKeepsInv(s: State, c: ClientId, copy: Bytes)
    requires Quiet(s) && c in s.clients && s.clients[c].entry.Some?
    ensures Inv(SetClient(s, c, Client(Some(s.clients[c].entry.value.(dirty := true)), Some(copy), Idle)))
  {
    assert ClientOk(s, c);
    OwnStepInv(s, SetClient(s, c, Client(Some(s.clients[c].entry.value.(dirty := true)), Some(copy), Idle)), c);
  }

  /** One session takes the server's file where it takes the plain file, and leaves all quiet. */
  lemma SessionRuns(s: State, ss: Session)
    requires Quiet(s) && ss.c in s.clients
    requires forall w | w in ss.writes :: w.data != []
    requires PlainSession(s.server.file, ss).Some? ==> ZeroFree(PlainSession(s.server.file, ss).value)
    ensures Legal(s, SessionActs(s, ss))
    ensures var t := Exec(s, SessionActs(s, ss));
            Quiet(t) && t.clients.Keys == s.clients.Keys && t.server.file == PlainSession(s.server.file, ss)
  {
    var open, c := OpenActs(s, ss.c, ss.create), ss.c;
    OpenRuns(s, c, ss.create);
    if PlainOpen(s.server.file, ss.create).Some? {
      var u, x := Exec(s, open), PlainOpen(s.server.file, ss.create).value;
      assert ss.writes[..|ss.writes|] == ss.writes;
      WriteThenClose(s, u, c, x, ss.writes);
      var w := Exec(u, WriteActs(c, ss.writes));
      ExecAppend(s, open, WriteActs(c, ss.writes));
      ExecAppend(s, UpToWrite(s, ss, |ss.writes|), CloseActs(w, c));
    }
  }

  /** From the moment the file is open to the end of the session. */
  lemma WriteThenClose(s: State, u: State, c: ClientId, x: Bytes, ws: seq<Chunk>)
    requires OpenAt(s, u, c, x) && (forall w | w in ws :: w.data != []) && ZeroFree(Written(x, ws))
    ensures Legal(u, WriteActs(c, ws))
    ensures var w := Exec(u, WriteActs(c, ws));
            Legal(w, CloseActs(w, c)) &&
            var t := Exec(w, CloseActs(w, c));
            Quiet(t) && t.clients.Keys == s.clients.Keys && t.server.file == Some(Written(x, ws))
  {
    hide Exec, Legal, WriteActs, Inv, CloseActs;
    var w := Exec(u, WriteActs(c, ws));
    WritesRun(u, c, ws);
    if ws == [] {
      assert w.clients == u.clients;
      CloseCleanRuns(w, c);
    } else {
      WrittenNonEmpty(x, ws);
      DirtyKeepsInv(u, c, Written(x, ws));
      CloseDirtyRuns(w, c);
      QuietAfterUpload(w, c);
    }
  }

  // ---------- All sessions ----------

  /** Each session is by a known client, writes at least one byte per write, and leaves no zero byte in the plain file. */
  predicate Suitable(s: State, ss: seq<Session>) {
    forall k | 0 <= k < |ss| ::
      && ss[k].c in s.clients
      && (forall w | w in ss[k].writes :: w.data != [])
      && (Plain(s.server.file, ss[..k + 1]).Some? ==> ZeroFree(Plain(s.server.file, ss[..k + 1]).value))
  }

  /**
   * The refinement: after any sequence of non-overlapping sessions over any clients, the
   * server's file is the plain file with the same positioned writes applied in order.
   */
  lemma {:induction false} SessionsRefinePlainFile(s: State, ss: seq<Session>)
    requires Quiet(s) && Suitable(s, ss)
    ensures Legal(s, RunActs(s, ss))
    ensures var t := Exec(s, RunActs(s, ss));
            Quiet(t) && t.clients.Keys == s.clients.Keys && t.server.file == Plain(s.server.file, ss)
    decreases |ss|
  {
    if ss != [] {
      var before, last := ss[..|ss| - 1], ss[|ss| - 1];
      SuitableSplit(s, ss);
      SessionsRefinePlainFile(s, before);
      var u := Exec(s, RunActs(s, before));
      SessionRuns(u, last);
      ExecAppend(s, RunActs(s, before), SessionActs(u, last));
    }
  }

  lemma SuitableSplit(s: State, ss: seq<Session>)
    requires Suitable(s, ss) && ss != []
    ensures var before, last := ss[..|ss| - 1], ss[|ss| - 1];
            var after := PlainSession(Plain(s.server.file, before), last);
            && Suitable(s, before)
            && last.c in s.clients && (forall w | w in last.writes :: w.data != [])
            && (after.Some? ==> ZeroFree(after.value))
  {
    SuitablePrefix(s, ss, |ss| - 1);
    assert ss[..|ss|] == ss;
  }

  lemma SuitablePrefix(s: State, ss: seq<Session>, k: nat)
    requires Suitable(s, ss) && k <= |ss|
    ensures Suitable(s, ss[..k])
  {
    assert forall i | 0 <= i < k :: ss[..k][i] == ss[i] && ss[..k][..i + 1] == ss[..i + 1];
  }

  /** And what session `k` reads after its first `n` writes is what it would read from the plain file. */
  lemma SessionsReadPlainFile(s: State, ss: seq<Session>, k: nat, n: nat)
    requires Quiet(s) && Suitable(s, ss) && k < |ss| && n <= |ss[k].writes|
    requires PlainOpen(Plain(s.server.file, ss[..k]), ss[k].create).Some?
    ensures var u := Exec(s, RunActs(s, ss[..k]));
            var t := Exec(u, UpToWrite(u, ss[k], n));
            Legal(s, RunActs(s, ss[..k]) + UpToWrite(u, ss[k], n)) && ss[k].c in t.clients
            && t.clients[ss[k].c].copy ==
               Some(Written(PlainOpen(Plain(s.server.file, ss[..k]), ss[k].create).value, ss[k].writes[..n]))
  {
    SuitablePrefix(s, ss, k);
    SessionsRefinePlainFile(s, ss[..k]);
    var u := Exec(s, RunActs(s, ss[..k]));
    SessionReads(u, ss[k], n);
    ExecAppend(s, RunActs(s, ss[..k]), UpToWrite(u, ss[k], n));
  }

  /** Both from start-up, on any file without zero bytes or on none. */
  lemma SessionsFromStartUp(s: State, ss: seq<Session>)
    requires Init(s) && (s.server.file.Some? ==> ZeroFree(s.server.file.value)) && Suitable(s, ss)
    ensures Legal(s, RunActs(s, ss)) && Exec(s, RunActs(s, ss)).server.file == Plain(s.server.file, ss)
  {
    InitInv(s);
    assert Quiet(s);
    hide Quiet, Suitable, Exec, Legal, Plain, RunActs;
    SessionsRefinePlainFile(s, ss);
  }
}
