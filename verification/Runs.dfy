/** What the invariant gives over whole runs: any number of clients, any interleaving of their calls. */
module Runs {
  import opened Bytes
  import opened Protocol
  import opened Sessions

  /** The clients whose uploads were counted since the file was last removed, read off the actions alone. */
  function Uploads(acts: seq<Action>): seq<ClientId> {
    if acts == [] then []
    else
      var earlier, a := Uploads(acts[..|acts| - 1]), acts[|acts| - 1];
      if a.Bump? then earlier + [a.c] else if a.Remove? then [] else earlier
  }

  lemma {:induction false} LegalPrefix(s: State, acts: seq<Action>, i: nat)
    requires Legal(s, acts) && i <= |acts|
    ensures Legal(s, acts[..i])
    ensures i < |acts| ==> Enabled(Exec(s, acts[..i]), acts[i]) && Disciplined(Exec(s, acts[..i]), acts[i])
    ensures i < |acts| ==> Exec(s, acts[..i + 1]) == Apply(Exec(s, acts[..i]), acts[i])
    decreases |acts|
  {
    if i < |acts| {
      assert acts[..i + 1][..i] == acts[..i];
      if i + 1 < |acts| {
        LegalPrefix(s, acts[..|acts| - 1], i);
        assert acts[..|acts| - 1][..i] == acts[..i];
      }
    } else {
      assert acts[..i] == acts;
    }
  }

  /** The invariant at every moment of a run. */
  lemma InvAt(s: State, acts: seq<Action>, i: nat)
    requires Init(s) && Legal(s, acts) && i <= |acts|
    ensures Inv(Exec(s, acts[..i]))
  {
    InitInv(s);
    LegalPrefix(s, acts, i);
    ReachableInv(s, acts[..i]);
  }

  lemma {:induction false} SameClients(s: State, acts: seq<Action>)
    ensures Exec(s, acts).clients.Keys == s.clients.Keys
    decreases |acts|
  {
    if acts != [] {
      SameClients(s, acts[..|acts| - 1]);
    }
  }

  // ---------- The key invariant ----------

  /** The authors of the uploads that the clock counts. */
  function Counted(s: State): seq<ClientId>
    requires 0 <= s.server.clock <= |s.log.authors|
  {
    s.log.authors[..s.server.clock]
  }

  lemma CountedStep(s: State, a: Action)
    requires Inv(s) && Enabled(s, a) && Inv(Apply(s, a))
    ensures 0 <= s.server.clock <= |s.log.authors|
    ensures 0 <= Apply(s, a).server.clock <= |Apply(s, a).log.authors|
    ensures Counted(Apply(s, a)) ==
            if a.Bump? then Counted(s) + [a.c] else if a.Remove? then [] else Counted(s)
  {
    hide CutAtNul, LastOwn;
    assert ClientOk(s, a.c);
  }

  lemma {:induction false} CountedIsUploads(s: State, acts: seq<Action>)
    requires Init(s) && Legal(s, acts)
    ensures Inv(Exec(s, acts))
    ensures 0 <= Exec(s, acts).server.clock <= |Exec(s, acts).log.authors|
    ensures Counted(Exec(s, acts)) == Uploads(acts)
    decreases |acts|
  {
    InitInv(s);
    if acts != [] {
      var before, a := acts[..|acts| - 1], acts[|acts| - 1];
      CountedIsUploads(s, before);
      StepInv(Exec(s, before), a);
      CountedStep(Exec(s, before), a);
    }
  }

  /**
   * The server's clock is the number of uploads counted since the last removal, and along
   * every entry: entry clock <= number of the version its copy stems from <= server clock
   * (one more while that version's own upload waits to be counted). A clean copy is that version.
   */
  lemma ClockIsUploadCount(s: State, acts: seq<Action>, c: ClientId)
    requires Init(s) && Legal(s, acts) && c in s.clients
    ensures var t := Exec(s, acts);
            && t.server.clock == |Uploads(acts)|
            && c in t.clients && c in t.log.base
            && (t.clients[c].entry.Some? ==>
                  && t.server.file.Some? && t.clients[c].copy.Some?
                  && 0 <= t.clients[c].entry.value.clock <= t.log.base[c] < |t.log.versions|
                  && t.log.base[c] <= t.server.clock + (if t.server.busy.Some? then 1 else 0)
                  && (!Dirty(t.clients[c]) ==> t.clients[c].copy.value == Held(t.log, c, t.log.base[c])))
  {
    CountedIsUploads(s, acts);
    SameClients(s, acts);
    assert ClientOk(Exec(s, acts), c);
  }

  lemma HitIffOwn(s: State, c: ClientId)
    requires Inv(s) && c in s.clients && s.clients[c].phase.Idle?
    ensures 0 <= s.server.clock <= |s.log.authors|
    ensures Hit(s.clients[c], s.server) <==>
            s.clients[c].entry.Some? && (Counted(s) == [] || Counted(s)[|Counted(s)| - 1] == c)
  {
    assert ClientOk(s, c);
    if s.server.busy.Some? {
      assert ClientOk(s, s.server.busy.value);
    }
  }

  /**
   * Exact cache-hit condition: an open or create by an idle client is served from the local
   * copy if and only if the client has an entry and either nothing has been uploaded or the
   * most recent counted upload was its own.
   */
  lemma CacheHitIff(s: State, acts: seq<Action>, c: ClientId)
    requires Init(s) && Legal(s, acts) && c in s.clients
    ensures var t, ups := Exec(s, acts), Uploads(acts);
            c in t.clients &&
            (t.clients[c].phase.Idle? ==>
               (Hit(t.clients[c], t.server) <==>
                t.clients[c].entry.Some? && (ups == [] || ups[|ups| - 1] == c)))
  {
    CountedIsUploads(s, acts);
    SameClients(s, acts);
    if Exec(s, acts).clients[c].phase.Idle? {
      HitIffOwn(Exec(s, acts), c);
    }
  }

  /** Whether `c` has fetched since the last rename, read off the actions alone. */
  predicate FetchedSince(acts: seq<Action>, c: ClientId) {
    acts != [] &&
    var a := acts[|acts| - 1];
    a == Fetch(c) || (!a.Swap? && FetchedSince(acts[..|acts| - 1], c))
  }

  /** While a rename waits to be counted, the entry of another client is of the new version exactly if it fetched since. */
  predicate GapOk(s: State, c: ClientId, fetched: bool)
    requires c in s.clients && c in s.log.base
  {
    s.server.busy.Some? && s.server.busy != Some(c) && s.clients[c].entry.Some? ==>
      (s.log.base[c] == |s.log.versions| - 1 <==> fetched)
  }

  lemma GapStep(s: State, a: Action, c: ClientId, fetched: bool)
    requires Inv(s) && Enabled(s, a) && Disciplined(s, a) && c in s.clients && GapOk(s, c, fetched)
    ensures c in Apply(s, a).clients && c in Apply(s, a).log.base
    ensures GapOk(Apply(s, a), c, a == Fetch(c) || (!a.Swap? && fetched))
  {
    hide CutAtNul, LastOwn;
    assert ClientOk(s, c);
    assert ClientOk(s, a.c);
  }

  lemma {:induction false} GapRun(s: State, acts: seq<Action>, c: ClientId)
    requires Init(s) && Legal(s, acts) && c in s.clients
    ensures c in Exec(s, acts).clients && c in Exec(s, acts).log.base
    ensures Inv(Exec(s, acts)) && GapOk(Exec(s, acts), c, FetchedSince(acts, c))
    decreases |acts|
  {
    hide Apply, Inv, GapOk, Enabled, Disciplined;
    if acts == [] {
      InitInv(s);
      InitGap(s, c);
    } else {
      var before, a := acts[..|acts| - 1], acts[|acts| - 1];
      GapRun(s, before, c);
      StepInv(Exec(s, before), a);
      GapStep(Exec(s, before), a, c, FetchedSince(before, c));
    }
  }

  lemma InitGap(s: State, c: ClientId)
    requires Init(s) && c in s.clients
    ensures c in s.log.base && GapOk(s, c, false)
  {}

  /** In the gap a client that has uploaded itself can only hit on the version just replaced. */
  lemma HitInGap(s: State, c: ClientId)
    requires Inv(s) && c in s.clients && s.clients[c].phase.Idle? && Hit(s.clients[c], s.server)
    ensures c in s.log.base && s.server.busy != Some(c) && s.clients[c].entry.Some?
    ensures s.server.busy.None? ==> s.log.base[c] == |s.log.versions| - 1
    ensures s.server.busy.Some? && s.log.base[c] == |s.log.versions| - 1 ==> s.server.clock == 0
  {
    hide CutAtNul, LastOwn;
    assert ClientOk(s, c);
    if s.server.busy.Some? {
      assert ClientOk(s, s.server.busy.value);
    }
  }

  /**
   * Exactly when a hit is on the newest version, read off the run: either no rename waits to be
   * counted, or the file has never been uploaded before and the client fetched since the rename.
   * In the gap of any later upload every hit is on the version just replaced.
   */
  lemma HitIsNewestIff(s: State, acts: seq<Action>, c: ClientId)
    requires Init(s) && Legal(s, acts) && c in s.clients
    requires c in Exec(s, acts).clients
    requires Exec(s, acts).clients[c].phase.Idle? && Hit(Exec(s, acts).clients[c], Exec(s, acts).server)
    ensures var t := Exec(s, acts);
            c in t.log.base &&
            (t.log.base[c] == |t.log.versions| - 1 <==>
             t.server.busy.None? || (Uploads(acts) == [] && FetchedSince(acts, c)))
  {
    CountedIsUploads(s, acts);
    GapRun(s, acts, c);
    hide Inv, Exec, Legal, Uploads, FetchedSince;
    HitInGap(Exec(s, acts), c);
  }

  // ---------- Close-to-open consistency ----------

  /** `x` is what the server serves: its file, or the version a rename replaced while that upload is not yet counted. */
  predicate Serves(s: State, x: Bytes) {
    s.server.file == Some(x) ||
    (s.server.file.Some? && s.server.busy.Some? &&
     0 <= s.server.clock < |s.log.versions| && s.log.versions[s.server.clock] == x)
  }

  /** The call begun by the attribute request `acts[i]` returns success with `acts[j]`: at once, or after a fetch. */
  predicate OpenReturns(s: State, acts: seq<Action>, i: nat, j: nat) {
    && i <= j < |acts|
    && acts[i].Attr? && acts[j].c == acts[i].c
    && var t := Exec(s, acts[..j]);
       acts[i].c in t.clients &&
       if i == j then Hit(t.clients[acts[i].c], t.server)
       else acts[j].Fetch? && t.server.file.Some?
  }

  /** From `s` to `t` the incarnation only grows, and within one incarnation so do versions and clock. */
  predicate Grows(s: State, t: State) {
    && s.log.incarnation <= t.log.incarnation
    && (s.log.incarnation == t.log.incarnation ==>
          s.log.versions <= t.log.versions && s.server.clock <= t.server.clock)
  }

  lemma GrowsStep(s: State, a: Action)
    requires ServerOk(s)
    ensures Grows(s, Apply(s, a))
  {}

  lemma {:induction false} HistoryGrows(s: State, acts: seq<Action>, i: nat)
    requires Init(s) && Legal(s, acts) && i <= |acts|
    ensures Grows(Exec(s, acts[..i]), Exec(s, acts))
    decreases |acts|
  {
    if i == |acts| {
      assert acts[..i] == acts;
    } else {
      var before, a := acts[..|acts| - 1], acts[|acts| - 1];
      HistoryGrows(s, before, i);
      assert before[..i] == acts[..i];
      assert Grows(Exec(s, before), Exec(s, acts)) by {
        InitInv(s);
        ReachableInv(s, before);
        GrowsStep(Exec(s, before), a);
      }
    }
  }

  lemma GrowsBetween(s: State, acts: seq<Action>, i: nat, j: nat)
    requires Init(s) && Legal(s, acts) && i <= j <= |acts|
    ensures Grows(Exec(s, acts[..i]), Exec(s, acts[..j]))
  {
    LegalPrefix(s, acts, j);
    assert acts[..j][..i] == acts[..i];
    HistoryGrows(s, acts[..j], i);
  }

  /**
   * The client's copy is of a version that `s` serves and that the clock of `s` has counted or
   * is about to count; `t` is the state right after.
   */
  predicate HoldsServed(s: State, t: State, c: ClientId) {
    c in t.clients && c in t.log.base &&
    var cl := t.clients[c];
    && cl.phase.Idle? && cl.entry.Some? && cl.copy.Some?
    && t.log.versions == s.log.versions && t.log.incarnation == s.log.incarnation
    && s.server.clock <= t.log.base[c] < |t.log.versions|
    && cl.copy.value == Held(t.log, c, t.log.base[c])
    && Serves(s, t.log.versions[t.log.base[c]])
  }

  /** The step with which an open returns leaves a copy of what the server serves. */
  lemma ReturnIsServed(s: State, a: Action)
    requires Inv(s) && Enabled(s, a) && Inv(Apply(s, a))
    requires (a.Attr? && Hit(s.clients[a.c], s.server)) || (a.Fetch? && s.server.file.Some?)
    requires !Dirty(Apply(s, a).clients[a.c])
    ensures HoldsServed(s, Apply(s, a), a.c)
    ensures a.Fetch? ==> Apply(s, a).clients[a.c].copy == Some(CutAtNul(s.server.file.value))
                         && s.server.file.value == s.log.versions[Apply(s, a).log.base[a.c]]
  {
    hide CutAtNul, LastOwn;
    assert ClientOk(s, a.c);
    assert ClientOk(Apply(s, a), a.c);
  }

  /** The same where the open returns in a run. */
  lemma OpenReturnsServed(s: State, acts: seq<Action>, i: nat, j: nat, c: ClientId)
    requires Init(s) && Legal(s, acts) && OpenReturns(s, acts, i, j) && c == acts[i].c
    requires c in Exec(s, acts[..j + 1]).clients && !Dirty(Exec(s, acts[..j + 1]).clients[c])
    ensures i <= j < |acts| && HoldsServed(Exec(s, acts[..j]), Exec(s, acts[..j + 1]), c)
    ensures var t := Exec(s, acts[..j + 1]);
            i < j ==> t.clients[c].copy.value == CutAtNul(t.log.versions[t.log.base[c]])
  {
    InvAt(s, acts, j);
    InvAt(s, acts, j + 1);
    LegalPrefix(s, acts, j);
    hide Exec, Legal, Inv, Apply, CutAtNul, Init;
    ReturnIsServed(Exec(s, acts[..j]), acts[j]);
  }

  /**
   * Close-to-open: when an open or create of a path that is not dirty returns, the local copy
   * is a version that the server served at some moment of the call, and it is not older than
   * any upload that had been acknowledged when the call sent its attribute request. The copy is
   * the version cut at its first zero byte, unless that version is the client's own last upload,
   * which it holds whole and which no fetch returns.
   */
  lemma CloseToOpen(s: State, acts: seq<Action>, i: nat, j: nat, c: ClientId)
    requires Init(s) && Legal(s, acts) && OpenReturns(s, acts, i, j) && c == acts[i].c
    requires c in Exec(s, acts[..j + 1]).clients && !Dirty(Exec(s, acts[..j + 1]).clients[c])
    ensures var t := Exec(s, acts[..j + 1]);
            && t.clients[c].entry.Some? && t.clients[c].copy.Some?
            && c in t.log.base && t.log.base[c] < |t.log.versions|
            && var v := t.log.base[c];
               && t.clients[c].copy.value == Held(t.log, c, v)
               && (i < j ==> t.clients[c].copy.value == CutAtNul(t.log.versions[v]))
               && (exists m: nat | i <= m <= j :: Serves(Exec(s, acts[..m]), t.log.versions[v]))
               && (forall p: nat | p < i && acts[p].Bump? &&
                                   Exec(s, acts[..p + 1]).log.incarnation == t.log.incarnation ::
                     Exec(s, acts[..p + 1]).server.clock <= v
                     && Exec(s, acts[..p + 1]).log.versions <= t.log.versions)
  {
    hide Exec, Legal, Init, OpenReturns, Held, CutAtNul;
    OpenReturnsServed(s, acts, i, j, c);
    var t := Exec(s, acts[..j + 1]);
    forall p: nat | p < i && acts[p].Bump? && Exec(s, acts[..p + 1]).log.incarnation == t.log.incarnation
      ensures Exec(s, acts[..p + 1]).server.clock <= t.log.base[c]
      ensures Exec(s, acts[..p + 1]).log.versions <= t.log.versions
    {
      GrowsBetween(s, acts, p + 1, j);
    }
  }

  // ---------- Last closer wins ----------

  function Bumps(acts: seq<Action>): nat {
    if acts == [] then 0
    else Bumps(acts[..|acts| - 1]) + if acts[|acts| - 1].Bump? then 1 else 0
  }

  /**
   * Last closer wins: however the sessions overlap, once `acts[m]` was the last upload the
   * server's file is, byte for byte, the whole local copy that client had when it closed, and
   * without removals the clock has grown by exactly the number of counted uploads.
   */
  lemma {:induction false} LastCloserWins(s: State, acts: seq<Action>, m: nat)
    requires Init(s) && Legal(s, acts) && m < |acts| && acts[m].Swap?
    requires forall k | m < k < |acts| :: !acts[k].Swap?
    requires forall k | 0 <= k < |acts| :: !acts[k].Remove?
    ensures acts[m].c in Exec(s, acts[..m]).clients
    ensures Exec(s, acts).server.file == Exec(s, acts[..m]).clients[acts[m].c].copy
    ensures Exec(s, acts).server.file.Some?
    ensures Exec(s, acts).server.clock == Bumps(acts)
    decreases |acts|
  {
    var before, a := acts[..|acts| - 1], acts[|acts| - 1];
    LegalPrefix(s, acts, m);
    ClockGrowsByBumps(s, acts);
    if m < |acts| - 1 {
      assert before[..m] == acts[..m];
      LastCloserWins(s, before, m);
      FileOnlySwapped(Exec(s, before), a);
    } else {
      assert acts[..m] == before;
    }
  }

  lemma FileOnlySwapped(s: State, a: Action)
    requires s.server.file.Some? && !a.Swap? && !a.Remove?
    ensures Apply(s, a).server.file == s.server.file
  {}

  lemma {:induction false} ClockGrowsByBumps(s: State, acts: seq<Action>)
    requires Init(s) && Legal(s, acts)
    requires forall k | 0 <= k < |acts| :: !acts[k].Remove?
    ensures Exec(s, acts).server.clock == Bumps(acts)
    decreases |acts|
  {
    if acts != [] {
      ClockGrowsByBumps(s, acts[..|acts| - 1]);
    }
  }

  // ---------- Flush on close ----------

  predicate ByClient(a: Action, c: ClientId) {
    a.c == c
  }

  /** The client holds unsent writes: dirty, and no upload of them under way. */
  predicate Unsent(cl: Client) {
    Dirty(cl) && !cl.phase.Uploading? && !cl.phase.Replied?
  }

  lemma DirtyStep(s: State, a: Action, c: ClientId)
    requires Inv(s) && Enabled(s, a) && Disciplined(s, a) && c in s.clients && Unsent(s.clients[c])
    requires a.c == c ==> !a.Swap? && !a.Unlink?
    ensures c in Apply(s, a).clients && Unsent(Apply(s, a).clients[c])
  {
    assert ClientOk(s, c);
  }

  lemma WriteStepIsUnsent(s: State, a: Action)
    requires Enabled(s, a) && a.Write? && s.clients[a.c].entry.Some?
    ensures a.c in Apply(s, a).clients && Unsent(Apply(s, a).clients[a.c])
  {}

  lemma CleanStep(s: State, a: Action, c: ClientId)
    requires Inv(s) && Enabled(s, a) && c in s.clients && !Unsent(s.clients[c])
    requires a.c == c ==> !a.Write?
    ensures !Unsent(Apply(s, a).clients[c])
  {
    assert ClientOk(s, c);
  }

  lemma {:induction false} StaysDirty(s: State, acts: seq<Action>, k: nat, c: ClientId)
    requires Init(s) && Legal(s, acts) && k < |acts|
    requires acts[k].Write? && acts[k].c == c
    requires c in Exec(s, acts[..k]).clients && Exec(s, acts[..k]).clients[c].entry.Some?
    requires forall i | k < i < |acts| && ByClient(acts[i], c) :: !acts[i].Swap? && !acts[i].Unlink?
    ensures c in Exec(s, acts).clients && Unsent(Exec(s, acts).clients[c])
    decreases |acts|
  {
    var before, a := acts[..|acts| - 1], acts[|acts| - 1];
    if k < |acts| - 1 {
      assert before[..k] == acts[..k];
      StaysDirty(s, before, k, c);
      assert ByClient(a, a.c);
      InitInv(s);
      ReachableInv(s, before);
      DirtyStep(Exec(s, before), a, c);
    } else {
      WriteStepIsUnsent(Exec(s, before), a);
    }
  }

  // ---------- What was written reaches the server, unless the path is re-opened dirty ----------

  /** The client's writes from the k-th action on. */
  function WritesFrom(acts: seq<Action>, k: nat, c: ClientId): seq<Chunk> {
    if |acts| <= k then []
    else
      var earlier, a := WritesFrom(acts[..|acts| - 1], k, c), acts[|acts| - 1];
      if a.Write? && a.c == c then earlier + [Chunk(a.offset, a.data)] else earlier
  }

  /** The client fetches nothing from the k-th action on and before the m-th. */
  predicate NoFetch(acts: seq<Action>, k: nat, m: nat, c: ClientId)
    requires m <= |acts|
  {
    forall i | k <= i < m && ByClient(acts[i], c) :: !acts[i].Fetch?
  }

  lemma CopyStep(s: State, a: Action, c: ClientId)
    requires Enabled(s, a) && c in s.clients && (a.c == c ==> !a.Fetch?)
    ensures c in Apply(s, a).clients
    ensures Apply(s, a).clients[c].copy.Some? ==>
              && s.clients[c].copy.Some?
              && Apply(s, a).clients[c].copy.value ==
                 (if a.Write? && a.c == c then PWrite(s.clients[c].copy.value, a.offset, a.data)
                  else s.clients[c].copy.value)
  {
    hide PWrite;
  }

  /** Without a fetch, a copy is what it was with the client's own writes applied in order. */
  lemma {:induction false} UnsentCopy(s: State, acts: seq<Action>, k: nat, c: ClientId)
    requires Legal(s, acts) && k <= |acts| && c in s.clients && NoFetch(acts, k, |acts|, c)
    ensures c in Exec(s, acts[..k]).clients && c in Exec(s, acts).clients
    ensures var u, t := Exec(s, acts[..k]).clients[c], Exec(s, acts).clients[c];
            t.copy.Some? ==> u.copy.Some? && t.copy.value == Written(u.copy.value, WritesFrom(acts, k, c))
    decreases |acts|
  {
    SameClients(s, acts);
    SameClients(s, acts[..k]);
    hide Apply, Enabled, Disciplined, PWrite;
    if k == |acts| {
      assert acts[..k] == acts;
    } else {
      var before, a := acts[..|acts| - 1], acts[|acts| - 1];
      assert before[..k] == acts[..k];
      assert ByClient(a, a.c);
      UnsentCopy(s, before, k, c);
      CopyStep(Exec(s, before), a, c);
    }
  }

  /**
   * What was written reaches the server: if the client does not fetch between a write and its
   * upload, the file after the upload is the copy before that write with it and all of the
   * client's later writes applied in order, whatever the other clients do meanwhile.
   */
  lemma WritesReachServer(s: State, acts: seq<Action>, k: nat, m: nat, c: ClientId)
    requires Legal(s, acts) && k < m < |acts| && c in s.clients && acts[k].Write? && acts[k].c == c
    requires acts[m] == Swap(c) && NoFetch(acts, k, m, c)
    ensures c in Exec(s, acts[..k]).clients && Exec(s, acts[..k]).clients[c].copy.Some?
    ensures Exec(s, acts[..m + 1]).server.file ==
            Some(Written(Exec(s, acts[..k]).clients[c].copy.value, WritesFrom(acts[..m], k, c)))
  {
    LegalPrefix(s, acts, k);
    LegalPrefix(s, acts, m);
    assert acts[..m][..k] == acts[..k];
    hide Legal, Exec, Written, WritesFrom;
    UnsentCopy(s, acts[..m], k, c);
  }

  /** Open, and fetch at once if it is a miss. */
  function Reopened(s: State, c: ClientId): State {
    Apply(Apply(s, Attr(c, false)), Fetch(c))
  }

  /**
   * Exactly when re-opening a dirty path is harmless: it is a hit if and only if nothing has been
   * uploaded or the most recent counted upload was the client's own. Otherwise the fetch replaces
   * the unsent copy, which survives only if it is what the fetch stores.
   */
  lemma ReopenKeepsWritesIff(s: State, acts: seq<Action>, c: ClientId)
    requires Init(s) && Legal(s, acts) && c in s.clients && c in Exec(s, acts).clients
    requires Exec(s, acts).clients[c].phase.Idle? && Dirty(Exec(s, acts).clients[c])
    ensures var t, ups := Exec(s, acts), Uploads(acts);
            var own := ups == [] || ups[|ups| - 1] == c;
            && (Apply(t, Attr(c, false)).clients[c].phase.Idle? <==> own)
            && t.server.file.Some? && c in Reopened(t, c).clients
            && (Reopened(t, c).clients[c].copy == t.clients[c].copy <==>
                own || t.clients[c].copy == Some(CutAtNul(t.server.file.value)))
  {
    CacheHitIff(s, acts, c);
    CountedIsUploads(s, acts);
    hide CutAtNul, LastOwn, Exec, Legal, Uploads;
    assert ClientOk(Exec(s, acts), c);
  }

  /** Between a write and a finished close by the same client there is an upload by it. */
  lemma UploadBetween(s: State, acts: seq<Action>, k: nat, j: nat, c: ClientId) returns (m: nat)
    requires Init(s) && Legal(s, acts) && k < j < |acts|
    requires acts[k].Write? && acts[k].c == c
    requires c in Exec(s, acts[..k]).clients && Exec(s, acts[..k]).clients[c].entry.Some?
    requires acts[j] == Done(c) || acts[j] == CloseClean(c)
    requires forall i | k < i < j && ByClient(acts[i], c) :: !acts[i].Unlink?
    ensures k < m < j && acts[m] == Swap(c)
  {
    if forall i | k < i < j && ByClient(acts[i], c) :: !acts[i].Swap? {
      LegalPrefix(s, acts, j);
      assert acts[..j][..k] == acts[..k];
      StaysDirty(s, acts[..j], k, c);
      assert false;
    }
    m :| k < m < j && ByClient(acts[m], c) && acts[m].Swap?;
  }

  lemma SwapStores(s: State, c: ClientId)
    requires Enabled(s, Swap(c))
    ensures Apply(s, Swap(c)).server.file == s.clients[c].copy
  {}

  /**
   * Flush on close: once a client has written, none of its closes can finish before the whole
   * copy was uploaded; and with that copy the write itself, unless the client has fetched since.
   */
  lemma FlushOnClose(s: State, acts: seq<Action>, k: nat, j: nat, c: ClientId)
    requires Init(s) && Legal(s, acts) && k < j < |acts|
    requires acts[k].Write? && acts[k].c == c
    requires c in Exec(s, acts[..k]).clients && Exec(s, acts[..k]).clients[c].entry.Some?
    requires acts[j] == Done(c) || acts[j] == CloseClean(c)
    requires forall i | k < i < j && ByClient(acts[i], c) :: !acts[i].Unlink?
    ensures Exec(s, acts[..k]).clients[c].copy.Some?
    ensures exists m: nat | k < m < j && acts[m] == Swap(c) ::
              && c in Exec(s, acts[..m]).clients
              && Exec(s, acts[..m + 1]).server.file == Exec(s, acts[..m]).clients[c].copy
              && (NoFetch(acts, k, m, c) ==>
                    Exec(s, acts[..m + 1]).server.file ==
                    Some(Written(Exec(s, acts[..k]).clients[c].copy.value, WritesFrom(acts[..m], k, c))))
  {
    hide Exec, Legal, Apply, Written, WritesFrom, NoFetch, Disciplined, Init;
    var m := UploadBetween(s, acts, k, j, c);
    LegalPrefix(s, acts, k);
    LegalPrefix(s, acts, m);
    SwapStores(Exec(s, acts[..m]), c);
    SameClients(s, acts[..k]);
    if NoFetch(acts, k, m, c) {
      WritesReachServer(s, acts, k, m, c);
    }
  }

  lemma {:induction false} StaysClean(s: State, acts: seq<Action>, i: nat, c: ClientId)
    requires Init(s) && Legal(s, acts) && i < |acts| && acts[i] == Swap(c)
    requires forall k | i < k < |acts| && ByClient(acts[k], c) :: !acts[k].Write?
    ensures c in Exec(s, acts).clients && !Unsent(Exec(s, acts).clients[c])
    decreases |acts|
  {
    if i < |acts| - 1 {
      var before, a := acts[..|acts| - 1], acts[|acts| - 1];
      StaysClean(s, before, i, c);
      assert ByClient(a, a.c);
      InitInv(s);
      ReachableInv(s, before);
      CleanStep(Exec(s, before), a, c);
    }
  }

  /** Uploads happen once: between two uploads by the same client it has written again. */
  lemma FlushOnce(s: State, acts: seq<Action>, i: nat, j: nat, c: ClientId)
    requires Init(s) && Legal(s, acts) && i < j < |acts|
    requires acts[i] == Swap(c) && acts[j] == Swap(c)
    ensures exists k: nat | i < k < j && ByClient(acts[k], c) :: acts[k].Write?
  {
    if forall k | i < k < j && ByClient(acts[k], c) :: !acts[k].Write? {
      LegalPrefix(s, acts, j);
      StaysClean(s, acts[..j], i, c);
      assert false;
    }
  }
}
