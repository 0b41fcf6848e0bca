/**
 * Uploads of different paths interleaved message by message on one server disk, with crashes.
 * Every reachable state is one in which the server may stop.
 */
module AtomicReplace {
  import opened Bytes
  import opened Transfer

  function Temp(p: Path): Path {
    p + ".TMP"
  }

  /**
   * An upload in progress: its next message starts at `from`; all messages are in when
   * `complete`. `left` is history that no step reads: what the temporary file held at first.
   */
  datatype Upload = Upload(buf: Bytes, left: Bytes, from: nat, complete: bool)

  datatype Disk = Disk(files: map<Path, Bytes>, active: map<Path, Upload>)

  datatype Event =
    | Begin(p: Path, buf: Bytes)  // a put request arrives
    | Message(p: Path)            // one pwrite into the temporary file
    | Commit(p: Path)             // the rename
    | Crash                       // the server stops and restarts; the disk stays

  /** What an earlier upload of `p` left in its temporary file. */
  function Leftover(files: map<Path, Bytes>, p: Path): Bytes {
    if Temp(p) in files then files[Temp(p)] else []
  }

  /** The event can happen. Uploads in progress are of distinct target paths. */
  predicate Enabled(d: Disk, targets: set<Path>, e: Event) {
    match e
    case Begin(p, _) => p in targets && p !in d.active
    case Message(p) => p in d.active && !d.active[p].complete && d.active[p].from <= |d.active[p].buf|
    case Commit(p) => p in d.active && d.active[p].complete && Temp(p) in d.files
    case Crash => true
  }

  function Step(d: Disk, targets: set<Path>, e: Event): Disk {
    if !Enabled(d, targets, e) then d
    else
      match e
      case Begin(p, buf) => d.(active := d.active[p := Upload(buf, Leftover(d.files, p), 0, false)])
      case Message(p) =>
        var u := d.active[p];
        var m := Requests(p, u.buf, u.from)[0];
        Disk(d.files[Temp(p) := PWrite(Leftover(d.files, p), m.offset, m.buf)],
             d.active[p := if |u.buf| - u.from >= CHUNK_SIZE then u.(from := u.from + CHUNK_SIZE)
                           else u.(from := |u.buf|, complete := true)])
      case Commit(p) =>
        Disk(d.files[p := d.files[Temp(p)]] - {Temp(p)}, d.active - {p})
      case Crash => d.(active := map[])
  }

  function Run(d: Disk, targets: set<Path>, es: seq<Event>): Disk {
    if es == [] then d else Step(Run(d, targets, es[..|es| - 1]), targets, es[|es| - 1])
  }

  predicate Legal(d: Disk, targets: set<Path>, es: seq<Event>) {
    es == [] ||
    (var before := es[..|es| - 1];
     Legal(d, targets, before) && Enabled(Run(d, targets, before), targets, es[|es| - 1]))
  }

  // ---------- The specification, read off the events alone ----------

  /** Which event began the upload of `p` that is in progress after `es`. */
  function Begun(es: seq<Event>, p: Path): (r: Option<nat>)
    ensures r.Some? ==> r.value < |es| && es[r.value].Begin? && es[r.value].p == p
  {
    if es == [] then None
    else
      var before, e := Begun(es[..|es| - 1], p), es[|es| - 1];
      match e
      case Begin(q, _) => if q == p then Some(|es| - 1) else before
      case Message(_) => before
      case Commit(q) => if q == p then None else before
      case Crash => None
  }

  /** Which event began the upload of `p` that was last renamed into place. */
  function Committed(es: seq<Event>, p: Path): (r: Option<nat>)
    ensures r.Some? ==> r.value < |es| && es[r.value].Begin? && es[r.value].p == p
  {
    if es == [] then None
    else
      var before := es[..|es| - 1];
      if es[|es| - 1] == Commit(p) then Begun(before, p) else Committed(before, p)
  }

  /** What the temporary file of `p` held before the i-th event. */
  function LeftAt(first: Disk, targets: set<Path>, es: seq<Event>, i: nat, p: Path): Bytes
    requires i <= |es|
  {
    Leftover(Run(first, targets, es[..i]).files, p)
  }

  /**
   * What `p` should hold after `es`: what it held at first, or the whole buffer of the last
   * upload renamed into place, with what was left beyond its end in the temporary file.
   */
  function Expected(first: Disk, targets: set<Path>, es: seq<Event>, p: Path): Option<Bytes> {
    match Committed(es, p)
    case None => Lookup(first, p)
    case Some(i) => Some(Overlay(es[i].buf, LeftAt(first, targets, es, i, p)))
  }

  function Lookup(d: Disk, p: Path): Option<Bytes> {
    if p in d.files then Some(d.files[p]) else None
  }

  // ---------- The invariant ----------

  /** No target is the temporary file of a target. */
  predicate Separate(targets: set<Path>) {
    forall p | p in targets :: Temp(p) !in targets
  }

  /** The temporary file agrees with the buffer as far as messages have arrived, and beyond its end with what was left. */
  predicate UploadOk(d: Disk, p: Path, u: Upload) {
    var temp := Leftover(d.files, p);
    && u.from <= |u.buf|
    && (u.complete ==> u.from == |u.buf| && Temp(p) in d.files)
    && u.from <= |temp| && temp[..u.from] == u.buf[..u.from]
    && Overlay(u.buf, temp) == Overlay(u.buf, u.left)
  }

  predicate DiskOk(d: Disk, targets: set<Path>) {
    forall p | p in d.active :: p in targets && UploadOk(d, p, d.active[p])
  }

  lemma TempInjective(p: Path, q: Path)
    requires Temp(p) == Temp(q)
    ensures p == q
  {
    assert p == Temp(p)[..|Temp(p)| - 4] && q == Temp(q)[..|Temp(q)| - 4];
  }

  lemma MessageOk(d: Disk, targets: set<Path>, p: Path)
    requires DiskOk(d, targets) && Enabled(d, targets, Message(p))
    ensures DiskOk(Step(d, targets, Message(p)), targets)
  {
    hide PWrite, Overlay;
    var t, u := Step(d, targets, Message(p)), d.active[p];
    var to := u.from + Min(CHUNK_SIZE, |u.buf| - u.from);
    assert UploadOk(d, p, u);
    WriteExtendsPrefix(Leftover(d.files, p), u.buf, u.from, to);
    forall q | q in t.active ensures q in targets && UploadOk(t, q, t.active[q]) {
      assert UploadOk(d, q, d.active[q]);
      if q != p && Temp(q) == Temp(p) {
        TempInjective(p, q);
      }
    }
  }

  lemma CommitOk(d: Disk, targets: set<Path>, p: Path)
    requires DiskOk(d, targets) && Separate(targets) && Enabled(d, targets, Commit(p))
    ensures DiskOk(Step(d, targets, Commit(p)), targets)
    ensures Lookup(Step(d, targets, Commit(p)), p) == Some(Overlay(d.active[p].buf, d.active[p].left))
  {
    hide Overlay;
    var t, u := Step(d, targets, Commit(p)), d.active[p];
    assert UploadOk(d, p, u);
    assert u.buf[..|u.buf|] == u.buf;
    PrefixIsOverlay(Leftover(d.files, p), u.buf, u.left);
    forall q | q in t.active ensures q in targets && UploadOk(t, q, t.active[q]) {
      assert UploadOk(d, q, d.active[q]);
      assert p in targets && Temp(q) != p;
      if Temp(q) == Temp(p) {
        TempInjective(p, q);
      }
    }
  }

  lemma BeginOk(d: Disk, targets: set<Path>, e: Event)
    requires DiskOk(d, targets) && (e.Begin? || e.Crash?) && Enabled(d, targets, e)
    ensures DiskOk(Step(d, targets, e), targets)
  {
    var t := Step(d, targets, e);
    forall q | q in t.active ensures q in targets && UploadOk(t, q, t.active[q]) {
      assert q in d.active ==> UploadOk(d, q, d.active[q]);
    }
  }

  /** No event but its own commit touches a target path. */
  lemma OthersUntouched(d: Disk, targets: set<Path>, e: Event, p: Path)
    requires DiskOk(d, targets) && Separate(targets) && p in targets && e != Commit(p)
    ensures Lookup(Step(d, targets, e), p) == Lookup(d, p)
  {
    if e.Message? || e.Commit? {
      assert e.p in d.active ==> e.p in targets;
    }
  }

  /** The disk is where the events say: the target's contents, and the upload of it in progress. */
  predicate InSync(d: Disk, first: Disk, targets: set<Path>, es: seq<Event>, p: Path) {
    && Lookup(d, p) == Expected(first, targets, es, p)
    && match Begun(es, p)
       case None => p !in d.active
       case Some(i) => p in d.active && d.active[p].buf == es[i].buf && d.active[p].left == LeftAt(first, targets, es, i, p)
  }

  lemma RunSnoc(first: Disk, targets: set<Path>, es: seq<Event>, e: Event, i: nat, p: Path)
    requires i <= |es|
    ensures Run(first, targets, es + [e]) == Step(Run(first, targets, es), targets, e)
    ensures LeftAt(first, targets, es + [e], i, p) == LeftAt(first, targets, es, i, p)
    ensures LeftAt(first, targets, es, |es|, p) == Leftover(Run(first, targets, es).files, p)
  {
    hide Step;
    assert (es + [e])[..|es|] == es && (es + [e])[..i] == es[..i] && es[..|es|] == es;
  }

  lemma BegunSnoc(es: seq<Event>, e: Event, p: Path)
    ensures Begun(es + [e], p) ==
            match e
            case Begin(q, _) => if q == p then Some(|es|) else Begun(es, p)
            case Message(_) => Begun(es, p)
            case Commit(q) => if q == p then None else Begun(es, p)
            case Crash => None
    ensures Committed(es + [e], p) == if e == Commit(p) then Begun(es, p) else Committed(es, p)
  {
    assert (es + [e])[..|es|] == es;
  }

  /** How an event changes the upload of `p` in progress. */
  lemma ActiveStep(d: Disk, targets: set<Path>, e: Event, p: Path)
    requires Enabled(d, targets, e)
    ensures var t := Step(d, targets, e);
            if e.Crash? || e == Commit(p) then p !in t.active
            else if e.Begin? && e.p == p then
              p in t.active && t.active[p].buf == e.buf && t.active[p].left == Leftover(d.files, p)
            else
              && (p in t.active <==> p in d.active)
              && (p in d.active ==> t.active[p].buf == d.active[p].buf && t.active[p].left == d.active[p].left)
  {
    hide PWrite, Requests;
  }

  lemma SyncStep(first: Disk, targets: set<Path>, es: seq<Event>, e: Event, p: Path)
    requires Separate(targets) && p in targets
    requires var d := Run(first, targets, es);
             DiskOk(d, targets) && Enabled(d, targets, e) && InSync(d, first, targets, es, p)
    ensures InSync(Run(first, targets, es + [e]), first, targets, es + [e], p)
  {
    var d := Run(first, targets, es);
    if e == Commit(p) {
      CommitOk(d, targets, p);
    } else {
      OthersUntouched(d, targets, e, p);
    }
    ActiveStep(d, targets, e, p);
    BegunSnoc(es, e, p);
    hide Overlay, Step, Run, DiskOk, Enabled, Begun, Committed, LeftAt;
    var b, c := Begun(es, p), Committed(es, p);
    RunSnoc(first, targets, es, e, if b.Some? then b.value else 0, p);
    RunSnoc(first, targets, es, e, if c.Some? then c.value else 0, p);
    RunSnoc(first, targets, es, e, |es|, p);
  }

  lemma {:induction false} Synced(first: Disk, targets: set<Path>, es: seq<Event>)
    requires first.active == map[] && Separate(targets) && Legal(first, targets, es)
    ensures DiskOk(Run(first, targets, es), targets)
    ensures forall p | p in targets :: InSync(Run(first, targets, es), first, targets, es, p)
    decreases |es|
  {
    hide Enabled, Step;
    if es != [] {
      var before, e := es[..|es| - 1], es[|es| - 1];
      Synced(first, targets, before);
      var d := Run(first, targets, before);
      assert before + [e] == es;
      match e {
        case Message(p) => MessageOk(d, targets, p);
        case Commit(p) => CommitOk(d, targets, p);
        case _ => BeginOk(d, targets, e);
      }
      forall p | p in targets ensures InSync(Run(first, targets, es), first, targets, es, p) {
        SyncStep(first, targets, before, e, p);
      }
    }
  }

  /**
   * Atomic replacement: in every state of every interleaving, crashes included, each target
   * path holds exactly what it held at first, or the complete buffer of the last upload that
   * was renamed into place followed only by what lay beyond its end in the temporary file.
   */
  lemma AtomicReplacement(first: Disk, targets: set<Path>, es: seq<Event>, p: Path)
    requires first.active == map[] && Separate(targets) && Legal(first, targets, es) && p in targets
    ensures Lookup(Run(first, targets, es), p) == Expected(first, targets, es, p)
  {
    Synced(first, targets, es);
  }

  /**
   * Hence never a prefix or a mixture, if and only if the upload found no temporary file longer
   * than its buffer: exactly then does the path hold the buffer and nothing else.
   */
  lemma ReplacedExactlyIff(first: Disk, targets: set<Path>, es: seq<Event>, p: Path)
    requires first.active == map[] && Separate(targets) && Legal(first, targets, es) && p in targets
    ensures match Committed(es, p)
            case None => Lookup(Run(first, targets, es), p) == Lookup(first, p)
            case Some(i) =>
              Lookup(Run(first, targets, es), p) == Some(es[i].buf) <==>
              |LeftAt(first, targets, es, i, p)| <= |es[i].buf|
  {
    AtomicReplacement(first, targets, es, p);
  }

  // ---------- Without crashes ----------

  /** The only temporary files of targets are those of uploads in progress. */
  predicate Tidy(d: Disk, targets: set<Path>) {
    forall p | p in targets && Temp(p) in d.files :: p in d.active
  }

  lemma TidyStep(d: Disk, targets: set<Path>, e: Event)
    requires DiskOk(d, targets) && Separate(targets) && Tidy(d, targets) && Enabled(d, targets, e) && !e.Crash?
    ensures Tidy(Step(d, targets, e), targets)
  {
    hide PWrite, Requests;
    var t := Step(d, targets, e);
    forall q | q in targets && Temp(q) in t.files ensures q in t.active {
      if e.Message? && Temp(q) == Temp(e.p) {
        TempInjective(q, e.p);
      }
      assert e.Commit? ==> e.p in targets && Temp(q) != e.p;
    }
  }

  lemma {:induction false} TidyRun(first: Disk, targets: set<Path>, es: seq<Event>)
    requires first.active == map[] && Separate(targets) && Legal(first, targets, es) && Tidy(first, targets)
    requires forall k | 0 <= k < |es| :: !es[k].Crash?
    ensures Tidy(Run(first, targets, es), targets)
    decreases |es|
  {
    hide Step, Enabled, Tidy, Separate, DiskOk, InSync;
    if es != [] {
      var before := es[..|es| - 1];
      TidyRun(first, targets, before);
      Synced(first, targets, before);
      TidyStep(Run(first, targets, before), targets, es[|es| - 1]);
    }
  }

  lemma {:induction false} LegalPrefix(first: Disk, targets: set<Path>, es: seq<Event>, i: nat)
    requires Legal(first, targets, es) && i < |es|
    ensures Legal(first, targets, es[..i]) && Enabled(Run(first, targets, es[..i]), targets, es[i])
    decreases |es|
  {
    hide Step, Enabled;
    if i < |es| - 1 {
      LegalPrefix(first, targets, es[..|es| - 1], i);
      assert es[..|es| - 1][..i] == es[..i];
    }
  }

  /**
   * As long as the server does not stop, and it started without temporary files of the targets,
   * no upload ever finds a leftover: in every state of every interleaving each path holds what it
   * held at first or exactly the complete buffer of the last upload renamed into place.
   */
  lemma ExactWithoutCrash(first: Disk, targets: set<Path>, es: seq<Event>, p: Path)
    requires first.active == map[] && Separate(targets) && Legal(first, targets, es) && p in targets
    requires Tidy(first, targets) && forall k | 0 <= k < |es| :: !es[k].Crash?
    ensures Lookup(Run(first, targets, es), p) ==
            match Committed(es, p)
            case None => Lookup(first, p)
            case Some(i) => Some(es[i].buf)
  {
    AtomicReplacement(first, targets, es, p);
    hide Run, Legal, Separate, Committed;
    if Committed(es, p).Some? {
      var i := Committed(es, p).value;
      LegalPrefix(first, targets, es, i);
      TidyRun(first, targets, es[..i]);
      assert LeftAt(first, targets, es, i, p) == [];
    }
  }

  /**
   * Why the leftover matters: the temporary file is opened without truncation. The server stops
   * after the only message of a three-byte upload; the next upload, of one byte, then replaces
   * the file with a mixture of the two.
   */
  lemma LeftoverMakesMixture()
    ensures var first := Disk(map[], map[]);
            var stopped := Step(Step(Step(first, {"f"}, Begin("f", [1, 2, 3])), {"f"}, Message("f")), {"f"}, Crash);
            var again := Step(Step(stopped, {"f"}, Begin("f", [9])), {"f"}, Message("f"));
            Lookup(Step(again, {"f"}, Commit("f")), "f") == Some([9, 2, 3])
  {
    var first := Disk(map[], map[]);
    var begun := Step(first, {"f"}, Begin("f", [1, 2, 3]));
    OneMessage(begun, "f");
    assert PWrite([], 0, [1, 2, 3]) == [1, 2, 3];
    var stopped := Step(Step(begun, {"f"}, Message("f")), {"f"}, Crash);
    assert stopped == Disk(map[Temp("f") := [1, 2, 3]], map[]);
    assert PWrite([1, 2, 3], 0, [9]) == [9, 2, 3];
    OneMessage(Step(stopped, {"f"}, Begin("f", [9])), "f");
  }

  /** A buffer shorter than a chunk arrives in one message. */
  lemma OneMessage(d: Disk, p: Path)
    requires p in d.active && !d.active[p].complete && d.active[p].from == 0 && |d.active[p].buf| < CHUNK_SIZE
    ensures var t, u := Step(d, {p}, Message(p)), d.active[p];
            && t.files == d.files[Temp(p) := PWrite(Leftover(d.files, p), 0, u.buf)]
            && t.active == d.active[p := u.(from := |u.buf|, complete := true)]
  {
    var buf := d.active[p].buf;
    assert Requests(p, buf, 0)[0] == WriteRequest(p, buf, |buf|, 0);
  }
}
