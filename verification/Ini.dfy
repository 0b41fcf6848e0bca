/**
 * The meaning of the configuration text, on values: how the reader cuts the text into lines,
 * what each line is, and what a whole run reports. IniParser.dfy does the same in place on
 * NUL-terminated buffers.
 */
module Ini {
  import opened Bytes
  import opened CText
  import opened InjectionQueue

  const MAX_LINE: nat := 200
  const MAX_SECTION: nat := 50
  const MAX_NAME: nat := 50
  const ZERO: char := '\0'

  // ---------- The string reader ----------

  /** How many characters the next read with a buffer of `num` takes. */
  function PieceLen(text: string, num: nat): (n: nat)
    requires text != [] && num >= 2
    ensures 1 <= n <= |text| && n <= num - 1
    ensures forall i | 0 <= i < n - 1 :: text[i] != NEWLINE
    ensures n < |text| && n < num - 1 ==> text[n - 1] == NEWLINE
  {
    var end := Find(text, NEWLINE);
    var line := if end < |text| then end + 1 else |text|;
    if line < num - 1 then line else num - 1
  }

  /** The pieces that repeated reads return. */
  function Pieces(text: string): seq<string>
    decreases |text|
  {
    if text == [] then []
    else var n := PieceLen(text, MAX_LINE); [text[..n]] + Pieces(text[n..])
  }

  function Join(ps: seq<string>): string {
    if ps == [] then [] else ps[0] + Join(ps[1..])
  }

  lemma JoinNothing()
    ensures Join([]) == []
  {}

  lemma JoinCons(p: string, ps: seq<string>)
    ensures Join([p] + ps) == p + Join(ps)
  {
    assert ([p] + ps)[1..] == ps;
  }

  /** Line reader conservation: nothing is lost, repeated or reordered. */
  lemma {:induction false} PiecesConserveText(text: string)
    ensures Join(Pieces(text)) == text
    decreases |text|
  {
    hide PieceLen, Join;
    if text == [] {
      JoinNothing();
    } else {
      var n := PieceLen(text, MAX_LINE);
      PiecesConserveText(text[n..]);
      JoinCons(text[..n], Pieces(text[n..]));
      assert text[..n] + text[n..] == text;
    }
  }

  /** Every piece has 1 to 199 characters and a newline at most as its last one. */
  lemma {:induction false} PieceShape(text: string, k: nat)
    requires k < |Pieces(text)|
    ensures var p := Pieces(text)[k];
            1 <= |p| < MAX_LINE && forall i | 0 <= i < |p| - 1 :: p[i] != NEWLINE
    decreases |text|
  {
    var n := PieceLen(text, MAX_LINE);
    if k > 0 {
      PieceShape(text[n..], k - 1);
    }
  }

  // ---------- Helpers on strings ----------

  /** A C string: what comes before the first zero character. */
  function CString(s: string): string {
    s[..Find(s, ZERO)]
  }

  function RStrip(s: string): (r: string)
    ensures r <= s && (r != [] ==> !IsSpace(r[|r| - 1]))
  {
    if s != [] && IsSpace(s[|s| - 1]) then RStrip(s[..|s| - 1]) else s
  }

  /** The number of leading white-space characters. */
  function Indent(s: string): (n: nat)
    ensures n <= |s| && (n < |s| ==> !IsSpace(s[n]))
  {
    if s != [] && IsSpace(s[0]) then 1 + Indent(s[1..]) else 0
  }

  /** The position of the first of `chars`, or of a ';' behind white space, or the length. */
  function Stop(s: string, chars: string, wasSpace: bool): (n: nat)
    ensures n <= |s|
  {
    if s == [] || s[0] in chars || (wasSpace && s[0] == ';') then 0
    else 1 + Stop(s[1..], chars, IsSpace(s[0]))
  }

  function Truncate(s: string, size: nat): string
    requires size > 0
  {
    if |s| < size then s else s[..size - 1]
  }

  // ---------- One line ----------

  datatype Kind =
    | Skip
    | Continued(value: string)
    | Header(section: string)
    | Unclosed
    | Pair(name: string, value: string)
    | NoSeparator

  predicate HasBom(line: string) {
    |line| >= 3 && line[0] == '\U{EF}' && line[1] == '\U{BB}' && line[2] == '\U{BF}'
  }

  /** Where the line proper starts: behind a byte order mark on the first line. */
  function BomLen(lineno: nat, line: string): nat {
    if lineno == 1 && HasBom(line) then 3 else 0
  }

  function HeaderKind(start: string): Kind
    requires start != []
  {
    var end := 1 + Stop(start[1..], "]", false);
    if end < |start| && start[end] == ']' then Header(start[1..end]) else Unclosed
  }

  function PairKind(start: string): Kind {
    var end := Stop(start, "=:", false);
    if end < |start| && (start[end] == '=' || start[end] == ':') then
      var raw := start[end + 1..];
      var v := raw[..Stop(raw, "", false)];
      Pair(RStrip(start[..end]), RStrip(v[Indent(v)..]))
    else NoSeparator
  }

  /** The line proper without white space at its end. */
  function Body(lineno: nat, line: string): string {
    RStrip(line[BomLen(lineno, line)..])
  }

  /** Where in the line its first character other than white space is. */
  function StartOffset(lineno: nat, line: string): nat {
    BomLen(lineno, line) + Indent(Body(lineno, line))
  }

  function StartText(lineno: nat, line: string): string {
    var body := Body(lineno, line);
    body[Indent(body)..]
  }

  /** What a line is; that depends on whether it is indented and a name is there to be continued. */
  function KindOfStart(start: string, continues: bool): Kind {
    if start == [] || start[0] == ';' || start[0] == '#' then Skip
    else if continues then Continued(start)
    else if start[0] == '[' then HeaderKind(start)
    else PairKind(start)
  }

  function Classify(lineno: nat, named: bool, line: string): Kind {
    KindOfStart(StartText(lineno, line), named && StartOffset(lineno, line) > 0)
  }

  // ---------- A whole run ----------

  /** The parser's state; `calls` is what the handler has been called with so far. */
  datatype Parse = Parse(section: string, prevName: string, lineno: nat, error: nat, calls: seq<Call>)

  const START: Parse := Parse([], [], 0, 0, [])

  /** Any handler: whether it accepts the last of the calls made so far. */
  type Handler = seq<Call> -> bool

  function Report(st: Parse, c: Call, h: Handler): Parse {
    var calls := st.calls + [c];
    st.(calls := calls, error := if !h(calls) && st.error == 0 then st.lineno else st.error)
  }

  function Fail(st: Parse): Parse {
    st.(error := if st.error == 0 then st.lineno else st.error)
  }

  function KindAt(st: Parse, piece: string): Kind {
    Classify(st.lineno + 1, st.prevName != [], CString(piece))
  }

  function Act(st: Parse, k: Kind, h: Handler): Parse {
    match k
    case Skip => st
    case Continued(value) => Report(st, Call(st.section, st.prevName, value), h)
    case Header(section) => st.(section := Truncate(section, MAX_SECTION), prevName := [])
    case Unclosed => Fail(st)
    case Pair(name, value) =>
      Report(st.(prevName := Truncate(name, MAX_NAME)), Call(st.section, name, value), h)
    case NoSeparator => Fail(st)
  }

  function Step(st: Parse, piece: string, h: Handler): Parse {
    Act(st.(lineno := st.lineno + 1), KindAt(st, piece), h)
  }

  function Steps(st: Parse, ps: seq<string>, h: Handler): Parse {
    if ps == [] then st else Step(Steps(st, ps[..|ps| - 1], h), ps[|ps| - 1], h)
  }

  // ---------- Run state, over any input ----------

  /** The kind of each line of the run. */
  function Kinds(ps: seq<string>, h: Handler): (ks: seq<Kind>)
    ensures |ks| == |ps|
  {
    if ps == [] then []
    else
      var before := ps[..|ps| - 1];
      Kinds(before, h) + [KindAt(Steps(START, before, h), ps[|ps| - 1])]
  }

  /** Line `j` is the last header. */
  predicate LastHeader(ks: seq<Kind>, j: nat) {
    j < |ks| && ks[j].Header? && forall m | j < m < |ks| :: !ks[m].Header?
  }

  /** Line `j` gives the last name, with no header since. */
  predicate LastName(ks: seq<Kind>, j: nat) {
    j < |ks| && ks[j].Pair? && forall m | j < m < |ks| :: !ks[m].Header? && !ks[m].Pair?
  }

  /** After lines of these kinds, `section` is the first 49 characters of the latest closed header. */
  ghost predicate SectionIs(ks: seq<Kind>, section: string) {
    if exists j: nat :: LastHeader(ks, j)
    then exists j: nat | LastHeader(ks, j) :: section == Truncate(ks[j].section, MAX_SECTION)
    else section == []
  }

  /** And `name` is the first 49 characters of the latest name since that header. */
  ghost predicate NameIs(ks: seq<Kind>, name: string) {
    if exists j: nat :: LastName(ks, j)
    then exists j: nat | LastName(ks, j) :: name == Truncate(ks[j].name, MAX_NAME)
    else name == []
  }

  lemma LastHeaderSnoc(ks: seq<Kind>, k: Kind, j: nat)
    ensures LastHeader(ks + [k], j) <==> if k.Header? then j == |ks| else LastHeader(ks, j)
  {
    var all := ks + [k];
    assert forall m | 0 <= m < |ks| :: all[m] == ks[m];
    assert all[|ks|] == k;
  }

  lemma LastNameSnoc(ks: seq<Kind>, k: Kind, j: nat)
    ensures LastName(ks + [k], j) <==>
            if k.Pair? then j == |ks| else if k.Header? then false else LastName(ks, j)
  {
    var all := ks + [k];
    assert forall m | 0 <= m < |ks| :: all[m] == ks[m];
    assert all[|ks|] == k;
  }

  lemma SectionSnoc(ks: seq<Kind>, k: Kind, section: string)
    requires SectionIs(ks, section)
    ensures SectionIs(ks + [k], if k.Header? then Truncate(k.section, MAX_SECTION) else section)
  {
    forall j: nat ensures LastHeader(ks + [k], j) <==> if k.Header? then j == |ks| else LastHeader(ks, j) {
      LastHeaderSnoc(ks, k, j);
    }
    if k.Header? {
      assert LastHeader(ks + [k], |ks|);
    } else if j: nat :| LastHeader(ks, j) && section == Truncate(ks[j].section, MAX_SECTION) {
      assert LastHeader(ks + [k], j) && (ks + [k])[j] == ks[j];
    }
  }

  lemma NameSnoc(ks: seq<Kind>, k: Kind, name: string)
    requires NameIs(ks, name)
    ensures NameIs(ks + [k], if k.Pair? then Truncate(k.name, MAX_NAME) else if k.Header? then [] else name)
  {
    forall j: nat
      ensures LastName(ks + [k], j) <==> if k.Pair? then j == |ks| else if k.Header? then false else LastName(ks, j)
    {
      LastNameSnoc(ks, k, j);
    }
    if k.Pair? {
      assert LastName(ks + [k], |ks|);
    } else if j: nat :| !k.Header? && LastName(ks, j) && name == Truncate(ks[j].name, MAX_NAME) {
      assert LastName(ks + [k], j) && (ks + [k])[j] == ks[j];
    }
  }

  /** What a line does to the section and the name to continue. */
  lemma StepNames(st: Parse, piece: string, h: Handler)
    ensures var t, k := Step(st, piece, h), KindAt(st, piece);
            && t.lineno == st.lineno + 1
            && t.section == (if k.Header? then Truncate(k.section, MAX_SECTION) else st.section)
            && t.prevName == (if k.Pair? then Truncate(k.name, MAX_NAME) else if k.Header? then [] else st.prevName)
  {
    hide KindAt, Truncate;
  }

  /**
   * Run state, over any input: after every line the section is the first 49 characters of the
   * latest closed header, and the name to continue the first 49 of the latest name since.
   */
  lemma {:induction false} RunState(ps: seq<string>, h: Handler)
    ensures var st := Steps(START, ps, h);
            st.lineno == |ps| && SectionIs(Kinds(ps, h), st.section) && NameIs(Kinds(ps, h), st.prevName)
    decreases |ps|
  {
    hide Classify;
    if ps == [] {
      assert forall j: nat :: !LastHeader([], j) && !LastName([], j);
    } else {
      var before := ps[..|ps| - 1];
      RunState(before, h);
      hide Step, KindAt, SectionIs, NameIs;
      var st, ks := Steps(START, before, h), Kinds(before, h);
      var k := KindAt(st, ps[|ps| - 1]);
      SectionSnoc(ks, k, st.section);
      NameSnoc(ks, k, st.prevName);
      StepNames(st, ps[|ps| - 1], h);
    }
  }

  /** What a line of this kind makes the handler be called with, if anything. */
  function CallOf(st: Parse, k: Kind): Option<Call> {
    match k
    case Continued(value) => Some(Call(st.section, st.prevName, value))
    case Pair(name, value) => Some(Call(st.section, name, value))
    case _ => None
  }

  /** A line is bad if it is malformed, or if the handler rejects the call it leads to. */
  predicate BadKind(st: Parse, k: Kind, h: Handler) {
    var c := CallOf(st, k);
    k.Unclosed? || k.NoSeparator? || (c.Some? && !h(st.calls + [c.value]))
  }

  predicate BadAt(st: Parse, piece: string, h: Handler) {
    BadKind(st, KindAt(st, piece), h)
  }

  predicate Bad(ps: seq<string>, h: Handler, i: nat)
    requires i < |ps|
  {
    BadAt(Steps(START, ps[..i], h), ps[i], h)
  }

  lemma StepError(st: Parse, piece: string, h: Handler)
    ensures Step(st, piece, h).error ==
            if st.error == 0 && BadAt(st, piece, h) then st.lineno + 1 else st.error
    ensures Step(st, piece, h).lineno == st.lineno + 1
    ensures Step(st, piece, h).calls ==
            var c := CallOf(st, KindAt(st, piece)); if c.Some? then st.calls + [c.value] else st.calls
  {
    hide Classify;
  }

  /** The result is the number of the first bad line, 0 if there is none. */
  lemma {:induction false} ErrorIsFirstBadLine(ps: seq<string>, h: Handler)
    ensures var st := Steps(START, ps, h);
            && st.lineno == |ps| && st.error <= |ps|
            && (st.error == 0 ==> forall i: nat | i < |ps| :: !Bad(ps, h, i))
            && (st.error > 0 ==> Bad(ps, h, st.error - 1) && forall i: nat | i < st.error - 1 :: !Bad(ps, h, i))
    decreases |ps|
  {
    hide Step, BadAt, KindAt, CallOf;
    if ps != [] {
      var before, n := ps[..|ps| - 1], |ps| - 1;
      ErrorIsFirstBadLine(before, h);
      StepError(Steps(START, before, h), ps[n], h);
      forall i: nat | i < n ensures Bad(ps, h, i) <==> Bad(before, h, i) {
        assert before[..i] == ps[..i];
      }
    }
  }

  lemma StepIndependent(st: Parse, st': Parse, piece: string, h: Handler, g: Handler)
    requires st.(error := 0) == st'.(error := 0)
    ensures Step(st, piece, h).(error := 0) == Step(st', piece, g).(error := 0)
  {
    hide Classify, Truncate;
  }

  /** The calls do not depend on what the handler answers. */
  lemma {:induction false} CallsIndependent(ps: seq<string>, h: Handler, g: Handler)
    ensures Steps(START, ps, h).(error := 0) == Steps(START, ps, g).(error := 0)
    decreases |ps|
  {
    hide Step;
    if ps != [] {
      var before := ps[..|ps| - 1];
      CallsIndependent(before, h, g);
      StepIndependent(Steps(START, before, h), Steps(START, before, g), ps[|ps| - 1], h, g);
    }
  }
}
