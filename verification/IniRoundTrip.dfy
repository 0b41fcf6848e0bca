/**
 * The configuration text from the writer's side: documents made of every kind of line that the
 * format has, how they are written down, and what they mean, without reference to the parser.
 * Parsing what was written gives that meaning back.
 */
module IniRoundTrip {
  import opened CText
  import opened InjectionQueue
  import opened Ini

  /**
   * One line. `lead`, `pad`, `gap` and `trail` are white space; `note` is an inline comment from
   * its ';' on; `rest` behind a header and the text of a comment are anything.
   */
  datatype Line =
    | BlankLine(lead: string)
    | CommentLine(lead: string, mark: char, text: string)
    | HeaderLine(lead: string, name: string, rest: string)
    | PairLine(lead: string, name: string, pad: string, sep: char, gap: string, value: string, trail: string, note: string)
    | ContinuationLine(lead: string, value: string, trail: string)
    | UnclosedLine(lead: string, name: string, note: string)
    | BareLine(lead: string, text: string, note: string)

  /** `bom`: the text starts with a byte order mark. */
  datatype Document = Document(bom: bool, lines: seq<Line>)

  // ---------- Writing ----------

  const BOM: string := ['\U{EF}', '\U{BB}', '\U{BF}']

  /** The line behind its leading white space. */
  function Core(l: Line): string {
    match l
    case BlankLine(_) => []
    case CommentLine(_, mark, text) => [mark] + text
    case HeaderLine(_, name, rest) => "[" + (name + ("]" + rest))
    case PairLine(_, name, pad, sep, gap, value, trail, note) => name + pad + ([sep] + (gap + value + trail + note))
    case ContinuationLine(_, value, trail) => value + trail
    case UnclosedLine(_, name, note) => "[" + (name + note)
    case BareLine(_, text, note) => text + note
  }

  function Text(l: Line): string {
    l.lead + Core(l)
  }

  function Written(bom: bool, ls: seq<Line>): seq<string> {
    if ls == [] then []
    else
      var n := |ls| - 1;
      Written(bom, ls[..n]) + [(if bom && n == 0 then BOM else []) + Text(ls[n]) + [NEWLINE]]
  }

  function Print(d: Document): string {
    Join(Written(d.bom, d.lines))
  }

  // ---------- Meaning ----------

  /** What the parser's buffers keep of a name. */
  function First49(s: string): string {
    if |s| <= 49 then s else s[..49]
  }

  /** The section that the next line belongs to: the last header's name, none before the first header. */
  function SectionOf(ls: seq<Line>): string {
    if ls == [] then []
    else
      match ls[|ls| - 1]
      case HeaderLine(_, name, _) => First49(name)
      case _ => SectionOf(ls[..|ls| - 1])
  }

  /** The name that an indented line would continue: the last one since the last header. */
  function NameOf(ls: seq<Line>): string {
    if ls == [] then []
    else
      match ls[|ls| - 1]
      case HeaderLine(_, _, _) => []
      case PairLine(_, name, _, _, _, _, _, _) => First49(name)
      case _ => NameOf(ls[..|ls| - 1])
  }

  /** What the handler should be called with, in order. */
  function Calls(ls: seq<Line>): seq<Call> {
    if ls == [] then []
    else
      var before := ls[..|ls| - 1];
      match ls[|ls| - 1]
      case PairLine(_, name, _, _, _, value, _, _) => Calls(before) + [Call(SectionOf(before), name, value)]
      case ContinuationLine(_, value, _) => Calls(before) + [Call(SectionOf(before), NameOf(before), value)]
      case _ => Calls(before)
  }

  predicate Malformed(l: Line) {
    l.UnclosedLine? || l.BareLine?
  }

  /** The number of the first line that is malformed or rejected by the handler, 0 if there is none. */
  function FirstBad(ls: seq<Line>, h: Handler): nat {
    if ls == [] then 0
    else
      var earlier, l := FirstBad(ls[..|ls| - 1], h), ls[|ls| - 1];
      if earlier != 0 then earlier
      else if Malformed(l) || ((l.PairLine? || l.ContinuationLine?) && !h(Calls(ls))) then |ls|
      else 0
  }

  // ---------- Well-formed lines ----------

  /** The scan does not stop at position `i`: neither one of `chars` nor a ';' behind white space. */
  predicate ClearAt(s: string, chars: string, wasSpace: bool, i: nat)
    requires i < |s|
  {
    s[i] !in chars && !(s[i] == ';' && if i == 0 then wasSpace else IsSpace(s[i - 1]))
  }

  predicate Clear(s: string, chars: string, wasSpace: bool) {
    forall i | 0 <= i < |s| :: ClearAt(s, chars, wasSpace, i)
  }

  predicate Trimmed(s: string) {
    s != [] ==> !IsSpace(s[0]) && !IsSpace(s[|s| - 1])
  }

  /** An inline comment starts with a ';' behind white space. */
  predicate NoteOk(before: string, note: string) {
    note != [] ==> note[0] == ';' && before != [] && IsSpace(before[|before| - 1])
  }

  predicate OneLine(s: string) {
    NEWLINE !in s && ZERO !in s
  }

  /** A pair without value has its white space in `trail`; likewise without a name in `lead`. */
  predicate PairOk(l: Line)
    requires l.PairLine?
  {
    && (l.sep == '=' || l.sep == ':')
    && Trimmed(l.name) && Clear(l.name, "=:", false) && AllSpaces(l.pad) && (l.name == [] ==> l.pad == [])
    && (l.name != [] ==> l.name[0] != ';' && l.name[0] != '#' && l.name[0] != '[')
    && AllSpaces(l.gap) && Trimmed(l.value) && Clear(l.value, "", l.gap != []) && (l.value == [] ==> l.gap == [])
    && AllSpaces(l.trail) && NoteOk(l.trail, l.note)
  }

  predicate CoreOk(l: Line) {
    match l
    case BlankLine(_) => true
    case CommentLine(_, mark, _) => mark == ';' || mark == '#'
    case HeaderLine(_, name, _) => Clear(name, "]", false)
    case PairLine(_, _, _, _, _, _, _, _) => PairOk(l)
    case ContinuationLine(_, value, trail) =>
      value != [] && Trimmed(value) && value[0] != ';' && value[0] != '#' && AllSpaces(trail)
    case UnclosedLine(_, name, note) => Clear(name, "]", false) && NoteOk(name, note)
    case BareLine(_, text, note) =>
      && text != [] && !IsSpace(text[0]) && text[0] != ';' && text[0] != '#' && text[0] != '['
      && Clear(text, "=:", false) && NoteOk(text, note)
  }

  /** Once there is a name to continue, an indented line is a continuation unless it is blank or a comment. */
  predicate PlaceOk(l: Line, named: bool) {
    match l
    case BlankLine(_) => true
    case CommentLine(_, _, _) => true
    case ContinuationLine(lead, _, _) => named && lead != []
    case _ => named ==> l.lead == []
  }

  predicate LineOk(l: Line, named: bool, bom: bool) {
    && AllSpaces(l.lead) && CoreOk(l) && PlaceOk(l, named) && OneLine(Text(l))
    && |Text(l)| + (if bom then 3 else 0) < MAX_LINE - 1
  }

  predicate LinesOk(bom: bool, ls: seq<Line>) {
    ls == [] ||
    (var n := |ls| - 1;
     && LinesOk(bom, ls[..n])
     && LineOk(ls[n], NameOf(ls[..n]) != [], bom && n == 0)
     && (n == 0 && !bom ==> !HasBom(Text(ls[n]))))
  }

  predicate DocumentOk(d: Document) {
    LinesOk(d.bom, d.lines)
  }

  // ---------- The scan helpers on written text ----------

  /** The scan passes over clear text and stops at a sought character or at an inline comment. */
  lemma {:induction false} StopClear(s: string, chars: string, wasSpace: bool, rest: string)
    requires Clear(s, chars, wasSpace)
    requires rest == [] || rest[0] in chars || (rest[0] == ';' && if s == [] then wasSpace else IsSpace(s[|s| - 1]))
    ensures Stop(s + rest, chars, wasSpace) == |s|
    decreases |s|
  {
    var all := s + rest;
    if s == [] {
      assert all == rest;
    } else {
      assert all[0] == s[0] && all[1..] == s[1..] + rest;
      forall i | 0 <= i < |s| - 1 ensures ClearAt(s[1..], chars, IsSpace(s[0]), i) {
        assert ClearAt(s, chars, wasSpace, i + 1);
      }
      assert ClearAt(s, chars, wasSpace, 0);
      StopClear(s[1..], chars, IsSpace(s[0]), rest);
    }
  }

  lemma ClearPrefix(s: string, chars: string, wasSpace: bool, n: nat)
    requires Clear(s, chars, wasSpace) && n <= |s|
    ensures Clear(s[..n], chars, wasSpace)
  {
    var t := s[..n];
    forall i | 0 <= i < |t| ensures ClearAt(t, chars, wasSpace, i) {
      assert ClearAt(s, chars, wasSpace, i);
    }
  }

  /** White space around clear text is clear, if what follows white space does not start a comment. */
  lemma ClearSurrounded(a: string, s: string, b: string, chars: string)
    requires AllSpaces(a) && AllSpaces(b) && Clear(s, chars, a != []) && forall c | c in chars :: !IsSpace(c)
    ensures Clear(a + s + b, chars, false)
  {
    var all := a + s + b;
    forall i | 0 <= i < |all| ensures ClearAt(all, chars, false, i) {
      if |a| <= i < |a| + |s| {
        assert ClearAt(s, chars, a != [], i - |a|);
        assert all[i] == s[i - |a|];
        assert i > 0 ==> all[i - 1] == if i > |a| then s[i - 1 - |a|] else a[i - 1];
      } else {
        assert IsSpace(all[i]);
      }
    }
  }

  lemma RStripKeeps(s: string)
    requires s != [] ==> !IsSpace(s[|s| - 1])
    ensures RStrip(s) == s
  {}

  lemma {:induction false} RStripSpaces(s: string, w: string)
    requires AllSpaces(w)
    ensures RStrip(s + w) == RStrip(s)
    decreases |w|
  {
    if w == [] {
      assert s + w == s;
    } else {
      assert (s + w)[..|s + w| - 1] == s + w[..|w| - 1];
      RStripSpaces(s, w[..|w| - 1]);
    }
  }

  /** Stripping does not reach in front of a character that is not white space. */
  lemma {:induction false} RStripBehind(s: string, t: string)
    requires s != [] && !IsSpace(s[|s| - 1])
    ensures RStrip(s + t) == s + RStrip(t)
    decreases |t|
  {
    if t == [] {
      assert s + t == s;
      RStripKeeps(s);
    } else {
      assert (s + t)[..|s + t| - 1] == s + t[..|t| - 1];
      RStripBehind(s, t[..|t| - 1]);
    }
  }

  lemma {:induction false} IndentBehind(w: string, t: string)
    requires AllSpaces(w) && (t == [] || !IsSpace(t[0]))
    ensures Indent(w + t) == |w|
    decreases |w|
  {
    if w == [] {
      assert w + t == t;
    } else {
      assert (w + t)[1..] == w[1..] + t;
      IndentBehind(w[1..], t);
    }
  }

  lemma RStripPrefix(s: string)
    ensures RStrip(s) == s[..|RStrip(s)|]
  {}

  // ---------- What each line is ----------

  function KindOf(l: Line): Kind {
    match l
    case BlankLine(_) => Skip
    case CommentLine(_, _, _) => Skip
    case HeaderLine(_, name, _) => Header(name)
    case PairLine(_, name, _, _, _, value, _, _) => Pair(name, value)
    case ContinuationLine(_, value, _) => Continued(value)
    case UnclosedLine(_, _, _) => Unclosed
    case BareLine(_, _, _) => NoSeparator
  }

  lemma HeaderCore(name: string, rest: string)
    requires Clear(name, "]", false)
    ensures KindOfStart(RStrip("[" + (name + ("]" + rest))), false) == Header(name)
  {
    hide RStrip, Stop, Clear;
    var head := "[" + (name + "]");
    assert "[" + (name + ("]" + rest)) == head + rest;
    RStripBehind(head, rest);
    var start := head + RStrip(rest);
    assert start[1..] == name + ("]" + RStrip(rest));
    StopClear(name, "]", false, "]" + RStrip(rest));
    assert start[0] == '[' && start[1 + |name|] == ']' && start[1..1 + |name|] == name;
  }

  /** With an inline comment, the scan of clear text ends at its ';', whatever is stripped behind. */
  lemma StopsAtNote(first: string, text: string, chars: string, note: string)
    requires Clear(text, chars, false) && NoteOk(text, note) && note != []
    ensures var start := RStrip(first + (text + note));
            first + text <= start && Stop(start[|first|..], chars, false) == |text| < |start| - |first|
            && start[|first| + |text|] == ';'
  {
    hide RStrip, Stop, Clear;
    var tail := [';'] + RStrip(note[1..]);
    assert first + (text + note) == (first + text) + note;
    StripNote(first + text, note);
    var start := first + (text + tail);
    assert (first + text) + tail == start && start[|first|..] == text + tail;
    StopClear(text, chars, false, tail);
  }

  /** Without one, the scan of clear text runs to its end. */
  lemma StopsAtEnd(first: string, text: string, chars: string)
    requires Clear(text, chars, false) && first <= RStrip(first + text)
    ensures var start := RStrip(first + text);
            Stop(start[|first|..], chars, false) == |start| - |first|
  {
    hide RStrip, Stop, Clear;
    var start := RStrip(first + text);
    var n := |start| - |first|;
    RStripPrefix(first + text);
    assert start[|first|..] == text[..n];
    ClearPrefix(text, chars, false, n);
    StopClear(text[..n], chars, false, []);
    assert text[..n] + [] == text[..n];
  }

  lemma UnclosedCore(name: string, note: string)
    requires Clear(name, "]", false) && NoteOk(name, note)
    ensures KindOfStart(RStrip("[" + (name + note)), false) == Unclosed
  {
    hide RStrip, Stop, Clear, NoteOk;
    if note != [] {
      StopsAtNote("[", name, "]", note);
    } else {
      assert name + note == name;
      RStripBehind("[", name);
      StopsAtEnd("[", name, "]");
    }
  }

  lemma BareWithNote(text: string, note: string)
    requires Clear(text, "=:", false) && NoteOk(text, note) && note != []
    ensures var start := RStrip(text + note);
            text <= start && var end := Stop(start, "=:", false); end < |start| && start[end] == ';'
  {
    hide RStrip, Stop, Clear, NoteOk;
    var start := RStrip(text + note);
    assert [] + (text + note) == text + note && [] + text == text && start[0..] == start;
    StopsAtNote([], text, "=:", note);
  }

  lemma BareWithoutNote(text: string)
    requires Clear(text, "=:", false) && text != [] && !IsSpace(text[0])
    ensures var start := RStrip(text);
            start != [] && start[0] == text[0] && Stop(start, "=:", false) == |start|
  {
    hide RStrip, Stop, Clear;
    var start := RStrip(text);
    assert [] + text == text && start[0..] == start;
    StopsAtEnd([], text, "=:");
    assert text == text[..1] + text[1..];
    RStripBehind(text[..1], text[1..]);
  }

  lemma BareCore(text: string, note: string)
    requires text != [] && !IsSpace(text[0]) && text[0] != ';' && text[0] != '#' && text[0] != '['
    requires Clear(text, "=:", false) && NoteOk(text, note)
    ensures KindOfStart(RStrip(text + note), false) == NoSeparator
  {
    hide RStrip, Stop, Clear, NoteOk;
    if note != [] {
      BareWithNote(text, note);
      assert RStrip(text + note)[0] == text[0];
    } else {
      assert text + note == text;
      BareWithoutNote(text);
    }
  }

  /** The value that the parser takes from what follows the separator. */
  function ValuePart(raw: string): string {
    var v := raw[..Stop(raw, "", false)];
    RStrip(v[Indent(v)..])
  }

  /** Stripped on both sides, the value is left. */
  lemma ValueInside(gap: string, value: string, trail: string)
    requires AllSpaces(gap) && Trimmed(value) && AllSpaces(trail) && (value == [] ==> gap == [])
    ensures var v := gap + value + trail; RStrip(v[Indent(v)..]) == value
  {
    hide RStrip, Indent, AllSpaces;
    var v := gap + value + trail;
    if value == [] {
      assert v == trail + [];
      IndentBehind(trail, []);
      RStripKeeps([]);
    } else {
      assert v == gap + (value + trail);
      assert (value + trail)[0] == value[0];
      IndentBehind(gap, value + trail);
      assert v[|gap|..] == value + trail;
      RStripSpaces(value, trail);
      RStripKeeps(value);
    }
  }

  lemma ValueWithoutNote(gap: string, value: string, trail: string)
    requires AllSpaces(gap) && Trimmed(value) && Clear(value, "", gap != []) && AllSpaces(trail) && (value == [] ==> gap == [])
    ensures ValuePart(RStrip(gap + value + trail)) == value
  {
    hide RStrip, Stop, Clear, Indent, AllSpaces;
    var raw := gap + value;
    RStripSpaces(raw, trail);
    assert raw != [] ==> raw[|raw| - 1] == value[|value| - 1];
    RStripKeeps(raw);
    NoSpace();
    ClearSurrounded(gap, value, [], "");
    assert gap + value + [] == raw && raw + [] == raw && raw[..|raw|] == raw;
    StopClear(raw, "", false, []);
    ValueInside(gap, value, []);
  }

  lemma NoSpace()
    ensures AllSpaces([])
  {}

  /** Stripping stops at the latest at the ';' of an inline comment. */
  lemma StripNote(v: string, note: string)
    requires note != [] && note[0] == ';'
    ensures RStrip(v + note) == v + ([';'] + RStrip(note[1..]))
  {
    hide RStrip;
    var head := v + [';'];
    assert v + note == head + note[1..];
    RStripBehind(head, note[1..]);
    assert head + RStrip(note[1..]) == v + ([';'] + RStrip(note[1..]));
  }

  lemma ValueWithNote(gap: string, value: string, trail: string, note: string)
    requires AllSpaces(gap) && Trimmed(value) && Clear(value, "", gap != []) && AllSpaces(trail) && (value == [] ==> gap == [])
    requires NoteOk(trail, note) && note != []
    ensures ValuePart(RStrip(gap + value + trail + note)) == value
  {
    hide RStrip, Stop, Clear, Indent, AllSpaces, Trimmed;
    var v, tail := gap + value + trail, [';'] + RStrip(note[1..]);
    StripNote(v, note);
    ClearSurrounded(gap, value, trail, "");
    assert v[|v| - 1] == trail[|trail| - 1];
    StopClear(v, "", false, tail);
    assert (v + tail)[..|v|] == v;
    ValueInside(gap, value, trail);
  }

  lemma PairSplit(head: string, sep: char, raw: string)
    requires Clear(head, "=:", false) && (sep == '=' || sep == ':')
    ensures PairKind(head + ([sep] + raw)) == Pair(RStrip(head), ValuePart(raw))
  {
    var start := head + ([sep] + raw);
    assert [sep] + raw != [] && ([sep] + raw)[0] == sep && sep in "=:" by {
      assert "=:"[0] == '=' && "=:"[1] == ':';
    }
    StopClear(head, "=:", false, [sep] + raw);
    hide Stop, Clear, RStrip, Indent;
    assert start[|head|] == sep && start[|head| + 1..] == raw && start[..|head|] == head;
  }

  lemma PaddedClear(name: string, pad: string)
    requires Clear(name, "=:", false) && AllSpaces(pad)
    ensures Clear(name + pad, "=:", false)
  {
    assert [] + name + pad == name + pad;
    ClearSurrounded([], name, pad, "=:");
  }

  lemma PairCore(l: Line)
    requires l.PairLine? && PairOk(l)
    ensures KindOfStart(RStrip(Core(l)), false) == Pair(l.name, l.value)
  {
    hide RStrip, ValuePart, Clear, PairKind, AllSpaces, NoteOk;
    var head, raw := l.name + l.pad, l.gap + l.value + l.trail + l.note;
    assert Core(l) == (head + [l.sep]) + raw;
    RStripBehind(head + [l.sep], raw);
    assert (head + [l.sep]) + RStrip(raw) == head + ([l.sep] + RStrip(raw));
    PaddedClear(l.name, l.pad);
    PairSplit(head, l.sep, RStrip(raw));
    RStripSpaces(l.name, l.pad);
    RStripKeeps(l.name);
    if l.note == [] {
      assert raw == l.gap + l.value + l.trail;
      ValueWithoutNote(l.gap, l.value, l.trail);
    } else {
      ValueWithNote(l.gap, l.value, l.trail, l.note);
    }
    assert (head + ([l.sep] + RStrip(raw)))[0] == if l.name == [] then l.sep else l.name[0];
  }

  lemma CommentCore(mark: char, text: string, continues: bool)
    requires mark == ';' || mark == '#'
    ensures KindOfStart(RStrip([mark] + text), continues) == Skip
  {
    RStripBehind([mark], text);
  }

  lemma ContinuationCore(value: string, trail: string)
    requires value != [] && Trimmed(value) && value[0] != ';' && value[0] != '#' && AllSpaces(trail)
    ensures KindOfStart(RStrip(value + trail), true) == Continued(value)
  {
    RStripSpaces(value, trail);
    RStripKeeps(value);
  }

  lemma CoreKind(l: Line, named: bool, continues: bool)
    requires CoreOk(l) && PlaceOk(l, named) && continues == (named && l.lead != [])
    ensures KindOfStart(RStrip(Core(l)), continues) == KindOf(l)
  {
    hide RStrip, KindOfStart, Clear, AllSpaces, PairOk, NoteOk, Trimmed;
    match l
    case BlankLine(_) => NothingIsSkipped(continues);
    case CommentLine(_, mark, text) => CommentCore(mark, text, continues);
    case HeaderLine(_, name, rest) => HeaderCore(name, rest);
    case PairLine(_, _, _, _, _, _, _, _) => PairCore(l);
    case ContinuationLine(_, value, trail) => ContinuationCore(value, trail);
    case UnclosedLine(_, name, note) => UnclosedCore(name, note);
    case BareLine(_, text, note) => BareCore(text, note);
  }

  lemma NothingIsSkipped(continues: bool)
    ensures KindOfStart(RStrip([]), continues) == Skip
  {}

  /** The core of a line is empty or starts with a character that is not white space. */
  lemma CoreStarts(l: Line)
    requires CoreOk(l)
    ensures Core(l) == [] || !IsSpace(Core(l)[0])
  {
    hide Clear, AllSpaces, NoteOk;
    if l.PairLine? {
      assert Core(l)[0] == if l.name == [] then l.sep else l.name[0];
    }
  }

  lemma StripLead(lead: string, core: string)
    requires AllSpaces(lead) && (core == [] || !IsSpace(core[0]))
    ensures var body := RStrip(lead + core + [NEWLINE]);
            Indent(body) <= |body| && body[Indent(body)..] == RStrip(core) && (core != [] ==> Indent(body) == |lead|)
  {
    RStripSpaces(lead + core, [NEWLINE]);
    if core == [] {
      assert lead + core == [] + lead;
      RStripSpaces([], lead);
    } else {
      var k := lead + core[..1];
      assert lead + core == k + core[1..] && core == core[..1] + core[1..];
      RStripBehind(k, core[1..]);
      RStripBehind(core[..1], core[1..]);
      var rest := core[..1] + RStrip(core[1..]);
      assert k + RStrip(core[1..]) == lead + rest;
      IndentBehind(lead, rest);
      assert (lead + rest)[|lead|..] == rest;
    }
  }

  lemma WholeCString(s: string)
    requires ZERO !in s
    ensures CString(s) == s
  {
    assert s[..|s|] == s;
  }

  /** The mark that the parser drops is the one that was written. */
  lemma MarkDropped(bom: bool, text: string, lineno: nat)
    requires lineno >= 1 && (bom ==> lineno == 1) && (lineno == 1 && !bom ==> !HasBom(text))
    ensures var mark := if bom then BOM else [];
            var line := mark + text + [NEWLINE];
            BomLen(lineno, line) == |mark| && line[|mark|..] == text + [NEWLINE]
  {
    var mark := if bom then BOM else [];
    var line := mark + text + [NEWLINE];
    assert line == mark + (text + [NEWLINE]);
    assert line[|mark| + |text|] == NEWLINE && forall i | 0 <= i < |text| :: line[|mark| + i] == text[i];
  }

  lemma WrittenLineKind(l: Line, named: bool, bom: bool, lineno: nat)
    requires LineOk(l, named, bom) && lineno >= 1 && (bom ==> lineno == 1 && !named) && (lineno == 1 && !bom ==> !HasBom(Text(l)))
    ensures var line := (if bom then BOM else []) + Text(l) + [NEWLINE];
            Classify(lineno, named, CString(line)) == KindOf(l)
  {
    hide RStrip, Indent, KindOfStart, Core, CoreOk, CString, AllSpaces, HasBom, KindOf, PlaceOk;
    var mark := if bom then BOM else [];
    var line := mark + Text(l) + [NEWLINE];
    assert ZERO !in line;
    WholeCString(line);
    MarkDropped(bom, Text(l), lineno);
    CoreStarts(l);
    StripLead(l.lead, Core(l));
    CoreKind(l, named, named && l.lead != []);
    assert StartText(lineno, line) == RStrip(Core(l));
    if Core(l) == [] {
      EmptyIsSkipped(l, named, named && StartOffset(lineno, line) > 0);
    }
  }

  lemma EmptyIsSkipped(l: Line, named: bool, continues: bool)
    requires CoreOk(l) && PlaceOk(l, named) && Core(l) == []
    ensures KindOfStart(RStrip(Core(l)), continues) == KindOf(l)
  {
    assert l.BlankLine? by {
      hide Clear, AllSpaces, NoteOk;
    }
  }

  // ---------- The reader on written text ----------

  /** A line the reader returns whole. */
  predicate FullLine(l: string) {
    1 <= |l| < MAX_LINE && l[|l| - 1] == NEWLINE && forall i | 0 <= i < |l| - 1 :: l[i] != NEWLINE
  }

  lemma FirstPieceLen(l: string, rest: string)
    requires FullLine(l)
    ensures PieceLen(l + rest, MAX_LINE) == |l|
  {
    var text := l + rest;
    assert text[|l| - 1] == NEWLINE && forall i | 0 <= i < |l| - 1 :: text[i] == l[i];
    assert Find(text, NEWLINE) == |l| - 1 by { hide Find; }
  }

  lemma FirstPiece(l: string, rest: string)
    requires FullLine(l)
    ensures Pieces(l + rest) == [l] + Pieces(rest)
  {
    FirstPieceLen(l, rest);
    hide PieceLen;
    assert (l + rest)[..|l|] == l && (l + rest)[|l|..] == rest;
  }

  lemma {:induction false} PiecesOfLines(ls: seq<string>)
    requires forall i | 0 <= i < |ls| :: FullLine(ls[i])
    ensures Pieces(Join(ls)) == ls
    decreases |ls|
  {
    if ls != [] {
      PiecesOfLines(ls[1..]);
      hide Pieces, FullLine;
      FirstPiece(ls[0], Join(ls[1..]));
    }
  }

  lemma LineIsFull(l: Line, named: bool, bom: bool)
    requires LineOk(l, named, bom)
    ensures FullLine((if bom then BOM else []) + Text(l) + [NEWLINE])
  {
    hide CoreOk, PlaceOk, AllSpaces, Text;
    var line := (if bom then BOM else []) + Text(l) + [NEWLINE];
    forall i | 0 <= i < |line| - 1 ensures line[i] != NEWLINE {
      assert line[i] in (if bom then BOM else []) || line[i] in Text(l);
    }
  }

  lemma {:induction false} WrittenFull(bom: bool, ls: seq<Line>, i: nat)
    requires LinesOk(bom, ls) && i < |Written(bom, ls)|
    ensures FullLine(Written(bom, ls)[i])
    decreases |ls|
  {
    hide LineOk, FullLine;
    var n := |ls| - 1;
    if i < |Written(bom, ls[..n])| {
      WrittenFull(bom, ls[..n], i);
    } else {
      LineIsFull(ls[n], NameOf(ls[..n]) != [], bom && n == 0);
    }
  }

  // ---------- The run on written text ----------

  /** The parser's state that the lines mean. */
  function Meaning(ls: seq<Line>, h: Handler): Parse {
    Parse(SectionOf(ls), NameOf(ls), |ls|, FirstBad(ls, h), Calls(ls))
  }

  /** The parser's buffers keep 49 characters. */
  lemma TruncateIsFirst49(s: string)
    ensures Truncate(s, MAX_SECTION) == First49(s) && Truncate(s, MAX_NAME) == First49(s)
  {}

  lemma MeaningStep(ls: seq<Line>, l: Line, h: Handler)
    ensures Meaning(ls + [l], h) ==
            Act(Meaning(ls, h).(lineno := |ls| + 1), KindOf(l), h)
  {
    var all := ls + [l];
    assert all[..|ls|] == ls && all[|ls|] == l;
    if l.HeaderLine? || l.PairLine? {
      TruncateIsFirst49(l.name);
    }
    hide First49, Truncate;
  }

  lemma {:induction false} WrittenSteps(bom: bool, ls: seq<Line>, h: Handler)
    requires LinesOk(bom, ls)
    ensures Steps(START, Written(bom, ls), h) == Meaning(ls, h)
    decreases |ls|
  {
    hide Act, Step, Steps, Classify, LineOk, KindOf, HasBom, Written, SectionOf, NameOf, Calls, FirstBad, Text, CString;
    if ls == [] {
      MeaningStart(bom, h);
    } else {
      var n := |ls| - 1;
      var before, l := ls[..n], ls[n];
      var piece := (if bom && n == 0 then BOM else []) + Text(l) + [NEWLINE];
      WrittenSteps(bom, before, h);
      assert before + [l] == ls;
      MeaningStart(bom, h);
      MeaningStep(before, l, h);
      WrittenLineKind(l, NameOf(before) != [], bom && n == 0, n + 1);
      WrittenSnoc(bom, ls, h);
      StepIs(Meaning(before, h), piece, h);
    }
  }

  lemma MeaningStart(bom: bool, h: Handler)
    ensures NameOf([]) == [] && Steps(START, Written(bom, []), h) == START == Meaning([], h)
  {}

  lemma StepIs(st: Parse, piece: string, h: Handler)
    ensures Step(st, piece, h) ==
            Act(st.(lineno := st.lineno + 1), Classify(st.lineno + 1, st.prevName != [], CString(piece)), h)
  {
    hide Act, Classify, CString;
  }

  lemma WrittenSnoc(bom: bool, ls: seq<Line>, h: Handler)
    requires ls != []
    ensures var n := |ls| - 1;
            Steps(START, Written(bom, ls), h) ==
            Step(Steps(START, Written(bom, ls[..n]), h), (if bom && n == 0 then BOM else []) + Text(ls[n]) + [NEWLINE], h)
  {
    hide Step, Text;
    var n := |ls| - 1;
    assert Written(bom, ls)[..|Written(bom, ls)| - 1] == Written(bom, ls[..n]);
  }

  /**
   * Meaning: for every document and every handler, parsing the written text calls the handler
   * with exactly the options the document means, in order: pairs with either separator, stripped
   * and without inline comments, continuation lines under the last name, blank lines and comments
   * for nothing; and the result is the first malformed or rejected line.
   */
  lemma ParseOfPrint(d: Document, h: Handler)
    requires DocumentOk(d)
    ensures var st := Steps(START, Pieces(Print(d)), h);
            && st.calls == Calls(d.lines) && st.error == FirstBad(d.lines, h)
            && st.section == SectionOf(d.lines) && st.prevName == NameOf(d.lines)
  {
    hide FullLine, LinesOk, Steps;
    var ls := Written(d.bom, d.lines);
    forall i | 0 <= i < |ls| ensures FullLine(ls[i]) {
      WrittenFull(d.bom, d.lines, i);
    }
    PiecesOfLines(ls);
    WrittenSteps(d.bom, d.lines, h);
  }

  /** The handler accepts every one of these calls. */
  predicate AllAccepted(h: Handler, calls: seq<Call>) {
    forall k | 0 < k <= |calls| :: h(calls[..k])
  }

  lemma AllAcceptedSnoc(h: Handler, calls: seq<Call>, c: Call)
    ensures AllAccepted(h, calls + [c]) <==> AllAccepted(h, calls) && h(calls + [c])
  {
    var all := calls + [c];
    assert forall k | 0 < k <= |calls| :: all[..k] == calls[..k];
    assert all[..|all|] == all;
  }

  /** So the result is 0 if and only if no line is malformed and the handler accepts every option. */
  lemma {:induction false} NoBadIff(ls: seq<Line>, h: Handler)
    ensures FirstBad(ls, h) == 0 <==> (forall i | 0 <= i < |ls| :: !Malformed(ls[i])) && AllAccepted(h, Calls(ls))
    decreases |ls|
  {
    if ls != [] {
      var n := |ls| - 1;
      var before, l := ls[..n], ls[n];
      NoBadIff(before, h);
      assert (forall i | 0 <= i < |ls| :: !Malformed(ls[i])) <==>
             (forall i | 0 <= i < |before| :: !Malformed(before[i])) && !Malformed(l);
      hide AllAccepted, Malformed;
      if l.PairLine? {
        AllAcceptedSnoc(h, Calls(before), Call(SectionOf(before), l.name, l.value));
      } else if l.ContinuationLine? {
        AllAcceptedSnoc(h, Calls(before), Call(SectionOf(before), NameOf(before), l.value));
      }
    }
  }
}
