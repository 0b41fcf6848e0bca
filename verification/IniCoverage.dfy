/**
 * Nothing is missing among the documents: every text of complete lines that fit the parser's
 * buffer, without zero characters, is the text of one. So IniRoundTrip.ParseOfPrint says what the
 * parser does on all of these texts.
 */
module IniCoverage {
  import opened CText
  import opened Ini
  import opened IniRoundTrip

  // ---------- What the scan helpers leave on both sides ----------

  lemma {:induction false} IndentSplit(s: string)
    ensures AllSpaces(s[..Indent(s)])
    decreases |s|
  {
    if s != [] && IsSpace(s[0]) {
      IndentSplit(s[1..]);
      var n := Indent(s);
      assert s[..n] == [s[0]] + s[1..][..n - 1];
    }
  }

  lemma {:induction false} RStripSplit(s: string)
    ensures AllSpaces(s[|RStrip(s)|..])
    decreases |s|
  {
    var n := |s| - 1;
    if s != [] && IsSpace(s[n]) {
      RStripSplit(s[..n]);
      var k := |RStrip(s)|;
      assert s[k..] == s[..n][k..] + [s[n]];
    }
  }

  /** In front of where the scan stops the text is clear; there it is at its end, a sought character or a comment. */
  lemma {:induction false} StopSplit(s: string, chars: string, wasSpace: bool)
    ensures var e := Stop(s, chars, wasSpace);
            && Clear(s[..e], chars, wasSpace)
            && (e < |s| ==> s[e] in chars || (s[e] == ';' && if e == 0 then wasSpace else IsSpace(s[e - 1])))
    decreases |s|
  {
    var e := Stop(s, chars, wasSpace);
    if e > 0 {
      StopSplit(s[1..], chars, IsSpace(s[0]));
      var t := s[1..][..e - 1];
      forall i | 0 <= i < e ensures ClearAt(s[..e], chars, wasSpace, i) {
        if i > 0 {
          assert ClearAt(t, chars, IsSpace(s[0]), i - 1);
        }
      }
    }
  }

  /** The rest behind clear text is its inline comment. */
  lemma RestIsNote(s: string, chars: string)
    requires var e := Stop(s, chars, false); e < |s| ==> s[e] !in chars
    ensures var e := Stop(s, chars, false); Clear(s[..e], chars, false) && NoteOk(s[..e], s[e..]) && s[..e] + s[e..] == s
  {
    StopSplit(s, chars, false);
    hide Stop, Clear;
  }

  /** Text from its first to its last character that is not white space. */
  lemma TrimSplit(s: string)
    requires s == [] || !IsSpace(s[0])
    ensures var v := RStrip(s);
            Trimmed(v) && v + s[|v|..] == s && AllSpaces(s[|v|..]) && (s != [] ==> v != [] && v[0] == s[0])
  {
    hide RStrip, AllSpaces;
    RStripSplit(s);
    RStripPrefix(s);
    HeadKept(s);
  }

  lemma HeadKept(s: string)
    requires s == [] || !IsSpace(s[0])
    ensures s != [] ==> RStrip(s) != [] && RStrip(s)[0] == s[0]
  {
    hide RStrip;
    if s != [] {
      assert s == s[..1] + s[1..];
      RStripBehind(s[..1], s[1..]);
    }
  }

  // ---------- One line ----------

  lemma BracketLine(lead: string, core: string) returns (l: Line)
    requires core != [] && core[0] == '['
    ensures CoreOk(l) && l.lead == lead && Core(l) == core && (l.HeaderLine? || l.UnclosedLine?)
  {
    hide Stop, Clear, NoteOk;
    var t := core[1..];
    var e := Stop(t, "]", false);
    assert core == "[" + t;
    if e < |t| && t[e] == ']' {
      StopSplit(t, "]", false);
      l := HeaderLine(lead, t[..e], t[e + 1..]);
      assert t == t[..e] + ("]" + t[e + 1..]);
    } else {
      RestIsNote(t, "]");
      l := UnclosedLine(lead, t[..e], t[e..]);
    }
  }

  /** White space, value, white space. */
  lemma ValueInside(v: string) returns (gap: string, value: string, trail: string)
    requires Clear(v, "", false)
    ensures AllSpaces(gap) && Trimmed(value) && Clear(value, "", gap != []) && (value == [] ==> gap == [])
    ensures AllSpaces(trail) && gap + value + trail == v
    ensures v != [] && IsSpace(v[|v| - 1]) ==> trail != [] && trail[|trail| - 1] == v[|v| - 1]
  {
    hide RStrip, Indent, AllSpaces, Clear;
    var g := Indent(v);
    IndentSplit(v);
    if g == |v| {
      gap, value, trail := [], [], v;
      assert v[..g] == v;
      NothingSpecial();
    } else {
      var w := v[g..];
      TrimSplit(w);
      gap, value := v[..g], RStrip(w);
      trail := w[|value|..];
      ClearMiddle(v, g, |value|);
      assert value == w[..|value|] by { RStripPrefix(w); }
      assert v == gap + (value + trail);
      assert trail == [] ==> v[|v| - 1] == value[|value| - 1];
    }
  }

  lemma NothingSpecial()
    ensures AllSpaces([]) && Clear([], "", false)
  {}

  /** What follows a separator, taken apart. */
  lemma ValueParts(raw: string) returns (gap: string, value: string, trail: string, note: string)
    ensures AllSpaces(gap) && Trimmed(value) && Clear(value, "", gap != []) && (value == [] ==> gap == [])
    ensures AllSpaces(trail) && NoteOk(trail, note) && gap + value + trail + note == raw
  {
    hide Stop, AllSpaces, Clear, Trimmed;
    var f := Stop(raw, "", false);
    RestIsNote(raw, "");
    note := raw[f..];
    gap, value, trail := ValueInside(raw[..f]);
  }

  lemma ClearMiddle(v: string, g: nat, n: nat)
    requires Clear(v, "", false) && g + n <= |v| && AllSpaces(v[..g])
    ensures Clear(v[g..][..n], "", g > 0)
  {
    var t, spaced := v[g..][..n], g > 0;
    forall i | 0 <= i < |t| ensures ClearAt(t, "", spaced, i) {
      assert ClearAt(v, "", false, g + i);
      assert g > 0 ==> IsSpace(v[..g][g - 1]);
    }
  }

  /** A name and the white space behind it. */
  lemma NameParts(head: string) returns (name: string, pad: string)
    requires Clear(head, "=:", false) && (head == [] || !IsSpace(head[0]))
    ensures Trimmed(name) && Clear(name, "=:", false) && AllSpaces(pad) && name + pad == head
    ensures name == [] <==> head == []
  {
    hide Clear, RStrip, AllSpaces;
    TrimSplit(head);
    name, pad := RStrip(head), head[|RStrip(head)|..];
    ClearPrefix(head, "=:", false, |name|);
    assert head[..|name|] == name;
  }

  lemma PlainPair(lead: string, core: string) returns (l: Line)
    requires core != [] && !IsSpace(core[0]) && core[0] != '[' && core[0] != ';' && core[0] != '#'
    requires var e := Stop(core, "=:", false); e < |core| && (core[e] == '=' || core[e] == ':')
    ensures CoreOk(l) && l.lead == lead && Core(l) == core && l.PairLine?
  {
    hide Stop, Clear, AllSpaces, NoteOk, Trimmed;
    var e := Stop(core, "=:", false);
    StopSplit(core, "=:", false);
    var name, pad := NameParts(core[..e]);
    var gap, value, trail, note := ValueParts(core[e + 1..]);
    l := PairLine(lead, name, pad, core[e], gap, value, trail, note);
    assert core == core[..e] + ([core[e]] + core[e + 1..]);
    assert name != [] ==> name[0] == (name + pad)[0] == core[0];
  }

  lemma PlainLine(lead: string, core: string) returns (l: Line)
    requires core != [] && !IsSpace(core[0]) && core[0] != '[' && core[0] != ';' && core[0] != '#'
    ensures CoreOk(l) && l.lead == lead && Core(l) == core && (l.PairLine? || l.BareLine?)
  {
    var e := Stop(core, "=:", false);
    if e < |core| && (core[e] == '=' || core[e] == ':') {
      l := PlainPair(lead, core);
    } else {
      assert e > 0;
      assert e < |core| ==> core[e] !in "=:";
      RestIsNote(core, "=:");
      hide Stop, Clear, NoteOk;
      l := BareLine(lead, core[..e], core[e..]);
    }
  }

  lemma ContinuedLine(lead: string, core: string) returns (l: Line)
    requires core != [] && !IsSpace(core[0]) && core[0] != ';' && core[0] != '#'
    ensures CoreOk(l) && l.lead == lead && Core(l) == core && l.ContinuationLine?
  {
    TrimSplit(core);
    hide RStrip, AllSpaces;
    l := ContinuationLine(lead, RStrip(core), core[|RStrip(core)|..]);
  }

  /** Every line that fits the buffer is one of the lines. */
  lemma EveryLineIsWritten(s: string, named: bool, bom: bool) returns (l: Line)
    requires OneLine(s) && |s| + (if bom then 3 else 0) < MAX_LINE - 1
    ensures LineOk(l, named, bom) && Text(l) == s
  {
    var n := Indent(s);
    IndentSplit(s);
    hide Indent, CoreOk, Core, AllSpaces;
    var lead, core := s[..n], s[n..];
    assert s == lead + core;
    if core == [] {
      l := BlankLine(lead);
      BlankIs(lead);
    } else if core[0] == ';' || core[0] == '#' {
      l := CommentLine(lead, core[0], core[1..]);
      CommentIs(lead, core);
    } else if named && lead != [] {
      l := ContinuedLine(lead, core);
    } else if core[0] == '[' {
      l := BracketLine(lead, core);
    } else {
      l := PlainLine(lead, core);
    }
  }

  lemma BlankIs(lead: string)
    ensures CoreOk(BlankLine(lead)) && Core(BlankLine(lead)) == []
  {}

  lemma CommentIs(lead: string, core: string)
    requires core != [] && (core[0] == ';' || core[0] == '#')
    ensures var l := CommentLine(lead, core[0], core[1..]); CoreOk(l) && Core(l) == core
  {}

  // ---------- Whole texts ----------

  predicate TextLine(p: string) {
    FullLine(p) && ZERO !in p
  }

  lemma {:induction false} LinesExist(ps: seq<string>, bom: bool) returns (ls: seq<Line>)
    requires forall i | 0 <= i < |ps| :: TextLine(ps[i])
    requires bom == (ps != [] && HasBom(ps[0]))
    ensures LinesOk(bom, ls) && Written(bom, ls) == ps
    decreases |ps|
  {
    hide HasBom, LineOk, TextLine, Written, LinesOk, Text, NameOf;
    ls := [];
    if ps != [] {
      var n := |ps| - 1;
      var before := LinesExist(ps[..n], bom && n > 0);
      WrittenLength(bom && n > 0, before);
      var l := LastLine(ps[n], n, bom, NameOf(before) != []);
      ls := before + [l];
      assert n == 0 ==> before == [];
      LinesSnoc(bom, before, l);
      assert ps == ps[..n] + [ps[n]];
    } else {
      LinesSnoc(bom, [], BlankLine([]));
    }
  }

  lemma LinesSnoc(bom: bool, ls: seq<Line>, l: Line)
    ensures var n := |ls|;
            && (LinesOk(bom && n > 0, ls) && LineOk(l, NameOf(ls) != [], bom && n == 0) && (n == 0 && !bom ==> !HasBom(Text(l)))
                ==> LinesOk(bom, ls + [l]))
            && Written(bom, ls + [l]) ==
               Written(bom && n > 0, ls) + [(if bom && n == 0 then BOM else []) + Text(l) + [NEWLINE]]
    ensures LinesOk(bom, []) && Written(bom, []) == []
  {
    hide HasBom, LineOk, Text;
    assert (ls + [l])[..|ls|] == ls;
  }

  lemma {:induction false} WrittenLength(bom: bool, ls: seq<Line>)
    ensures |Written(bom, ls)| == |ls|
    decreases |ls|
  {
    hide Text;
    if ls != [] {
      WrittenLength(bom, ls[..|ls| - 1]);
    }
  }

  lemma LastLine(p: string, n: nat, bom: bool, named: bool) returns (l: Line)
    requires TextLine(p) && (n == 0 ==> bom == HasBom(p))
    ensures LineOk(l, named, bom && n == 0) && (n == 0 && !bom ==> !HasBom(Text(l)))
    ensures (if bom && n == 0 then BOM else []) + Text(l) + [NEWLINE] == p
  {
    hide LineOk, Text;
    var marked := bom && n == 0;
    var k := if marked then 3 else 0;
    assert marked ==> p[2] != NEWLINE && p[..3] == BOM;
    var s := p[k..|p| - 1];
    assert OneLine(s);
    l := EveryLineIsWritten(s, named, marked);
    assert p == p[..k] + s + [NEWLINE];
    assert n == 0 && !bom && HasBom(s) ==> HasBom(p);
  }

  /** Every text of complete lines that fit, without zero characters, is the text of a document. */
  lemma EveryTextIsDocument(text: string) returns (d: Document)
    requires forall i | 0 <= i < |Pieces(text)| :: TextLine(Pieces(text)[i])
    ensures DocumentOk(d) && Print(d) == text
  {
    var ps := Pieces(text);
    var bom := ps != [] && HasBom(ps[0]);
    PiecesConserveText(text);
    hide Pieces, HasBom, TextLine;
    var ls := LinesExist(ps, bom);
    d := Document(bom, ls);
  }
}
