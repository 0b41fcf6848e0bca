/**
 * The parser as it works: on NUL-terminated character buffers, in place. Every helper is proved
 * against its counterpart on strings in Ini.dfy; indices stay in bounds and buffers terminated.
 */
module IniParser {
  import opened CText
  import opened InjectionQueue
  import opened Ini
  import IniRoundTrip

  /** The C string that starts at index `i`. */
  function Str(s: seq<char>, i: nat): string
    requires i <= |s|
  {
    CString(s[i..])
  }

  /** There is a zero character at or behind index `i`. */
  predicate Terminated(s: seq<char>, i: nat) {
    i <= |s| && i + |Str(s, i)| < |s|
  }

  lemma StrAt(s: seq<char>, i: nat, n: nat)
    requires i + n < |s| && s[i + n] == ZERO && forall j | i <= j < i + n :: s[j] != ZERO
    ensures Terminated(s, i) && Str(s, i) == s[i..i + n]
  {
    var t := s[i..];
    assert t[n] == ZERO && forall j | 0 <= j < n :: t[j] == s[i + j];
    assert t[..n] == s[i..i + n];
  }

  /** The characters of a terminated string and its terminator. */
  lemma StrChars(s: seq<char>, i: nat)
    requires Terminated(s, i)
    ensures var n := |Str(s, i)|;
            && i + n < |s| && Str(s, i) == s[i..i + n] && s[i + n] == ZERO
            && forall j | i <= j < i + n :: s[j] != ZERO && s[j] == Str(s, i)[j - i]
  {
    var t := s[i..];
    var n := Find(t, ZERO);
    assert forall j | i <= j < i + n :: s[j] == t[j - i];
    assert t[..n] == s[i..i + n] && t[n] == s[i + n];
  }

  /** One character of a terminated string. */
  lemma CharAt(s: seq<char>, i: nat, k: nat)
    requires Terminated(s, i) && k <= |Str(s, i)|
    ensures i + k < |s| && s[i + k] == if k < |Str(s, i)| then Str(s, i)[k] else ZERO
    ensures k < |Str(s, i)| ==> s[i + k] != ZERO
  {
    StrChars(s, i);
  }

  /** A later start in the same string. */
  lemma StrTail(s: seq<char>, i: nat, k: nat)
    requires Terminated(s, i) && k <= |Str(s, i)|
    ensures Terminated(s, i + k) && Str(s, i + k) == Str(s, i)[k..]
  {
    StrChars(s, i);
    var n := |Str(s, i)|;
    StrAt(s, i + k, n - k);
  }

  // ---------- The in-place helpers ----------

  /** `*p = 0` inside a string cuts it there. */
  method CutAt(a: array<char>, s: nat, p: nat)
    requires Terminated(a[..], s) && s <= p <= s + |Str(a[..], s)|
    modifies a
    ensures Terminated(a[..], s) && Str(a[..], s) == old(Str(a[..], s))[..p - s]
    ensures forall j | 0 <= j < a.Length && j != p :: a[j] == old(a[j])
  {
    StrChars(a[..], s);
    hide Find, CString;
    if a[p] != ZERO {
      a[p] := ZERO;
    }
    StrAt(a[..], s, p - s);
  }

  lemma RStripFrom(s: string, k: nat)
    requires k <= |s|
    ensures RStrip(s[..k]) == if k > 0 && IsSpace(s[k - 1]) then RStrip(s[..k - 1]) else s[..k]
  {
    if k > 0 {
      assert s[..k][k - 1] == s[k - 1] && s[..k][..k - 1] == s[..k - 1];
    }
  }

  /** A string whose end from the k-th character on has been overwritten with zeros. */
  lemma ZeroedEnd(s: seq<char>, t: seq<char>, i: nat, k: nat)
    requires Terminated(s, i) && k <= |Str(s, i)| && |t| == |s|
    requires forall j | 0 <= j < |s| :: t[j] == if i + k <= j < i + |Str(s, i)| then ZERO else s[j]
    ensures Terminated(t, i) && Str(t, i) == Str(s, i)[..k]
  {
    StrChars(s, i);
    hide Str, Terminated;
    StrAt(t, i, k);
    assert t[i..i + k] == s[i..i + k];
  }

  /** `rstrip`: overwrites trailing white space with zeros. */
  method RStripAt(a: array<char>, s: nat)
    requires Terminated(a[..], s)
    modifies a
    ensures Terminated(a[..], s) && Str(a[..], s) == RStrip(old(Str(a[..], s)))
    ensures forall j | 0 <= j < a.Length && !(s <= j < s + |old(Str(a[..], s))|) :: a[j] == old(a[j])
  {
    hide Str, Terminated, RStrip;
    CharAt(a[..], s, 0);
    ghost var buf := a[..];
    ghost var whole := Str(buf, s);
    var end := s + |Str(a[..], s)|;  // strlen
    CharAt(buf, s, |whole|);
    var p := end;
    assert whole[..p - s] == whole;
    if p > s {
      CharAt(buf, s, p - 1 - s);
    }
    while p > s && IsSpace(a[p - 1])
      invariant s <= p <= end < a.Length
      invariant p > s ==> a[p - 1] == whole[p - 1 - s]
      invariant forall j | 0 <= j < a.Length :: a[j] == if p <= j < end then ZERO else buf[j]
      invariant RStrip(whole[..p - s]) == RStrip(whole)
    {
      RStripFrom(whole, p - s);
      p := p - 1;
      a[p] := ZERO;
      if p > s {
        CharAt(buf, s, p - 1 - s);
      }
    }
    RStripFrom(whole, p - s);
    ZeroedEnd(buf, a[..], s, p - s);
  }

  lemma IndentFrom(s: string, k: nat)
    requires k <= |s|
    ensures Indent(s[k..]) == if k < |s| && IsSpace(s[k]) then 1 + Indent(s[k + 1..]) else 0
  {
    if k < |s| {
      assert s[k..][1..] == s[k + 1..];
    }
  }

  /** `lskip`: the first character other than white space. */
  method LSkipAt(a: array<char>, s: nat) returns (p: nat)
    requires Terminated(a[..], s)
    ensures p == s + Indent(Str(a[..], s)) && p < a.Length
    ensures Terminated(a[..], p) && Str(a[..], p) == Str(a[..], s)[p - s..]
  {
    hide Str, Terminated, Indent;
    CharAt(a[..], s, 0);
    ghost var whole := Str(a[..], s);
    p := s;
    assert whole[0..] == whole;
    while a[p] != ZERO && IsSpace(a[p])
      invariant s <= p <= s + |whole| && p < a.Length
      invariant if p < s + |whole| then a[p] == whole[p - s] != ZERO else a[p] == ZERO
      invariant p - s + Indent(whole[p - s..]) == Indent(whole)
      decreases a.Length - p
    {
      IndentFrom(whole, p - s);
      p := p + 1;
      CharAt(a[..], s, p - s);
    }
    IndentFrom(whole, p - s);
    StrTail(a[..], s, p - s);
  }

  lemma StopFrom(s: string, k: nat, chars: string, wasSpace: bool)
    requires k <= |s|
    ensures Stop(s[k..], chars, wasSpace) ==
            if k == |s| || s[k] in chars || (wasSpace && s[k] == ';') then 0 else 1 + Stop(s[k + 1..], chars, IsSpace(s[k]))
  {
    if k < |s| {
      assert s[k..][0] == s[k] && s[k..][1..] == s[k + 1..];
    }
  }

  /** `find_chars_or_comment`; no characters to look for stands for a null pointer. */
  method StopAt(a: array<char>, s: nat, chars: string) returns (p: nat)
    requires Terminated(a[..], s) && ZERO !in chars
    ensures p == s + Stop(Str(a[..], s), chars, false) && p < a.Length
    ensures p - s <= |Str(a[..], s)|
  {
    hide Str, Terminated, Stop;
    CharAt(a[..], s, 0);
    ghost var whole := Str(a[..], s);
    p := s;
    var wasSpace := false;
    assert whole[0..] == whole;
    while a[p] != ZERO && a[p] !in chars && !(wasSpace && a[p] == ';')
      invariant s <= p <= s + |whole| && p < a.Length
      invariant if p < s + |whole| then a[p] == whole[p - s] != ZERO else a[p] == ZERO
      invariant p - s + Stop(whole[p - s..], chars, wasSpace) == Stop(whole, chars, false)
      decreases a.Length - p
    {
      StopFrom(whole, p - s, chars, wasSpace);
      wasSpace := IsSpace(a[p]);
      p := p + 1;
      CharAt(a[..], s, p - s);
    }
    StopFrom(whole, p - s, chars, wasSpace);
  }

  /** `strncpy0`: copies at most `size - 1` characters and terminates. */
  method CopyTruncated(dest: array<char>, src: array<char>, s: nat, size: nat)
    requires dest != src && 0 < size <= dest.Length && Terminated(src[..], s)
    modifies dest
    ensures Terminated(dest[..], 0) && Str(dest[..], 0) == Truncate(Str(src[..], s), size)
  {
    hide Find, CString;
    ghost var whole := Str(src[..], s);
    StrChars(src[..], s);
    var i := 0;
    while i < size - 1 && src[s + i] != ZERO
      invariant 0 <= i <= size - 1 && i <= |whole|
      invariant forall j | 0 <= j < i :: dest[j] == whole[j]
      invariant src[..] == old(src[..])
      decreases size - i
    {
      dest[i] := src[s + i];
      i := i + 1;
    }
    dest[i] := ZERO;
    assert forall j | 0 <= j < i :: dest[j] == whole[j] && whole[j] != ZERO;
    StrAt(dest[..], 0, i);
    assert dest[..][0..i] == whole[..i];
  }

  // ---------- The string reader ----------

  lemma LengthIs(rest: string, num: nat, i: nat, done: bool)
    requires rest != [] && num >= 2 && i <= |rest| && i <= num - 1
    requires forall j | 0 <= j < (if done then i - 1 else i) :: rest[j] != NEWLINE
    requires if done then i > 0 && rest[i - 1] == NEWLINE else i == num - 1 || i == |rest|
    ensures i == PieceLen(rest, num)
  {
    var end := Find(rest, NEWLINE);
    hide Find;
  }

  class StringReader {
    const text: string
    var pos: nat

    constructor (text: string)
      ensures this.text == text && pos == 0
    {
      this.text := text;
      pos := 0;
    }

    /** `ini_reader_string`: false at the end, otherwise the next piece, terminated. */
    method ReadLine(buf: array<char>, num: nat) returns (more: bool)
      requires pos <= |text| && num <= buf.Length
      modifies this, buf
      ensures pos <= |text|
      ensures more <==> old(pos) < |text| && num >= 2
      ensures more ==>
                var n := PieceLen(text[old(pos)..], num);
                pos == old(pos) + n && buf[..n] == text[old(pos)..pos] && buf[n] == ZERO
      ensures !more ==> pos == old(pos) && buf[..] == old(buf[..])
    {
      if pos == |text| || num < 2 {
        return false;
      }
      var start := pos;
      ghost var rest := text[start..];
      var i := 0;
      var done := false;
      while i < num - 1 && start + i < |text| && !done
        invariant 0 <= i <= num - 1 && i <= |rest| && pos == start
        invariant buf[..i] == rest[..i]
        invariant forall j | 0 <= j < (if done then i - 1 else i) :: rest[j] != NEWLINE
        invariant done ==> i > 0 && rest[i - 1] == NEWLINE
        decreases num - i
      {
        var c := text[start + i];
        buf[i] := c;
        i := i + 1;
        done := c == NEWLINE;  // break
      }
      buf[i] := ZERO;
      pos := start + i;
      LengthIs(rest, num, i, done);
      assert rest[..i] == text[start..pos];
      return true;
    }
  }

  // ---------- One line ----------

  /** The parser looks for the mark in the buffer; it is in the string exactly if it is there. */
  lemma BomIs(s: seq<char>)
    requires Terminated(s, 0) && |s| >= 3
    ensures HasBom(Str(s, 0)) <==> s[0] == '\U{EF}' && s[1] == '\U{BB}' && s[2] == '\U{BF}'
  {
    StrChars(s, 0);
  }

  /** Skip a byte order mark, strip, skip white space: the index where the line proper starts. */
  method FindStart(line: array<char>, lineno: nat) returns (start: nat)
    requires line.Length == MAX_LINE && Terminated(line[..], 0)
    modifies line
    ensures Terminated(line[..], start) && start < line.Length
    ensures start == StartOffset(lineno, old(Str(line[..], 0)))
    ensures Str(line[..], start) == StartText(lineno, old(Str(line[..], 0)))
  {
    BomIs(line[..]);
    hide Str, Terminated, RStrip, Indent;
    start := 0;
    if lineno == 1 && line[0] == '\U{EF}' && line[1] == '\U{BB}' && line[2] == '\U{BF}' {
      start := 3;
    }
    StrTail(line[..], 0, start);
    RStripAt(line, start);
    start := LSkipAt(line, start);
  }

  /** A line that starts with '[': the section it names, if it is closed. */
  method HeaderAt(line: array<char>, start: nat, section: array<char>, prevName: array<char>) returns (closed: bool)
    requires Terminated(line[..], start) && Str(line[..], start) != []
    requires section.Length == MAX_SECTION && prevName.Length == MAX_NAME
    requires line != section && line != prevName && section != prevName
    requires Terminated(section[..], 0) && Terminated(prevName[..], 0)
    modifies line, section, prevName
    ensures Terminated(section[..], 0) && Terminated(prevName[..], 0)
    ensures var k := HeaderKind(old(Str(line[..], start)));
            if closed then
              k.Header? && Str(section[..], 0) == Truncate(k.section, MAX_SECTION) && Str(prevName[..], 0) == []
            else
              k == Unclosed && section[..] == old(section[..]) && prevName[..] == old(prevName[..])
  {
    hide Str, Terminated, Stop, Truncate;
    CharAt(line[..], start, 0);
    ghost var whole := Str(line[..], start);
    StrTail(line[..], start, 1);
    var end := StopAt(line, start + 1, "]");
    assert whole[1..][..end - start - 1] == whole[1..end - start];
    CharAt(line[..], start + 1, end - start - 1);
    closed := line[end] == ']';
    if closed {
      CutAt(line, start + 1, end);
      CopyTruncated(section, line, start + 1, MAX_SECTION);
      prevName[0] := ZERO;
      StrAt(prevName[..], 0, 0);
    }
  }

  /** A string is unchanged if its characters and its terminator are. */
  lemma StrFrame(s: seq<char>, t: seq<char>, i: nat)
    requires Terminated(s, i) && |t| == |s| && forall j | i <= j <= i + |Str(s, i)| :: t[j] == s[j]
    ensures Terminated(t, i) && Str(t, i) == Str(s, i)
  {
    StrChars(s, i);
    var n := |Str(s, i)|;
    StrAt(t, i, n);
    assert t[i..i + n] == s[i..i + n];
  }

  /** The value behind a separator: cut at an inline comment, then stripped on both sides. */
  method ValueAt(line: array<char>, from: nat) returns (value: nat)
    requires Terminated(line[..], from)
    modifies line
    ensures forall j | 0 <= j < from :: line[j] == old(line[j])
    ensures Terminated(line[..], value)
    ensures var raw := old(Str(line[..], from));
            var v := raw[..Stop(raw, "", false)];
            Str(line[..], value) == RStrip(v[Indent(v)..])
  {
    hide Str, Terminated, Stop, Indent, RStrip;
    var end := StopAt(line, from, "");
    CutAt(line, from, end);
    value := LSkipAt(line, from);
    RStripAt(line, value);
  }

  /** A `name = value` line: its name now starts at `start`, its value at `value`, if it has a separator. */
  method PairAt(line: array<char>, start: nat) returns (found: bool, value: nat)
    requires Terminated(line[..], start)
    modifies line
    ensures var k := PairKind(old(Str(line[..], start)));
            if found then
              && k.Pair?
              && Terminated(line[..], start) && Str(line[..], start) == k.name
              && Terminated(line[..], value) && Str(line[..], value) == k.value
            else k == NoSeparator
  {
    hide Str, Terminated, Stop, Indent, RStrip;
    value := start;
    var end := StopAt(line, start, "=:");
    ghost var n := end - start;
    CharAt(line[..], start, n);
    found := line[end] == '=' || line[end] == ':';
    if found {
      StrTail(line[..], start, n + 1);
      CutAt(line, start, end);
      RStripAt(line, start);
      StrFrame(old(line[..]), line[..], end + 1);
      ghost var named := line[..];
      value := ValueAt(line, end + 1);
      StrFrame(named, line[..], start);
    }
  }

  /** The configuration handler as the parser sees it. */
  predicate ConfHandler(calls: seq<Call>) {
    calls == [] || Accepted(calls[|calls| - 1])
  }

  /** The parser's three buffers are in order: distinct, of their sizes, and terminated. */
  predicate BuffersOk(line: array<char>, section: array<char>, prevName: array<char>)
    reads section, prevName
  {
    && line.Length == MAX_LINE && section.Length == MAX_SECTION && prevName.Length == MAX_NAME
    && line != section && line != prevName && section != prevName
    && Terminated(section[..], 0) && Terminated(prevName[..], 0)
  }

  /** The buffers and the queue hold the state `st`. */
  predicate Holds(section: array<char>, prevName: array<char>, queue: Queue, st: Parse)
    reads section, prevName, queue
  {
    && Str(section[..], 0) == st.section && Str(prevName[..], 0) == st.prevName
    && Represents(queue.items, st.calls)
  }

  /** The branch for `name = value` lines. */
  method HandlePair(line: array<char>, section: array<char>, prevName: array<char>, queue: Queue, start: nat,
                    ghost st: Parse) returns (bad: bool)
    requires BuffersOk(line, section, prevName) && Holds(section, prevName, queue, st) && Terminated(line[..], start)
    modifies line, prevName, queue
    ensures BuffersOk(line, section, prevName)
    ensures var k := PairKind(old(Str(line[..], start)));
            Holds(section, prevName, queue, Act(st, k, ConfHandler)) && bad == BadKind(st, k, ConfHandler)
  {
    hide Str, Terminated, PairKind, Represents, Accepted;
    var found, value := PairAt(line, start);
    bad := !found;
    if found {
      CopyTruncated(prevName, line, start, MAX_NAME);
      CharAt(line[..], start, 0);
      CharAt(line[..], value, 0);
      var c := Call(Str(section[..], 0), Str(line[..], start), Str(line[..], value));
      var r := queue.OptionHandler(c, st.calls);
      bad := r == 0;
    }
  }

  /** The branch for continuation lines. */
  method HandleContinuation(line: array<char>, section: array<char>, prevName: array<char>, queue: Queue, start: nat,
                            ghost st: Parse) returns (bad: bool)
    requires BuffersOk(line, section, prevName) && Holds(section, prevName, queue, st) && Terminated(line[..], start)
    modifies queue
    ensures var k := Continued(Str(line[..], start));
            Holds(section, prevName, queue, Act(st, k, ConfHandler)) && bad == BadKind(st, k, ConfHandler)
  {
    hide Str, Terminated, Represents, Accepted;
    CharAt(line[..], start, 0);
    var c := Call(Str(section[..], 0), Str(prevName[..], 0), Str(line[..], start));
    var r := queue.OptionHandler(c, st.calls);
    bad := r == 0;
  }

  /** What happens to the stripped line that starts at `start`. */
  method HandleStart(line: array<char>, section: array<char>, prevName: array<char>, queue: Queue, start: nat,
                     ghost st: Parse) returns (bad: bool)
    requires BuffersOk(line, section, prevName) && Holds(section, prevName, queue, st) && Terminated(line[..], start)
    modifies line, section, prevName, queue
    ensures BuffersOk(line, section, prevName)
    ensures var k := KindOfStart(old(Str(line[..], start)), st.prevName != [] && start > 0);
            Holds(section, prevName, queue, Act(st, k, ConfHandler)) && bad == BadKind(st, k, ConfHandler)
  {
    CharAt(prevName[..], 0, 0);
    CharAt(line[..], start, 0);
    hide Str, Terminated, HeaderKind, PairKind, Represents, Accepted;
    if line[start] == ZERO || line[start] == ';' || line[start] == '#' {
      // `strchr` also finds the terminator: an empty line is a comment
      bad := false;
    } else if prevName[0] != ZERO && start > 0 {
      bad := HandleContinuation(line, section, prevName, queue, start, st);
    } else if line[start] == '[' {
      var closed := HeaderAt(line, start, section, prevName);
      bad := !closed;
    } else {
      bad := HandlePair(line, section, prevName, queue, start, st);
    }
  }

  /** One turn of the parse loop; `bad` says that the line is malformed or was rejected. */
  method HandleLine(line: array<char>, section: array<char>, prevName: array<char>, queue: Queue, lineno: nat,
                    ghost st: Parse, ghost piece: string) returns (bad: bool)
    requires BuffersOk(line, section, prevName) && Terminated(line[..], 0)
    requires Str(line[..], 0) == CString(piece) && lineno == st.lineno + 1 && Holds(section, prevName, queue, st)
    modifies line, section, prevName, queue
    ensures BuffersOk(line, section, prevName)
    ensures Holds(section, prevName, queue, Step(st, piece, ConfHandler))
    ensures bad == BadAt(st, piece, ConfHandler)
  {
    hide Str, Terminated, StartText, StartOffset, KindOfStart, CString, Represents, ConfHandler;
    var start := FindStart(line, lineno);
    bad := HandleStart(line, section, prevName, queue, start, st.(lineno := lineno));
  }

  /** A filled and terminated buffer holds the C string of what was put into it. */
  lemma FilledIs(buf: seq<char>, piece: string)
    requires |piece| < |buf| && buf[..|piece|] == piece && buf[|piece|] == ZERO
    ensures Terminated(buf, 0) && Str(buf, 0) == CString(piece)
  {
    var n := Find(piece, ZERO);
    hide CString, Find;
    assert forall j | 0 <= j < |piece| :: buf[j] == piece[j];
    StrAt(buf, 0, n);
    assert CString(piece) == piece[..n] by { hide *; CutIs(piece); }
    assert buf[0..n] == piece[..n];
  }

  lemma CutIs(s: string)
    ensures CString(s) == s[..Find(s, ZERO)]
  {}

  lemma StepsSnoc(ps: seq<string>, p: string)
    ensures Steps(START, ps + [p], ConfHandler) == Step(Steps(START, ps, ConfHandler), p, ConfHandler)
  {
    hide Step, ConfHandler;
    assert (ps + [p])[..|ps|] == ps;
  }

  /** What is still to be handled: the piece in the buffer, if any, and the pieces of the unread text. */
  ghost predicate Pending(text: string, past: seq<string>, more: bool, piece: string, pos: nat) {
    && pos <= |text|
    && Pieces(text) == past + (if more then [piece] + Pieces(text[pos..]) else [])
  }

  lemma NoPieces()
    ensures Pieces([]) == []
  {}

  lemma PiecesFrom(text: string, pos: nat, n: nat)
    requires pos < |text| && n == PieceLen(text[pos..], MAX_LINE)
    ensures pos + n <= |text| && Pieces(text[pos..]) == [text[pos..pos + n]] + Pieces(text[pos + n..])
  {
    hide PieceLen;
    assert text[pos..][..n] == text[pos..pos + n] && text[pos..][n..] == text[pos + n..];
  }

  /** One read: the next piece comes to the buffer, or there was none. */
  lemma ReadIsPending(text: string, past: seq<string>, pos: nat)
    requires pos <= |text| && Pieces(text) == past + Pieces(text[pos..])
    ensures if pos == |text| then Pending(text, past, false, [], pos)
            else
              var n := PieceLen(text[pos..], MAX_LINE);
              pos + n <= |text| && Pending(text, past, true, text[pos..pos + n], pos + n)
  {
    hide Pieces, PieceLen;
    if pos < |text| {
      PiecesFrom(text, pos, PieceLen(text[pos..], MAX_LINE));
    } else {
      assert text[pos..] == [];
      NoPieces();
    }
  }

  /** One call of the reader by the parser. */
  method NextLine(reader: StringReader, line: array<char>, ghost past: seq<string>)
    returns (more: bool, ghost piece: string)
    requires reader.pos <= |reader.text| && line.Length == MAX_LINE
    requires Pieces(reader.text) == past + Pieces(reader.text[reader.pos..])
    modifies reader, line
    ensures Pending(reader.text, past, more, piece, reader.pos)
    ensures more ==> Terminated(line[..], 0) && Str(line[..], 0) == CString(piece) && reader.pos > old(reader.pos)
  {
    hide *;
    ghost var pos := reader.pos;
    ReadIsPending(reader.text, past, pos);
    more := reader.ReadLine(line, MAX_LINE);
    piece := [];
    if more {
      piece := reader.text[pos..reader.pos];
      assert line[..|piece|] == line[..][..|piece|];
      FilledIs(line[..], piece);
    }
  }

  /** The parser has handled the pieces `past`. */
  ghost predicate At(past: seq<string>, st: Parse, lineno: nat, error: nat) {
    st == Steps(START, past, ConfHandler) && lineno == st.lineno && error == st.error
  }

  /** `char buffer[size] = ""`. */
  method EmptyBuffer(size: nat) returns (a: array<char>)
    requires size > 0
    ensures fresh(a) && a.Length == size && Terminated(a[..], 0) && Str(a[..], 0) == []
  {
    a := new char[size];
    a[0] := ZERO;
    StrAt(a[..], 0, 0);
  }

  lemma NothingDone(text: string, line: array<char>, section: array<char>, prevName: array<char>, queue: Queue)
    requires line.Length == MAX_LINE && section.Length == MAX_SECTION && prevName.Length == MAX_NAME
    requires line != section && line != prevName && section != prevName
    requires Terminated(section[..], 0) && Terminated(prevName[..], 0)
    requires Str(section[..], 0) == [] && Str(prevName[..], 0) == [] && Represents(queue.items, [])
    ensures At([], START, 0, 0) && Pieces(text) == [] + Pieces(text[0..])
    ensures BuffersOk(line, section, prevName) && Holds(section, prevName, queue, START)
  {
    hide Str, Terminated, Represents, Pieces;
    assert text[0..] == text;
  }

  lemma TurnIs(text: string, past: seq<string>, piece: string, pos: nat, st: Parse, lineno: nat, error: nat)
    requires At(past, st, lineno, error) && Pending(text, past, true, piece, pos)
    ensures lineno == st.lineno && pos <= |text|
    ensures var bad := BadAt(st, piece, ConfHandler);
            At(past + [piece], Step(st, piece, ConfHandler), lineno + 1, if bad && error == 0 then lineno + 1 else error)
    ensures Pieces(text) == past + [piece] + Pieces(text[pos..])
  {
    hide Step, Steps, Pieces, BadAt, CallOf, KindAt, ConfHandler;
    assert past + ([piece] + Pieces(text[pos..])) == past + [piece] + Pieces(text[pos..]);
    StepError(st, piece, ConfHandler);
    StepsSnoc(past, piece);
  }

  lemma AllDone(text: string, past: seq<string>, st: Parse, lineno: nat, error: nat, piece: string, pos: nat,
                queue: Queue, section: array<char>, prevName: array<char>)
    requires At(past, st, lineno, error) && Pending(text, past, false, piece, pos)
    requires Holds(section, prevName, queue, st)
    ensures st == Steps(START, Pieces(text), ConfHandler) && error == st.error
    ensures Represents(queue.items, st.calls)
  {
    hide Step, Pieces, ConfHandler, Represents;
    assert past + [] == past;
  }

  /**
   * `ini_parse_stream` with the configuration handler, over the string reader: for any text, the
   * queue ends up as the fold of the reported options, and the result is the first bad line.
   */
  method ParseStream(text: string, queue: Queue) returns (error: nat)
    requires Represents(queue.items, [])
    modifies queue
    ensures var st := Steps(START, Pieces(text), ConfHandler);
            error == st.error && Represents(queue.items, st.calls)
  {
    var line := new char[MAX_LINE];
    var section := EmptyBuffer(MAX_SECTION);
    var prevName := EmptyBuffer(MAX_NAME);
    assert line.Length == MAX_LINE && section.Length == MAX_SECTION && prevName.Length == MAX_NAME;
    hide *;
    var reader := new StringReader(text);
    var lineno := 0;
    error := 0;
    ghost var past: seq<string>, st := [], START;
    NothingDone(text, line, section, prevName, queue);
    var more, piece := NextLine(reader, line, past);
    while more
      invariant BuffersOk(line, section, prevName) && Holds(section, prevName, queue, st)
      invariant line.Length == MAX_LINE && fresh(line) && fresh(section) && fresh(prevName) && fresh(reader)
      invariant reader.text == text && Pending(text, past, more, piece, reader.pos)
      invariant more ==> Terminated(line[..], 0) && Str(line[..], 0) == CString(piece)
      invariant At(past, st, lineno, error)
      decreases more, |text| - reader.pos
    {
      TurnIs(text, past, piece, reader.pos, st, lineno, error);
      lineno := lineno + 1;
      var bad := HandleLine(line, section, prevName, queue, lineno, st, piece);
      if bad && error == 0 {
        error := lineno;
      }
      st, past := Step(st, piece, ConfHandler), past + [piece];
      more, piece := NextLine(reader, line, past);
    }
    AllDone(text, past, st, lineno, error, piece, reader.pos, queue, section, prevName);
  }

  /**
   * Parser plus handler is a fold over the options: for the text of any document, what ParseStream
   * promises is a queue that stands for the options it means, and the result 0 if and only if no
   * line is malformed and every option of a known injection type is a known one.
   */
  lemma PrintedConfiguration(d: IniRoundTrip.Document, items: seq<Conf>, error: nat)
    requires IniRoundTrip.DocumentOk(d)
    ensures var st, calls := Steps(START, Pieces(IniRoundTrip.Print(d)), ConfHandler), IniRoundTrip.Calls(d.lines);
            error == st.error && Represents(items, st.calls) ==>
              && Represents(items, calls) && error == IniRoundTrip.FirstBad(d.lines, ConfHandler)
              && (error == 0 <==>
                  (forall l | l in d.lines :: !IniRoundTrip.Malformed(l)) && forall c | c in calls :: Accepted(c))
  {
    hide *;
    IniRoundTrip.ParseOfPrint(d, ConfHandler);
    IniRoundTrip.NoBadIff(d.lines, ConfHandler);
    AcceptedAll(IniRoundTrip.Calls(d.lines));
  }

  lemma AcceptedAll(calls: seq<Call>)
    ensures IniRoundTrip.AllAccepted(ConfHandler, calls) <==> forall c | c in calls :: Accepted(c)
  {
    hide Accepted;
    forall k | 0 < k <= |calls| ensures ConfHandler(calls[..k]) <==> Accepted(calls[k - 1]) {
      assert calls[..k][k - 1] == calls[k - 1];
    }
    if IniRoundTrip.AllAccepted(ConfHandler, calls) {
      forall i | 0 <= i < |calls| ensures Accepted(calls[i]) {
        assert ConfHandler(calls[..i + 1]);
      }
    }
  }
}
