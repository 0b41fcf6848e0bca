/**
 * The text form of the status cache: one `path;hash;dirtyBit;clock` line per entry. The writer
 * loop sits behind an early return in the original, so this is about the code it would run.
 */
module StatusText {
  import opened Bytes
  import opened CText

  datatype Status = Status(hash: string, dirtyBit: int, clock: int)

  const SEMI: char := ';'

  // ---------- Lines ----------

  /** The line without its newline. */
  function Line(key: string, st: Status): string {
    key + [SEMI] + (st.hash + [SEMI] + (ToString(st.dirtyBit) + [SEMI] + ToString(st.clock)))
  }

  function FullLine(key: string, st: Status): string {
    Line(key, st) + [NEWLINE]
  }

  /** Every key of the enumeration is one of the map's. */
  predicate Enumerates(order: seq<string>, m: map<string, Status>) {
    forall i | 0 <= i < |order| :: order[i] in m
  }

  /** The text for the entries in a given enumeration order. */
  function Text(order: seq<string>, m: map<string, Status>): string
    requires Enumerates(order, m)
  {
    if order == [] then []
    else Text(order[..|order| - 1], m) + FullLine(order[|order| - 1], m[order[|order| - 1]])
  }

  /** The field up to the first semicolon; without one, both the field and the rest are the whole line. */
  function Field(line: string): (string, string) {
    var pos := Find(line, SEMI);
    if pos < |line| then (line[..pos], line[pos + 1..]) else (line, line)
  }

  /** One line read back; None where `stoi` throws. */
  function ParseLine(line: string): Option<(string, Status)> {
    var (key, rest1) := Field(line);
    var (hash, rest2) := Field(rest1);
    var (dirty, rest3) := Field(rest2);
    var d := Stoi(dirty);
    var c := Stoi(rest3);
    if d.None? || c.None? then None else Some((key, Status(hash, d.value, c.value)))
  }

  /** The reader's loop from `acc` on: `getline` until the text is used up. */
  function ReadInto(acc: map<string, Status>, text: string): Option<map<string, Status>>
    decreases |text|
  {
    if text == [] then Some(acc)
    else
      var i := Find(text, NEWLINE);
      var entry := ParseLine(text[..i]);
      if entry.None? then None
      else ReadInto(acc[entry.value.0 := entry.value.1], if i < |text| then text[i + 1..] else [])
  }

  /** Paths and hashes contain neither separator, and the numbers are C++ `int`s. */
  predicate Writable(key: string, st: Status) {
    && SEMI !in key && NEWLINE !in key && SEMI !in st.hash && NEWLINE !in st.hash
    && INT_MIN <= st.dirtyBit <= INT_MAX && INT_MIN <= st.clock <= INT_MAX
  }

  lemma FieldOf(a: string, b: string)
    requires SEMI !in a
    ensures Field(a + [SEMI] + b) == (a, b)
  {
    var s := a + [SEMI] + b;
    FindAfter(a, SEMI, b);
    assert s[..|a|] == a && s[|a| + 1..] == b;
  }

  lemma ParseOfLine(key: string, st: Status)
    requires Writable(key, st)
    ensures ParseLine(Line(key, st)) == Some((key, st))
  {
    FieldOf(key, st.hash + [SEMI] + (ToString(st.dirtyBit) + [SEMI] + ToString(st.clock)));
    FieldOf(st.hash, ToString(st.dirtyBit) + [SEMI] + ToString(st.clock));
    FieldOf(ToString(st.dirtyBit), ToString(st.clock));
    StoiOfToString(st.dirtyBit);
    StoiOfToString(st.clock);
  }

  /** Reading one written line takes exactly that entry in. */
  lemma ReadLine(acc: map<string, Status>, key: string, st: Status, rest: string)
    requires Writable(key, st)
    ensures ReadInto(acc, FullLine(key, st) + rest) == ReadInto(acc[key := st], rest)
  {
    assert NEWLINE !in Line(key, st);
    ParseOfLine(key, st);
    hide ParseLine, Line, Find;
    var text := Line(key, st) + [NEWLINE] + rest;
    FindAfter(Line(key, st), NEWLINE, rest);
    assert text[..|Line(key, st)|] == Line(key, st);
    assert text[|Line(key, st)| + 1..] == rest;
  }

  /** The entries in the order they are read back. */
  function Entries(order: seq<string>, m: map<string, Status>): map<string, Status>
    requires Enumerates(order, m)
  {
    if order == [] then map[]
    else Entries(order[..|order| - 1], m)[order[|order| - 1] := m[order[|order| - 1]]]
  }

  lemma {:induction false} EntriesAre(order: seq<string>, m: map<string, Status>, k: string)
    requires Enumerates(order, m)
    ensures k in Entries(order, m) <==> k in order
    ensures k in order ==> k in m && Entries(order, m)[k] == m[k]
    decreases |order|
  {
    if order != [] {
      EntriesAre(order[..|order| - 1], m, k);
      assert order == order[..|order| - 1] + [order[|order| - 1]];
    }
  }

  lemma {:induction false} ReadText(order: seq<string>, m: map<string, Status>, rest: string)
    requires Enumerates(order, m) && forall i | 0 <= i < |order| :: Writable(order[i], m[order[i]])
    ensures ReadInto(map[], Text(order, m) + rest) == ReadInto(Entries(order, m), rest)
    decreases |order|
  {
    hide FullLine, ReadInto, Writable;
    if order == [] {
      assert Text(order, m) + rest == rest;
    } else {
      var before, k := order[..|order| - 1], order[|order| - 1];
      var tail := FullLine(k, m[k]) + rest;
      ReadText(before, m, tail);
      assert Text(order, m) + rest == Text(before, m) + tail;
      ReadLine(Entries(before, m), k, m[k], rest);
    }
  }

  lemma ReadNothing(m: map<string, Status>)
    ensures ReadInto(m, []) == Some(m)
  {}

  /** Round trip: whatever order the map is enumerated in, the text reads back as the map. */
  lemma StatusRoundTrip(order: seq<string>, m: map<string, Status>)
    requires Enumerates(order, m) && forall k | k in m :: k in order
    requires forall k | k in m :: Writable(k, m[k])
    ensures ReadInto(map[], Text(order, m)) == Some(m)
  {
    hide Writable, Text, ReadInto, Entries;
    ReadNothing(m);
    ReadText(order, m, []);
    assert Text(order, m) + [] == Text(order, m);
    forall k: string
      ensures k in Entries(order, m) <==> k in m
      ensures k in m ==> Entries(order, m)[k] == m[k]
    {
      EntriesAre(order, m, k);
    }
    assert Entries(order, m) == m;
  }

  /** The written form: path, hash, dirty bit and clock, in this order, between semicolons. */
  lemma TextFormat(order: seq<string>, m: map<string, Status>, key: string)
    requires Enumerates(order, m) && key in m
    ensures Enumerates(order + [key], m)
    ensures Text(order + [key], m) ==
            Text(order, m) + key + ";" + m[key].hash + ";" + ToString(m[key].dirtyBit) + ";" + ToString(m[key].clock) + "\n"
  {
    hide ToString;
    assert (order + [key])[..|order|] == order;
  }

  /** How any line with three separators or more is read: the clock from all that is left. */
  lemma FieldsRead(key: string, hash: string, dirty: string, clock: string)
    requires SEMI !in key && SEMI !in hash && SEMI !in dirty
    ensures var d, c := Stoi(dirty), Stoi(clock);
            ParseLine(key + [SEMI] + (hash + [SEMI] + (dirty + [SEMI] + clock))) ==
            if d.None? || c.None? then None else Some((key, Status(hash, d.value, c.value)))
  {
    hide Stoi, Field;
    FieldOf(key, hash + [SEMI] + (dirty + [SEMI] + clock));
    FieldOf(hash, dirty + [SEMI] + clock);
    FieldOf(dirty, clock);
  }

  /** A line without a separator is taken for all four fields: `erase` then erases nothing. */
  lemma BareLineReads(line: string)
    requires SEMI !in line
    ensures ParseLine(line) == var n := Stoi(line); if n.None? then None else Some((line, Status(line, n.value, n.value)))
  {
    hide Stoi;
    assert Find(line, SEMI) == |line|;
  }

  /** One line that `stoi` rejects, and reading fails, whatever came before and comes behind. */
  lemma BadLineFails(order: seq<string>, m: map<string, Status>, line: string, rest: string)
    requires Enumerates(order, m) && forall i | 0 <= i < |order| :: Writable(order[i], m[order[i]])
    requires NEWLINE !in line && ParseLine(line).None?
    ensures ReadInto(map[], Text(order, m) + (line + [NEWLINE] + rest)) == None
  {
    ReadText(order, m, line + [NEWLINE] + rest);
    hide ParseLine, Text, Entries, Writable, Find;
    var text := line + [NEWLINE] + rest;
    FindAfter(line, NEWLINE, rest);
    assert text[..|line|] == line;
  }

  // ---------- The loops ----------

  /** The writer loop, over whatever order the hash map iterates in. */
  method WriteStatus(order: seq<string>, m: map<string, Status>) returns (text: string)
    requires Enumerates(order, m)
    ensures text == Text(order, m)
  {
    hide FullLine;
    text := [];
    var i := 0;
    while i < |order|
      invariant 0 <= i <= |order|
      invariant text == Text(order[..i], m)
    {
      var key := order[i];
      assert order[..i + 1][..i] == order[..i];
      text := text + FullLine(key, m[key]);
      i := i + 1;
    }
    assert order[..|order|] == order;
  }

  /** The reader loop: take a line, erase its fields one after the other. */
  method GetStatusCache(text: string) returns (r: Option<map<string, Status>>)
    ensures r == ReadInto(map[], text)
  {
    var rest, cache := text, map[];
    while rest != []
      invariant ReadInto(cache, rest) == ReadInto(map[], text)
      decreases |rest|
    {
      var end := Find(rest, NEWLINE);
      var line := rest[..end];
      ghost var whole := line;
      rest := if end < |rest| then rest[end + 1..] else [];

      var key, hash, dirty;
      key, line := TakeField(line);
      hash, line := TakeField(line);
      dirty, line := TakeField(line);
      var d, c := Stoi(dirty), Stoi(line);
      assert ParseLine(whole) == if d.None? || c.None? then None else Some((key, Status(hash, d.value, c.value)));
      if d.None? || c.None? {
        return None;
      }
      cache := cache[key := Status(hash, d.value, c.value)];
    }
    return Some(cache);
  }

  /** `find`, `substr`, `erase(0, pos + 1)`; with no delimiter `pos + 1` wraps to 0 and erases nothing. */
  method TakeField(line: string) returns (field: string, rest: string)
    ensures (field, rest) == Field(line)
  {
    var pos := Find(line, SEMI);
    if pos == |line| {
      return line, line;
    }
    field, rest := line[..pos], line[pos + 1..];
  }
}
