/** The queue of fault injections that the configuration handler builds. */
module InjectionQueue {
  import opened Bytes
  import opened CText

  /** A configuration option as the parser reports it. */
  datatype Call = Call(section: string, name: string, value: string)

  const NAMES: seq<string> := ["errinj_errno", "errinj_kill_caller", "errinj_noop", "errinj_slowdown"]

  /** An `errinj_conf` as far as the handler sets it; the type is an index into the names. */
  datatype Conf = Conf(kind: nat, opRegexp: Option<string>, pathRegexp: Option<string>, probability: nat, duration: nat)

  /** `name` is the name of injection type `t`. */
  predicate Names(t: int, name: string) {
    0 <= t < |NAMES| && NAMES[t] == name
  }

  lemma NamesDiffer()
    ensures forall i, j | 0 <= i < j < |NAMES| :: NAMES[i] != NAMES[j]
  {
    assert NAMES[0][7] == 'e' && NAMES[1][7] == 'k' && NAMES[2][7] == 'n' && NAMES[3][7] == 's';
    forall i, j | 0 <= i < j < |NAMES| ensures NAMES[i] != NAMES[j] {
      assert NAMES[i][7] != NAMES[j][7];
    }
  }

  /** The search loop: the type with that name, or -1 exactly if no type has it. */
  method TypeByName(name: string) returns (idx: int)
    ensures idx != -1 ==> Names(idx, name)
    ensures idx == -1 ==> forall t :: !Names(t, name)
    ensures idx == KindOf(name)
  {
    idx := -1;
    NamesDiffer();
    for i := 0 to |NAMES|
      invariant idx == -1 ==> forall t | 0 <= t < i :: NAMES[t] != name
      invariant idx != -1 ==> 0 <= idx < i && NAMES[idx] == name
    {
      if NAMES[i] == name {
        idx := i;
      }
    }
  }

  function KindOf(name: string): (t: int)
    ensures t == -1 || Names(t, name)
    ensures t == -1 ==> forall u :: !Names(u, name)
  {
    if name == NAMES[0] then 0 else if name == NAMES[1] then 1
    else if name == NAMES[2] then 2 else if name == NAMES[3] then 3 else -1
  }

  const OPTIONS: set<string> := {"path_regexp", "op_regexp", "probability", "duration"}

  /** The handler's verdict as the parser reads it: -1 for an unknown section counts as accepted. */
  predicate Accepted(c: Call) {
    KindOf(c.section) == -1 || c.name in OPTIONS
  }

  // ---------- The reference: first mentions and last values ----------

  /** The injection types mentioned, in the order of their first mention. */
  function FirstMentions(cs: seq<Call>): seq<nat> {
    if cs == [] then []
    else
      var earlier, t := FirstMentions(cs[..|cs| - 1]), KindOf(cs[|cs| - 1].section);
      if t == -1 || t in earlier then earlier else earlier + [t]
  }

  /** The last value given for an option of an injection type. */
  function LastValue(cs: seq<Call>, t: nat, option: string): Option<string> {
    if cs == [] then None
    else
      var c := cs[|cs| - 1];
      if KindOf(c.section) == t && c.name == option then Some(c.value) else LastValue(cs[..|cs| - 1], t, option)
  }

  function Number(v: Option<string>): nat {
    if v.None? then 0 else ToUnsigned(Atoi(v.value))
  }

  /** The configuration of type `t` after the calls `cs`. */
  function Configured(cs: seq<Call>, t: nat): Conf {
    Conf(t, LastValue(cs, t, "op_regexp"), LastValue(cs, t, "path_regexp"),
         Number(LastValue(cs, t, "probability")), Number(LastValue(cs, t, "duration")))
  }

  /** The queue is the map from mentioned types to their last options, in order of first mention. */
  predicate Represents(items: seq<Conf>, cs: seq<Call>) {
    && |items| == |FirstMentions(cs)|
    && forall i | 0 <= i < |items| :: items[i] == Configured(cs, FirstMentions(cs)[i])
  }

  lemma {:induction false} MentionsDistinct(cs: seq<Call>, i: nat, j: nat)
    requires i < j < |FirstMentions(cs)|
    ensures FirstMentions(cs)[i] != FirstMentions(cs)[j]
    decreases |cs|
  {
    var earlier := FirstMentions(cs[..|cs| - 1]);
    if j < |earlier| {
      MentionsDistinct(cs[..|cs| - 1], i, j);
    } else {
      assert earlier[i] in earlier;
    }
  }

  /** The order is that of the first mentions: where the earlier type is first mentioned, the later one has not been yet. */
  lemma {:induction false} MentionedInOrder(cs: seq<Call>, i: nat, j: nat)
    requires i < j < |FirstMentions(cs)|
    ensures exists k | 0 <= k < |cs| :: KindOf(cs[k].section) == FirstMentions(cs)[i]
                                        && forall m | 0 <= m <= k :: KindOf(cs[m].section) != FirstMentions(cs)[j]
    decreases |cs|
  {
    var n := |cs| - 1;
    var before, ts := cs[..n], FirstMentions(cs[..n]);
    if j < |ts| {
      MentionedInOrder(before, i, j);
      var k :| 0 <= k < |before| && KindOf(before[k].section) == ts[i]
               && forall m | 0 <= m <= k :: KindOf(before[m].section) != ts[j];
      assert forall m | 0 <= m <= k :: before[m] == cs[m];
      assert KindOf(cs[k].section) == ts[i];
    } else {
      MentionedIff(before, ts[i]);
      MentionedIff(before, FirstMentions(cs)[j]);
      var k :| 0 <= k < |before| && KindOf(before[k].section) == ts[i];
      assert forall m | 0 <= m <= k :: before[m] == cs[m];
      assert KindOf(cs[k].section) == ts[i];
    }
  }

  /** At most one entry per injection type, and one exactly if the type was mentioned. */
  lemma OneEntryPerType(items: seq<Conf>, cs: seq<Call>, t: nat)
    requires Represents(items, cs)
    ensures forall i, j | 0 <= i < j < |items| :: items[i].kind != items[j].kind
    ensures (exists i | 0 <= i < |items| :: items[i].kind == t) <==>
            (exists k | 0 <= k < |cs| :: KindOf(cs[k].section) == t)
  {
    var ts := FirstMentions(cs);
    forall i, j | 0 <= i < j < |items| ensures items[i].kind != items[j].kind {
      MentionsDistinct(cs, i, j);
      assert items[i].kind == ts[i] && items[j].kind == ts[j];
    }
    MentionedIff(cs, t);
    if t in ts {
      var i :| 0 <= i < |ts| && ts[i] == t;
      assert items[i].kind == t;
    }
    if i :| 0 <= i < |items| && items[i].kind == t {
      assert ts[i] == t;
    }
  }

  lemma {:induction false} MentionedIff(cs: seq<Call>, t: nat)
    ensures t in FirstMentions(cs) <==> exists k | 0 <= k < |cs| :: KindOf(cs[k].section) == t
    decreases |cs|
  {
    if cs != [] {
      var before := cs[..|cs| - 1];
      MentionedIff(before, t);
      if k :| 0 <= k < |before| && KindOf(before[k].section) == t {
        assert KindOf(cs[k].section) == t;
      }
      if KindOf(cs[|cs| - 1].section) == t {
        assert t in FirstMentions(cs);
      }
    }
  }

  /** A type not mentioned yet has no options yet. */
  lemma {:induction false} UnmentionedIsEmpty(cs: seq<Call>, t: nat, option: string)
    requires t !in FirstMentions(cs)
    ensures LastValue(cs, t, option) == None
    decreases |cs|
  {
    if cs != [] {
      UnmentionedIsEmpty(cs[..|cs| - 1], t, option);
    }
  }

  // ---------- The handler ----------

  function SetOption(c: Conf, key: string, value: string): Conf {
    if key == "path_regexp" then c.(pathRegexp := Some(value))
    else if key == "op_regexp" then c.(opRegexp := Some(value))
    else if key == "probability" then c.(probability := ToUnsigned(Atoi(value)))
    else if key == "duration" then c.(duration := ToUnsigned(Atoi(value)))
    else c
  }

  lemma ConfiguredSnoc(cs: seq<Call>, c: Call, t: nat)
    ensures Configured(cs + [c], t) ==
            if KindOf(c.section) == t then SetOption(Configured(cs, t), c.name, c.value) else Configured(cs, t)
  {
    assert (cs + [c])[..|cs|] == cs;
  }

  lemma MentionsSnoc(cs: seq<Call>, c: Call)
    ensures FirstMentions(cs + [c]) ==
            var ts, t := FirstMentions(cs), KindOf(c.section);
            if t == -1 || t in ts then ts else ts + [t]
  {
    assert (cs + [c])[..|cs|] == cs;
  }

  /**
   * The verdict, by what the option does: an option of a known type is rejected if and only if no
   * value given for it ever changes the configuration of that type.
   */
  lemma RejectedIff(section: string, name: string, value: string)
    requires KindOf(section) != -1
    ensures var t := KindOf(section);
            !Accepted(Call(section, name, value)) <==>
            forall cs: seq<Call>, v: string :: Configured(cs + [Call(section, name, v)], t) == Configured(cs, t)
  {
    var t: nat := KindOf(section);
    if Accepted(Call(section, name, value)) {
      ConfiguredSnoc([], Call(section, name, "1"), t);
      assert "1" == ToString(1);
      AtoiOfToString(1);
      hide Atoi, ToString;
      assert Configured([] + [Call(section, name, "1")], t) != Configured([], t);
    } else {
      forall cs: seq<Call>, v: string ensures Configured(cs + [Call(section, name, v)], t) == Configured(cs, t) {
        ConfiguredSnoc(cs, Call(section, name, v), t);
      }
    }
  }

  /** The queue after one call: the entry of that type, appended if it is the first of its type, gets the option. */
  function Updated(items: seq<Conf>, i: nat, t: nat, key: string, value: string): seq<Conf>
    requires i <= |items|
  {
    if i < |items| then items[i := SetOption(items[i], key, value)]
    else items + [SetOption(Conf(t, None, None, 0, 0), key, value)]
  }

  /** One handler call keeps the queue in step with the map. */
  lemma UpdatedRepresents(items: seq<Conf>, cs: seq<Call>, c: Call, i: nat)
    requires Represents(items, cs) && KindOf(c.section) != -1
    requires i <= |items| && (forall j | 0 <= j < i :: items[j].kind != KindOf(c.section))
    requires i < |items| ==> items[i].kind == KindOf(c.section)
    ensures Represents(Updated(items, i, KindOf(c.section), c.name, c.value), cs + [c])
  {
    var ts, t := FirstMentions(cs), KindOf(c.section);
    var items' := Updated(items, i, t, c.name, c.value);
    MentionsSnoc(cs, c);
    assert forall j | 0 <= j < |items| :: items[j].kind == ts[j];
    forall j | 0 <= j < |items| ensures items'[j] == Configured(cs + [c], ts[j]) {
      ConfiguredSnoc(cs, c, ts[j]);
      if i < j {
        MentionsDistinct(cs, i, j);
      }
    }
    if i < |items| {
      assert ts[i] == t;
    } else {
      assert t !in ts;
      ConfiguredSnoc(cs, c, t);
      UnmentionedIsEmpty(cs, t, "op_regexp");
      UnmentionedIsEmpty(cs, t, "path_regexp");
      UnmentionedIsEmpty(cs, t, "probability");
      UnmentionedIsEmpty(cs, t, "duration");
    }
  }

  /** Just after a call, the entry of its type holds the value in the field of its option. */
  lemma LastCallShows(items: seq<Conf>, cs: seq<Call>, c: Call, i: nat)
    requires Represents(items, cs + [c]) && i < |items| && Names(items[i].kind, c.section)
    ensures c.name == "path_regexp" ==> items[i].pathRegexp == Some(c.value)
    ensures c.name == "op_regexp" ==> items[i].opRegexp == Some(c.value)
    ensures c.name == "probability" ==> items[i].probability == ToUnsigned(Atoi(c.value))
    ensures c.name == "duration" ==> items[i].duration == ToUnsigned(Atoi(c.value))
  {
    hide Atoi, ToUnsigned, FirstMentions;
    NamesDiffer();
    assert KindOf(c.section) == items[i].kind;
    ConfiguredSnoc(cs, c, items[i].kind);
  }

  lemma UnknownRepresents(items: seq<Conf>, cs: seq<Call>, c: Call)
    requires Represents(items, cs) && KindOf(c.section) == -1
    ensures Represents(items, cs + [c])
  {
    MentionsSnoc(cs, c);
    forall j | 0 <= j < |items| ensures items[j] == Configured(cs + [c], FirstMentions(cs)[j]) {
      ConfiguredSnoc(cs, c, FirstMentions(cs)[j]);
    }
  }

  class Queue {
    var items: seq<Conf>

    constructor ()
      ensures items == [] && Represents(items, [])
    {
      items := [];
    }

    /**
     * `conf_option_handler`. Against any history `cs` the queue stands for, it then stands for
     * that history and this call; 0 exactly for an unknown option of a known type.
     */
    method OptionHandler(c: Call, ghost cs: seq<Call>) returns (r: int)
      requires Represents(items, cs)
      modifies this
      ensures Represents(items, cs + [c])
      ensures r != 0 <==> Accepted(c)
      ensures r == -1 <==> KindOf(c.section) == -1
      ensures r == -1 || r == 0 || r == 1
      ensures |items| == |old(items)| + if r != -1 && (forall k | k in old(items) :: !Names(k.kind, c.section)) then 1 else 0
      ensures forall i | 0 <= i < |old(items)| ::
                items[i].kind == old(items)[i].kind && (!Names(items[i].kind, c.section) ==> items[i] == old(items)[i])
      ensures forall i | 0 <= i < |items| && Names(items[i].kind, c.section) ::
                && (c.name == "path_regexp" ==> items[i].pathRegexp == Some(c.value))
                && (c.name == "op_regexp" ==> items[i].opRegexp == Some(c.value))
                && (c.name == "probability" ==> items[i].probability == ToUnsigned(Atoi(c.value)))
                && (c.name == "duration" ==> items[i].duration == ToUnsigned(Atoi(c.value)))
    {
      hide Represents, Atoi, ToUnsigned;
      var kind := TypeByName(c.section);
      if kind == -1 {
        UnknownRepresents(items, cs, c);
        return -1;
      }
      var i := 0;
      while i < |items| && items[i].kind != kind
        invariant 0 <= i <= |items|
        invariant forall j | 0 <= j < i :: items[j].kind != kind
      {
        i := i + 1;
      }
      UpdatedRepresents(items, cs, c, i);
      if i == |items| {
        items := items + [Conf(kind, None, None, 0, 0)];
      }
      var key, value := c.name, c.value;
      r := 1;
      if key == "path_regexp" {
        items := items[i := items[i].(pathRegexp := Some(value))];
      } else if key == "op_regexp" {
        items := items[i := items[i].(opRegexp := Some(value))];
      } else if key == "probability" {
        items := items[i := items[i].(probability := ToUnsigned(Atoi(value)))];
      } else if key == "duration" {
        items := items[i := items[i].(duration := ToUnsigned(Atoi(value)))];
      } else {
        r := 0;
      }
      assert items == Updated(old(items), i, kind, key, value);
      forall j | 0 <= j < |items| && Names(items[j].kind, c.section)
        ensures key == "path_regexp" ==> items[j].pathRegexp == Some(value)
        ensures key == "op_regexp" ==> items[j].opRegexp == Some(value)
        ensures key == "probability" ==> items[j].probability == ToUnsigned(Atoi(value))
        ensures key == "duration" ==> items[j].duration == ToUnsigned(Atoi(value))
      {
        LastCallShows(items, cs, c, j);
      }
    }

    /** `config_delete` frees the entries from the front. */
    method Drain()
      modifies this
      ensures items == []
    {
      while items != []
        decreases |items|
      {
        items := items[1..];
      }
    }
  }
}
