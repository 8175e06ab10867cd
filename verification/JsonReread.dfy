/** Whatever text is read: the tree is nested no deeper than the limit, and printing it and reading that gives it
    back. */
module JsonReread {
  import opened Bytes
  import opened JsonString
  import opened JsonValue
  import opened JsonParse
  import opened JsonRoundTrip

  /** A tree read `level` levels deep. */
  predicate Within(v: Json, level: nat)
  {
    level + Depth(v) <= NESTING_LIMIT
  }

  predicate AllWithin(vs: seq<Json>, level: nat)
  {
    level + DepthElems(vs) <= NESTING_LIMIT && forall i :: 0 <= i < |vs| ==> Within(vs[i], level)
  }

  predicate MembersWithin(ms: seq<Member>, level: nat)
  {
    level + DepthMembers(ms) <= NESTING_LIMIT && forall i :: 0 <= i < |ms| ==> Within(ms[i].value, level)
  }

  lemma {:induction false} ValueWithin(c: Data, o: nat, level: nat)
    requires o <= |c| && level <= NESTING_LIMIT
    ensures ParseValue(c, o, level).Ok? ==> Within(ParseValue(c, o, level).value, level)
    decreases |c| - o, 1
  {
    hide Literal, Strtod, ParseArray, ParseObject, Starts, NumberEnd;
    if At(c, o, LBRACKET) {
      ArrayWithin(c, o, level);
    } else if At(c, o, LBRACE) {
      ObjectWithin(c, o, level);
    }
  }

  lemma {:induction false} ArrayWithin(c: Data, o: nat, level: nat)
    requires o < |c| && level <= NESTING_LIMIT
    ensures ParseArray(c, o, level).Ok? ==> Within(ParseArray(c, o, level).value, level)
    decreases |c| - o, 0
  {
    hide ParseElems, Skip, Within;
    var p := Skip(c, o + 1);
    if level < NESTING_LIMIT {
      ArrayIs([], level);
      if p < |c| {
        ElemsWithin(c, p, level + 1);
        match ParseElems(c, p, level + 1)
        case Ok(es, _) => ArrayIs(es, level);
        case _ =>
      }
    }
  }

  lemma ArrayIs(es: seq<Json>, level: nat)
    requires level < NESTING_LIMIT && (es == [] || AllWithin(es, level + 1))
    ensures Within(Arr(es), level)
  {
  }

  lemma {:induction false} ElemsWithin(c: Data, o: nat, level: nat)
    requires o <= |c| && level <= NESTING_LIMIT
    ensures ParseElems(c, o, level).Ok? ==> AllWithin(ParseElems(c, o, level).value, level)
    decreases |c| - o, 2
  {
    hide ParseValue, Skip, Within, AllWithin;
    ValueWithin(c, Skip(c, o), level);
    match ParseValue(c, Skip(c, o), level)
    case Ok(v, n) =>
      var m := Skip(c, n);
      NoneWithin(level);
      AllMore(v, [], level);
      assert [v] + [] == [v];
      if At(c, m, COMMA) {
        ElemsWithin(c, m + 1, level);
        match ParseElems(c, m + 1, level)
        case Ok(vs, _) => AllMore(v, vs, level);
        case _ =>
      }
    case _ =>
  }

  lemma NoneWithin(level: nat)
    requires level <= NESTING_LIMIT
    ensures AllWithin([], level) && MembersWithin([], level)
  {
  }

  lemma AllMore(v: Json, vs: seq<Json>, level: nat)
    requires Within(v, level) && AllWithin(vs, level)
    ensures AllWithin([v] + vs, level)
  {
    hide Depth;
    assert ([v] + vs)[1..] == vs;
  }

  lemma {:induction false} ObjectWithin(c: Data, o: nat, level: nat)
    requires o < |c| && level <= NESTING_LIMIT
    ensures ParseObject(c, o, level).Ok? ==> Within(ParseObject(c, o, level).value, level)
    decreases |c| - o, 0
  {
    hide ParseMembers, Skip, Within;
    var p := Skip(c, o + 1);
    if level < NESTING_LIMIT {
      ObjectIs([], level);
      if p < |c| {
        AllMembersWithin(c, p, level + 1);
        match ParseMembers(c, p, level + 1)
        case Ok(ms, _) => ObjectIs(ms, level);
        case _ =>
      }
    }
  }

  lemma ObjectIs(ms: seq<Member>, level: nat)
    requires level < NESTING_LIMIT && (ms == [] || MembersWithin(ms, level + 1))
    ensures Within(Obj(ms), level)
  {
  }

  lemma {:induction false} AllMembersWithin(c: Data, o: nat, level: nat)
    requires o <= |c| && level <= NESTING_LIMIT
    ensures ParseMembers(c, o, level).Ok? ==> MembersWithin(ParseMembers(c, o, level).value, level)
    decreases |c| - o, 3
  {
    hide ParseMember, Skip, Within, MembersWithin;
    MemberWithin(c, o, level);
    match ParseMember(c, o, level)
    case Ok(member, n) =>
      var m := Skip(c, n);
      NoneWithin(level);
      MembersMore(member, [], level);
      assert [member] + [] == [member];
      if At(c, m, COMMA) {
        AllMembersWithin(c, m + 1, level);
        match ParseMembers(c, m + 1, level)
        case Ok(ms, _) => MembersMore(member, ms, level);
        case _ =>
      }
    case _ =>
  }

  lemma {:induction false} MemberWithin(c: Data, o: nat, level: nat)
    requires o <= |c| && level <= NESTING_LIMIT
    ensures ParseMember(c, o, level).Ok? ==> Within(ParseMember(c, o, level).value.value, level)
    decreases |c| - o, 2
  {
    hide Literal, ParseValue, Skip, Within;
    if o < |c| {
      match Literal(c, Skip(c, o))
      case Some((_, n)) =>
        var m := Skip(c, n);
        if At(c, m, COLON) {
          ValueWithin(c, Skip(c, m + 1), level);
        }
      case None =>
    }
  }

  lemma MembersMore(m: Member, ms: seq<Member>, level: nat)
    requires Within(m.value, level) && MembersWithin(ms, level)
    ensures MembersWithin([m] + ms, level)
  {
    hide Depth;
    assert ([m] + ms)[1..] == ms;
  }

  /** Any text that is read, however it was written: the tree is nested no deeper than the limit; and if it can be
      printed, with or without formatting, reading that text gives the same tree. */
  lemma Reread(c: Data, toTheEnd: bool, format: bool)
    requires Parse(c, toTheEnd).Ok?
    ensures var v := Parse(c, toTheEnd).value;
      && Depth(v) <= NESTING_LIMIT
      && (Printable(v) ==> Parse(Text(v, format, 0) + [0], true) == Ok(v, |Text(v, format, 0)|))
  {
    hide Depth, ParseValue, Printable, Text, Skip;
    ValueWithin(c, Skip(c, Start(c)), 0);
    if Printable(Parse(c, toTheEnd).value) {
      ParseOfText(Parse(c, toTheEnd).value, format, true);
    }
  }
}
