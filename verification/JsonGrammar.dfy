/** The grammar of RFC 8259 as lib/cJSON.c takes it, and that the parser takes exactly the texts of it. */
module JsonGrammar {
  import opened Arith
  import opened Bytes
  import opened JsonString
  import opened JsonValue
  import opened JsonParse
  import opened JsonNumber
  import opened JsonNumberText
  import opened JsonRoundTrip
  import JsonReread

  /** White space is any bytes up to a space. */
  ghost predicate White(c: Data, a: nat, b: nat) { a <= b <= |c| && forall i :: a <= i < b ==> c[i] <= 32 }

  ghost predicate NumberAt(c: Data, o: nat, n: nat, x: real)
  {
    exists num: NumText :: num.Ok() && |num.Text()| <= 63 && Starts(c, o, num.Text()) && n == o + |num.Text()|
                           && num.Value() == x
  }

  ghost predicate StringAt(c: Data, o: nat, n: nat, s: Data) { o < |c| && Literal(c, o) == Some((s, n)) }

  /** The bytes from `o` to `n` are a text of `v`. */
  ghost predicate ValueAt(c: Data, o: nat, n: nat, v: Json)
    decreases v, 1
  {
    match v
    case Null => Starts(c, o, [110, 117, 108, 108]) && n == o + 4
    case Bool(b) =>
      Starts(c, o, if b then [116, 114, 117, 101] else [102, 97, 108, 115, 101]) && n == o + if b then 4 else 5
    case Num(x) => NumberAt(c, o, n, x)
    case Str(s) => StringAt(c, o, n, s)
    case Arr(es) => At(c, o, 91) && if es == [] then EmptyAt(c, o + 1, n, 93) else ElemsAt(c, o + 1, n, es)
    case Obj(ms) => At(c, o, 123) && if ms == [] then EmptyAt(c, o + 1, n, 125) else MembersAt(c, o + 1, n, ms)
  }

  ghost predicate EmptyAt(c: Data, o: nat, n: nat, closing: Byte)
  {
    n > 0 && White(c, o, n - 1) && At(c, n - 1, closing)
  }

  /** Values with commas between them, a closing bracket behind the last, and white space around all of them. */
  ghost predicate ElemsAt(c: Data, o: nat, n: nat, es: seq<Json>)
    requires es != []
    decreases es, 0
  {
    exists a: nat, b: nat, m: nat ::
      && White(c, o, a) && ValueAt(c, a, b, es[0]) && White(c, b, m)
      && if |es| == 1 then At(c, m, 93) && n == m + 1 else At(c, m, 44) && ElemsAt(c, m + 1, n, es[1..])
  }

  /** A string, a colon and a value. */
  ghost predicate MemberAt(c: Data, o: nat, n: nat, m: Member)
    decreases m, 1
  {
    exists a: nat, b: nat, colon: nat, d: nat ::
      && White(c, o, a) && StringAt(c, a, b, m.key) && White(c, b, colon) && At(c, colon, 58)
      && White(c, colon + 1, d) && ValueAt(c, d, n, m.value)
  }

  ghost predicate MembersAt(c: Data, o: nat, n: nat, ms: seq<Member>)
    requires ms != []
    decreases ms, 0
  {
    exists b: nat, m: nat ::
      && MemberAt(c, o, b, ms[0]) && White(c, b, m)
      && if |ms| == 1 then At(c, m, 125) && n == m + 1 else At(c, m, 44) && MembersAt(c, m + 1, n, ms[1..])
  }

  // ---- white space ----

  lemma {:induction false} SkipIsWhite(c: Data, o: nat)
    requires o <= |c|
    ensures White(c, o, Skip(c, o))
  {
    WhiteEndIsWhite(c, o);
  }

  lemma {:induction false} WhiteEndIsWhite(c: Data, o: nat)
    requires o <= |c|
    ensures White(c, o, WhiteEnd(c, o))
    decreases |c| - o
  {
    if o < |c| && c[o] <= 32 {
      WhiteEndIsWhite(c, o + 1);
    }
  }

  lemma {:induction false} WhiteIsSkipped(c: Data, o: nat, p: nat)
    requires White(c, o, p) && p < |c| && c[p] > 32
    ensures WhiteEnd(c, o) == p && Skip(c, o) == p
    decreases p - o
  {
    if o < p {
      WhiteIsSkipped(c, o + 1, p);
    }
  }

  lemma WhiteJoin(c: Data, a: nat, b: nat, d: nat)
    requires White(c, a, b) && White(c, b, d)
    ensures White(c, a, d)
  {
  }

  // ---- whatever is read is in the grammar ----

  lemma {:induction false} ValueSound(c: Data, o: nat, depth: nat)
    requires o <= |c| && ParseValue(c, o, depth).Ok?
    ensures ValueAt(c, o, ParseValue(c, o, depth).next, ParseValue(c, o, depth).value)
    decreases |c| - o, 1
  {
    hide Literal, ParseNumber, ParseArray, ParseObject, Starts, NumberAt, EmptyAt, ElemsAt, MembersAt;
    if !Starts(c, o, NULL_TEXT) && !Starts(c, o, FALSE_TEXT) && !Starts(c, o, TRUE_TEXT) && o < |c| {
      if c[o] == QUOTE {
      } else if c[o] == MINUS || Digit(c[o]) {
        NumberSound(c, o);
      } else if c[o] == LBRACKET {
        ArraySound(c, o, depth);
      } else if c[o] == LBRACE {
        ObjectSound(c, o, depth);
      }
    }
  }

  lemma NumberSound(c: Data, o: nat)
    requires o < |c| && (c[o] == MINUS || Digit(c[o])) && ParseNumber(c, o).Ok?
    ensures ParseNumber(c, o).value.Num? && NumberAt(c, o, ParseNumber(c, o).next, ParseNumber(c, o).value.value)
  {
    hide NumText.Text, NumText.Value, NumText.Ok, Starts;
    var num := NumberFound(c, o);
  }

  lemma {:induction false} ArraySound(c: Data, o: nat, depth: nat)
    requires o < |c| && c[o] == LBRACKET && ParseArray(c, o, depth).Ok?
    ensures ValueAt(c, o, ParseArray(c, o, depth).next, ParseArray(c, o, depth).value)
    decreases |c| - o, 0
  {
    hide ParseElems, Skip, ElemsAt, White;
    var p := Skip(c, o + 1);
    SkipIsWhite(c, o + 1);
    if !At(c, p, RBRACKET) {
      ElemsSound(c, p, depth + 1);
      ElemsEarlier(c, o + 1, p, ParseElems(c, p, depth + 1).next, ParseElems(c, p, depth + 1).value);
    }
  }

  /** White space in front belongs to the elements. */
  lemma ElemsEarlier(c: Data, o: nat, p: nat, n: nat, es: seq<Json>)
    requires White(c, o, p) && es != [] && ElemsAt(c, p, n, es)
    ensures ElemsAt(c, o, n, es)
  {
    hide White, ValueAt;
    var a: nat, b: nat, m: nat :|
      && White(c, p, a) && ValueAt(c, a, b, es[0]) && White(c, b, m)
      && if |es| == 1 then At(c, m, 93) && n == m + 1 else At(c, m, 44) && ElemsAt(c, m + 1, n, es[1..]);
    WhiteJoin(c, o, p, a);
  }

  lemma {:induction false} ElemsSound(c: Data, o: nat, depth: nat)
    requires o <= |c| && ParseElems(c, o, depth).Ok?
    ensures ParseElems(c, o, depth).value != []
    ensures ElemsAt(c, o, ParseElems(c, o, depth).next, ParseElems(c, o, depth).value)
    decreases |c| - o, 2
  {
    hide ParseValue, Skip, ValueAt, White;
    var a := Skip(c, o);
    SkipIsWhite(c, o);
    ValueSound(c, a, depth);
    var v, b := ParseValue(c, a, depth).value, ParseValue(c, a, depth).next;
    var m := Skip(c, b);
    SkipIsWhite(c, b);
    var r := ParseElems(c, o, depth);
    assert White(c, o, a) && ValueAt(c, a, b, v) && White(c, b, m);
    if At(c, m, COMMA) {
      ElemsSound(c, m + 1, depth);
      assert r.value[0] == v && r.value[1..] == ParseElems(c, m + 1, depth).value;
    }
  }

  lemma {:induction false} ObjectSound(c: Data, o: nat, depth: nat)
    requires o < |c| && c[o] == LBRACE && ParseObject(c, o, depth).Ok?
    ensures ValueAt(c, o, ParseObject(c, o, depth).next, ParseObject(c, o, depth).value)
    decreases |c| - o, 0
  {
    hide ParseMembers, Skip, MembersAt, White;
    var p := Skip(c, o + 1);
    SkipIsWhite(c, o + 1);
    if !At(c, p, RBRACE) {
      MembersSound(c, p, depth + 1);
      MembersEarlier(c, o + 1, p, ParseMembers(c, p, depth + 1).next, ParseMembers(c, p, depth + 1).value);
    }
  }

  lemma MembersEarlier(c: Data, o: nat, p: nat, n: nat, ms: seq<Member>)
    requires White(c, o, p) && ms != [] && MembersAt(c, p, n, ms)
    ensures MembersAt(c, o, n, ms)
  {
    hide MemberAt, White;
    var b: nat, m: nat :|
      && MemberAt(c, p, b, ms[0]) && White(c, b, m)
      && if |ms| == 1 then At(c, m, 125) && n == m + 1 else At(c, m, 44) && MembersAt(c, m + 1, n, ms[1..]);
    MemberEarlier(c, o, p, b, ms[0]);
  }

  lemma MemberEarlier(c: Data, o: nat, p: nat, n: nat, m: Member)
    requires White(c, o, p) && MemberAt(c, p, n, m)
    ensures MemberAt(c, o, n, m)
  {
    hide White, ValueAt, StringAt;
    var a: nat, b: nat, colon: nat, d: nat :|
      && White(c, p, a) && StringAt(c, a, b, m.key) && White(c, b, colon) && At(c, colon, 58)
      && White(c, colon + 1, d) && ValueAt(c, d, n, m.value);
    WhiteJoin(c, o, p, a);
  }

  lemma {:induction false} MembersSound(c: Data, o: nat, depth: nat)
    requires o <= |c| && ParseMembers(c, o, depth).Ok?
    ensures ParseMembers(c, o, depth).value != []
    ensures MembersAt(c, o, ParseMembers(c, o, depth).next, ParseMembers(c, o, depth).value)
    decreases |c| - o, 3
  {
    hide ParseMember, Skip, MemberAt, White;
    MemberSound(c, o, depth);
    var member, b := ParseMember(c, o, depth).value, ParseMember(c, o, depth).next;
    var m := Skip(c, b);
    SkipIsWhite(c, b);
    var r := ParseMembers(c, o, depth);
    assert MemberAt(c, o, b, member) && White(c, b, m);
    if At(c, m, COMMA) {
      MembersSound(c, m + 1, depth);
      assert r.value[0] == member && r.value[1..] == ParseMembers(c, m + 1, depth).value;
    }
  }

  lemma {:induction false} MemberSound(c: Data, o: nat, depth: nat)
    requires o <= |c| && ParseMember(c, o, depth).Ok?
    ensures MemberAt(c, o, ParseMember(c, o, depth).next, ParseMember(c, o, depth).value)
    decreases |c| - o, 2
  {
    hide Literal, ParseValue, Skip, ValueAt, White;
    var a := Skip(c, o);
    SkipIsWhite(c, o);
    var key, b := Literal(c, a).value.0, Literal(c, a).value.1;
    var colon := Skip(c, b);
    SkipIsWhite(c, b);
    var d := Skip(c, colon + 1);
    SkipIsWhite(c, colon + 1);
    ValueSound(c, d, depth);
    assert StringAt(c, a, b, key) && White(c, o, a) && White(c, b, colon) && At(c, colon, 58) && White(c, colon + 1, d);
  }

  // ---- whatever is in the grammar is read ----

  /** A value takes up some bytes, of which the first is no white space and closes nothing. */
  lemma ValueBegins(c: Data, o: nat, n: nat, v: Json)
    requires ValueAt(c, o, n, v)
    ensures o < |c| && c[o] > 32 && c[o] != RBRACKET && c[o] != RBRACE
  {
    hide ElemsAt, MembersAt, EmptyAt, Literal;
    match v
    case Null => StartsAt(c, o, [110, 117, 108, 108], 0);
    case Bool(b) => StartsAt(c, o, if b then [116, 114, 117, 101] else [102, 97, 108, 115, 101], 0);
    case Num(x) => NumberStarts(c, o, n, x);
    case Str(_) => LiteralQuote(c, o);
    case _ =>
  }

  lemma NumberStarts(c: Data, o: nat, n: nat, x: real)
    requires NumberAt(c, o, n, x)
    ensures o < |c| && (c[o] == MINUS || Digit(c[o]))
  {
    hide Starts, NumText.Text, NumText.Value;
    var num: NumText :|
      num.Ok() && |num.Text()| <= 63 && Starts(c, o, num.Text()) && n == o + |num.Text()| && num.Value() == x;
    TextPieces(c, o, num);
    if num.negative {
      StartsAt(c, o, num.SignText(), 0);
    } else {
      StartsAt(c, o, num.whole, 0);
    }
  }

  lemma NumberComplete(c: Data, o: nat, n: nat, x: real)
    requires NumberAt(c, o, n, x) && (n < |c| ==> !NumberByte(c[n]))
    ensures o < |c| && (c[o] == MINUS || Digit(c[o])) && ParseNumber(c, o) == Ok(Num(x), n)
  {
    hide Starts, NumText.Text, NumText.Value, NumText.Ok, ParseNumber, NumberByte;
    var num: NumText :|
      num.Ok() && |num.Text()| <= 63 && Starts(c, o, num.Text()) && n == o + |num.Text()| && num.Value() == x;
    NumberReads(c, o, num);
  }

  /** A text of a value, behind which no number could go on, is read as this value, if there are enough levels left; if
      not, parsing fails. */
  lemma {:induction false} ValueComplete(c: Data, o: nat, n: nat, v: Json, depth: nat)
    requires ValueAt(c, o, n, v) && (n < |c| ==> !NumberByte(c[n])) && depth <= NESTING_LIMIT
    ensures o < |c| && ParseValue(c, o, depth) == Expected(depth + Depth(v) <= NESTING_LIMIT, v, n)
    decreases v, 1
  {
    hide Literal, ParseNumber, ParseArray, ParseObject, Starts, NumberAt, EmptyAt, ElemsAt, MembersAt, NumberByte;
    ValueBegins(c, o, n, v);
    match v
    case Null =>
    case Bool(b) =>
      StartsAt(c, o, if b then [116, 114, 117, 101] else [102, 97, 108, 115, 101], 0);
      NotText(c, o, NULL_TEXT);
      if b {
        NotText(c, o, FALSE_TEXT);
      }
    case Num(x) =>
      NumberComplete(c, o, n, x);
      NoWord(c, o);
    case Str(s) =>
      LiteralQuote(c, o);
      NoWord(c, o);
    case Arr(es) =>
      NoWord(c, o);
      ArrayComplete(c, o, n, es, depth);
    case Obj(ms) =>
      NoWord(c, o);
      ObjectComplete(c, o, n, ms, depth);
  }

  lemma LiteralQuote(c: Data, o: nat)
    requires o < |c| && Literal(c, o).Some?
    ensures c[o] == QUOTE
  {
  }

  lemma {:induction false} ArrayComplete(c: Data, o: nat, n: nat, es: seq<Json>, depth: nat)
    requires ValueAt(c, o, n, Arr(es)) && depth <= NESTING_LIMIT
    ensures o < |c| && ParseArray(c, o, depth) == Expected(depth + Depth(Arr(es)) <= NESTING_LIMIT, Arr(es), n)
    decreases Arr(es), 0
  {
    hide ParseElems, Skip, ValueAt, White, ElemsAt;
    ArrayParts(c, o, n, es);
    if es == [] {
      WhiteIsSkipped(c, o + 1, n - 1);
      DepthNone();
    } else {
      var a := ElemsBeginAt(c, o + 1, n, es);
      WhiteIsSkipped(c, o + 1, a);
      if depth < NESTING_LIMIT {
        ElemsComplete(c, a, n, es, depth + 1);
      }
    }
  }

  lemma ArrayParts(c: Data, o: nat, n: nat, es: seq<Json>)
    requires ValueAt(c, o, n, Arr(es))
    ensures At(c, o, LBRACKET)
    ensures es == [] ==> n > 0 && White(c, o + 1, n - 1) && At(c, n - 1, RBRACKET)
    ensures es != [] ==> ElemsAt(c, o + 1, n, es)
  {
    hide ElemsAt, White;
  }

  lemma ElemsBeginAt(c: Data, o: nat, n: nat, es: seq<Json>) returns (a: nat)
    requires es != [] && ElemsAt(c, o, n, es)
    ensures White(c, o, a) && a < |c| && c[a] > 32 && c[a] != RBRACKET && ElemsAt(c, a, n, es)
  {
    hide White, ValueAt;
    var a': nat, b: nat, m: nat :|
      && White(c, o, a') && ValueAt(c, a', b, es[0]) && White(c, b, m)
      && if |es| == 1 then At(c, m, 93) && n == m + 1 else At(c, m, 44) && ElemsAt(c, m + 1, n, es[1..]);
    ValueBegins(c, a', b, es[0]);
    a := a';
    WhiteNothing(c, a);
  }

  lemma WhiteNothing(c: Data, a: nat)
    requires a <= |c|
    ensures White(c, a, a)
  {
  }

  /** Behind white space and a mark, no number goes on. */
  lemma NoNumberGoesOn(c: Data, b: nat, m: nat)
    requires White(c, b, m) && m < |c| && (c[m] == COMMA || c[m] == RBRACKET || c[m] == RBRACE)
    ensures b < |c| && !NumberByte(c[b])
  {
  }

  lemma {:induction false} ElemsComplete(c: Data, o: nat, n: nat, es: seq<Json>, depth: nat)
    requires es != [] && ElemsAt(c, o, n, es) && depth <= NESTING_LIMIT && o <= |c|
    ensures ParseElems(c, o, depth) == Expected(depth + DepthElems(es) <= NESTING_LIMIT, es, n)
    decreases es, 0
  {
    hide White, ValueAt, ParseValue, ParseElems, Skip, Depth, DepthElems, NumberByte;
    var a: nat, b: nat, m: nat :|
      && White(c, o, a) && ValueAt(c, a, b, es[0]) && White(c, b, m)
      && if |es| == 1 then At(c, m, 93) && n == m + 1 else At(c, m, 44) && ElemsAt(c, m + 1, n, es[1..]);
    ValueBegins(c, a, b, es[0]);
    WhiteIsSkipped(c, o, a);
    WhiteIsSkipped(c, b, m);
    NoNumberGoesOn(c, b, m);
    ValueComplete(c, a, b, es[0], depth);
    DepthFirst(es);
    var ok := depth + Depth(es[0]) <= NESTING_LIMIT;
    if |es| == 1 {
      assert es == [es[0]];
      ElemsEnd(c, o, a, es[0], ok, b, m, depth);
    } else {
      ElemsComplete(c, m + 1, n, es[1..], depth);
      ElemsGoOn(c, o, a, es[0], ok, b, m, es[1..], depth + DepthElems(es[1..]) <= NESTING_LIMIT, n, depth);
      assert [es[0]] + es[1..] == es;
    }
  }

  lemma DepthFirst(es: seq<Json>)
    requires es != []
    ensures DepthElems(es) == Max(Depth(es[0]), DepthElems(es[1..])) && (|es| == 1 ==> DepthElems(es) == Depth(es[0]))
  {
    hide Depth;
    if |es| == 1 {
      assert es[1..] == [];
    }
  }

  lemma ElemsEnd(c: Data, o: nat, a: nat, v: Json, ok: bool, b: nat, m: nat, depth: nat)
    requires o <= |c| && Skip(c, o) == a && ParseValue(c, a, depth) == Expected(ok, v, b)
    requires b <= |c| && Skip(c, b) == m && At(c, m, RBRACKET)
    ensures ParseElems(c, o, depth) == Expected(ok, [v], m + 1)
  {
    hide ParseValue, Skip;
  }

  lemma ElemsGoOn(c: Data, o: nat, a: nat, v: Json, ok: bool, b: nat, m: nat, vs: seq<Json>, oks: bool, n: nat,
                  depth: nat)
    requires o <= |c| && Skip(c, o) == a && ParseValue(c, a, depth) == Expected(ok, v, b)
    requires b <= |c| && Skip(c, b) == m && At(c, m, COMMA) && ParseElems(c, m + 1, depth) == Expected(oks, vs, n)
    ensures ParseElems(c, o, depth) == Expected(ok && oks, [v] + vs, n)
  {
    hide ParseValue, Skip;
  }

  lemma {:induction false} ObjectComplete(c: Data, o: nat, n: nat, ms: seq<Member>, depth: nat)
    requires ValueAt(c, o, n, Obj(ms)) && depth <= NESTING_LIMIT
    ensures o < |c| && ParseObject(c, o, depth) == Expected(depth + Depth(Obj(ms)) <= NESTING_LIMIT, Obj(ms), n)
    decreases Obj(ms), 0
  {
    hide ParseMembers, Skip, ValueAt, White, MembersAt;
    ObjectIs(c, o, n, ms);
    if ms == [] {
      WhiteIsSkipped(c, o + 1, n - 1);
      DepthNone();
    } else {
      var a := MembersBeginAt(c, o + 1, n, ms);
      WhiteIsSkipped(c, o + 1, a);
      if depth < NESTING_LIMIT {
        MembersComplete(c, a, n, ms, depth + 1);
      }
    }
  }

  lemma ObjectIs(c: Data, o: nat, n: nat, ms: seq<Member>)
    requires ValueAt(c, o, n, Obj(ms))
    ensures At(c, o, LBRACE)
    ensures ms == [] ==> n > 0 && White(c, o + 1, n - 1) && At(c, n - 1, RBRACE)
    ensures ms != [] ==> MembersAt(c, o + 1, n, ms)
  {
    hide MembersAt, White;
  }

  lemma MembersBeginAt(c: Data, o: nat, n: nat, ms: seq<Member>) returns (a: nat)
    requires ms != [] && MembersAt(c, o, n, ms)
    ensures White(c, o, a) && a < |c| && c[a] > 32 && c[a] != RBRACE && MembersAt(c, a, n, ms)
  {
    hide White, MemberAt;
    var b: nat, m: nat :|
      && MemberAt(c, o, b, ms[0]) && White(c, b, m)
      && if |ms| == 1 then At(c, m, 125) && n == m + 1 else At(c, m, 44) && MembersAt(c, m + 1, n, ms[1..]);
    a := MemberBeginsAt(c, o, b, ms[0]);
  }

  lemma MemberBeginsAt(c: Data, o: nat, n: nat, m: Member) returns (a: nat)
    requires MemberAt(c, o, n, m)
    ensures White(c, o, a) && a < |c| && c[a] > 32 && c[a] != RBRACE && MemberAt(c, a, n, m)
  {
    hide White, ValueAt, Literal;
    var a': nat, b: nat, colon: nat, d: nat :|
      && White(c, o, a') && StringAt(c, a', b, m.key) && White(c, b, colon) && At(c, colon, 58)
      && White(c, colon + 1, d) && ValueAt(c, d, n, m.value);
    a := a';
    LiteralQuote(c, a);
    WhiteNothing(c, a);
  }

  lemma {:induction false} MembersComplete(c: Data, o: nat, n: nat, ms: seq<Member>, depth: nat)
    requires ms != [] && MembersAt(c, o, n, ms) && depth <= NESTING_LIMIT && o <= |c|
    ensures ParseMembers(c, o, depth) == Expected(depth + DepthMembers(ms) <= NESTING_LIMIT, ms, n)
    decreases ms, 0
  {
    hide White, MemberAt, ParseMember, ParseMembers, Skip, Depth, DepthMembers, NumberByte;
    var b: nat, m: nat :|
      && MemberAt(c, o, b, ms[0]) && White(c, b, m)
      && if |ms| == 1 then At(c, m, 125) && n == m + 1 else At(c, m, 44) && MembersAt(c, m + 1, n, ms[1..]);
    WhiteIsSkipped(c, b, m);
    NoNumberGoesOn(c, b, m);
    MemberComplete(c, o, b, ms[0], depth);
    DepthFirstMember(ms);
    var ok := depth + Depth(ms[0].value) <= NESTING_LIMIT;
    if |ms| == 1 {
      assert ms == [ms[0]];
      MembersLast(c, o, ms[0], ok, b, m, depth);
    } else {
      MembersComplete(c, m + 1, n, ms[1..], depth);
      MembersGoOn(c, o, ms[0], ok, b, m, ms[1..], depth + DepthMembers(ms[1..]) <= NESTING_LIMIT, n, depth);
      assert [ms[0]] + ms[1..] == ms;
    }
  }

  lemma DepthFirstMember(ms: seq<Member>)
    requires ms != []
    ensures DepthMembers(ms) == Max(Depth(ms[0].value), DepthMembers(ms[1..]))
    ensures |ms| == 1 ==> DepthMembers(ms) == Depth(ms[0].value)
  {
    hide Depth;
    if |ms| == 1 {
      assert ms[1..] == [];
    }
  }

  lemma MembersGoOn(c: Data, o: nat, v: Member, ok: bool, b: nat, m: nat, vs: seq<Member>, oks: bool, n: nat,
                    depth: nat)
    requires o <= |c| && ParseMember(c, o, depth) == Expected(ok, v, b)
    requires b <= |c| && Skip(c, b) == m && At(c, m, COMMA) && ParseMembers(c, m + 1, depth) == Expected(oks, vs, n)
    ensures ParseMembers(c, o, depth) == Expected(ok && oks, [v] + vs, n)
  {
    hide ParseMember, Skip;
  }

  lemma {:induction false} MemberComplete(c: Data, o: nat, n: nat, m: Member, depth: nat)
    requires MemberAt(c, o, n, m) && (n < |c| ==> !NumberByte(c[n])) && depth <= NESTING_LIMIT && o <= |c|
    ensures ParseMember(c, o, depth) == Expected(depth + Depth(m.value) <= NESTING_LIMIT, m, n)
    decreases m, 1
  {
    hide White, ValueAt, Literal, ParseValue, Skip, Depth, NumberByte;
    var a: nat, b: nat, colon: nat, d: nat :|
      && White(c, o, a) && StringAt(c, a, b, m.key) && White(c, b, colon) && At(c, colon, 58)
      && White(c, colon + 1, d) && ValueAt(c, d, n, m.value);
    LiteralQuote(c, a);
    ValueBegins(c, d, n, m.value);
    WhiteIsSkipped(c, o, a);
    WhiteIsSkipped(c, b, colon);
    WhiteIsSkipped(c, colon + 1, d);
    ValueComplete(c, d, n, m.value, depth);
    WhiteWithin(c, o, a);
  }

  lemma WhiteWithin(c: Data, o: nat, a: nat)
    requires White(c, o, a)
    ensures o <= a <= |c|
  {
  }

  /** Where a text begins: behind a byte order mark, if at least two bytes more follow. */
  function Begins(c: Data): nat
  {
    if |c| > 4 && c[0] == 0xEF && c[1] == 0xBB && c[2] == 0xBF then 3 else 0
  }

  lemma BeginsThere(c: Data)
    ensures Begins(c) == Start(c)
  {
    if |c| > 4 {
      assert c[..3] == [c[0], c[1], c[2]];
      assert BOM[0] == 0xEF && BOM[1] == 0xBB && BOM[2] == 0xBF;
    }
  }

  /** Whole texts: white space, a value, white space and the terminating zero. */
  ghost predicate Document(c: Data, v: Json)
    requires c != []
  {
    c[|c| - 1] == 0
    && exists o: nat, n: nat :: White(c, Begins(c), o) && ValueAt(c, o, n, v) && White(c, n, |c| - 1)
  }

  /** Exactly the texts of the grammar that are nested no deeper than the limit are read, each as what it stands for, to
      its end. */
  lemma ParseExactly(c: Data, v: Json)
    requires c != []
    ensures Parse(c, true).Ok? ==> Parse(c, true).next == |c| - 1
    ensures Parse(c, true) == Ok(v, |c| - 1) <==> Document(c, v) && Depth(v) <= NESTING_LIMIT
  {
    hide ParseValue, Skip, ValueAt, White, Depth, JsonReread.Within;
    if Parse(c, true).Ok? {
      ParseSound(c);
    }
    if Document(c, v) && Depth(v) <= NESTING_LIMIT {
      ParseComplete(c, v);
    }
  }

  /** A text begins with a value, up to `n`. */
  ghost predicate BeginsWith(c: Data, v: Json, n: nat)
  {
    exists o: nat :: White(c, Begins(c), o) && ValueAt(c, o, n, v)
  }

  /** The same, for the value a text begins with. No byte that may stand in a number is to follow, or it would be
      read as part of one. */
  lemma PrefixExactly(c: Data, v: Json, n: nat)
    requires c != [] && (n < |c| ==> !NumberByte(c[n]))
    ensures Parse(c, false) == Ok(v, n) <==> BeginsWith(c, v, n) && Depth(v) <= NESTING_LIMIT
  {
    hide ParseValue, Skip, ValueAt, White, Depth, NumberByte, JsonReread.Within, BeginsWith;
    if Parse(c, false) == Ok(v, n) {
      PrefixSound(c);
    }
    if BeginsWith(c, v, n) && Depth(v) <= NESTING_LIMIT {
      PrefixComplete(c, v, n);
    }
  }

  lemma PrefixSound(c: Data)
    requires c != [] && Parse(c, false).Ok?
    ensures var r := Parse(c, false); BeginsWith(c, r.value, r.next) && Depth(r.value) <= NESTING_LIMIT
  {
    hide ParseValue, Skip, ValueAt, White, Depth;
    BeginsThere(c);
    var o := Skip(c, Start(c));
    SkipIsWhite(c, Start(c));
    ValueSound(c, o, 0);
    JsonReread.ValueWithin(c, o, 0);
    assert White(c, Begins(c), o) && ValueAt(c, o, ParseValue(c, o, 0).next, ParseValue(c, o, 0).value);
  }

  lemma PrefixComplete(c: Data, v: Json, n: nat)
    requires c != [] && BeginsWith(c, v, n) && Depth(v) <= NESTING_LIMIT && (n < |c| ==> !NumberByte(c[n]))
    ensures Parse(c, false) == Ok(v, n)
  {
    hide ParseValue, Skip, ValueAt, White, Depth, NumberByte;
    var o: nat :| White(c, Begins(c), o) && ValueAt(c, o, n, v);
    BeginsThere(c);
    ValueBegins(c, o, n, v);
    WhiteIsSkipped(c, Start(c), o);
    ValueComplete(c, o, n, v, 0);
  }

  lemma ParseSound(c: Data)
    requires c != [] && Parse(c, true).Ok?
    ensures var v := Parse(c, true).value; Document(c, v) && Depth(v) <= NESTING_LIMIT
    ensures Parse(c, true).next == |c| - 1
  {
    hide ParseValue, Skip, ValueAt, White, Depth;
    var o := Skip(c, Start(c));
    SkipIsWhite(c, Start(c));
    ValueSound(c, o, 0);
    JsonReread.ValueWithin(c, o, 0);
    var n := ParseValue(c, o, 0).next;
    SkipIsWhite(c, n);
    ZeroIsLast(c, n);
    BeginsThere(c);
    assert White(c, Begins(c), o) && ValueAt(c, o, n, ParseValue(c, o, 0).value) && White(c, n, |c| - 1);
  }

  /** A zero is white space, so it is found at the end alone. */
  lemma ZeroIsLast(c: Data, n: nat)
    requires n <= |c| && At(c, Skip(c, n), 0)
    ensures Skip(c, n) == |c| - 1
  {
    WhiteEndStops(c, n);
  }

  lemma {:induction false} WhiteEndStops(c: Data, o: nat)
    requires o <= |c|
    ensures WhiteEnd(c, o) < |c| ==> c[WhiteEnd(c, o)] > 32
    decreases |c| - o
  {
    if o < |c| && c[o] <= 32 {
      WhiteEndStops(c, o + 1);
    }
  }

  lemma ParseComplete(c: Data, v: Json)
    requires c != [] && Document(c, v) && Depth(v) <= NESTING_LIMIT
    ensures Parse(c, true) == Ok(v, |c| - 1)
  {
    hide ParseValue, Skip, ValueAt, White, Depth, NumberByte;
    var o: nat, n: nat :| White(c, Begins(c), o) && ValueAt(c, o, n, v) && White(c, n, |c| - 1);
    BeginsThere(c);
    ValueBegins(c, o, n, v);
    WhiteIsSkipped(c, Start(c), o);
    WhiteToTheEnd(c, n);
    ValueComplete(c, o, n, v, 0);
  }

  lemma WhiteToTheEnd(c: Data, n: nat)
    requires c != [] && White(c, n, |c| - 1) && c[|c| - 1] == 0
    ensures n < |c| && !NumberByte(c[n]) && Skip(c, n) == |c| - 1
  {
    AllWhite(c, n);
  }

  lemma {:induction false} AllWhite(c: Data, o: nat)
    requires o <= |c| && forall i :: o <= i < |c| ==> c[i] <= 32
    ensures WhiteEnd(c, o) == |c|
    decreases |c| - o
  {
    if o < |c| {
      AllWhite(c, o + 1);
    }
  }
}
