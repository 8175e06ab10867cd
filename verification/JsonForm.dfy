/** What printed JSON looks like, beyond what reading it back tells: where white space stands, how a byte is
    escaped, and which of its digits a number shows. */
module JsonForm {
  import opened Arith
  import opened Bytes
  import opened JsonNumber
  import opened JsonString
  import opened JsonValue
  import JsonLiteral

  // ---- white space ----

  /** Where a byte stands: between strings, in one, or right behind a backslash in one. */
  datatype Place = Outside | Inside | Escaped

  function Next(p: Place, b: Byte): Place
  {
    match p
    case Outside => if b == 34 then Inside else Outside
    case Inside => if b == 34 then Outside else if b == 92 then Escaped else Inside
    case Escaped => Inside
  }

  predicate White(b: Byte) { b == 32 || b == 9 || b == 10 || b == 13 }

  function Behind(t: Data, p: Place): Place { if t == [] then p else Behind(t[1..], Next(p, t[0])) }

  /** A text without the white space between strings. */
  function Squeezed(t: Data, p: Place): Data
  {
    if t == [] then []
    else (if p == Outside && White(t[0]) then [] else [t[0]]) + Squeezed(t[1..], Next(p, t[0]))
  }

  lemma {:induction false} SqueezeJoin(a: Data, b: Data, p: Place)
    ensures Behind(a + b, p) == Behind(b, Behind(a, p))
    ensures Squeezed(a + b, p) == Squeezed(a, p) + Squeezed(b, Behind(a, p))
    decreases |a|
  {
    hide Next, White;
    if a == [] {
      assert a + b == b;
    } else {
      var rest, next := a[1..], Next(p, a[0]);
      var first: Data := if p == Outside && White(a[0]) then [] else [a[0]];
      assert (a + b)[1..] == rest + b && (a + b)[0] == a[0];
      SqueezeJoin(rest, b, next);
      assert Squeezed(a + b, p) == first + Squeezed(rest + b, next);
      AppendAssoc(first, Squeezed(rest, next), Squeezed(b, Behind(rest, next)));
    }
  }

  /** A text that begins and ends between strings, and what is left of it. */
  predicate Squeezes(t: Data, left: Data) { Behind(t, Outside) == Outside && Squeezed(t, Outside) == left }

  lemma JoinSqueezes(a: Data, b: Data, leftA: Data, leftB: Data)
    requires Squeezes(a, leftA) && Squeezes(b, leftB)
    ensures Squeezes(a + b, leftA + leftB)
  {
    SqueezeJoin(a, b, Outside);
  }

  lemma {:induction false} PlainSqueezes(t: Data)
    requires forall i :: 0 <= i < |t| ==> t[i] != 34 && !White(t[i])
    ensures Squeezes(t, t)
  {
    if t != [] {
      PlainSqueezes(t[1..]);
    }
  }

  lemma {:induction false} WhiteSqueezes(t: Data)
    requires forall i :: 0 <= i < |t| ==> White(t[i])
    ensures Squeezes(t, [])
  {
    if t != [] {
      WhiteSqueezes(t[1..]);
    }
  }

  lemma IfSqueezes(format: bool, t: Data)
    requires forall i :: 0 <= i < |t| ==> White(t[i])
    ensures Squeezes(If(format, t), [])
  {
    WhiteSqueezes(if format then t else []);
  }

  lemma EscapeInside(b: Byte)
    ensures Behind(Escape(b), Inside) == Inside && Squeezed(Escape(b), Inside) == Escape(b)
  {
    var t := Escape(b);
    if t == [b] {
      OrdinaryInside(t);
    } else if |t| == 2 {
      TwoInside(t[1]);
      assert t == [92, t[1]];
    } else {
      TwoInside(117);
      assert t == [92, 117] + [48, 48, HexLetter(b / 16), HexLetter(b % 16)];
      SqueezeJoin([92, 117], [48, 48, HexLetter(b / 16), HexLetter(b % 16)], Inside);
      OrdinaryInside([48, 48, HexLetter(b / 16), HexLetter(b % 16)]);
    }
  }

  lemma TwoInside(b: Byte)
    ensures Behind([92, b], Inside) == Inside && Squeezed([92, b], Inside) == [92, b]
  {
    assert [92, b] == [92] + [b];
    SqueezeJoin([92], [b], Inside);
    OneByte(92, Inside);
    OneByte(b, Escaped);
  }

  lemma OneByte(b: Byte, p: Place)
    ensures Behind([b], p) == Next(p, b) && Squeezed([b], p) == if p == Outside && White(b) then [] else [b]
  {
    assert [b][1..] == [];
  }

  lemma {:induction false} OrdinaryInside(t: Data)
    requires forall i :: 0 <= i < |t| ==> t[i] != 34 && t[i] != 92
    ensures Behind(t, Inside) == Inside && Squeezed(t, Inside) == t
  {
    if t != [] {
      OrdinaryInside(t[1..]);
    }
  }

  lemma {:induction false} EscapesInside(s: Data)
    ensures Behind(EscapeAll(s), Inside) == Inside && Squeezed(EscapeAll(s), Inside) == EscapeAll(s)
  {
    if s != [] {
      EscapeInside(s[0]);
      EscapesInside(s[1..]);
      SqueezeJoin(Escape(s[0]), EscapeAll(s[1..]), Inside);
    }
  }

  lemma QuotedSqueezes(s: Data)
    ensures Squeezes(Quoted(s), Quoted(s))
  {
    hide EscapeAll;
    var e := EscapeAll(s);
    EscapesInside(s);
    assert Quoted(s) == [34] + (e + [34]);
    SqueezeJoin([34], e + [34], Outside);
    SqueezeJoin(e, [34], Inside);
    assert [34][1..] == [];
  }

  lemma NumberSqueezes(v: real)
    ensures Squeezes(NumberText(v), NumberText(v))
  {
    hide Places, AllDigits, NatText, PaddedText, Upper;
    PlainSqueezes(NumberText(v));
  }

  /** Formatting a value only adds white space between its tokens; without it there is none. */
  lemma {:induction false} FormatAddsWhite(v: Json, format: bool, depth: nat, depth': nat)
    ensures Squeezes(Text(v, format, depth), Text(v, false, depth'))
    decreases v, 0
  {
    hide Squeezes;
    match v
    case Null => PlainSqueezes(NULL_TEXT);
    case Bool(b) =>
      PlainSqueezes(TRUE_TEXT);
      PlainSqueezes(FALSE_TEXT);
    case Num(n) => NumberSqueezes(n);
    case Str(s) => QuotedSqueezes(s);
    case Arr(es) =>
      ElemsAddWhite(es, format, depth + 1, depth' + 1);
      PlainSqueezes([LBRACKET]);
      PlainSqueezes([RBRACKET]);
      var t, u := ElemsText(es, format, depth + 1), ElemsText(es, false, depth' + 1);
      JoinSqueezes(t, [RBRACKET], u, [RBRACKET]);
      JoinSqueezes([LBRACKET], t + [RBRACKET], [LBRACKET], u + [RBRACKET]);
    case Obj(ms) =>
      MembersAddWhite(ms, format, depth + 1, depth' + 1);
      BracesAddWhite(MembersText(ms, format, depth + 1), MembersText(ms, false, depth' + 1), format, depth);
  }

  lemma BracesAddWhite(t: Data, u: Data, format: bool, depth: nat)
    requires Squeezes(t, u)
    ensures Squeezes([LBRACE] + (If(format, [NEWLINE]) + (t + (If(format, Tabs(depth)) + [RBRACE]))),
                     [LBRACE] + ([] + (u + ([] + [RBRACE]))))
  {
    hide Squeezes;
    IfSqueezes(format, [NEWLINE]);
    IfSqueezes(format, Tabs(depth));
    PlainSqueezes([LBRACE]);
    PlainSqueezes([RBRACE]);
    var close := If(format, Tabs(depth)) + [RBRACE];
    JoinSqueezes(If(format, Tabs(depth)), [RBRACE], [], [RBRACE]);
    JoinSqueezes(t, close, u, [] + [RBRACE]);
    JoinSqueezes(If(format, [NEWLINE]), t + close, [], u + ([] + [RBRACE]));
    JoinSqueezes([LBRACE], If(format, [NEWLINE]) + (t + close), [LBRACE], [] + (u + ([] + [RBRACE])));
  }

  lemma {:induction false} ElemsAddWhite(es: seq<Json>, format: bool, depth: nat, depth': nat)
    ensures Squeezes(ElemsText(es, format, depth), ElemsText(es, false, depth'))
    decreases es, 1
  {
    hide Squeezes, Text;
    if es == [] {
      PlainSqueezes([]);
    } else {
      FormatAddsWhite(es[0], format, depth, depth');
      if |es| > 1 {
        ElemsAddWhite(es[1..], format, depth, depth');
        IfSqueezes(format, [SPACE]);
        PlainSqueezes([COMMA]);
        var t, u := ElemsText(es[1..], format, depth), ElemsText(es[1..], false, depth');
        JoinSqueezes(If(format, [SPACE]), t, [], u);
        JoinSqueezes([COMMA], If(format, [SPACE]) + t, [COMMA], [] + u);
        JoinSqueezes(Text(es[0], format, depth), [COMMA] + (If(format, [SPACE]) + t), Text(es[0], false, depth'),
                     [COMMA] + ([] + u));
      }
    }
  }

  lemma {:induction false} MembersAddWhite(ms: seq<Member>, format: bool, depth: nat, depth': nat)
    ensures Squeezes(MembersText(ms, format, depth), MembersText(ms, false, depth'))
    decreases ms, 1
  {
    hide Squeezes, MemberText;
    if ms == [] {
      PlainSqueezes([]);
    } else {
      MemberAddsWhite(ms[0], format, depth, depth');
      MembersAddWhite(ms[1..], format, depth, depth');
      IfSqueezes(format, [NEWLINE]);
      var comma := If(|ms| > 1, [COMMA]);
      PlainSqueezes(comma);
      var t, u := MembersText(ms[1..], format, depth), MembersText(ms[1..], false, depth');
      JoinSqueezes(If(format, [NEWLINE]), t, [], u);
      JoinSqueezes(comma, If(format, [NEWLINE]) + t, comma, [] + u);
      JoinSqueezes(MemberText(ms[0], format, depth), comma + (If(format, [NEWLINE]) + t),
                   MemberText(ms[0], false, depth'), comma + ([] + u));
    }
  }

  lemma {:induction false} MemberAddsWhite(m: Member, format: bool, depth: nat, depth': nat)
    ensures Squeezes(MemberText(m, format, depth), MemberText(m, false, depth'))
    decreases m, 0
  {
    hide Squeezes, Text, Quoted;
    FormatAddsWhite(m.value, format, depth, depth');
    QuotedSqueezes(m.key);
    IfSqueezes(format, Tabs(depth));
    IfSqueezes(format, [TAB]);
    PlainSqueezes([COLON]);
    var t, u := Text(m.value, format, depth), Text(m.value, false, depth');
    JoinSqueezes(If(format, [TAB]), t, [], u);
    JoinSqueezes([COLON], If(format, [TAB]) + t, [COLON], [] + u);
    JoinSqueezes(Quoted(m.key), [COLON] + (If(format, [TAB]) + t), Quoted(m.key), [COLON] + ([] + u));
    JoinSqueezes(If(format, Tabs(depth)), Quoted(m.key) + ([COLON] + (If(format, [TAB]) + t)), [],
                 Quoted(m.key) + ([COLON] + ([] + u)));
  }

  /** Where it stands, in `{"a":[null, true],"b":{"c":{}}}`: the elements of an array are behind one another, and each
      member of an object is on a line of its own, as many tabs in as levels are open, its value behind another tab. */
  lemma FormatExample()
    ensures Text(Obj([Member([97], Arr([Null, Bool(true)])), Member([98], Obj([Member([99], Obj([]))]))]), true, 0)
         == [123, 10]
            + ([9] + ([34, 97, 34, 58, 9]
                      + ([91, 110, 117, 108, 108, 44, 32, 116, 114, 117, 101, 93]
                         + ([44, 10]
                            + ([9] + ([34, 98, 34, 58, 9]
                                      + (([123, 10]
                                          + ([9, 9] + ([34, 99, 34, 58, 9]
                                                       + (([123, 10]
                                                           + ([9, 9] + [125]))
                                                          + ([10]
                                                             + ([9] + [125]))))))
                                         + ([10]
                                            + ([] + [125])))))))))
  {
    hide Text, MemberText, MembersText;
    var list, none := Arr([Null, Bool(true)]), Obj([]);
    var inner := Obj([Member([99], none)]);
    TabsAre();
    ListExample();
    NoMembers(2);
    OneMember(99, none, 1);
    TwoMembers(97, list, 98, inner, 0);
  }

  lemma ListExample()
    ensures Text(Arr([Null, Bool(true)]), true, 1) == [91, 110, 117, 108, 108, 44, 32, 116, 114, 117, 101, 93]
  {
    var es := [Null, Bool(true)];
    assert es[1..] == [Bool(true)];
    assert ElemsText(es[1..], true, 2) == TRUE_TEXT;
    assert ElemsText(es, true, 2) == NULL_TEXT + ([COMMA] + ([SPACE] + TRUE_TEXT));
  }

  lemma NoMembers(depth: nat)
    ensures Text(Obj([]), true, depth) == [123, 10] + (Tabs(depth) + [125])
  {
    MembersNone(true, depth + 1);
    assert [123, 10] + (Tabs(depth) + [125]) == [123] + ([10] + ([] + (Tabs(depth) + [125])));
  }

  lemma MemberIs(b: Byte, v: Json, depth: nat)
    requires 97 <= b <= 122
    ensures MemberText(Member([b], v), true, depth) == Tabs(depth) + ([34, b, 34, 58, 9] + Text(v, true, depth))
  {
    hide Text;
    assert EscapeAll([b]) == Escape(b) + EscapeAll([]);
    assert Quoted([b]) == [34, b, 34];
    var t := Text(v, true, depth);
    assert [34, b, 34] + ([58] + ([9] + t)) == [34, b, 34, 58, 9] + t;
  }

  lemma OneMember(b: Byte, v: Json, depth: nat)
    requires 97 <= b <= 122
    ensures Text(Obj([Member([b], v)]), true, depth)
         == [123, 10]
            + (Tabs(depth + 1) + ([34, b, 34, 58, 9] + (Text(v, true, depth + 1) + ([10] + (Tabs(depth) + [125])))))
  {
    hide MemberText;
    var m, ms := Member([b], v), [Member([b], v)];
    MemberIs(b, v, depth + 1);
    assert ms[1..] == [];
    MembersNone(true, depth + 1);
    var t := MemberText(m, true, depth + 1);
    assert MembersText(ms, true, depth + 1) == t + ([] + ([10] + []));
    hide Text;
    MembersWrap(ms, depth);
    Regroup(Tabs(depth + 1), [34, b, 34, 58, 9], Text(v, true, depth + 1), [10], Tabs(depth) + [125]);
  }

  lemma TwoMembers(b: Byte, v: Json, c: Byte, w: Json, depth: nat)
    requires 97 <= b <= 122 && 97 <= c <= 122
    ensures Text(Obj([Member([b], v), Member([c], w)]), true, depth)
         == [123, 10]
            + (Tabs(depth + 1)
               + ([34, b, 34, 58, 9]
                  + (Text(v, true, depth + 1)
                     + ([44, 10]
                        + (Tabs(depth + 1)
                           + ([34, c, 34, 58, 9] + (Text(w, true, depth + 1) + ([10] + (Tabs(depth) + [125])))))))))
  {
    hide MemberText;
    var ms := [Member([b], v), Member([c], w)];
    MemberIs(b, v, depth + 1);
    MemberIs(c, w, depth + 1);
    assert ms[1..] == [Member([c], w)] && ms[1..][1..] == [];
    MembersNone(true, depth + 1);
    var t, u, end := MemberText(ms[0], true, depth + 1), MemberText(ms[1], true, depth + 1), Tabs(depth) + [125];
    assert MembersText(ms[1..], true, depth + 1) == u + ([] + ([10] + []));
    assert MembersText(ms, true, depth + 1) == t + ([44] + ([10] + MembersText(ms[1..], true, depth + 1)));
    hide Text;
    MembersWrap(ms, depth);
    Commas(t, u, end);
    Regroup(Tabs(depth + 1), [34, c, 34, 58, 9], Text(w, true, depth + 1), [10], end);
    Regroup(Tabs(depth + 1), [34, b, 34, 58, 9], Text(v, true, depth + 1), [44, 10], u + ([10] + end));
  }

  lemma MembersWrap(ms: seq<Member>, depth: nat)
    ensures Text(Obj(ms), true, depth) == [123, 10] + (MembersText(ms, true, depth + 1) + (Tabs(depth) + [125]))
  {
    var t := MembersText(ms, true, depth + 1) + (Tabs(depth) + [125]);
    assert [123, 10] + t == [123] + ([10] + t);
  }

  lemma Regroup(a: Data, b: Data, c: Data, d: Data, e: Data)
    ensures (a + (b + c)) + (d + e) == a + (b + (c + (d + e)))
  {
  }

  lemma Commas(t: Data, u: Data, end: Data)
    ensures (t + ([44] + ([10] + (u + ([] + ([10] + [])))))) + end == t + ([44, 10] + (u + ([10] + end)))
    ensures (t + ([] + ([10] + []))) + end == t + ([10] + end)
  {
  }

  lemma TabsAre()
    ensures Tabs(0) == [] && Tabs(1) == [9] && Tabs(2) == [9, 9]
  {
  }

  // ---- escapes ----

  /** Quotes, backslashes and the bytes with a letter of their own take two bytes, other control characters six with
      lower-case digits, and every other byte stands for itself. */
  lemma EscapedAs(b: Byte)
    ensures forall k :: 0 <= k < 8 && k != 2 && JsonLiteral.MEANT[k] == b ==> Escape(b) == [92, JsonLiteral.ESCAPED[k]]
    ensures b < 32 && b !in JsonLiteral.MEANT ==>
      Escape(b) == [92, 117, 48, 48, JsonLiteral.LOWER[b / 16], JsonLiteral.LOWER[b % 16]]
    ensures b >= 32 && b != 34 && b != 92 ==> Escape(b) == [b]
  {
    var meant, escaped := JsonLiteral.MEANT, JsonLiteral.ESCAPED;
    assert meant[0] == 34 && meant[1] == 92 && meant[3] == 8 && meant[4] == 12 && meant[5] == 10 && meant[6] == 13;
    assert meant[7] == 9;
    assert escaped[0] == 34 && escaped[1] == 92 && escaped[3] == 98 && escaped[4] == 102 && escaped[5] == 110;
    assert escaped[6] == 114 && escaped[7] == 116;
    if b < 32 {
      LowerLetter(b / 16);
      LowerLetter(b % 16);
    }
  }

  lemma LowerLetter(d: int)
    requires 0 <= d < 16
    ensures JsonLiteral.LOWER[d] == HexLetter(d)
  {
    var lower := JsonLiteral.LOWER;
    assert lower[10] == 97 && lower[11] == 98 && lower[12] == 99 && lower[13] == 100 && lower[14] == 101;
    assert lower[15] == 102;
  }

  // ---- numbers ----

  /** A number has no zero in front of its other digits before the point, and none at the end of those behind it. */
  lemma NumberLean(v: real)
    requires Short(v)
    ensures var t := NumberText(v);
      var digits := if v < 0.0 then t[1..] else t;
      && (v < 0.0 ==> t[0] == 45)
      && (digits[0] == 48 ==> |digits| == 1 || digits[1] == 46)
      && (46 in digits ==> digits[|digits| - 1] != 48)
  {
    hide Pow10, Short, Places, AllDigits, DecimalText;
    Shortest(v);
    var k := Places(Fabs(v), MAX_PLACES).value;
    if k > 0 {
      LastPlace(v, k);
    }
    DecimalLean(AllDigits(v, k), k);
  }

  lemma DecimalLean(m: nat, k: nat)
    requires k > 0 ==> m % 10 != 0
    ensures var t := DecimalText(m, k);
      && (t[0] == 48 ==> |t| == 1 || t[1] == 46)
      && (46 in t ==> t[|t| - 1] != 48)
  {
    hide NatText, PaddedText, Upper;
    Leading(Upper(m, k));
    if k > 0 {
      PaddedLast(m, k);
    }
  }

  lemma PaddedLast(m: nat, k: nat)
    requires k > 0
    ensures PaddedText(m, k)[k - 1] == 48 + m % 10
  {
  }

  lemma {:induction false} Leading(n: nat)
    ensures if n < 10 then NatText(n) == [48 + n] else NatText(n)[0] != 48
  {
    if n >= 10 {
      Leading(n / 10);
    }
  }

  /** The last decimal place a number needs is no zero. */
  lemma LastPlace(v: real, k: nat)
    requires 0 < k && Places(Fabs(v), MAX_PLACES) == Some(k)
    ensures AllDigits(v, k) % 10 != 0
  {
    hide Places, Shifted;
    PlacesLeast(Fabs(v), MAX_PLACES);
    ShiftedOnce(Fabs(v), k);
    var m := AllDigits(v, k);
    if m % 10 == 0 {
      TenthWhole(m, Shifted(Fabs(v), k - 1));
    }
  }

  lemma TenthWhole(m: nat, a: real)
    requires m as real == 10.0 * a && m % 10 == 0
    ensures Whole(a)
  {
    assert a == (m / 10) as real;
  }

  lemma {:induction false} PlacesLeast(a: real, limit: nat)
    ensures match Places(a, limit) case None => true case Some(k) => k > 0 ==> !Whole(Shifted(a, k - 1))
    decreases limit
  {
    if !Whole(a) && limit > 0 {
      PlacesLeast(10.0 * a, limit - 1);
    }
  }

  lemma {:induction false} ShiftedOnce(a: real, k: nat)
    requires 0 < k
    ensures Shifted(a, k) == 10.0 * Shifted(a, k - 1)
    decreases k
  {
    if k > 1 {
      ShiftedOnce(10.0 * a, k - 1);
    }
  }
}
