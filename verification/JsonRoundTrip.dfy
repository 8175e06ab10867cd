/** Printing a value and parsing the text gives the value back, if it is not nested too deep; and only then. */
module JsonRoundTrip {
  import opened Arith
  import opened Bytes
  import opened JsonNumber
  import opened JsonString
  import opened JsonValue
  import opened JsonParse
  import Unicode

  // ---- texts and white space ----

  lemma StartsSplit(c: Data, o: nat, a: Data, b: Data)
    requires Starts(c, o, a + b)
    ensures Starts(c, o, a) && Starts(c, o + |a|, b)
  {
    assert c[o..o + |a|] == c[o..o + |a + b|][..|a|];
    assert c[o + |a|..o + |a| + |b|] == c[o..o + |a + b|][|a|..];
  }

  lemma StartsOne(c: Data, o: nat, b: Byte)
    requires Starts(c, o, [b])
    ensures At(c, o, b)
  {
    assert c[o] == c[o..o + 1][0];
  }

  lemma StartsAt(c: Data, o: nat, text: Data, i: nat)
    requires Starts(c, o, text) && i < |text|
    ensures o + i < |c| && c[o + i] == text[i]
  {
    assert c[o..o + |text|][i] == c[o + i];
  }

  lemma {:induction false} SkipWhite(c: Data, o: nat, white: Data)
    requires Starts(c, o, white) && forall i :: 0 <= i < |white| ==> white[i] <= 32
    requires o + |white| < |c| && c[o + |white|] > 32
    ensures WhiteEnd(c, o) == o + |white| && Skip(c, o) == o + |white|
    decreases |white|
  {
    if white != [] {
      StartsAt(c, o, white, 0);
      assert Starts(c, o + 1, white[1..]) by {
        assert c[o + 1..o + |white|] == c[o..o + |white|][1..];
      }
      SkipWhite(c, o + 1, white[1..]);
    }
  }

  lemma SkipNothing(c: Data, o: nat)
    requires o < |c| && c[o] > 32
    ensures Skip(c, o) == o
  {
  }

  // ---- strings ----

  /** A control byte and its escape with four hexadecimal digits. */
  lemma HexEscape(c: Data, i: nat, end: nat, b: Byte)
    requires b < 32 && Starts(c, i, [BACKSLASH, LETTER_U, 48, 48, HexLetter(b / 16), HexLetter(b % 16)])
    requires i + 6 <= end < |c|
    ensures ClosingQuote(c, i) == ClosingQuote(c, i + 6)
    ensures CodePoint(c, i, end) == Some((b, 6)) && c[i] == BACKSLASH && c[i + 1] == LETTER_U
  {
    var t: Data := [BACKSLASH, LETTER_U, 48, 48, HexLetter(b / 16), HexLetter(b % 16)];
    forall k | 0 <= k < 6 ensures c[i + k] == t[k] {
      StartsAt(c, i, t, k);
    }
    assert c[i] == t[0] && c[i + 1] == t[1] && c[i + 2] == t[2];
    assert c[i + 3] == t[3] && c[i + 4] == t[4] && c[i + 5] == t[5];
    assert HexValue(t[4]) == Some(b / 16) && HexValue(t[5]) == Some(b % 16);
    PastHex(c, i + 2);
    assert Digits(c, i + 2, 2) == 0;
    assert Digits(c, i + 2, 3) == b / 16;
    assert Digits(c, i + 2, 4) == b;
  }

  /** The text of one byte is read past, and read back. */
  lemma OneEscape(c: Data, i: nat, end: nat, b: Byte)
    requires Starts(c, i, Escape(b)) && i + |Escape(b)| <= end < |c|
    ensures ClosingQuote(c, i) == ClosingQuote(c, i + |Escape(b)|)
    ensures Unescape(c, i, end) == Then([b], Unescape(c, i + |Escape(b)|, end))
  {
    hide Then, CodePoint;
    StartsAt(c, i, Escape(b), 0);
    UnescapeStep(c, i, end);
    if |Escape(b)| == 2 {
      StartsAt(c, i, Escape(b), 1);
      hide Unescape;
    } else if |Escape(b)| == 6 {
      HexEscape(c, i, end, b);
      hide Unescape, ClosingQuote;
    } else {
      hide Unescape;
    }
  }

  lemma EscapeSplit(s: Data)
    requires s != []
    ensures EscapeAll(s) == Escape(s[0]) + EscapeAll(s[1..])
  {
  }

  lemma {:induction false} AllEscapes(c: Data, i: nat, end: nat, s: Data)
    requires Starts(c, i, EscapeAll(s)) && end == i + |EscapeAll(s)| && At(c, end, QUOTE)
    ensures ClosingQuote(c, i) == Some(end) && Unescape(c, i, end) == Some(s)
    decreases |s|
  {
    hide Escape, Starts, Unescape, ClosingQuote, EscapeAll, Then;
    if s == [] {
      EscapeNothing();
      NoEscapes(c, i);
    } else {
      var first, rest := s[0], s[1..];
      var next := i + |Escape(first)|;
      EscapeSplit(s);
      StartsSplit(c, i, Escape(first), EscapeAll(rest));
      OneEscape(c, i, end, first);
      AllEscapes(c, next, end, rest);
      ThenSome([first], rest);
      assert [first] + rest == s;
    }
  }

  lemma NoEscapes(c: Data, i: nat)
    requires At(c, i, QUOTE)
    ensures EscapeAll([]) == [] && ClosingQuote(c, i) == Some(i) && Unescape(c, i, i) == Some([])
  {
  }

  lemma ThenSome(a: Data, b: Data)
    ensures Then(a, Some(b)) == Some(a + b)
  {
  }

  lemma LiteralOf(c: Data, o: nat, s: Data)
    requires Starts(c, o, Quoted(s))
    ensures Literal(c, o) == Some((s, o + |Quoted(s)|)) && At(c, o, QUOTE)
  {
    hide EscapeAll, Starts, Unescape, ClosingQuote;
    var end := o + 1 + |EscapeAll(s)|;
    assert Quoted(s) == [QUOTE] + (EscapeAll(s) + [QUOTE]);
    StartsSplit(c, o, [QUOTE], EscapeAll(s) + [QUOTE]);
    StartsOne(c, o, QUOTE);
    StartsSplit(c, o + 1, EscapeAll(s), [QUOTE]);
    StartsOne(c, end, QUOTE);
    AllEscapes(c, o + 1, end, s);
  }

  // ---- numbers ----

  lemma {:induction false} NatTextValue(c: Data, o: nat, n: nat)
    requires Starts(c, o, NatText(n))
    ensures DigitsValue(c, o, o + |NatText(n)|) == n
  {
    var t := NatText(n);
    var p := o + |t|;
    StartsAt(c, o, t, |t| - 1);
    if n < 10 {
      assert DigitsValue(c, o, o) == 0;
    } else {
      StartsSplit(c, o, NatText(n / 10), [48 + n % 10]);
      NatTextValue(c, o, n / 10);
    }
  }

  lemma {:induction false} NumberEndAt(c: Data, o: nat, text: Data, limit: nat)
    requires Starts(c, o, text) && |text| <= limit
    requires forall i :: 0 <= i < |text| ==> NumberByte(text[i])
    requires o + |text| < |c| ==> !NumberByte(c[o + |text|])
    ensures NumberEnd(c, o, limit) == o + |text|
    decreases |text|
  {
    if text != [] {
      StartsAt(c, o, text, 0);
      assert Starts(c, o + 1, text[1..]) by {
        assert c[o + 1..o + |text|] == c[o..o + |text|][1..];
      }
      NumberEndAt(c, o + 1, text[1..], limit - 1);
    }
  }

  /** The digits end where the text does, if no other digit follows before `end`. */
  lemma {:induction false} DigitsEndAt(c: Data, o: nat, text: Data, end: nat)
    requires Starts(c, o, text) && forall i :: 0 <= i < |text| ==> Digit(text[i])
    requires o + |text| <= end <= |c| && (o + |text| < end ==> !Digit(c[o + |text|]))
    ensures DigitsEnd(c, o, end) == o + |text|
    decreases |text|
  {
    if text != [] {
      StartsAt(c, o, text, 0);
      assert Starts(c, o + 1, text[1..]) by {
        assert c[o + 1..o + |text|] == c[o..o + |text|][1..];
      }
      DigitsEndAt(c, o + 1, text[1..], end);
    }
  }

  /** The last digits and the others make up the number. */
  lemma {:induction false} PaddedValue(c: Data, o: nat, n: nat, k: nat)
    requires Starts(c, o, PaddedText(n, k))
    ensures Joined(Upper(n, k), k, DigitsValue(c, o, o + k)) == n
  {
    hide Joined, Pow10;
    if k == 0 {
      JoinedNone(n);
    } else {
      StartsAt(c, o, PaddedText(n, k), k - 1);
      StartsSplit(c, o, PaddedText(n / 10, k - 1), [48 + n % 10]);
      PaddedValue(c, o, n / 10, k - 1);
      JoinedOne(Upper(n, k), k - 1, DigitsValue(c, o, o + k - 1), n % 10);
    }
  }

  lemma JoinedNone(n: nat)
    ensures Joined(n, 0, 0) == n
  {
  }

  lemma JoinedOne(whole: nat, k: nat, last: nat, digit: nat)
    ensures Joined(whole, k + 1, 10 * last + digit) == 10 * Joined(whole, k, last) + digit
  {
    assert whole * (10 * Pow10(k)) == 10 * (whole * Pow10(k));
  }

  /** The digits before the point and behind it. */
  lemma DecimalParts(c: Data, o: nat, m: nat, k: nat, end: nat)
    requires Starts(c, o, DecimalText(m, k)) && end == o + |DecimalText(m, k)| <= |c|
    ensures var intEnd := DigitsEnd(c, o, end);
      && o < intEnd && DigitsValue(c, o, intEnd) == Upper(m, k)
      && (k == 0 ==> intEnd == end)
      && (k > 0 ==> intEnd + 1 + k == end && c[intEnd] == POINT && DigitsEnd(c, intEnd + 1, end) == end
                    && Joined(Upper(m, k), k, DigitsValue(c, intEnd + 1, end)) == m)
  {
    hide NatText, PaddedText, Pow10, DigitsEnd, DigitsValue, Starts, Upper, Joined, DecimalText;
    var whole, frac := NatText(Upper(m, k)), PaddedText(m, k);
    DecimalPieces(c, o, m, k);
    DigitsEndAt(c, o, whole, end);
    NatTextValue(c, o, Upper(m, k));
    if k > 0 {
      DigitsEndAt(c, o + |whole| + 1, frac, end);
      PaddedValue(c, o + |whole| + 1, m, k);
    }
  }

  lemma DecimalPieces(c: Data, o: nat, m: nat, k: nat)
    requires Starts(c, o, DecimalText(m, k))
    ensures var whole := NatText(Upper(m, k));
      && Starts(c, o, whole)
      && |DecimalText(m, k)| == |whole| + (if k > 0 then 1 + k else 0)
      && (k > 0 ==> At(c, o + |whole|, POINT) && Starts(c, o + |whole| + 1, PaddedText(m, k)))
  {
    hide NatText, PaddedText, Starts, Upper;
    var whole, frac := NatText(Upper(m, k)), PaddedText(m, k);
    if k == 0 {
      assert whole + [] == whole;
    } else {
      StartsSplit(c, o, whole, [POINT] + frac);
      StartsSplit(c, o + |whole|, [POINT], frac);
      StartsOne(c, o + |whole|, POINT);
    }
  }

  /** A text of digits, with a point and a sign or without, stands for these digits. */
  lemma DecimalOf(c: Data, o: nat, negative: bool, m: nat, k: nat, end: nat)
    requires Starts(c, o, (if negative then [MINUS] else []) + DecimalText(m, k))
    requires end == o + |(if negative then [MINUS] else []) + DecimalText(m, k)| <= |c| && o < |c|
    ensures Strtod(c, o, end) == Ok(Num(Signed(negative, m as real / Pow10(k) as real)), end)
    ensures c[o] == MINUS <==> negative
  {
    hide NatText, PaddedText, Pow10, DigitsEnd, DigitsValue, Starts, DecimalText, Upper, Joined, Scaled;
    var sign: Data := if negative then [MINUS] else [];
    StartsSplit(c, o, sign, DecimalText(m, k));
    if negative {
      StartsOne(c, o, MINUS);
    } else {
      DecimalBegins(m, k);
      StartsAt(c, o, DecimalText(m, k), 0);
    }
    DecimalParts(c, o + |sign|, m, k, end);
    ScaledBack(m, k);
  }

  lemma DecimalBegins(m: nat, k: nat)
    ensures 48 <= DecimalText(m, k)[0] <= 57
  {
  }

  lemma ScaledBack(m: nat, k: nat)
    ensures Scaled(m, -(k as int)) == m as real / Pow10(k) as real
    ensures k == 0 ==> Joined(Upper(m, k), 0, 0) == m
  {
  }

  /** The text of a short number reads back to it. */
  lemma NumberOf(c: Data, o: nat, v: real)
    requires Short(v) && Starts(c, o, NumberText(v))
    requires o + |NumberText(v)| < |c| && !NumberByte(c[o + |NumberText(v)|])
    ensures ParseNumber(c, o) == Ok(Num(v), o + |NumberText(v)|)
    ensures c[o] == MINUS || Digit(c[o])
  {
    hide DecimalText, NumberEnd, Starts, Strtod, AllDigits, Places, Pow10;
    Shortest(v);
    var k := Places(Fabs(v), MAX_PLACES).value;
    NumberTextShort(v);
    NumberBytes(v);
    NumberEndAt(c, o, NumberText(v), NUMBER_BUFFER);
    DecimalOf(c, o, v < 0.0, AllDigits(v, k), k, o + |NumberText(v)|);
    FromDigits(v, k);
    StartsAt(c, o, NumberText(v), 0);
    NumberBegins(v);
  }

  lemma NumberBytes(v: real)
    ensures forall i :: 0 <= i < |NumberText(v)| ==> NumberByte(NumberText(v)[i])
  {
    hide NatText, PaddedText, Places, Pow10;
  }

  lemma NumberBegins(v: real)
    ensures var b := NumberText(v)[0]; b == MINUS || Digit(b)
  {
    hide NatText, PaddedText, Places, Pow10;
  }

  // ---- values ----

  /** How the text of a value begins: above white space, and telling the kind of value. */
  predicate BeginsLike(b: Byte, v: Json)
  {
    match v
    case Null => b == 110
    case Bool(t) => b == if t then 116 else 102
    case Num(_) => b == MINUS || Digit(b)
    case Str(_) => b == QUOTE
    case Arr(_) => b == LBRACKET
    case Obj(_) => b == LBRACE
  }

  lemma TextBegins(v: Json, format: bool, depth: nat)
    ensures Text(v, format, depth) != [] && BeginsLike(Text(v, format, depth)[0], v)
  {
  }

  lemma ElemsBegin(es: seq<Json>, format: bool, depth: nat)
    requires es != []
    ensures var t := ElemsText(es, format, depth); t != [] && t[0] > 32 && t[0] != RBRACKET
  {
    hide Text;
    TextBegins(es[0], format, depth);
  }

  /** The result of parsing a printed value: the value, unless it is nested too deep. */
  function Expected<T>(ok: bool, v: T, next: nat): Parsed<T> { if ok then Ok(v, next) else Fail }

  /** The text of a value, followed by something that cannot continue a number, parses to the value just
      when there are enough levels left. */
  lemma {:induction false} ValueOf(c: Data, o: nat, v: Json, format: bool, depth: nat, level: nat)
    requires Printable(v) && Starts(c, o, Text(v, format, depth)) && level <= NESTING_LIMIT
    requires o + |Text(v, format, depth)| < |c| && !NumberByte(c[o + |Text(v, format, depth)|])
    ensures ParseValue(c, o, level)
         == Expected(level + Depth(v) <= NESTING_LIMIT, v, o + |Text(v, format, depth)|)
    decreases v, 1
  {
    hide Literal, ParseNumber, ParseArray, ParseObject, Starts, NumberText, Short;
    TextBegins(v, format, depth);
    StartsAt(c, o, Text(v, format, depth), 0);
    match v
    case Null =>
    case Bool(b) =>
      NotText(c, o, NULL_TEXT);
      if b {
        NotText(c, o, FALSE_TEXT);
      }
    case Num(n) =>
      NumberOf(c, o, n);
      NoWord(c, o);
    case Str(s) =>
      LiteralOf(c, o, s);
      NoWord(c, o);
    case Arr(es) =>
      NoWord(c, o);
      ArrayOf(c, o, es, format, depth, level);
    case Obj(ms) =>
      NoWord(c, o);
      ObjectOf(c, o, ms, format, depth, level);
  }

  lemma NotText(c: Data, o: nat, text: Data)
    requires text != [] && o < |c| && c[o] != text[0]
    ensures !Starts(c, o, text)
  {
    if o + |text| <= |c| {
      assert c[o..o + |text|][0] == c[o];
    }
  }

  lemma NoWord(c: Data, o: nat)
    requires o < |c| && c[o] != 110 && c[o] != 102 && c[o] != 116
    ensures !Starts(c, o, NULL_TEXT) && !Starts(c, o, FALSE_TEXT) && !Starts(c, o, TRUE_TEXT)
  {
    NotText(c, o, NULL_TEXT);
    NotText(c, o, FALSE_TEXT);
    NotText(c, o, TRUE_TEXT);
  }

  lemma {:induction false} ArrayOf(c: Data, o: nat, es: seq<Json>, format: bool, depth: nat, level: nat)
    requires Printable(Arr(es)) && Starts(c, o, Text(Arr(es), format, depth)) && level <= NESTING_LIMIT
    ensures o < |c| && ParseArray(c, o, level)
         == Expected(level + Depth(Arr(es)) <= NESTING_LIMIT, Arr(es), o + |Text(Arr(es), format, depth)|)
    decreases Arr(es), 0
  {
    hide Starts, ElemsText, ParseElems, Skip;
    var text := ElemsText(es, format, depth + 1);
    StartsSplit(c, o, [LBRACKET], text + [RBRACKET]);
    StartsOne(c, o, LBRACKET);
    StartsSplit(c, o + 1, text, [RBRACKET]);
    StartsOne(c, o + 1 + |text|, RBRACKET);
    if es == [] {
      ElemsNone(format, depth + 1);
      SkipNothing(c, o + 1);
    } else {
      ElemsBegin(es, format, depth + 1);
      StartsAt(c, o + 1, text, 0);
      SkipNothing(c, o + 1);
      if level < NESTING_LIMIT {
        ElemsOf(c, o + 1, o + 1, es, format, depth + 1, level + 1);
      }
    }
  }

  lemma ElemsSplit(es: seq<Json>, format: bool, depth: nat)
    requires es != []
    ensures ElemsText(es, format, depth) == Text(es[0], format, depth)
      + if |es| == 1 then [] else [COMMA] + (If(format, [SPACE]) + ElemsText(es[1..], format, depth))
    ensures DepthElems(es) == Max(Depth(es[0]), DepthElems(es[1..]))
  {
    hide Text;
  }

  lemma ElemsLast(c: Data, o: nat, start: nat, v: Json, ok: bool, n: nat, level: nat)
    requires o <= |c| && Skip(c, o) == start && ParseValue(c, start, level) == Expected(ok, v, n)
    requires At(c, n, RBRACKET)
    ensures ParseElems(c, o, level) == Expected(ok, [v], n + 1)
  {
    hide ParseValue;
    SkipNothing(c, n);
  }

  lemma ElemsMore(c: Data, o: nat, start: nat, v: Json, ok: bool, n: nat, vs: seq<Json>, oks: bool, next: nat,
      level: nat)
    requires o <= |c| && Skip(c, o) == start && ParseValue(c, start, level) == Expected(ok, v, n)
    requires At(c, n, COMMA) && ParseElems(c, n + 1, level) == Expected(oks, vs, next)
    ensures ParseElems(c, o, level) == Expected(ok && oks, [v] + vs, next)
  {
    hide ParseValue;
    SkipNothing(c, n);
  }

  /** Elements from `o` on, with white space up to `start`. */
  lemma {:induction false} ElemsOf(c: Data, o: nat, start: nat, es: seq<Json>, format: bool, depth: nat, level: nat)
    requires es != [] && (forall i :: 0 <= i < |es| ==> Printable(es[i])) && level <= NESTING_LIMIT
    requires o <= |c| && Skip(c, o) == start && Starts(c, start, ElemsText(es, format, depth))
    requires At(c, start + |ElemsText(es, format, depth)|, RBRACKET)
    ensures ParseElems(c, o, level)
         == Expected(level + DepthElems(es) <= NESTING_LIMIT, es, start + |ElemsText(es, format, depth)| + 1)
    decreases es, 0
  {
    hide Starts, ElemsText, Text, Printable, Depth, DepthElems, ParseValue, ParseElems, Skip;
    ElemsSplit(es, format, depth);
    var first := Text(es[0], format, depth);
    var n := start + |first|;
    var ok := level + Depth(es[0]) <= NESTING_LIMIT;
    if |es| == 1 {
      assert first + [] == first;
      assert es == [es[0]] && es[1..] == [];
      DepthNone();
      ValueOf(c, start, es[0], format, depth, level);
      ElemsLast(c, o, start, es[0], ok, n, level);
    } else {
      var rest, white := ElemsText(es[1..], format, depth), If(format, [SPACE]);
      ElemsNext(c, start, first, white, rest, es[1..], format, depth);
      ValueOf(c, start, es[0], format, depth, level);
      ElemsOf(c, n + 1, n + 1 + |white|, es[1..], format, depth, level);
      ElemsMore(c, o, start, es[0], ok, n, es[1..], level + DepthElems(es[1..]) <= NESTING_LIMIT,
                n + 1 + |white| + |rest| + 1, level);
      assert [es[0]] + es[1..] == es;
    }
  }

  /** Past the first element, its comma and white space stand the others. */
  lemma ElemsNext(c: Data, start: nat, first: Data, white: Data, rest: Data, es: seq<Json>, format: bool, depth: nat)
    requires es != [] && rest == ElemsText(es, format, depth) && white == If(format, [SPACE])
    requires Starts(c, start, first + ([COMMA] + (white + rest)))
    ensures Starts(c, start, first) && At(c, start + |first|, COMMA)
    ensures Starts(c, start + |first| + 1 + |white|, rest)
    ensures Skip(c, start + |first| + 1) == start + |first| + 1 + |white|
  {
    hide Starts, ElemsText, Skip;
    var n := start + |first|;
    Parts(c, start, first, [COMMA], white, rest);
    StartsOne(c, n, COMMA);
    ElemsBegin(es, format, depth);
    StartsAt(c, n + 1 + |white|, rest, 0);
    SkipWhite(c, n + 1, white);
  }

  lemma DepthNone()
    ensures DepthElems([]) == 0 && DepthMembers([]) == 0
  {
  }

  lemma {:induction false} ObjectOf(c: Data, o: nat, ms: seq<Member>, format: bool, depth: nat, level: nat)
    requires Printable(Obj(ms)) && Starts(c, o, Text(Obj(ms), format, depth)) && level <= NESTING_LIMIT
    ensures o < |c| && ParseObject(c, o, level)
         == Expected(level + Depth(Obj(ms)) <= NESTING_LIMIT, Obj(ms), o + |Text(Obj(ms), format, depth)|)
    decreases Obj(ms), 0
  {
    hide Starts, Text, MembersText, ParseMembers, ParseObject, Skip, Printable, Tabs, Depth, DepthMembers;
    var newline, text, tabs := If(format, [NEWLINE]), MembersText(ms, format, depth + 1), If(format, Tabs(depth));
    ObjectText(ms, format, depth);
    ObjectParts(c, o, newline, text, tabs);
    if ms == [] {
      MembersNone(format, depth + 1);
      DepthNone();
      EmptyObject(c, o, newline, tabs);
      ObjectEmpty(c, o, level, o + 1 + |newline| + |tabs|);
    } else {
      var body := o + 1 + |newline|;
      var p := body + |If(format, Tabs(depth + 1))|;
      var ok := level + 1 + DepthMembers(ms) <= NESTING_LIMIT;
      FirstMember(c, o + 1, newline, ms, format, depth + 1);
      if level < NESTING_LIMIT {
        PrintableMembers(ms);
        MembersOf(c, p, body, ms, tabs, format, depth + 1, level + 1);
      }
      ObjectFull(c, o, level, p, ms, ok, body + |text| + |tabs| + 1);
    }
  }

  lemma ObjectText(ms: seq<Member>, format: bool, depth: nat)
    ensures Text(Obj(ms), format, depth)
         == [LBRACE]
            + (If(format, [NEWLINE]) + (MembersText(ms, format, depth + 1) + (If(format, Tabs(depth)) + [RBRACE])))
    ensures Depth(Obj(ms)) == 1 + DepthMembers(ms)
  {
  }

  lemma ObjectEmpty(c: Data, o: nat, level: nat, p: nat)
    requires o < |c| && Skip(c, o + 1) == p && At(c, p, RBRACE)
    ensures ParseObject(c, o, level) == Expected(level + 1 <= NESTING_LIMIT, Obj([]), p + 1)
  {
  }

  lemma ObjectFull(c: Data, o: nat, level: nat, p: nat, ms: seq<Member>, ok: bool, next: nat)
    requires o < |c| && Skip(c, o + 1) == p < |c| && c[p] != RBRACE
    requires level < NESTING_LIMIT ==> ParseMembers(c, p, level + 1) == Expected(ok, ms, next)
    requires ok ==> level < NESTING_LIMIT
    ensures ParseObject(c, o, level) == Expected(ok, Obj(ms), next)
  {
    hide ParseMembers, Skip;
  }

  lemma PrintableMembers(ms: seq<Member>)
    requires Printable(Obj(ms))
    ensures forall i :: 0 <= i < |ms| ==> Printable(ms[i].value)
  {
  }

  lemma EmptyObject(c: Data, o: nat, newline: Data, tabs: Data)
    requires Starts(c, o + 1, newline) && Starts(c, o + 1 + |newline|, tabs + [RBRACE])
    requires (forall i :: 0 <= i < |newline| ==> newline[i] <= 32) && (forall i :: 0 <= i < |tabs| ==> tabs[i] <= 32)
    ensures Skip(c, o + 1) == o + 1 + |newline| + |tabs| && At(c, o + 1 + |newline| + |tabs|, RBRACE)
  {
    hide Starts, Skip;
    StartsJoin(c, o + 1, newline, tabs + [RBRACE]);
    ClosingBrace(c, o + 1, newline, tabs);
  }

  /** White space, and then the name of the first member. */
  lemma FirstMember(c: Data, o: nat, newline: Data, ms: seq<Member>, format: bool, depth: nat)
    requires ms != [] && newline == If(format, [NEWLINE])
    requires Starts(c, o, newline) && Starts(c, o + |newline|, MembersText(ms, format, depth))
    ensures var q := o + |newline| + |If(format, Tabs(depth))|;
      Skip(c, o) == q && q < |c| && c[q] == QUOTE && Skip(c, q) == q
  {
    hide Starts, MembersText;
    MembersBegin(c, o + |newline|, ms, format, depth);
    SkipTwo(c, o, newline, If(format, Tabs(depth)));
  }

  lemma ObjectParts(c: Data, o: nat, newline: Data, text: Data, tabs: Data)
    requires Starts(c, o, [LBRACE] + (newline + (text + (tabs + [RBRACE]))))
    ensures At(c, o, LBRACE) && Starts(c, o + 1, newline) && Starts(c, o + 1 + |newline|, text)
    ensures Starts(c, o + 1 + |newline| + |text|, tabs + [RBRACE])
  {
    hide Starts;
    StartsSplit(c, o, [LBRACE], newline + (text + (tabs + [RBRACE])));
    StartsOne(c, o, LBRACE);
    StartsSplit(c, o + 1, newline, text + (tabs + [RBRACE]));
    StartsSplit(c, o + 1 + |newline|, text, tabs + [RBRACE]);
  }

  lemma StartsJoin(c: Data, o: nat, a: Data, b: Data)
    requires Starts(c, o, a) && Starts(c, o + |a|, b)
    ensures Starts(c, o, a + b)
  {
    assert c[o..o + |a + b|] == c[o..o + |a|] + c[o + |a|..o + |a| + |b|];
  }

  /** White space in two pieces. */
  lemma SkipTwo(c: Data, o: nat, a: Data, b: Data)
    requires Starts(c, o, a) && Starts(c, o + |a|, b)
    requires (forall i :: 0 <= i < |a| ==> a[i] <= 32) && (forall i :: 0 <= i < |b| ==> b[i] <= 32)
    requires o + |a| + |b| < |c| && c[o + |a| + |b|] > 32
    ensures Skip(c, o) == o + |a| + |b|
  {
    StartsJoin(c, o, a, b);
    SkipWhite(c, o, a + b);
  }

  lemma ClosingBrace(c: Data, o: nat, a: Data, b: Data)
    requires Starts(c, o, a + (b + [RBRACE]))
    requires (forall i :: 0 <= i < |a| ==> a[i] <= 32) && (forall i :: 0 <= i < |b| ==> b[i] <= 32)
    ensures Skip(c, o) == o + |a| + |b| && At(c, o + |a| + |b|, RBRACE)
  {
    StartsSplit(c, o, a, b + [RBRACE]);
    StartsSplit(c, o + |a|, b, [RBRACE]);
    StartsOne(c, o + |a| + |b|, RBRACE);
    SkipTwo(c, o, a, b);
  }

  /** The text of members begins with its indent and then a quote. */
  lemma MembersBegin(c: Data, o: nat, ms: seq<Member>, format: bool, depth: nat)
    requires ms != [] && Starts(c, o, MembersText(ms, format, depth))
    ensures Starts(c, o, If(format, Tabs(depth))) && At(c, o + |If(format, Tabs(depth))|, QUOTE)
  {
    hide Starts, Text, EscapeAll;
    var indent, key := If(format, Tabs(depth)), Quoted(ms[0].key);
    var value := [COLON] + (If(format, [TAB]) + Text(ms[0].value, format, depth));
    var rest := If(|ms| > 1, [COMMA]) + (If(format, [NEWLINE]) + MembersText(ms[1..], format, depth));
    assert MembersText(ms, format, depth) == (indent + (key + value)) + rest;
    StartsSplit(c, o, indent + (key + value), rest);
    StartsSplit(c, o, indent, key + value);
    StartsSplit(c, o + |indent|, key, value);
    LiteralOf(c, o + |indent|, ms[0].key);
  }

  lemma MembersSplit(ms: seq<Member>, format: bool, depth: nat)
    requires ms != []
    ensures MembersText(ms, format, depth) == MemberText(ms[0], format, depth)
      + (If(|ms| > 1, [COMMA]) + (If(format, [NEWLINE]) + MembersText(ms[1..], format, depth)))
    ensures DepthMembers(ms) == Max(Depth(ms[0].value), DepthMembers(ms[1..]))
  {
    hide MemberText;
  }

  /** One member, from `o` on, with white space up to its name. */
  lemma {:induction false} MemberOf(c: Data, o: nat, start: nat, m: Member, format: bool, depth: nat, level: nat)
    requires Printable(m.value) && Starts(c, start, MemberText(m, format, depth)) && level <= NESTING_LIMIT
    requires o < |c| && Skip(c, o) == start + |If(format, Tabs(depth))|
    requires start + |MemberText(m, format, depth)| < |c| && !NumberByte(c[start + |MemberText(m, format, depth)|])
    ensures ParseMember(c, o, level)
         == Expected(level + Depth(m.value) <= NESTING_LIMIT, m, start + |MemberText(m, format, depth)|)
    decreases m, 0
  {
    hide Starts, Text, Quoted, Literal, ParseValue, ParseMember, Printable, Depth, Tabs, Skip;
    var indent, key, tab := If(format, Tabs(depth)), Quoted(m.key), If(format, [TAB]);
    var value := Text(m.value, format, depth);
    MemberParts(c, start, indent, m.key, tab, value);
    var colon := start + |indent| + |key|;
    TextBegins(m.value, format, depth);
    StartsAt(c, colon + 1 + |tab|, value, 0);
    SkipWhite(c, colon + 1, tab);
    ValueOf(c, colon + 1 + |tab|, m.value, format, depth, level);
    MemberStep(c, o, start + |indent|, m.key, colon, colon + 1 + |tab|, m.value,
               level + Depth(m.value) <= NESTING_LIMIT, colon + 1 + |tab| + |value|, level);
  }

  lemma MemberParts(c: Data, start: nat, indent: Data, name: Data, tab: Data, value: Data)
    requires Starts(c, start, indent + (Quoted(name) + ([COLON] + (tab + value))))
    ensures var q, colon := start + |indent|, start + |indent| + |Quoted(name)|;
      && q < |c| && Literal(c, q) == Some((name, colon)) && At(c, colon, COLON)
      && Starts(c, colon + 1, tab) && Starts(c, colon + 1 + |tab|, value)
  {
    hide Starts, Quoted, Literal;
    var q := start + |indent|;
    StartsSplit(c, start, indent, Quoted(name) + ([COLON] + (tab + value)));
    StartsSplit(c, q, Quoted(name), [COLON] + (tab + value));
    LiteralOf(c, q, name);
    StartsSplit(c, q + |Quoted(name)|, [COLON], tab + value);
    StartsOne(c, q + |Quoted(name)|, COLON);
    StartsSplit(c, q + |Quoted(name)| + 1, tab, value);
  }

  lemma MemberStep(c: Data, o: nat, q: nat, name: Data, colon: nat, start: nat, v: Json, ok: bool, next: nat,
      level: nat)
    requires o < |c| && Skip(c, o) == q && q < |c| && Literal(c, q) == Some((name, colon)) && At(c, colon, COLON)
    requires Skip(c, colon + 1) == start && ParseValue(c, start, level) == Expected(ok, v, next)
    ensures ParseMember(c, o, level) == Expected(ok, Member(name, v), next)
  {
    hide ParseValue, Literal;
    SkipNothing(c, colon);
  }

  lemma MembersLast(c: Data, o: nat, m: Member, ok: bool, n: nat, brace: nat, level: nat)
    requires o <= |c| && ParseMember(c, o, level) == Expected(ok, m, n)
    requires n <= |c| && Skip(c, n) == brace && At(c, brace, RBRACE)
    ensures ParseMembers(c, o, level) == Expected(ok, [m], brace + 1)
  {
    hide ParseMember;
  }

  lemma MembersMore(c: Data, o: nat, m: Member, ok: bool, n: nat, ms: seq<Member>, oks: bool, next: nat, level: nat)
    requires o <= |c| && ParseMember(c, o, level) == Expected(ok, m, n)
    requires At(c, n, COMMA) && ParseMembers(c, n + 1, level) == Expected(oks, ms, next)
    ensures ParseMembers(c, o, level) == Expected(ok && oks, [m] + ms, next)
  {
    hide ParseMember;
    SkipNothing(c, n);
  }

  /** Members from `o` on, with white space up to the name of the first; `tabs` stands before the brace. */
  lemma {:induction false} MembersOf(c: Data, o: nat, start: nat, ms: seq<Member>, tabs: Data, format: bool,
      depth: nat, level: nat)
    requires ms != [] && (forall i :: 0 <= i < |ms| ==> Printable(ms[i].value)) && level <= NESTING_LIMIT
    requires o < |c| && Skip(c, o) == start + |If(format, Tabs(depth))|
    requires Starts(c, start, MembersText(ms, format, depth))
    requires Starts(c, start + |MembersText(ms, format, depth)|, tabs + [RBRACE])
    requires forall i :: 0 <= i < |tabs| ==> tabs[i] <= 32 && !NumberByte(tabs[i])
    ensures ParseMembers(c, o, level)
         == Expected(level + DepthMembers(ms) <= NESTING_LIMIT, ms,
                     start + |MembersText(ms, format, depth)| + |tabs| + 1)
    decreases ms, 0, 1
  {
    hide Starts, MembersText, MemberText, Printable, Depth, DepthMembers, ParseMember, ParseMembers, Skip, Tabs;
    if |ms| == 1 {
      assert ms == [ms[0]];
      LastMemberOf(c, o, start, ms[0], tabs, format, depth, level);
    } else {
      MembersSplit(ms, format, depth);
      var first, newline := MemberText(ms[0], format, depth), If(format, [NEWLINE]);
      var comma, rest := If(|ms| > 1, [COMMA]), MembersText(ms[1..], format, depth);
      var n := start + |first|;
      var ok := level + Depth(ms[0].value) <= NESTING_LIMIT;
      Parts(c, start, first, comma, newline, rest);
      StartsOne(c, n, COMMA);
      MemberOf(c, o, start, ms[0], format, depth, level);
      OtherMembersOf(c, n + 1, newline, ms[1..], tabs, format, depth, level);
      MembersMore(c, o, ms[0], ok, n, ms[1..], level + DepthMembers(ms[1..]) <= NESTING_LIMIT,
                  n + 1 + |newline| + |rest| + |tabs| + 1, level);
      assert [ms[0]] + ms[1..] == ms;
    }
  }

  lemma {:induction false} LastMemberOf(c: Data, o: nat, start: nat, m: Member, tabs: Data, format: bool, depth: nat,
      level: nat)
    requires Printable(m.value) && level <= NESTING_LIMIT
    requires o < |c| && Skip(c, o) == start + |If(format, Tabs(depth))|
    requires Starts(c, start, MembersText([m], format, depth))
    requires Starts(c, start + |MembersText([m], format, depth)|, tabs + [RBRACE])
    requires forall i :: 0 <= i < |tabs| ==> tabs[i] <= 32 && !NumberByte(tabs[i])
    ensures ParseMembers(c, o, level)
         == Expected(level + DepthMembers([m]) <= NESTING_LIMIT, [m],
                     start + |MembersText([m], format, depth)| + |tabs| + 1)
    decreases [m], 0, 0
  {
    hide Starts, MembersText, MemberText, Printable, Depth, DepthMembers, ParseMember, ParseMembers, Skip, Tabs;
    MembersSplit([m], format, depth);
    var first, newline := MemberText(m, format, depth), If(format, [NEWLINE]);
    var n := start + |first|;
    var ok := level + Depth(m.value) <= NESTING_LIMIT;
    assert [m][1..] == [];
    DepthNone();
    MembersNone(format, depth);
    assert MembersText([m], format, depth) == first + ([] + (newline + []));
    Parts(c, start, first, [], newline, []);
    MemberEnd(c, n, newline, tabs);
    MemberOf(c, o, start, m, format, depth, level);
    MembersLast(c, o, m, ok, n, n + |newline| + |tabs|, level);
  }

  lemma {:induction false} OtherMembersOf(c: Data, o: nat, newline: Data, ms: seq<Member>, tabs: Data, format: bool,
      depth: nat, level: nat)
    requires ms != [] && (forall i :: 0 <= i < |ms| ==> Printable(ms[i].value)) && level <= NESTING_LIMIT
    requires newline == If(format, [NEWLINE]) && Starts(c, o, newline)
    requires Starts(c, o + |newline|, MembersText(ms, format, depth))
    requires Starts(c, o + |newline| + |MembersText(ms, format, depth)|, tabs + [RBRACE])
    requires forall i :: 0 <= i < |tabs| ==> tabs[i] <= 32 && !NumberByte(tabs[i])
    ensures o <= |c| && ParseMembers(c, o, level)
         == Expected(level + DepthMembers(ms) <= NESTING_LIMIT, ms,
                     o + |newline| + |MembersText(ms, format, depth)| + |tabs| + 1)
    decreases ms, 1
  {
    hide Starts, MembersText, Printable, DepthMembers, ParseMembers, Skip, Tabs, If;
    FirstMember(c, o, newline, ms, format, depth);
    MembersOf(c, o, o + |newline|, ms, tabs, format, depth, level);
  }

  lemma Parts(c: Data, start: nat, first: Data, comma: Data, newline: Data, rest: Data)
    requires Starts(c, start, first + (comma + (newline + rest)))
    ensures Starts(c, start, first) && Starts(c, start + |first|, comma)
    ensures Starts(c, start + |first| + |comma|, newline) && Starts(c, start + |first| + |comma| + |newline|, rest)
  {
    hide Starts;
    StartsSplit(c, start, first, comma + (newline + rest));
    StartsSplit(c, start + |first|, comma, newline + rest);
    StartsSplit(c, start + |first| + |comma|, newline, rest);
  }

  /** Behind the last member there is white space and the brace, so no number goes on. */
  lemma MemberEnd(c: Data, n: nat, newline: Data, tabs: Data)
    requires Starts(c, n, newline) && Starts(c, n + |newline|, tabs + [RBRACE])
    requires newline == [] || newline == [NEWLINE]
    requires forall i :: 0 <= i < |tabs| ==> tabs[i] <= 32 && !NumberByte(tabs[i])
    ensures n < |c| && !NumberByte(c[n])
    ensures Skip(c, n) == n + |newline| + |tabs| && At(c, n + |newline| + |tabs|, RBRACE)
  {
    hide Starts, Skip;
    StartsJoin(c, n, newline, tabs + [RBRACE]);
    StartsAt(c, n, newline + (tabs + [RBRACE]), 0);
    ClosingBrace(c, n, newline, tabs);
  }

  // ---- whole texts ----

  /** Printing a value, with or without formatting, and parsing the text gives an equal value and consumes the text
      up to its terminating zero, just when the value is nested no deeper than the limit; otherwise parsing fails. */
  lemma ParseOfText(v: Json, format: bool, toTheEnd: bool)
    requires Printable(v)
    ensures Parse(Text(v, format, 0) + [0], toTheEnd)
         == Expected(Depth(v) <= NESTING_LIMIT, v, |Text(v, format, 0)|)
  {
    hide Text, Depth, ParseValue, Printable, Starts;
    var text := Text(v, format, 0);
    var c := text + [0];
    TextBegins(v, format, 0);
    assert c[0] == text[0];
    NoBom(c);
    SkipNothing(c, 0);
    assert Starts(c, 0, text) by {
      StartsWhole(text, [0]);
    }
    ValueOf(c, 0, v, format, 0, 0);
    assert c[|text|] == 0;
  }

  lemma NoBom(c: Data)
    requires c != [] && c[0] != BOM[0]
    ensures |c| >= 3 ==> c[..3] != BOM
  {
    if |c| >= 3 {
      assert c[..3][0] == c[0];
    }
  }

  lemma StartsWhole(a: Data, b: Data)
    ensures Starts(a + b, 0, a)
  {
    assert (a + b)[0..|a|] == a;
  }
}
