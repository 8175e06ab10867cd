/** String literals as section 7 of RFC 8259 writes them, from its tables alone: whatever way a string is written, it is
    what is read. */
module JsonLiteral {
  import opened Arith
  import opened Bytes
  import opened JsonString
  import opened JsonParse
  import opened JsonRoundTrip
  import Unicode

  const UPPER: Data := [48, 49, 50, 51, 52, 53, 54, 55, 56, 57, 65, 66, 67, 68, 69, 70]  // 0123456789ABCDEF
  const LOWER: Data := [48, 49, 50, 51, 52, 53, 54, 55, 56, 57, 97, 98, 99, 100, 101, 102]  // 0123456789abcdef
  const ESCAPED: Data := [34, 92, 47, 98, 102, 110, 114, 116]  // "\/bfnrt
  const MEANT: Data := [34, 92, 47, 8, 12, 10, 13, 9]

  /** A byte as it is, a two-character escape, or a code point as four hexadecimal digits or a pair of these, each
      letter among them in either case. */
  datatype Atom = Raw(b: Byte) | Short(k: nat) | Code(cp: int, capital: seq<bool>)
  {
    predicate Ok()
    {
      match this
      case Raw(b) => b != 34 && b != 92
      case Short(k) => k < 8
      case Code(cp, capital) => Unicode.Scalar(cp) && |capital| == 8
    }

    function Text(): (t: Data)
      requires Ok()
    {
      match this
      case Raw(b) => [b]
      case Short(k) => [92, ESCAPED[k]]
      case Code(cp, capital) =>
        if cp < 0x1_0000 then [92, 117] + HexText(cp, capital[..4])
        else ([92, 117] + HexText(0xD800 + (cp - 0x1_0000) / 0x400, capital[..4]))
             + ([92, 117] + HexText(0xDC00 + (cp - 0x1_0000) % 0x400, capital[4..]))
    }

    /** A code point stands for its shortest UTF-8. */
    function Meaning(): Data
      requires Ok()
    {
      match this
      case Raw(b) => [b]
      case Short(k) => [MEANT[k]]
      case Code(cp, _) => Unicode.Encode(cp)
    }
  }

  function HexDigit(d: int, capital: bool): Byte
    requires 0 <= d < 16
  {
    if capital then UPPER[d] else LOWER[d]
  }

  function HexText(n: int, capital: seq<bool>): (t: Data)
    requires 0 <= n < 0x1_0000 && |capital| == 4
    ensures |t| == 4
  {
    [HexDigit(n / 0x1000, capital[0]), HexDigit(n / 0x100 % 16, capital[1]), HexDigit(n / 0x10 % 16, capital[2]),
     HexDigit(n % 16, capital[3])]
  }

  predicate AllOk(atoms: seq<Atom>) { forall i :: 0 <= i < |atoms| ==> atoms[i].Ok() }

  function TextOf(atoms: seq<Atom>): Data
    requires AllOk(atoms)
  {
    if atoms == [] then [] else atoms[0].Text() + TextOf(atoms[1..])
  }

  function MeaningOf(atoms: seq<Atom>): Data
    requires AllOk(atoms)
  {
    if atoms == [] then [] else atoms[0].Meaning() + MeaningOf(atoms[1..])
  }

  /** A digit of either table has its place in the table for its value. */
  lemma DigitValue(d: int, capital: bool)
    requires 0 <= d < 16
    ensures HexValue(HexDigit(d, capital)) == Some(d)
  {
    assert UPPER[10] == 65 && UPPER[11] == 66 && UPPER[12] == 67 && UPPER[13] == 68 && UPPER[14] == 69;
    assert UPPER[15] == 70;
    assert LOWER[10] == 97 && LOWER[11] == 98 && LOWER[12] == 99 && LOWER[13] == 100 && LOWER[14] == 101;
    assert LOWER[15] == 102;
  }

  /** Four hexadecimal digits are read as the number they are written for. */
  lemma HexRead(c: Data, i: nat, n: int, capital: seq<bool>)
    requires 0 <= n < 0x1_0000 && |capital| == 4 && Starts(c, i, HexText(n, capital))
    ensures AllHex(c, i) && Hex4(c, i) == n
  {
    hide Starts, HexDigit, HexValue;
    var t := HexText(n, capital);
    StartsAt(c, i, t, 0);
    StartsAt(c, i, t, 1);
    StartsAt(c, i, t, 2);
    StartsAt(c, i, t, 3);
    DigitValue(n / 0x1000, capital[0]);
    DigitValue(n / 0x100 % 16, capital[1]);
    DigitValue(n / 0x10 % 16, capital[2]);
    DigitValue(n % 16, capital[3]);
    assert Digits(c, i, 1) == n / 0x1000;
    assert Digits(c, i, 2) == n / 0x100;
    assert Digits(c, i, 3) == n / 0x10;
    assert Digits(c, i, 4) == n;
  }

  lemma ShortRead(k: nat)
    requires k < 8
    ensures ShortEscape(ESCAPED[k]) == Some(MEANT[k])
  {
    assert ESCAPED[0] == 34 && ESCAPED[1] == 92 && ESCAPED[2] == 47 && ESCAPED[3] == 98;
    assert ESCAPED[4] == 102 && ESCAPED[5] == 110 && ESCAPED[6] == 114 && ESCAPED[7] == 116;
    assert MEANT[0] == 34 && MEANT[1] == 92 && MEANT[2] == 47 && MEANT[3] == 8;
    assert MEANT[4] == 12 && MEANT[5] == 10 && MEANT[6] == 13 && MEANT[7] == 9;
  }

  /** One half of a pair, or a code point that takes no pair. */
  lemma UnitRead(c: Data, i: nat, n: int, capital: seq<bool>)
    requires 0 <= n < 0x1_0000 && |capital| == 4 && Starts(c, i, [92, 117] + HexText(n, capital))
    ensures i + 6 <= |c| && c[i] == BACKSLASH && c[i + 1] == LETTER_U && AllHex(c, i + 2) && Hex4(c, i + 2) == n
    ensures ClosingQuote(c, i) == ClosingQuote(c, i + 6)
  {
    hide HexText, Starts, AllHex, Hex4;
    var t: Data := [92, 117];
    StartsSplit(c, i, t, HexText(n, capital));
    StartsAt(c, i, t, 0);
    StartsAt(c, i, t, 1);
    StartsAt(c, i + 2, HexText(n, capital), 3);
    HexRead(c, i + 2, n, capital);
    PastHex(c, i + 2);
  }

  lemma CodeRead(c: Data, i: nat, end: nat, a: Atom)
    requires a.Ok() && a.Code? && Starts(c, i, a.Text()) && i + |a.Text()| <= end < |c|
    ensures ClosingQuote(c, i) == ClosingQuote(c, i + |a.Text()|)
    ensures Unescape(c, i, end) == Then(a.Meaning(), Unescape(c, i + |a.Text()|, end))
  {
    hide HexText, Starts, AllHex, Hex4, Then, ClosingQuote;
    UnescapeStep(c, i, end);
    if a.cp < 0x1_0000 {
      UnitRead(c, i, a.cp, a.capital[..4]);
      assert CodePoint(c, i, end) == Some((a.cp, 6));
    } else {
      var u := a.cp - 0x1_0000;
      var first, second := 0xD800 + u / 0x400, 0xDC00 + u % 0x400;
      StartsSplit(c, i, [92, 117] + HexText(first, a.capital[..4]), [92, 117] + HexText(second, a.capital[4..]));
      UnitRead(c, i, first, a.capital[..4]);
      UnitRead(c, i + 6, second, a.capital[4..]);
      assert Unicode.HighSurrogate(a.cp) == first && Unicode.LowSurrogate(a.cp) == second;
      PairMeans(c, i, end, a.cp);
    }
  }

  lemma AtomRead(c: Data, i: nat, end: nat, a: Atom)
    requires a.Ok() && Starts(c, i, a.Text()) && i + |a.Text()| <= end < |c|
    ensures ClosingQuote(c, i) == ClosingQuote(c, i + |a.Text()|)
    ensures Unescape(c, i, end) == Then(a.Meaning(), Unescape(c, i + |a.Text()|, end))
  {
    match a
    case Code(_, _) => CodeRead(c, i, end, a);
    case Raw(b) =>
      hide Then, Starts;
      StartsAt(c, i, a.Text(), 0);
      UnescapeStep(c, i, end);
    case Short(k) =>
      hide Then, Starts;
      StartsAt(c, i, a.Text(), 0);
      StartsAt(c, i, a.Text(), 1);
      ShortRead(k);
      UnescapeStep(c, i, end);
  }

  /** Written one behind the other, they are read one behind the other. */
  lemma {:induction false} AtomsRead(c: Data, i: nat, end: nat, atoms: seq<Atom>)
    requires AllOk(atoms) && Starts(c, i, TextOf(atoms)) && end == i + |TextOf(atoms)| && At(c, end, QUOTE)
    ensures ClosingQuote(c, i) == Some(end) && Unescape(c, i, end) == Some(MeaningOf(atoms))
    decreases |atoms|
  {
    hide Atom.Text, Atom.Meaning, Starts, Unescape, ClosingQuote, Then;
    if atoms == [] {
      NoEscapes(c, i);
    } else {
      var first, rest := atoms[0], atoms[1..];
      StartsSplit(c, i, first.Text(), TextOf(rest));
      AtomRead(c, i, end, first);
      AtomsRead(c, i + |first.Text()|, end, rest);
      ThenSome(first.Meaning(), MeaningOf(rest));
    }
  }

  /** However a string is written, the literal is read as it. */
  lemma LiteralRead(c: Data, o: nat, atoms: seq<Atom>)
    requires AllOk(atoms) && Starts(c, o, [34] + (TextOf(atoms) + [34]))
    ensures Literal(c, o) == Some((MeaningOf(atoms), o + |TextOf(atoms)| + 2))
  {
    hide TextOf, MeaningOf, Starts, Unescape, ClosingQuote;
    var end := o + 1 + |TextOf(atoms)|;
    StartsSplit(c, o, [34], TextOf(atoms) + [34]);
    StartsOne(c, o, QUOTE);
    StartsSplit(c, o + 1, TextOf(atoms), [34]);
    StartsOne(c, end, QUOTE);
    AtomsRead(c, o + 1, end, atoms);
  }

  // ---- whatever is read was written so ----

  predicate Capital(b: Byte) { 65 <= b <= 70 }

  /** A hexadecimal digit is the one in the table for its value. */
  lemma DigitFound(b: Byte)
    requires HexValue(b).Some?
    ensures HexDigit(HexValue(b).value, Capital(b)) == b
  {
    assert UPPER[10] == 65 && UPPER[11] == 66 && UPPER[12] == 67 && UPPER[13] == 68 && UPPER[14] == 69;
    assert UPPER[15] == 70;
    assert LOWER[10] == 97 && LOWER[11] == 98 && LOWER[12] == 99 && LOWER[13] == 100 && LOWER[14] == 101;
    assert LOWER[15] == 102;
  }

  lemma HexFound(c: Data, i: nat) returns (capital: seq<bool>)
    requires i + 4 <= |c| && AllHex(c, i)
    ensures |capital| == 4 && Starts(c, i, HexText(Hex4(c, i), capital))
  {
    hide HexDigit, HexValue;
    capital := [Capital(c[i]), Capital(c[i + 1]), Capital(c[i + 2]), Capital(c[i + 3])];
    var d0, d1 := HexValue(c[i]).value, HexValue(c[i + 1]).value;
    var d2, d3 := HexValue(c[i + 2]).value, HexValue(c[i + 3]).value;
    DigitFound(c[i]);
    DigitFound(c[i + 1]);
    DigitFound(c[i + 2]);
    DigitFound(c[i + 3]);
    assert Digits(c, i, 1) == d0;
    assert Digits(c, i, 2) == 16 * d0 + d1;
    assert Digits(c, i, 3) == 16 * (16 * d0 + d1) + d2;
    assert Digits(c, i, 4) == 16 * (16 * (16 * d0 + d1) + d2) + d3;
    FourDigits(d0, d1, d2, d3);
    assert c[i..i + 4] == [c[i], c[i + 1], c[i + 2], c[i + 3]];
  }

  lemma FourDigits(d0: int, d1: int, d2: int, d3: int)
    requires 0 <= d0 < 16 && 0 <= d1 < 16 && 0 <= d2 < 16 && 0 <= d3 < 16
    ensures var n := 16 * (16 * (16 * d0 + d1) + d2) + d3;
      n / 0x1000 == d0 && n / 0x100 % 16 == d1 && n / 0x10 % 16 == d2 && n % 16 == d3
  {
  }

  lemma ShortFound(e: Byte) returns (k: nat)
    requires ShortEscape(e).Some?
    ensures k < 8 && ESCAPED[k] == e && MEANT[k] == ShortEscape(e).value
  {
    k := if e == 34 then 0 else if e == 92 then 1 else if e == 47 then 2 else if e == 98 then 3 else if e == 102 then 4
         else if e == 110 then 5 else if e == 114 then 6 else 7;
  }

  lemma UnitFound(c: Data, i: nat) returns (capital: seq<bool>)
    requires i + 6 <= |c| && c[i] == BACKSLASH && c[i + 1] == LETTER_U && AllHex(c, i + 2)
    ensures |capital| == 4 && Starts(c, i, [92, 117] + HexText(Hex4(c, i + 2), capital))
  {
    hide HexText, AllHex, Hex4;
    capital := HexFound(c, i + 2);
    assert c[i..i + 2] == [92, 117];
    StartsJoin(c, i, [92, 117], HexText(Hex4(c, i + 2), capital));
  }

  lemma CodeFound(c: Data, i: nat, end: nat) returns (a: Atom)
    requires i < end < |c| && c[i] == BACKSLASH && c[i + 1] == LETTER_U && CodePoint(c, i, end).Some?
    requires AllHex(c, i + 2) && (CodePoint(c, i, end).value.1 == 12 ==> AllHex(c, i + 8))
    ensures a.Code? && a.Ok() && Starts(c, i, a.Text()) && |a.Text()| == CodePoint(c, i, end).value.1
  {
    hide HexText, AllHex, Hex4, Starts;
    var first := Hex4(c, i + 2);
    var capital := UnitFound(c, i);
    if CodePoint(c, i, end).value.1 == 6 {
      a := Code(first, capital + [false, false, false, false]);
      assert a.capital[..4] == capital;
    } else {
      var second := Hex4(c, i + 8);
      var capital' := UnitFound(c, i + 6);
      a := Code(CodePoint(c, i, end).value.0, capital + capital');
      assert a.capital[..4] == capital && a.capital[4..] == capital';
      Halves(first, second);
      StartsJoin(c, i, [92, 117] + HexText(first, capital), [92, 117] + HexText(second, capital'));
    }
  }

  lemma Halves(first: int, second: int)
    requires 0xD800 <= first <= 0xDBFF && 0xDC00 <= second <= 0xDFFF
    ensures var cp := 0x1_0000 + first % 0x400 * 0x400 + second % 0x400;
      && Unicode.Scalar(cp) && cp >= 0x1_0000
      && 0xD800 + (cp - 0x1_0000) / 0x400 == first && 0xDC00 + (cp - 0x1_0000) % 0x400 == second
  {
  }

  lemma AtomFound(c: Data, i: nat, end: nat) returns (a: Atom)
    requires i < end < |c| && ClosingQuote(c, i) == Some(end) && WellEscaped(c, i, end)
    ensures a.Ok() && Starts(c, i, a.Text()) && i + |a.Text()| <= end && WellEscaped(c, i + |a.Text()|, end)
  {
    hide CodePoint, AllHex, HexText;
    if c[i] != BACKSLASH {
      a := Raw(c[i]);
    } else if ShortEscape(c[i + 1]).Some? {
      var k := ShortFound(c[i + 1]);
      a := Short(k);
      assert c[i..i + 2] == [92, ESCAPED[k]];
      WellEscapedInside(c, i + 2, end);
    } else {
      a := CodeFound(c, i, end);
    }
  }

  lemma {:induction false} WellEscapedInside(c: Data, i: nat, end: nat)
    requires end < |c| && WellEscaped(c, i, end)
    ensures i <= end
  {
  }

  /** A literal whose escapes are all good was written as section 7 of RFC 8259 says, for the string it is read as. */
  lemma {:induction false} AtomsFound(c: Data, i: nat, end: nat) returns (atoms: seq<Atom>)
    requires i <= end < |c| && ClosingQuote(c, i) == Some(end) && WellEscaped(c, i, end)
    ensures AllOk(atoms) && Starts(c, i, TextOf(atoms)) && i + |TextOf(atoms)| == end
    ensures Unescape(c, i, end) == Some(MeaningOf(atoms))
    decreases end - i
  {
    hide Atom.Text, Atom.Meaning, Starts, Unescape, ClosingQuote, Then, WellEscaped;
    if i == end {
      atoms := [];
      NoEscapes(c, i) by {
        QuoteThere(c, i);
      }
      StartsNothing(c, i);
    } else {
      var a := AtomFound(c, i, end);
      AtomRead(c, i, end, a);
      AtomTakesUp(a);
      var rest := AtomsFound(c, i + |a.Text()|, end);
      atoms := [a] + rest;
      assert atoms[1..] == rest;
      StartsJoin(c, i, a.Text(), TextOf(rest));
      ThenSome(a.Meaning(), MeaningOf(rest));
    }
  }

  lemma QuoteThere(c: Data, i: nat)
    requires i < |c| && ClosingQuote(c, i) == Some(i)
    ensures At(c, i, QUOTE)
  {
  }

  lemma StartsNothing(c: Data, i: nat)
    requires i <= |c|
    ensures Starts(c, i, [])
  {
  }

  lemma AtomTakesUp(a: Atom)
    requires a.Ok()
    ensures |a.Text()| > 0
  {
  }

  /** From `o` to `n` stands a literal that is written so for the string `s`. */
  ghost predicate WrittenAs(c: Data, o: nat, s: Data, n: nat, atoms: seq<Atom>)
  {
    && AllOk(atoms) && MeaningOf(atoms) == s
    && Starts(c, o, [34] + (TextOf(atoms) + [34])) && n == o + |TextOf(atoms)| + 2
  }

  /** A literal is read as a string, and no `\u` in it has a bad digit among its first four, exactly if it was
      written so for that string. */
  lemma LiteralExactly(c: Data, o: nat, s: Data, n: nat)
    requires o < |c| && 0 < n <= |c|
    ensures Literal(c, o) == Some((s, n)) && GoodDigits(c, o + 1, n - 1)
       <==> exists atoms :: WrittenAs(c, o, s, n, atoms)
  {
    hide WrittenAs, Unescape, GoodDigits, Literal;
    if Literal(c, o) == Some((s, n)) && GoodDigits(c, o + 1, n - 1) {
      var atoms := LiteralFound(c, o, s, n);
    }
    forall atoms | WrittenAs(c, o, s, n, atoms)
      ensures Literal(c, o) == Some((s, n)) && GoodDigits(c, o + 1, n - 1)
    {
      LiteralGood(c, o, s, n, atoms);
    }
  }

  lemma LiteralFound(c: Data, o: nat, s: Data, n: nat) returns (atoms: seq<Atom>)
    requires o < |c| && 0 < n <= |c| && Literal(c, o) == Some((s, n)) && GoodDigits(c, o + 1, n - 1)
    ensures WrittenAs(c, o, s, n, atoms)
  {
    hide MeaningOf, TextOf, Starts, Unescape, GoodDigits;
    WellEscapedIff(c, o + 1, n - 1);
    atoms := AtomsFound(c, o + 1, n - 1);
    QuotedPieces(c, o, TextOf(atoms));
  }

  lemma LiteralGood(c: Data, o: nat, s: Data, n: nat, atoms: seq<Atom>)
    requires o < |c| && WrittenAs(c, o, s, n, atoms)
    ensures 0 < n <= |c| && Literal(c, o) == Some((s, n)) && GoodDigits(c, o + 1, n - 1)
  {
    hide MeaningOf, TextOf, Starts, Unescape, GoodDigits, Literal;
    LiteralRead(c, o, atoms);
    StartsSplit(c, o, [34], TextOf(atoms) + [34]);
    StartsSplit(c, o + 1, TextOf(atoms), [34]);
    StartsOne(c, n - 1, QUOTE);
    AtomsGood(c, o + 1, n - 1, atoms);
  }

  lemma QuotedPieces(c: Data, o: nat, t: Data)
    requires At(c, o, QUOTE) && Starts(c, o + 1, t) && At(c, o + 1 + |t|, QUOTE)
    ensures Starts(c, o, [34] + (t + [34]))
  {
    assert c[o..o + 2 + |t|] == [c[o]] + (c[o + 1..o + 1 + |t|] + [c[o + 1 + |t|]]);
  }

  lemma {:induction false} AtomsGood(c: Data, i: nat, end: nat, atoms: seq<Atom>)
    requires AllOk(atoms) && Starts(c, i, TextOf(atoms)) && end == i + |TextOf(atoms)| < |c|
    ensures GoodDigits(c, i, end)
    decreases |atoms|
  {
    hide Atom.Text, Starts, GoodDigits;
    if atoms == [] {
      NothingBad(c, end);
    } else {
      var first, rest := atoms[0], atoms[1..];
      StartsSplit(c, i, first.Text(), TextOf(rest));
      AtomsGood(c, i + |first.Text()|, end, rest);
      AtomTakesUp(first);
      AtomGood(c, i, end, first);
    }
  }

  lemma NothingBad(c: Data, end: nat)
    requires end < |c|
    ensures GoodDigits(c, end, end)
  {
  }

  lemma AtomGood(c: Data, i: nat, end: nat, a: Atom)
    requires a.Ok() && Starts(c, i, a.Text()) && i + |a.Text()| <= end < |c| && GoodDigits(c, i + |a.Text()|, end)
    ensures GoodDigits(c, i, end)
  {
    hide AllHex, Starts, HexText, CodePoint;
    AtomTakesUp(a);
    StartsAt(c, i, a.Text(), 0);
    if a.Short? {
      StartsAt(c, i, a.Text(), 1);
      ShortRead(a.k);
    } else if a.Code? {
      CodeGood(c, i, end, a);
    }
  }

  lemma CodeGood(c: Data, i: nat, end: nat, a: Atom)
    requires a.Ok() && a.Code? && Starts(c, i, a.Text()) && i + |a.Text()| <= end < |c|
    ensures i + 6 <= end && c[i] == BACKSLASH && c[i + 1] == LETTER_U && AllHex(c, i + 2)
    ensures CodePoint(c, i, end) == Some((a.cp, |a.Text()|))
  {
    hide HexText, Starts, AllHex, Hex4;
    if a.cp < 0x1_0000 {
      UnitRead(c, i, a.cp, a.capital[..4]);
    } else {
      var u := a.cp - 0x1_0000;
      var first, second := 0xD800 + u / 0x400, 0xDC00 + u % 0x400;
      StartsSplit(c, i, [92, 117] + HexText(first, a.capital[..4]), [92, 117] + HexText(second, a.capital[4..]));
      UnitRead(c, i, first, a.capital[..4]);
      UnitRead(c, i + 6, second, a.capital[4..]);
      assert Unicode.HighSurrogate(a.cp) == first && Unicode.LowSurrogate(a.cp) == second;
      PairMeans(c, i, end, a.cp);
    }
  }
}
