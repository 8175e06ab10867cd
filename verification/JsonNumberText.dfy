/** Numbers as section 6 of RFC 8259 writes them, and in the few more ways `strtod` takes: what is written is what is
    read, and whatever is read was written so. */
module JsonNumberText {
  import opened Arith
  import opened Bytes
  import opened JsonNumber
  import opened JsonValue
  import opened JsonParse
  import opened JsonRoundTrip

  predicate Numerals(d: Data) { forall i :: 0 <= i < |d| ==> 48 <= d[i] <= 57 }

  function DecimalValue(d: Data): nat
    requires Numerals(d)
  {
    if d == [] then 0 else 10 * DecimalValue(d[..|d| - 1]) + (d[|d| - 1] - 48)
  }

  function Tens(k: nat): (r: real)
    ensures r > 0.0
  {
    if k == 0 then 1.0 else 10.0 * Tens(k - 1)
  }

  /** A letter, a sign or none, and digits. */
  datatype Exp = Exp(letter: Byte, sign: Option<Byte>, digits: Data)
  {
    predicate Ok()
    {
      (letter == 69 || letter == 101) && Numerals(digits) && digits != []
      && (sign.Some? ==> sign.value == 43 || sign.value == 45)
    }

    function SignText(): Data { match sign case None => [] case Some(b) => [b] }

    function Text(): Data { [letter] + (SignText() + digits) }

    function Value(): int
      requires Ok()
    {
      if sign == Some(45) then -(DecimalValue(digits) as int) else DecimalValue(digits)
    }
  }

  /** A sign or none, digits, a point and more digits, an exponent: the digits before the point may be missing behind a
      sign, and those behind it may always, but not both. */
  datatype NumText = NumText(negative: bool, whole: Data, frac: Option<Data>, exp: Option<Exp>)
  {
    predicate Ok()
    {
      && Numerals(whole) && (frac.Some? ==> Numerals(frac.value)) && (exp.Some? ==> exp.value.Ok())
      && (whole != [] || (negative && Frac() != []))
    }

    function Frac(): Data { match frac case None => [] case Some(d) => d }

    function SignText(): Data { if negative then [45] else [] }

    function FracText(): Data { match frac case None => [] case Some(d) => [46] + d }

    function ExpText(): Data { match exp case None => [] case Some(x) => x.Text() }

    function Text(): Data { SignText() + (whole + (FracText() + ExpText())) }

    function Exponent(): int
      requires Ok()
    {
      match exp case None => 0 case Some(x) => x.Value()
    }

    /** All the digits, divided by ten for each behind the point, and times or divided by ten for the exponent. */
    function Value(): real
      requires Ok()
    {
      NumeralsJoin(whole, Frac());
      var n, x := DecimalValue(whole + Frac()) as real / Tens(|Frac()|), Exponent();
      Signed(negative, if x >= 0 then n * Tens(x) else n / Tens(-x))
    }
  }

  lemma NumeralsJoin(a: Data, b: Data)
    requires Numerals(a) && Numerals(b)
    ensures Numerals(a + b)
  {
  }

  // ---- values ----

  lemma {:induction false} DigitsAre(c: Data, o: nat, d: Data)
    requires Numerals(d) && Starts(c, o, d)
    ensures DigitsValue(c, o, o + |d|) == DecimalValue(d)
  {
    if d != [] {
      var n := |d| - 1;
      StartsAt(c, o, d, n);
      assert d == d[..n] + [d[n]];
      StartsSplit(c, o, d[..n], [d[n]]);
      DigitsAre(c, o, d[..n]);
    }
  }

  lemma {:induction false} JoinedAre(a: Data, b: Data)
    requires Numerals(a) && Numerals(b)
    ensures Numerals(a + b) && Joined(DecimalValue(a), |b|, DecimalValue(b)) == DecimalValue(a + b)
  {
    hide Joined;
    if b == [] {
      assert a + b == a;
      JoinedNone(DecimalValue(a));
    } else {
      var n := |b| - 1;
      JoinedAre(a, b[..n]);
      assert (a + b)[..|a + b| - 1] == a + b[..n];
      JoinedOne(DecimalValue(a), n, DecimalValue(b[..n]), b[n] - 48);
    }
  }

  lemma {:induction false} TensIs(k: nat)
    ensures Tens(k) == Pow10(k) as real
  {
    if k > 0 {
      TensIs(k - 1);
    }
  }

  lemma {:induction false} TensAdd(a: nat, b: nat)
    ensures Tens(a + b) == Tens(a) * Tens(b)
  {
    if a > 0 {
      TensAdd(a - 1, b);
      Product(10.0, Tens(a - 1), Tens(b));
    }
  }

  lemma Product(a: real, b: real, c: real)
    ensures a * (b * c) == (a * b) * c
  {
  }

  /** The point moved over `p` digits and by the exponent. */
  lemma ScaledIs(n: nat, p: nat, x: int)
    ensures Scaled(n, x - p) == if x >= 0 then n as real / Tens(p) * Tens(x) else n as real / Tens(p) / Tens(-x)
  {
    hide Tens, Pow10;
    var r := n as real;
    if x >= p {
      var d: nat := x - p;
      TensAdd(d, p);
      Cancel(r, Tens(d), Tens(p));
      TensIs(d);
      AsReal(n, Pow10(d));
    } else if x >= 0 {
      var d: nat := p - x;
      TensAdd(d, x);
      CancelUnder(r, Tens(d), Tens(x));
      TensIs(d);
    } else {
      var y: nat := -x;
      assert -(x - p) == p + y;
      TensAdd(p, y);
      Twice(r, Tens(p), Tens(y));
      TensIs(p + y);
      Under(n, x - p);
    }
  }

  lemma Under(n: nat, e: int)
    requires e < 0
    ensures Scaled(n, e) == n as real / Pow10(-e) as real
  {
  }

  lemma AsReal(a: nat, b: nat)
    ensures (a * b) as real == a as real * b as real
  {
  }

  lemma Cancel(r: real, a: real, b: real)
    requires b > 0.0
    ensures r / b * (a * b) == r * a
  {
    var q := r / b;
    assert q * b == r;
    assert q * (a * b) == (q * b) * a;
  }

  lemma CancelUnder(r: real, a: real, b: real)
    requires a > 0.0 && b > 0.0 && a * b > 0.0
    ensures r / (a * b) * b == r / a
  {
    var q := r / (a * b);
    assert q * (a * b) == r;
    assert (q * b) * a == r;
    Divided(q * b, a, r);
  }

  lemma Twice(r: real, a: real, b: real)
    requires a > 0.0 && b > 0.0 && a * b > 0.0
    ensures r / a / b == r / (a * b)
  {
    var q := r / a / b;
    assert q * b == r / a;
    assert (q * b) * a == r;
    assert q * (a * b) == (q * b) * a;
    Divided(q, a * b, r);
  }

  lemma Divided(q: real, a: real, r: real)
    requires a > 0.0 && q * a == r
    ensures q == r / a
  {
  }

  // ---- how `strtod` takes a text apart ----

  /** The bytes before `end` are taken apart as the text is. */
  ghost predicate Apart(c: Data, o: nat, end: nat, num: NumText)
    requires num.Ok()
  {
    var first := o + |num.SignText()|;
    var intEnd := first + |num.whole|;
    var fracEnd := intEnd + |num.FracText()|;
    && fracEnd <= end <= |c| && o < end && (num.negative <==> c[o] == MINUS) && c[o] != PLUS
    && DigitsEnd(c, first, end) == intEnd && DigitsValue(c, first, intEnd) == DecimalValue(num.whole)
    && (num.frac.Some? <==> intEnd < end && c[intEnd] == POINT)
    && (num.frac.Some? ==>
          && DigitsEnd(c, intEnd + 1, end) == fracEnd
          && DigitsValue(c, intEnd + 1, fracEnd) == DecimalValue(num.frac.value))
    && Exponent(c, fracEnd, end) == (num.Exponent(), fracEnd + |num.ExpText()|)
  }

  lemma ApartReads(c: Data, o: nat, end: nat, num: NumText)
    requires num.Ok() && Apart(c, o, end, num)
    ensures Strtod(c, o, end) == Ok(Num(num.Value()), o + |num.Text()|)
  {
    hide DigitsEnd, DigitsValue, Exponent, Joined, Scaled, Tens, DecimalValue, Exp.Text, NumText.Text, NumText.Value;
    JoinedAre(num.whole, num.Frac());
    NoDigits();
    var first := o + |num.SignText()|;
    var intEnd := first + |num.whole|;
    var fracEnd := intEnd + |num.FracText()|;
    assert first == if c[o] == MINUS || c[o] == PLUS then o + 1 else o;
    assert |num.FracText()| == if num.frac.Some? then 1 + |num.Frac()| else 0;
    var frac := if num.frac.Some? then DigitsValue(c, intEnd + 1, fracEnd) else 0;
    assert frac == DecimalValue(num.Frac());
    assert intEnd != first || |num.Frac()| != 0;
    assert Strtod(c, o, end)
        == Ok(Num(Signed(c[o] == MINUS, Scaled(Joined(DigitsValue(c, first, intEnd), |num.Frac()|, frac),
                                               num.Exponent() - |num.Frac()|))), fracEnd + |num.ExpText()|);
    TextLength(num);
    ValueIs(num);
  }

  lemma TextLength(num: NumText)
    ensures |num.Text()| == |num.SignText()| + |num.whole| + |num.FracText()| + |num.ExpText()|
  {
    hide Exp.Text;
  }

  lemma ValueIs(num: NumText)
    requires num.Ok()
    ensures Numerals(num.whole + num.Frac())
    ensures num.Value()
         == Signed(num.negative, Scaled(DecimalValue(num.whole + num.Frac()), num.Exponent() - |num.Frac()|))
  {
    hide Scaled, Tens, DecimalValue, Exp.Value;
    NumeralsJoin(num.whole, num.Frac());
    ScaledIs(DecimalValue(num.whole + num.Frac()), |num.Frac()|, num.Exponent());
  }

  lemma NoDigits()
    ensures DecimalValue([]) == 0
  {
  }

  lemma DigitsAll(d: Data)
    requires Numerals(d)
    ensures forall i :: 0 <= i < |d| ==> Digit(d[i])
  {
  }

  // ---- what is written is read ----

  lemma ExpReads(c: Data, f: nat, end: nat, x: Exp)
    requires x.Ok() && Starts(c, f, x.Text()) && end == f + |x.Text()|
    ensures Exponent(c, f, end) == (x.Value(), end)
    ensures f < |c| && !Digit(c[f]) && c[f] != POINT
  {
    hide DigitsEnd, DigitsValue, DecimalValue, Starts;
    StartsSplit(c, f, [x.letter], x.SignText() + x.digits);
    StartsSplit(c, f + 1, x.SignText(), x.digits);
    StartsAt(c, f, [x.letter], 0);
    var start := f + 1 + |x.SignText()|;
    StartsAt(c, start, x.digits, 0);
    if x.sign.Some? {
      StartsAt(c, f + 1, x.SignText(), 0);
    }
    DigitsEndAt(c, start, x.digits, end);
    DigitsAre(c, start, x.digits);
  }

  lemma NoExp(c: Data, f: nat)
    requires f <= |c|
    ensures Exponent(c, f, f) == (0, f)
  {
  }

  /** The pieces of a text, where they stand. */
  lemma TextPieces(c: Data, o: nat, num: NumText)
    requires Starts(c, o, num.Text())
    ensures var first := o + |num.SignText()|;
      var intEnd := first + |num.whole|;
      var fracEnd := intEnd + |num.FracText()|;
      && Starts(c, o, num.SignText()) && Starts(c, first, num.whole) && Starts(c, intEnd, num.FracText())
      && Starts(c, fracEnd, num.ExpText()) && o + |num.Text()| == fracEnd + |num.ExpText()|
  {
    hide Starts, Exp.Text;
    var first := o + |num.SignText()|;
    StartsSplit(c, o, num.SignText(), num.whole + (num.FracText() + num.ExpText()));
    StartsSplit(c, first, num.whole, num.FracText() + num.ExpText());
    StartsSplit(c, first + |num.whole|, num.FracText(), num.ExpText());
  }

  lemma StartsInside(c: Data, o: nat, text: Data)
    requires Starts(c, o, text)
    ensures o + |text| <= |c|
  {
  }

  lemma StartsByte(c: Data, o: nat)
    requires o < |c|
    ensures Starts(c, o, [c[o]]) && Starts(c, o, [])
  {
  }

  lemma TextApart(c: Data, o: nat, num: NumText)
    requires num.Ok() && Starts(c, o, num.Text())
    ensures Apart(c, o, o + |num.Text()|, num)
  {
    hide DigitsEnd, DigitsValue, Exponent, DecimalValue, Starts, NumText.Text, NumText.SignText, NumText.FracText,
         NumText.ExpText, NumText.Exponent;
    TextPieces(c, o, num);
    var end, fracEnd := o + |num.Text()|, o + |num.SignText()| + |num.whole| + |num.FracText()|;
    StartsInside(c, o, num.Text());
    StartsInside(c, fracEnd, num.ExpText());
    ExpApart(c, fracEnd, end, num);
    FracApart(c, fracEnd, end, num);
    WholeReads(c, o, end, num);
  }

  lemma ExpApart(c: Data, fracEnd: nat, end: nat, num: NumText)
    requires num.Ok() && fracEnd <= |c| && Starts(c, fracEnd, num.ExpText()) && end == fracEnd + |num.ExpText()|
    ensures fracEnd <= end <= |c| && (fracEnd < end ==> !Digit(c[fracEnd]) && c[fracEnd] != POINT)
    ensures Exponent(c, fracEnd, end) == (num.Exponent(), end)
  {
    hide Exponent, Starts, Exp.Text, Exp.Ok, Exp.Value;
    AfterWhole(c, fracEnd, end, num.exp);
  }

  lemma FracApart(c: Data, fracEnd: nat, end: nat, num: NumText)
    requires num.Ok() && |num.FracText()| <= fracEnd && Starts(c, fracEnd - |num.FracText()|, num.FracText())
    requires fracEnd <= end <= |c| && (fracEnd < end ==> !Digit(c[fracEnd]) && c[fracEnd] != POINT)
    ensures var intEnd := fracEnd - |num.FracText()|;
      && (intEnd < end ==> !Digit(c[intEnd])) && (num.frac.Some? <==> intEnd < end && c[intEnd] == POINT)
      && (num.frac.Some? ==>
            && DigitsEnd(c, intEnd + 1, end) == fracEnd
            && DigitsValue(c, intEnd + 1, fracEnd) == DecimalValue(num.frac.value))
  {
    hide DigitsEnd, DigitsValue, DecimalValue, Starts, Exp.Ok;
    FracReads(c, fracEnd - |num.FracText()|, fracEnd, end, num.frac);
  }

  lemma WholeReads(c: Data, o: nat, end: nat, num: NumText)
    requires num.Ok() && Starts(c, o, num.SignText()) && Starts(c, o + |num.SignText()|, num.whole)
    requires var intEnd := o + |num.SignText()| + |num.whole|;
      intEnd <= end <= |c| && (intEnd < end ==> !Digit(c[intEnd]))
    ensures o < end && (num.negative <==> c[o] == MINUS) && c[o] != PLUS
    ensures var first := o + |num.SignText()|;
      && DigitsEnd(c, first, end) == first + |num.whole|
      && DigitsValue(c, first, first + |num.whole|) == DecimalValue(num.whole)
  {
    hide DigitsEnd, DigitsValue, DecimalValue, Starts, Exp.Ok;
    var first := o + |num.SignText()|;
    StartsInside(c, o, num.SignText());
    if num.negative {
      StartsAt(c, o, num.SignText(), 0);
    } else {
      StartsAt(c, o, num.whole, 0);
    }
    DigitsAll(num.whole);
    DigitsEndAt(c, first, num.whole, end);
    DigitsAre(c, first, num.whole);
  }

  lemma AfterWhole(c: Data, f: nat, end: nat, exp: Option<Exp>)
    requires exp.Some? ==> exp.value.Ok() && Starts(c, f, exp.value.Text()) && end == f + |exp.value.Text()|
    requires exp.None? ==> f == end <= |c|
    ensures f <= end <= |c| && (f < end ==> !Digit(c[f]) && c[f] != POINT)
    ensures Exponent(c, f, end) == (match exp case None => 0 case Some(x) => x.Value(), end)
  {
    match exp
    case None => NoExp(c, f);
    case Some(x) => ExpReads(c, f, end, x);
  }

  lemma FracReads(c: Data, intEnd: nat, fracEnd: nat, end: nat, frac: Option<Data>)
    requires frac.None? ==> fracEnd == intEnd
    requires frac.Some? ==>
      Numerals(frac.value) && Starts(c, intEnd, [46] + frac.value) && fracEnd == intEnd + 1 + |frac.value|
    requires fracEnd <= end <= |c| && (fracEnd < end ==> !Digit(c[fracEnd]) && c[fracEnd] != POINT)
    ensures intEnd < end ==> !Digit(c[intEnd])
    ensures frac.Some? <==> intEnd < end && c[intEnd] == POINT
    ensures frac.Some? ==>
      && DigitsEnd(c, intEnd + 1, end) == fracEnd
      && DigitsValue(c, intEnd + 1, fracEnd) == DecimalValue(frac.value)
  {
    hide DigitsEnd, DigitsValue, DecimalValue, Starts;
    if frac.Some? {
      StartsSplit(c, intEnd, [46], frac.value);
      StartsAt(c, intEnd, [46], 0);
      DigitsAll(frac.value);
      DigitsEndAt(c, intEnd + 1, frac.value, end);
      DigitsAre(c, intEnd + 1, frac.value);
    }
  }

  predicate NumberBytes(d: Data) { forall i :: 0 <= i < |d| ==> NumberByte(d[i]) }

  lemma NumberBytesJoin(a: Data, b: Data)
    requires NumberBytes(a) && NumberBytes(b)
    ensures NumberBytes(a + b)
  {
    hide NumberByte;
  }

  lemma ExpBytes(x: Exp)
    requires x.Ok()
    ensures NumberBytes(x.Text())
  {
    NumberBytesJoin(x.SignText(), x.digits);
    NumberBytesJoin([x.letter], x.SignText() + x.digits);
  }

  lemma FracBytes(num: NumText)
    requires num.Ok()
    ensures NumberBytes(num.FracText()) && NumberBytes(num.SignText()) && NumberBytes(num.whole)
  {
    if num.frac.Some? {
      NumberBytesJoin([46], num.frac.value);
    }
  }

  /** Nothing in a number ends it. */
  lemma AllNumberBytes(num: NumText)
    requires num.Ok()
    ensures NumberBytes(num.Text())
  {
    FracBytes(num);
    if num.exp.Some? {
      ExpBytes(num.exp.value);
    }
    var exp := num.ExpText();
    hide NumberBytes;
    assert NumberBytes([]) by {
      NoBytes();
    }
    NumberBytesJoin(num.FracText(), exp);
    NumberBytesJoin(num.whole, num.FracText() + exp);
    NumberBytesJoin(num.SignText(), num.whole + (num.FracText() + exp));
  }

  lemma NoBytes()
    ensures NumberBytes([])
  {
  }

  /** A number of at most 63 bytes is read as what it stands for, if nothing that could go on with it follows. */
  lemma NumberReads(c: Data, o: nat, num: NumText)
    requires num.Ok() && |num.Text()| <= NUMBER_BUFFER && Starts(c, o, num.Text())
    requires o + |num.Text()| < |c| ==> !NumberByte(c[o + |num.Text()|])
    ensures o < |c| && (c[o] == MINUS || Digit(c[o]))
    ensures ParseNumber(c, o) == Ok(Num(num.Value()), o + |num.Text()|)
  {
    hide Starts, Strtod, NumberEnd, NumText.Value;
    AllNumberBytes(num);
    NumberEndAt(c, o, num.Text(), NUMBER_BUFFER);
    TextApart(c, o, num);
    ApartReads(c, o, o + |num.Text()|, num);
    TextPieces(c, o, num);
    if !num.negative {
      StartsAt(c, o, num.whole, 0);
    }
  }

  // ---- what is read was written ----

  lemma {:induction false} DigitsFound(c: Data, o: nat, end: nat)
    requires o <= end <= |c|
    ensures var d := c[o..DigitsEnd(c, o, end)]; Numerals(d) && Starts(c, o, d)
    ensures DigitsEnd(c, o, end) < end ==> !Digit(c[DigitsEnd(c, o, end)])
    decreases end - o
  {
    if o < end && Digit(c[o]) {
      DigitsFound(c, o + 1, end);
      var last := DigitsEnd(c, o, end);
      assert c[o..last] == [c[o]] + c[o + 1..last];
    }
  }

  lemma ExpFound(c: Data, f: nat, end: nat) returns (exp: Option<Exp>)
    requires f <= end <= |c|
    ensures exp.Some? ==> exp.value.Ok() && Starts(c, f, exp.value.Text())
    ensures Exponent(c, f, end)
         == match exp case None => (0, f) case Some(x) => (x.Value(), f + |x.Text()|)
  {
    hide DigitsEnd, DigitsValue, DecimalValue, Starts;
    exp := None;
    if f < end && (c[f] == LETTER_E || c[f] == CAPITAL_E) {
      var signed := f + 1 < end && (c[f + 1] == PLUS || c[f + 1] == MINUS);
      var start := if signed then f + 2 else f + 1;
      DigitsFound(c, start, end);
      var last := DigitsEnd(c, start, end);
      if last > start {
        var x := Exp(c[f], if signed then Some(c[f + 1]) else None, c[start..last]);
        DigitsAre(c, start, x.digits);
        ExpPieces(c, f, start, signed, x);
        exp := Some(x);
      }
    }
  }

  lemma ExpPieces(c: Data, f: nat, start: nat, signed: bool, x: Exp)
    requires f + 1 < |c| && x.letter == c[f] && start == f + 1 + |x.SignText()| && x.digits != []
    requires x.sign == if signed then Some(c[f + 1]) else None
    requires Starts(c, start, x.digits) && Numerals(x.digits)
    ensures Starts(c, f, x.Text()) && |x.Text()| == start - f + |x.digits| && (signed || c[f + 1] != MINUS)
  {
    hide Starts;
    StartsByte(c, f);
    StartsByte(c, f + 1);
    StartsJoin(c, f + 1, x.SignText(), x.digits);
    StartsJoin(c, f, [c[f]], x.SignText() + x.digits);
    if !signed {
      StartsAt(c, start, x.digits, 0);
    }
  }

  /** Whatever is read as a number was written as one, and stands for what is read. */
  lemma NumberFound(c: Data, o: nat) returns (num: NumText)
    requires o < |c| && (c[o] == MINUS || Digit(c[o])) && ParseNumber(c, o).Ok?
    ensures num.Ok() && Starts(c, o, num.Text()) && |num.Text()| <= NUMBER_BUFFER
    ensures ParseNumber(c, o) == Ok(Num(num.Value()), o + |num.Text()|)
  {
    hide Exponent, Strtod, NumText.Value, Exp.Text, Exp.Value, DecimalValue, DigitsValue, DigitsEnd;
    var end := NumberEnd(c, o, NUMBER_BUFFER);
    num := TakenApart(c, o, end);
    ApartReads(c, o, end, num);
  }

  lemma TakenApart(c: Data, o: nat, end: nat) returns (num: NumText)
    requires o < end <= |c| && c[o] != PLUS && Strtod(c, o, end).Ok? && (c[o] == MINUS || Digit(c[o]))
    ensures num.Ok() && Apart(c, o, end, num) && Starts(c, o, num.Text()) && o + |num.Text()| <= end
  {
    hide Exponent, Exp.Text, Exp.Value, DecimalValue, DigitsValue, DigitsEnd, Joined, Scaled, Starts, NumText.Text;
    var negative := c[o] == MINUS;
    var first := if negative then o + 1 else o;
    DigitsFound(c, first, end);
    var intEnd := DigitsEnd(c, first, end);
    var whole := c[first..intEnd];
    DigitsAre(c, first, whole);
    var frac, fracEnd := FracFound(c, intEnd, end);
    var exp := ExpFound(c, fracEnd, end);
    num := NumText(negative, whole, frac, exp);
    FirstDigit(c, o, end);
    TextIs(c, o, num);
    TextLength(num);
  }

  lemma FracFound(c: Data, intEnd: nat, end: nat) returns (frac: Option<Data>, fracEnd: nat)
    requires intEnd <= end <= |c|
    ensures frac.Some? <==> intEnd < end && c[intEnd] == POINT
    ensures frac.None? ==> fracEnd == intEnd
    ensures frac.Some? ==>
      && Numerals(frac.value) && Starts(c, intEnd, [46] + frac.value) && fracEnd == intEnd + 1 + |frac.value|
      && DigitsEnd(c, intEnd + 1, end) == fracEnd
      && DigitsValue(c, intEnd + 1, fracEnd) == DecimalValue(frac.value)
    ensures fracEnd <= end
  {
    hide DigitsEnd, DigitsValue, DecimalValue, Starts;
    frac, fracEnd := None, intEnd;
    if intEnd < end && c[intEnd] == POINT {
      DigitsFound(c, intEnd + 1, end);
      fracEnd := DigitsEnd(c, intEnd + 1, end);
      frac := Some(c[intEnd + 1..fracEnd]);
      DigitsAre(c, intEnd + 1, frac.value);
      StartsByte(c, intEnd);
      StartsJoin(c, intEnd, [46], frac.value);
    }
  }

  lemma FirstDigit(c: Data, o: nat, end: nat)
    requires o < end <= |c|
    ensures Digit(c[o]) ==> DigitsEnd(c, o, end) > o
  {
  }

  lemma TextIs(c: Data, o: nat, num: NumText)
    requires o < |c| && (num.negative ==> c[o] == 45)
    requires var first := o + |num.SignText()|;
      var intEnd := first + |num.whole|;
      && Starts(c, first, num.whole) && (num.frac.Some? ==> Starts(c, intEnd, num.FracText())) && intEnd <= |c|
      && (num.exp.Some? ==> Starts(c, intEnd + |num.FracText()|, num.ExpText()))
    ensures Starts(c, o, num.Text())
  {
    hide Starts, Exp.Text;
    var intEnd := o + |num.SignText()| + |num.whole|;
    StartsByte(c, o);
    if num.frac.None? {
      StartsEmpty(c, intEnd);
    }
    StartsInside(c, intEnd, num.FracText());
    if num.exp.None? {
      StartsEmpty(c, intEnd + |num.FracText()|);
    }
    PiecesJoin(c, o, num.SignText(), num.whole, num.FracText(), num.ExpText());
  }

  lemma PiecesJoin(c: Data, o: nat, sign: Data, whole: Data, frac: Data, exp: Data)
    requires Starts(c, o, sign) && Starts(c, o + |sign|, whole) && Starts(c, o + |sign| + |whole|, frac)
    requires Starts(c, o + |sign| + |whole| + |frac|, exp)
    ensures Starts(c, o, sign + (whole + (frac + exp)))
  {
    hide Starts;
    StartsJoin(c, o + |sign| + |whole|, frac, exp);
    StartsJoin(c, o + |sign|, whole, frac + exp);
    StartsJoin(c, o, sign, whole + (frac + exp));
  }

  lemma StartsEmpty(c: Data, o: nat)
    requires o <= |c|
    ensures Starts(c, o, [])
  {
  }
}
