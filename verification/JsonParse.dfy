/** What lib/cJSON.c reads from a text: a function for every parsing function, on offsets into the text. */
module JsonParse {
  import opened Bytes
  import opened Arith
  import opened JsonNumber
  import opened JsonString
  import opened JsonValue

  const NESTING_LIMIT := 1000
  const NUMBER_BUFFER := 63
  const LETTER_E: Byte := 101
  const CAPITAL_E: Byte := 69

  datatype Parsed<+T> = Fail | Ok(value: T, next: nat)

  /** The first byte above a space, or the end. */
  function WhiteEnd(c: Data, o: nat): (r: nat)
    requires o <= |c|
    ensures o <= r <= |c|
    decreases |c| - o
  {
    if o < |c| && c[o] <= 32 then WhiteEnd(c, o + 1) else o
  }

  /** White space is skipped, but never the last byte. */
  function Skip(c: Data, o: nat): (r: nat)
    requires o <= |c|
    ensures o <= r <= |c| && (o < |c| ==> r < |c|)
  {
    if o == |c| then o
    else
      var p := WhiteEnd(c, o);
      if p == |c| then p - 1 else p
  }

  predicate Starts(c: Data, o: nat, text: Data) { o + |text| <= |c| && c[o..o + |text|] == text }

  predicate At(c: Data, o: nat, b: Byte) { o < |c| && c[o] == b }

  predicate Digit(b: Byte) { 48 <= b <= 57 }

  /** A byte that may belong to a number: digits, signs, point and exponent. */
  predicate NumberByte(b: Byte) { Digit(b) || b == 43 || b == 45 || b == 46 || b == 69 || b == 101 }

  function NumberEnd(c: Data, o: nat, limit: nat): (r: nat)
    requires o <= |c|
    ensures o <= r <= |c| && r <= o + limit
    decreases limit
  {
    if limit > 0 && o < |c| && NumberByte(c[o]) then NumberEnd(c, o + 1, limit - 1) else o
  }

  /** The end of the digits from `o` on, before `end`. */
  function DigitsEnd(c: Data, o: nat, end: nat): (r: nat)
    requires o <= end <= |c|
    ensures o <= r <= end
    decreases end - o
  {
    if o < end && Digit(c[o]) then DigitsEnd(c, o + 1, end) else o
  }

  /** The number the digits from `o` to `p` stand for. */
  function DigitsValue(c: Data, o: nat, p: nat): nat
    requires o <= p <= |c|
  {
    if o == p then 0 else 10 * DigitsValue(c, o, p - 1) + if Digit(c[p - 1]) then c[p - 1] - 48 else 0
  }

  /** A whole number with its point moved by `e` places. */
  function Scaled(n: nat, e: int): real
  {
    if e >= 0 then (n * Pow10(e)) as real else n as real / Pow10(-e) as real
  }

  /** A whole number with `k` more digits behind it. */
  function Joined(whole: nat, k: nat, last: nat): nat
  {
    MulNonneg(whole, Pow10(k));
    whole * Pow10(k) + last
  }

  function Signed(negative: bool, a: real): real { if negative then -a else a }

  /** The exponent at `m`, if there is a whole one, and the offset behind it. */
  function Exponent(c: Data, m: nat, end: nat): (r: (int, nat))
    requires m <= end <= |c|
    ensures m <= r.1 <= end
  {
    if m >= end || (c[m] != LETTER_E && c[m] != CAPITAL_E) then (0, m)
    else
      var start := if m + 1 < end && (c[m + 1] == PLUS || c[m + 1] == MINUS) then m + 2 else m + 1;
      var last := DigitsEnd(c, start, end);
      if last == start then (0, m)
      else
        var e: int := DigitsValue(c, start, last);
        (if c[m + 1] == MINUS then -e else e, last)
  }

  /** `strtod` on the bytes of a number: digits with or without a point, at least one of them, and an exponent. */
  function Strtod(c: Data, o: nat, end: nat): (r: Parsed<Json>)
    requires o < |c| && o <= end <= |c|
    ensures r.Ok? ==> o < r.next <= |c| && r.value.Num?
  {
    var first := if o < end && (c[o] == MINUS || c[o] == PLUS) then o + 1 else o;
    var intEnd := DigitsEnd(c, first, end);
    var point := intEnd < end && c[intEnd] == POINT;
    var fracEnd := if point then DigitsEnd(c, intEnd + 1, end) else intEnd;
    var places: nat := if point then fracEnd - (intEnd + 1) else 0;
    if intEnd == first && places == 0 then Fail
    else
      var frac := if point then DigitsValue(c, intEnd + 1, fracEnd) else 0;
      var digits := Joined(DigitsValue(c, first, intEnd), places, frac);
      var (exponent, next) := Exponent(c, fracEnd, end);
      Ok(Num(Signed(c[o] == MINUS, Scaled(digits, exponent - places))), next)
  }

  function ParseNumber(c: Data, o: nat): (r: Parsed<Json>)
    requires o < |c|
    ensures r.Ok? ==> o < r.next <= |c| && r.value.Num?
  {
    Strtod(c, o, NumberEnd(c, o, NUMBER_BUFFER))
  }

  function ParseValue(c: Data, o: nat, depth: nat): (r: Parsed<Json>)
    requires o <= |c|
    ensures r.Ok? ==> o < r.next <= |c|
    decreases |c| - o, 1
  {
    if Starts(c, o, NULL_TEXT) then Ok(Null, o + 4)
    else if Starts(c, o, FALSE_TEXT) then Ok(Bool(false), o + 5)
    else if Starts(c, o, TRUE_TEXT) then Ok(Bool(true), o + 4)
    else if At(c, o, QUOTE) then match Literal(c, o) case None => Fail case Some((s, n)) => Ok(Str(s), n)
    else if o < |c| && (c[o] == MINUS || Digit(c[o])) then ParseNumber(c, o)
    else if At(c, o, LBRACKET) then ParseArray(c, o, depth)
    else if At(c, o, LBRACE) then ParseObject(c, o, depth)
    else Fail
  }

  function ParseArray(c: Data, o: nat, depth: nat): (r: Parsed<Json>)
    requires o < |c|
    ensures r.Ok? ==> o < r.next <= |c|
    decreases |c| - o, 0
  {
    if depth >= NESTING_LIMIT then Fail
    else
      var p := Skip(c, o + 1);
      if At(c, p, RBRACKET) then Ok(Arr([]), p + 1)
      else if p >= |c| then Fail
      else
        match ParseElems(c, p, depth + 1)
        case Ok(es, n) => Ok(Arr(es), n)
        case Fail => Fail
  }

  /** The elements from `o` on, up to and with the closing bracket. */
  function ParseElems(c: Data, o: nat, depth: nat): (r: Parsed<seq<Json>>)
    requires o <= |c|
    ensures r.Ok? ==> o < r.next <= |c|
    decreases |c| - o, 2
  {
    match ParseValue(c, Skip(c, o), depth)
    case Fail => Fail
    case Ok(v, n) =>
      var m := Skip(c, n);
      if At(c, m, COMMA) then
        match ParseElems(c, m + 1, depth)
        case Ok(vs, next) => Ok([v] + vs, next)
        case Fail => Fail
      else if At(c, m, RBRACKET) then Ok([v], m + 1)
      else Fail
  }

  function ParseObject(c: Data, o: nat, depth: nat): (r: Parsed<Json>)
    requires o < |c|
    ensures r.Ok? ==> o < r.next <= |c|
    decreases |c| - o, 0
  {
    if depth >= NESTING_LIMIT then Fail
    else
      var p := Skip(c, o + 1);
      if At(c, p, RBRACE) then Ok(Obj([]), p + 1)
      else if p >= |c| then Fail
      else
        match ParseMembers(c, p, depth + 1)
        case Ok(ms, n) => Ok(Obj(ms), n)
        case Fail => Fail
  }

  /** The members from `o` on, up to and with the closing brace. */
  function ParseMembers(c: Data, o: nat, depth: nat): (r: Parsed<seq<Member>>)
    requires o <= |c|
    ensures r.Ok? ==> o < r.next <= |c|
    decreases |c| - o, 3
  {
    match ParseMember(c, o, depth)
    case Fail => Fail
    case Ok(member, n) =>
      var m := Skip(c, n);
      if At(c, m, COMMA) then
        match ParseMembers(c, m + 1, depth)
        case Ok(ms, next) => Ok([member] + ms, next)
        case Fail => Fail
      else if At(c, m, RBRACE) then Ok([member], m + 1)
      else Fail
  }

  /** A name, a colon and a value. */
  function ParseMember(c: Data, o: nat, depth: nat): (r: Parsed<Member>)
    requires o <= |c|
    ensures r.Ok? ==> o < r.next <= |c|
    decreases |c| - o, 2
  {
    if o >= |c| then Fail
    else
      match Literal(c, Skip(c, o))
      case None => Fail
      case Some((key, n)) =>
        var m := Skip(c, n);
        if !At(c, m, COLON) then Fail
        else
          match ParseValue(c, Skip(c, m + 1), depth)
          case Fail => Fail
          case Ok(v, next) => Ok(Member(key, v), next)
  }

  const BOM: Data := [0xEF, 0xBB, 0xBF]

  /** Where the text begins. */
  function Start(c: Data): (o: nat)
    ensures o <= |c|
  {
    if |c| > 4 && c[..3] == BOM then 3 else 0
  }

  /** A whole text, its terminating zero included; `toTheEnd` asks for nothing but white space behind it. */
  function Parse(c: Data, toTheEnd: bool): Parsed<Json>
  {
    if c == [] then Fail
    else
      match ParseValue(c, Skip(c, Start(c)), 0)
      case Fail => Fail
      case Ok(v, n) =>
        if toTheEnd then
          var m := Skip(c, n);
          if At(c, m, 0) then Ok(v, m) else Fail
        else Ok(v, n)
  }
}
