/** JSON string literals in lib/cJSON.c: the two-pass reader with its UTF-16 escapes, and the two-pass printer. */
module JsonString {
  import opened Bytes
  import Unicode

  const QUOTE: Byte := 34
  const BACKSLASH: Byte := 92
  const SLASH: Byte := 47
  const LETTER_B: Byte := 98
  const LETTER_F: Byte := 102
  const LETTER_N: Byte := 110
  const LETTER_R: Byte := 114
  const LETTER_T: Byte := 116
  const LETTER_U: Byte := 117

  // ---- what the text of a string is ----

  function HexLetter(n: int): Byte
    requires 0 <= n < 16
  {
    if n < 10 then 48 + n else 87 + n
  }

  /** One byte of a string as it is printed. */
  function Escape(b: Byte): (t: Data)
    ensures 1 <= |t| <= 6
  {
    if b == QUOTE || b == BACKSLASH then [BACKSLASH, b]
    else if b == 8 then [BACKSLASH, LETTER_B]
    else if b == 12 then [BACKSLASH, LETTER_F]
    else if b == 10 then [BACKSLASH, LETTER_N]
    else if b == 13 then [BACKSLASH, LETTER_R]
    else if b == 9 then [BACKSLASH, LETTER_T]
    else if b < 32 then [BACKSLASH, LETTER_U, 48, 48, HexLetter(b / 16), HexLetter(b % 16)]
    else [b]
  }

  function EscapeAll(s: Data): Data
  {
    if s == [] then [] else Escape(s[0]) + EscapeAll(s[1..])
  }

  function Quoted(s: Data): Data { [QUOTE] + EscapeAll(s) + [QUOTE] }

  lemma {:induction false} EscapeAppend(s: Data, b: Byte)
    ensures EscapeAll(s + [b]) == EscapeAll(s) + Escape(b)
  {
    hide Escape;
    if s == [] {
      assert EscapeAll([b]) == Escape(b) + EscapeAll([]);
    } else {
      EscapeAppend(s[1..], b);
      assert (s + [b])[1..] == s[1..] + [b];
      AppendAssoc(Escape(s[0]), EscapeAll(s[1..]), Escape(b));
    }
  }

  // ---- what a string literal means ----

  function HexValue(b: Byte): (r: Option<int>)
    ensures r.Some? ==> 0 <= r.value < 16
  {
    if 48 <= b <= 57 then Some(b - 48)
    else if 65 <= b <= 70 then Some(b - 55)
    else if 97 <= b <= 102 then Some(b - 87)
    else None
  }

  /** The value of `k` hexadecimal digits. */
  function Digits(c: Data, i: nat, k: nat): (r: int)
    requires i + k <= |c|
    ensures 0 <= r
    ensures (k == 0 ==> r == 0) && (k == 1 ==> r < 0x10) && (k == 2 ==> r < 0x100) && (k == 3 ==> r < 0x1000)
    ensures k == 4 ==> r < 0x1_0000
  {
    if k == 0 then 0
    else 16 * Digits(c, i, k - 1) + match HexValue(c[i + k - 1]) case Some(v) => v case None => 0
  }

  /** Four hexadecimal digits; anything else counts as zero. */
  function Hex4(c: Data, i: nat): (r: int)
    requires i + 4 <= |c|
    ensures 0 <= r < 0x1_0000
  {
    if AllHex(c, i) then Digits(c, i, 4) else 0
  }

  predicate AllHex(c: Data, i: nat)
    requires i + 4 <= |c|
  {
    forall j :: i <= j < i + 4 ==> HexValue(c[j]).Some?
  }

  /** The code point of the escape at `i` and the number of bytes it takes up. */
  function CodePoint(c: Data, i: nat, end: nat): (r: Option<(int, nat)>)
    requires i <= end <= |c|
    ensures r.Some? ==> Unicode.Scalar(r.value.0) && 6 <= r.value.1 <= 12 && i + r.value.1 <= end
  {
    if end - i < 6 then None
    else
      var first := Hex4(c, i + 2);
      if 0xDC00 <= first <= 0xDFFF then None
      else if 0xD800 <= first <= 0xDBFF then
        if end - (i + 6) < 6 || c[i + 6] != BACKSLASH || c[i + 7] != LETTER_U then None
        else
          var second := Hex4(c, i + 8);
          if second < 0xDC00 || second > 0xDFFF then None
          else Some((0x1_0000 + first % 0x400 * 0x400 + second % 0x400, 12))
      else Some((first, 6))
  }

  /** The bytes a literal stands for from `i` on, up to the closing quote at `end`. */
  function Unescape(c: Data, i: nat, end: nat): Option<Data>
    requires end < |c|
    decreases |c| - i
  {
    if i >= end then Some([])
    else if c[i] != BACKSLASH then Then([c[i]], Unescape(c, i + 1, end))
    else
      var e := c[i + 1];
      if e == LETTER_B then Then([8], Unescape(c, i + 2, end))
      else if e == LETTER_F then Then([12], Unescape(c, i + 2, end))
      else if e == LETTER_N then Then([10], Unescape(c, i + 2, end))
      else if e == LETTER_R then Then([13], Unescape(c, i + 2, end))
      else if e == LETTER_T then Then([9], Unescape(c, i + 2, end))
      else if e == QUOTE || e == BACKSLASH || e == SLASH then Then([e], Unescape(c, i + 2, end))
      else if e == LETTER_U then
        match CodePoint(c, i, end)
        case None => None
        case Some((cp, len)) => Then(Unicode.Encode(cp), Unescape(c, i + len, end))
      else None
  }

  function Then(d: Data, rest: Option<Data>): Option<Data>
  {
    match rest case None => None case Some(r) => Some(d + r)
  }

  /** The closing quote of a literal whose text begins at `i`. */
  function ClosingQuote(c: Data, i: nat): (r: Option<nat>)
    requires i <= |c|
    ensures r.Some? ==> i <= r.value < |c| && c[r.value] == QUOTE
    decreases |c| - i
  {
    if i >= |c| then None
    else if c[i] == QUOTE then Some(i)
    else if c[i] != BACKSLASH then ClosingQuote(c, i + 1)
    else if i + 1 >= |c| then None
    else ClosingQuote(c, i + 2)
  }

  /** The literal at `o`: the string it stands for, and the offset behind it. */
  function Literal(c: Data, o: nat): (r: Option<(Data, nat)>)
    requires o < |c|
    ensures r.Some? ==> o + 1 < r.value.1 <= |c|
  {
    if c[o] != QUOTE then None
    else
      match ClosingQuote(c, o + 1)
      case None => None
      case Some(end) => match Unescape(c, o + 1, end) case None => None case Some(s) => Some((s, end + 1))
  }

  /** A surrogate pair stands for the code point section 2.1 of RFC 2781 makes it from. */
  lemma PairMeans(c: Data, i: nat, end: nat, cp: int)
    requires i + 12 <= end <= |c| && 0x1_0000 <= cp <= 0x10FFFF
    requires Hex4(c, i + 2) == Unicode.HighSurrogate(cp)
    requires c[i + 6] == BACKSLASH && c[i + 7] == LETTER_U && Hex4(c, i + 8) == Unicode.LowSurrogate(cp)
    ensures CodePoint(c, i, end) == Some((cp, 12))
  {
    hide Hex4;
    var u := cp - 0x1_0000;
    assert u / 0x400 * 0x400 + u % 0x400 == u;
    assert (0xD800 + u / 0x400) % 0x400 == u / 0x400 && (0xDC00 + u % 0x400) % 0x400 == u % 0x400;
  }

  /** A `\u` escape with any other characters for its first four digits is read as the zero byte. The second half of a
      pair has hexadecimal digits if it is accepted. */
  lemma BadDigits(c: Data, i: nat, end: nat)
    requires i + 6 <= end < |c| && c[i] == BACKSLASH && c[i + 1] == LETTER_U
    ensures !AllHex(c, i + 2) ==>
      CodePoint(c, i, end) == Some((0, 6)) && Unescape(c, i, end) == Then([0], Unescape(c, i + 6, end))
    ensures CodePoint(c, i, end).Some? ==>
      var len := CodePoint(c, i, end).value.1;
      (AllHex(c, i + 2) && (len == 12 ==> AllHex(c, i + 8)) <==> AllHex(c, i + 2))
  {
    hide AllHex;
  }

  /** From `i` on, every escape is one letter or four hexadecimal digits, or two of these that make a pair; and none
      reaches past the closing quote at `end`. */
  predicate WellEscaped(c: Data, i: nat, end: nat)
    requires end < |c|
    decreases |c| - i
  {
    if i >= end then i == end
    else if c[i] != BACKSLASH then WellEscaped(c, i + 1, end)
    else if ShortEscape(c[i + 1]).Some? then WellEscaped(c, i + 2, end)
    else if c[i + 1] != LETTER_U then false
    else
      match CodePoint(c, i, end)
      case None => false
      case Some((_, len)) =>
        AllHex(c, i + 2) && (len == 12 ==> AllHex(c, i + 8)) && WellEscaped(c, i + len, end)
  }

  /** Of the `\u` escapes the second pass meets from `i` on, none has a bad digit among its first four. */
  predicate GoodDigits(c: Data, i: nat, end: nat)
    requires end < |c|
    decreases |c| - i
  {
    if i >= end then true
    else if c[i] != BACKSLASH then GoodDigits(c, i + 1, end)
    else if c[i + 1] != LETTER_U then GoodDigits(c, i + 2, end)
    else
      i + 6 <= end && AllHex(c, i + 2)
      && match CodePoint(c, i, end) case None => true case Some((_, len)) => GoodDigits(c, i + len, end)
  }

  /** The literals whose escapes are all good are just the accepted ones without a bad digit. */
  lemma {:induction false} WellEscapedIff(c: Data, i: nat, end: nat)
    requires i <= end < |c| && ClosingQuote(c, i) == Some(end)
    ensures WellEscaped(c, i, end) <==> Unescape(c, i, end).Some? && GoodDigits(c, i, end)
    decreases |c| - i
  {
    hide AllHex, CodePoint, Unicode.Encode, Unescape;
    UnescapeAtEnd(c, i, end);
    if i < end {
      UnescapeStep(c, i, end);
      if c[i] != BACKSLASH {
        WellEscapedIff(c, i + 1, end);
      } else if ShortEscape(c[i + 1]).Some? {
        WellEscapedIff(c, i + 2, end);
      } else if c[i + 1] == LETTER_U && CodePoint(c, i, end).Some? && AllHex(c, i + 2) {
        BadDigits(c, i, end);
        PastEscape(c, i, end);
        WellEscapedIff(c, i + CodePoint(c, i, end).value.1, end);
      }
    }
  }

  lemma UnescapeAtEnd(c: Data, i: nat, end: nat)
    requires end < |c|
    ensures i >= end ==> Unescape(c, i, end) == Some([])
  {
  }

  /** An accepted escape with good digits lies before the closing quote. */
  lemma PastEscape(c: Data, i: nat, end: nat)
    requires i < end < |c| && c[i] == BACKSLASH && c[i + 1] == LETTER_U && ClosingQuote(c, i) == Some(end)
    requires CodePoint(c, i, end).Some? && AllHex(c, i + 2)
    ensures ClosingQuote(c, i + CodePoint(c, i, end).value.1) == Some(end)
  {
    hide AllHex, Hex4;
    BadDigits(c, i, end);
    PastHex(c, i + 2);
    assert ClosingQuote(c, i + 6) == Some(end);
    if CodePoint(c, i, end).value.1 == 12 {
      PastHex(c, i + 8);
    }
  }

  /** A literal with a bad escape that is accepted: the escape swallows the first of two backslashes, and with the other
      one the closing quote is read as an escaped one. */
  lemma SwallowedBackslash()
    ensures var c: Data := [QUOTE, BACKSLASH, LETTER_U, 49, 50, 51, BACKSLASH, BACKSLASH, QUOTE];
      && Literal(c, 0) == Some(([0, QUOTE], 9)) && ClosingQuote(c, 1) == Some(8)
      && !WellEscaped(c, 1, 8) && !GoodDigits(c, 1, 8)
  {
    var c: Data := [QUOTE, BACKSLASH, LETTER_U, 49, 50, 51, BACKSLASH, BACKSLASH, QUOTE];
    assert ClosingQuote(c, 6) == Some(8) && ClosingQuote(c, 5) == Some(8) && ClosingQuote(c, 4) == Some(8);
    assert ClosingQuote(c, 3) == Some(8);
    assert HexValue(c[6]).None? && !AllHex(c, 3);
    BadDigits(c, 1, 8);
    assert Unescape(c, 7, 8) == Then([QUOTE], Some([]));
    assert Unescape(c, 1, 8) == Then([0], Then([QUOTE], Some([])));
    assert [0] + ([QUOTE] + []) == [0, QUOTE];
    WellEscapedIff(c, 1, 8);
  }

  /** Four hexadecimal letters are no quote and no backslash. */
  lemma PastHex(c: Data, i: nat)
    requires i + 4 <= |c| && AllHex(c, i)
    ensures ClosingQuote(c, i) == ClosingQuote(c, i + 4)
  {
    assert ClosingQuote(c, i) == ClosingQuote(c, i + 1);
    assert ClosingQuote(c, i + 1) == ClosingQuote(c, i + 2);
    assert ClosingQuote(c, i + 2) == ClosingQuote(c, i + 3);
  }

  /** Text up to position `p` of the first pass from `i`: an escape's backslash takes no room. */
  function Room(c: Data, i: nat, p: nat): nat
    requires p <= |c|
    decreases p - i
  {
    if p <= i then 0
    else if c[i] != BACKSLASH then 1 + Room(c, i + 1, p)
    else if p == i + 1 then 0
    else 1 + Room(c, i + 2, p)
  }

  lemma {:induction false} RoomGrows(c: Data, i: nat, p: nat)
    requires i <= p < |c|
    ensures Room(c, i, p) <= Room(c, i, p + 1)
    ensures c[p] != BACKSLASH ==> Room(c, i, p + 1) == Room(c, i, p) + 1
    ensures p + 2 <= |c| ==> Room(c, i, p + 2) >= Room(c, i, p) + 1
    decreases p - i
  {
    if p <= i + 1 {
    } else if c[i] != BACKSLASH {
      RoomGrows(c, i + 1, p);
    } else {
      RoomGrows(c, i + 2, p);
    }
  }

  /** Half the positions at least take room. */
  lemma {:induction false} RoomHalf(c: Data, i: nat, p: nat, n: nat)
    requires i <= p && p + 2 * n <= |c|
    ensures Room(c, i, p + 2 * n) >= Room(c, i, p) + n
    decreases n
  {
    if n > 0 {
      RoomHalf(c, i, p, n - 1);
      RoomGrows(c, i, p + 2 * (n - 1));
    }
  }

  /** The closing quote does not belong to an escape, so whatever stands before it takes room. */
  lemma {:induction false} RoomToEnd(c: Data, i: nat, p: nat, end: nat)
    requires i <= p < end <= |c| && ClosingQuote(c, i) == Some(end)
    ensures Room(c, i, end) >= Room(c, i, p) + 1
    decreases p - i
  {
    if c[i] != BACKSLASH {
      if p > i {
        RoomToEnd(c, i + 1, p, end);
      }
    } else if p >= i + 2 {
      RoomToEnd(c, i + 2, p, end);
    }
  }

  // ---- the reader ----

  method ParseHex4(c: Data, i: nat) returns (h: nat)
    requires i + 4 <= |c|
    ensures h == Hex4(c, i)
  {
    h := 0;
    var k := 0;
    while k < 4
      invariant 0 <= k <= 4
      invariant forall j :: i <= j < i + k ==> HexValue(c[j]).Some?
      invariant h == if k == 4 then Digits(c, i, 4) else 16 * Digits(c, i, k)
    {
      var b := c[i + k];
      if 48 <= b <= 57 {
        h := h + (b - 48);
      } else if 65 <= b <= 70 {
        h := h + (10 + (b - 65));
      } else if 97 <= b <= 102 {
        h := h + (10 + (b - 97));
      } else {
        assert HexValue(c[i + k]).None?;
        return 0;
      }
      assert HexValue(c[i + k]).Some? && h == Digits(c, i, k + 1);
      if k < 3 {
        h := h * 16;
      }
      k := k + 1;
    }
  }

  /** `n` shifted right by six bits, `k` times. */
  function Shift(n: nat, k: nat): nat
  {
    if k == 0 then n else Shift(n, k - 1) / 0x40
  }

  /** Writes the code point of the escape at `i` at `pos`; returns the length of the escape, or 0. */
  method Utf16LiteralToUtf8(c: Data, i: nat, end: nat, output: array<Byte>, pos: nat)
    returns (sequenceLength: nat, pos': nat)
    requires i <= end <= |c| && pos <= output.Length
    requires i + 6 <= end ==> pos + 3 <= output.Length
    requires i + 12 <= end ==> pos + 4 <= output.Length
    modifies output
    ensures output[..pos] == old(output[..pos])
    ensures match CodePoint(c, i, end)
      case None => sequenceLength == 0 && pos' == pos
      case Some((cp, len)) => sequenceLength == len && pos' == pos + |Unicode.Encode(cp)|
                              && pos' <= output.Length && output[pos..pos'] == Unicode.Encode(cp)
  {
    sequenceLength, pos' := 0, pos;
    if end - i < 6 {
      return;
    }
    var firstCode := ParseHex4(c, i + 2);
    if 0xDC00 <= firstCode <= 0xDFFF {
      return;
    }
    var codepoint;
    if 0xD800 <= firstCode <= 0xDBFF {
      if end - (i + 6) < 6 {
        return;
      }
      if c[i + 6] != BACKSLASH || c[i + 7] != LETTER_U {
        return;
      }
      var secondCode := ParseHex4(c, i + 8);
      if secondCode < 0xDC00 || secondCode > 0xDFFF {
        return;
      }
      sequenceLength := 12;
      codepoint := 0x1_0000 + (firstCode % 0x400 * 0x400 + secondCode % 0x400);
    } else {
      sequenceLength := 6;
      codepoint := firstCode;
    }
    assert CodePoint(c, i, end) == Some((codepoint, sequenceLength));
    pos' := EncodeUtf8(codepoint, output, pos);
  }

  function FirstByteMark(utf8Length: nat): Byte
  {
    if utf8Length == 1 then 0 else if utf8Length == 2 then 0xC0 else if utf8Length == 3 then 0xE0 else 0xF0
  }

  method EncodeUtf8(cp: nat, output: array<Byte>, pos: nat) returns (pos': nat)
    requires Unicode.Scalar(cp) && pos + (if cp < 0x1_0000 then 3 else 4) <= output.Length
    modifies output
    ensures pos' == pos + |Unicode.Encode(cp)| <= output.Length
    ensures output[..pos] == old(output[..pos]) && output[pos..pos'] == Unicode.Encode(cp)
  {
    var utf8Length, firstByteMark := 1, 0;
    if cp < 0x80 {
    } else if cp < 0x800 {
      utf8Length, firstByteMark := 2, 0xC0;
    } else if cp < 0x1_0000 {
      utf8Length, firstByteMark := 3, 0xE0;
    } else {
      utf8Length, firstByteMark := 4, 0xF0;
    }
    ShiftEncodes(cp, utf8Length);
    EncodeBytes(cp, utf8Length, firstByteMark, output, pos, Unicode.Encode(cp));
    pos' := pos + utf8Length;
  }

  /** The encoding loop: the low six bits of what is left, last byte first. */
  method EncodeBytes(cp: nat, utf8Length: nat, firstByteMark: Byte, output: array<Byte>, pos: nat, ghost encoded: Data)
    requires 1 <= utf8Length == |encoded| && pos + utf8Length <= output.Length
    requires encoded[0] == firstByteMark + Shift(cp, utf8Length - 1)
    requires forall j :: 1 <= j < utf8Length ==> encoded[j] == 0x80 + Shift(cp, utf8Length - 1 - j) % 0x40
    modifies output
    ensures output[..pos] == old(output[..pos]) && output[pos..pos + utf8Length] == encoded
  {
    var codepoint, position := cp, utf8Length - 1;
    while position > 0
      invariant 0 <= position < utf8Length
      invariant codepoint == Shift(cp, utf8Length - 1 - position)
      invariant output[..pos] == old(output[..pos])
      invariant forall j :: pos + position < j < pos + utf8Length ==> output[j] == encoded[j - pos]
    {
      output[pos + position] := 0x80 + codepoint % 0x40;
      codepoint := codepoint / 0x40;
      position := position - 1;
    }
    output[pos] := firstByteMark + codepoint;
  }

  lemma ShiftEncodes(cp: nat, n: nat)
    requires Unicode.Scalar(cp) && n == |Unicode.Encode(cp)|
    ensures Unicode.Encode(cp)[0] == FirstByteMark(n) + Shift(cp, n - 1)
    ensures forall j :: 1 <= j < n ==> Unicode.Encode(cp)[j] == 0x80 + Shift(cp, n - 1 - j) % 0x40
  {
    assert Shift(cp, 1) == cp / 0x40;
    assert Shift(cp, 2) == cp / 0x40 / 0x40 == cp / 0x1000;
    assert Shift(cp, 3) == cp / 0x1000 / 0x40 == cp / 0x4_0000;
  }

  /** First pass: the closing quote, and how many backslashes begin an escape. */
  method FindEnd(c: Data, o: nat) returns (end: Option<nat>, skippedBytes: nat)
    requires o < |c|
    ensures end == ClosingQuote(c, o + 1)
    ensures end.Some? ==> skippedBytes <= end.value - o && end.value - o - skippedBytes == 1 + Room(c, o + 1, end.value)
  {
    skippedBytes := 0;
    var inputEnd := o + 1;
    RoomEmpty(c, o + 1);
    while inputEnd < |c| && c[inputEnd] != QUOTE
      invariant o + 1 <= inputEnd <= |c|
      invariant ClosingQuote(c, inputEnd) == ClosingQuote(c, o + 1)
      invariant AtUnit(c, o + 1, inputEnd)
      invariant inputEnd - o == skippedBytes + 1 + Room(c, o + 1, inputEnd)
    {
      RoomStep(c, o + 1, inputEnd);
      if c[inputEnd] == BACKSLASH {
        if inputEnd + 1 >= |c| {
          return None, skippedBytes;
        }
        skippedBytes := skippedBytes + 1;
        inputEnd := inputEnd + 1;
      }
      inputEnd := inputEnd + 1;
    }
    if inputEnd >= |c| || c[inputEnd] != QUOTE {
      return None, skippedBytes;
    }
    end := Some(inputEnd);
  }

  /** The first pass from `i` comes by position `p`. */
  ghost predicate AtUnit(c: Data, i: nat, p: nat)
    requires p <= |c|
    decreases p - i
  {
    i == p || (i < p && c[i] != BACKSLASH && AtUnit(c, i + 1, p)) || (i < p && c[i] == BACKSLASH && AtUnit(c, i + 2, p))
  }

  lemma RoomEmpty(c: Data, i: nat)
    requires i <= |c|
    ensures AtUnit(c, i, i) && Room(c, i, i) == 0
  {
  }

  lemma {:induction false} RoomStep(c: Data, i: nat, p: nat)
    requires p < |c| && AtUnit(c, i, p)
    ensures c[p] != BACKSLASH ==> AtUnit(c, i, p + 1) && Room(c, i, p + 1) == Room(c, i, p) + 1
    ensures c[p] == BACKSLASH && p + 2 <= |c| ==> AtUnit(c, i, p + 2) && Room(c, i, p + 2) == Room(c, i, p) + 1
    decreases p - i
  {
    if i < p {
      if c[i] != BACKSLASH {
        RoomStep(c, i + 1, p);
      } else {
        RoomStep(c, i + 2, p);
      }
    }
  }

  lemma ThenThen(a: Data, b: Data, rest: Option<Data>)
    ensures Then(a, Then(b, rest)) == Then(a + b, rest)
  {
    if rest.Some? {
      AppendAssoc(a, b, rest.value);
    }
  }

  lemma {:induction false} RoomMonotone(c: Data, i: nat, p: nat, q: nat)
    requires i <= p <= q <= |c|
    ensures Room(c, i, p) <= Room(c, i, q)
    decreases q - p
  {
    if p < q {
      RoomGrows(c, i, p);
      RoomMonotone(c, i, p + 1, q);
    }
  }

  /** There is room for what comes out of an escape of the given length, wherever the second pass is. */
  lemma RoomForEscape(c: Data, start: nat, i: nat, end: nat)
    requires start <= i < end <= |c| && ClosingQuote(c, start) == Some(end)
    ensures i + 1 <= end && (c[i] != BACKSLASH ==> Room(c, start, i + 1) >= Room(c, start, i) + 1)
    ensures i + 2 <= end ==> Room(c, start, i + 2) >= Room(c, start, i) + 1
    ensures Room(c, start, end) >= Room(c, start, i) + 1
    ensures i + 6 <= end ==> Room(c, start, i + 6) >= Room(c, start, i) + 3
    ensures i + 6 <= end ==> Room(c, start, end) >= Room(c, start, i) + 3
    ensures i + 12 <= end ==> Room(c, start, i + 12) >= Room(c, start, i) + 4
    ensures i + 12 <= end ==> Room(c, start, end) >= Room(c, start, i) + 4
  {
    RoomGrows(c, start, i);
    RoomToEnd(c, start, i, end);
    if i + 6 <= end {
      RoomHalf(c, start, i, 3);
      RoomMonotone(c, start, i + 6, end);
    }
    if i + 12 <= end {
      RoomHalf(c, start, i, 6);
      RoomMonotone(c, start, i + 12, end);
    }
  }

  /** An escape of one letter and the byte it stands for. */
  function ShortEscape(e: Byte): Option<Byte>
  {
    if e == LETTER_B then Some(8)
    else if e == LETTER_F then Some(12)
    else if e == LETTER_N then Some(10)
    else if e == LETTER_R then Some(13)
    else if e == LETTER_T then Some(9)
    else if e == QUOTE || e == BACKSLASH || e == SLASH then Some(e)
    else None
  }

  lemma UnescapeStep(c: Data, i: nat, end: nat)
    requires i < end < |c|
    ensures c[i] != BACKSLASH ==> Unescape(c, i, end) == Then([c[i]], Unescape(c, i + 1, end))
    ensures c[i] == BACKSLASH && ShortEscape(c[i + 1]).Some? ==>
      Unescape(c, i, end) == Then([ShortEscape(c[i + 1]).value], Unescape(c, i + 2, end))
    ensures c[i] == BACKSLASH && c[i + 1] == LETTER_U ==>
      Unescape(c, i, end) == match CodePoint(c, i, end)
        case None => None
        case Some((cp, len)) => Then(Unicode.Encode(cp), Unescape(c, i + len, end))
    ensures c[i] == BACKSLASH && ShortEscape(c[i + 1]).None? && c[i + 1] != LETTER_U ==> Unescape(c, i, end) == None
  {
    hide CodePoint, Unicode.Encode, Then;
  }

  /** Reads the literal at `o`. The second pass stays within the room the first one reserved. If it fails, `next` is
      where reading stopped. */
  method ParseString(c: Data, o: nat) returns (r: Option<Data>, next: nat)
    requires o < |c|
    ensures match Literal(c, o) case None => r == None case Some((s, n)) => r == Some(s) && next == n
    ensures o < next <= |c|
  {
    r, next := None, o + 1;
    if c[o] != QUOTE {
      return;
    }
    var closing, skippedBytes := FindEnd(c, o);
    if closing.None? {
      return;
    }
    var end := closing.value;
    var allocationLength := end - o - skippedBytes;
    var output := new Byte[allocationLength + 1];
    var n, ok, at := UnescapeInto(c, o + 1, end, output);
    if ok {
      output[n] := 0;
      r, next := Some(output[..n]), end + 1;
    } else {
      next := at;
    }
  }

  method UnescapeInto(c: Data, start: nat, end: nat, output: array<Byte>) returns (n: nat, ok: bool, at: nat)
    requires start <= end < |c| && ClosingQuote(c, start) == Some(end)
    requires output.Length == Room(c, start, end) + 2
    modifies output
    ensures n < output.Length && start <= at && (!ok ==> at < end)
    ensures Unescape(c, start, end) == if ok then Some(output[..n]) else None
  {
    hide Unescape, Then, Room, ClosingQuote, CodePoint, Unicode.Encode;
    n, ok, at := 0, true, start;
    var i := start;
    ThenNothing(Unescape(c, start, end));
    RoomZero(c, start);
    while i < end
      invariant start <= i <= end + 1
      invariant n <= Room(c, start, if i <= end then i else end)
      invariant n < output.Length
      invariant Then(output[..n], Unescape(c, i, end)) == Unescape(c, start, end)
      decreases end + 1 - i
    {
      UnescapeStep(c, i, end);
      RoomForEscape(c, start, i, end);
      ghost var was := output[..n];
      if c[i] != BACKSLASH {
        output[n] := c[i];
        n, i := n + 1, i + 1;
        ThenThen(was, [c[i - 1]], Unescape(c, i, end));
        assert output[..n] == was + [c[i - 1]];
      } else {
        var e := c[i + 1];
        if ShortEscape(e).Some? {
          output[n] := ShortEscape(e).value;
          n, i := n + 1, i + 2;
          ThenThen(was, [ShortEscape(e).value], Unescape(c, i, end));
          assert output[..n] == was + [ShortEscape(e).value];
        } else if e == LETTER_U {
          CodePointLength(c, i, end);
          var sequenceLength, n' := Utf16LiteralToUtf8(c, i, end, output, n);
          if sequenceLength == 0 {
            return n, false, i;
          }
          ghost var cp := CodePoint(c, i, end).value.0;
          i := i + sequenceLength;
          ThenThen(was, Unicode.Encode(cp), Unescape(c, i, end));
          assert output[..n'] == output[..n] + output[n..n'];
          n := n';
        } else {
          return n, false, i;
        }
      }
    }
    UnescapeDone(c, i, end, output[..n]);
  }

  lemma UnescapeDone(c: Data, i: nat, end: nat, d: Data)
    requires end <= i && end < |c|
    ensures Then(d, Unescape(c, i, end)) == Some(d)
  {
    assert d + [] == d;
  }

  lemma CodePointLength(c: Data, i: nat, end: nat)
    requires i <= end <= |c|
    ensures match CodePoint(c, i, end)
      case None => true
      case Some((cp, len)) => (len == 6 && |Unicode.Encode(cp)| <= 3) || (len == 12 && |Unicode.Encode(cp)| <= 4)
  {
  }

  lemma ThenNothing(r: Option<Data>)
    ensures Then([], r) == r && forall d :: Then(d, None) == None
  {
    if r.Some? {
      assert [] + r.value == r.value;
    }
  }

  lemma RoomZero(c: Data, i: nat)
    requires i <= |c|
    ensures Room(c, i, i) == 0
  {
  }

  // ---- the printer ----

  /** First pass: how many more bytes the text takes than the string. */
  method CountEscapes(input: Data) returns (escapeCharacters: nat)
    ensures |input| + escapeCharacters == |EscapeAll(input)|
    ensures escapeCharacters == 0 ==> EscapeAll(input) == input
  {
    escapeCharacters := 0;
    var i := 0;
    assert input[..0] == [];
    while i < |input|
      invariant 0 <= i <= |input|
      invariant i + escapeCharacters == |EscapeAll(input[..i])|
      invariant escapeCharacters == 0 ==> EscapeAll(input[..i]) == input[..i]
    {
      var b := input[i];
      assert input[..i + 1] == input[..i] + [b];
      EscapeAppend(input[..i], b);
      if b == QUOTE || b == BACKSLASH || b == 8 || b == 12 || b == 10 || b == 13 || b == 9 {
        escapeCharacters := escapeCharacters + 1;
      } else if b < 32 {
        escapeCharacters := escapeCharacters + 5;
      }
      i := i + 1;
    }
    assert input[..|input|] == input;
  }

  /** Second pass, at `start`: exactly the room the first pass counted, and a terminating zero. */
  method QuoteInto(input: Data, escapeCharacters: nat, output: array<Byte>, start: nat)
    requires |input| + escapeCharacters == |EscapeAll(input)|
    requires escapeCharacters == 0 ==> EscapeAll(input) == input
    requires start + |Quoted(input)| < output.Length
    modifies output
    ensures output[..start] == old(output[..start])
    ensures output[start..start + |Quoted(input)|] == Quoted(input) && output[start + |Quoted(input)|] == 0
  {
    hide EscapeAll;
    var outputLength := |input| + escapeCharacters;
    output[start] := QUOTE;
    if escapeCharacters == 0 {
      forall i | 0 <= i < |input| {
        output[start + 1 + i] := input[i];
      }
      assert output[start + 1..start + 1 + |input|] == input;
    } else {
      EscapeInto(input, output, start);
    }
    assert output[start + 1..start + 1 + outputLength] == EscapeAll(input);
    output[start + outputLength + 1] := QUOTE;
    output[start + outputLength + 2] := 0;
    assert output[start + 1..start + 1 + outputLength] == EscapeAll(input);
    ghost var text := output[start..start + outputLength + 2];
    assert text[1..|text| - 1] == output[start + 1..start + 1 + outputLength];
    InQuotes(text);
  }

  lemma InQuotes(d: Data)
    requires |d| >= 2 && d[0] == QUOTE && d[|d| - 1] == QUOTE
    ensures d == [QUOTE] + d[1..|d| - 1] + [QUOTE]
  {
  }

  /** Never past what was counted, and exactly up to it. */
  method EscapeInto(input: Data, output: array<Byte>, start: nat)
    requires start + 1 + |EscapeAll(input)| <= output.Length
    modifies output
    ensures output[..start + 1] == old(output[..start + 1])
    ensures output[start + 1..start + 1 + |EscapeAll(input)|] == EscapeAll(input)
  {
    hide EscapeAll, Escape;
    var pos, i := start + 1, 0;
    EscapeNothing();
    assert input[..0] == [];
    while i < |input|
      invariant 0 <= i <= |input|
      invariant pos == start + 1 + |EscapeAll(input[..i])| && pos <= output.Length
      invariant output[..start + 1] == old(output[..start + 1]) && output[start + 1..pos] == EscapeAll(input[..i])
    {
      var b := input[i];
      assert input[..i + 1] == input[..i] + [b];
      EscapeAppend(input[..i], b);
      EscapeLength(input, i + 1);
      var pos' := EscapeOne(b, output, pos);
      assert output[start + 1..pos'] == output[..pos][start + 1..] + output[pos..pos'];
      assert output[..start + 1] == output[..pos][..start + 1];
      pos := pos';
      i := i + 1;
    }
    assert input[..|input|] == input;
  }

  method EscapeOne(b: Byte, output: array<Byte>, pos: nat) returns (pos': nat)
    requires pos + |Escape(b)| <= output.Length
    modifies output
    ensures pos' == pos + |Escape(b)| && output[pos..pos'] == Escape(b)
    ensures output[..pos] == old(output[..pos])
  {
    pos' := pos;
    if b > 31 && b != QUOTE && b != BACKSLASH {
      output[pos'] := b;
    } else {
      output[pos'] := BACKSLASH;
      pos' := pos' + 1;
      if b == BACKSLASH {
        output[pos'] := BACKSLASH;
      } else if b == QUOTE {
        output[pos'] := QUOTE;
      } else if b == 8 {
        output[pos'] := LETTER_B;
      } else if b == 12 {
        output[pos'] := LETTER_F;
      } else if b == 10 {
        output[pos'] := LETTER_N;
      } else if b == 13 {
        output[pos'] := LETTER_R;
      } else if b == 9 {
        output[pos'] := LETTER_T;
      } else {
        EscapeControl(b, output, pos');
        pos' := pos' + 4;
      }
    }
    pos' := pos' + 1;
    assert |output[pos..pos']| == |Escape(b)|;
    assert forall k :: 0 <= k < |Escape(b)| ==> output[pos..pos'][k] == Escape(b)[k];
  }

  /** `u%04x` */
  method EscapeControl(b: Byte, output: array<Byte>, pos: nat)
    requires b < 32 && pos + 5 <= output.Length
    modifies output
    ensures forall k :: 0 <= k < output.Length && !(pos <= k < pos + 5) ==> output[k] == old(output[k])
    ensures output[pos] == LETTER_U && output[pos + 1] == output[pos + 2] == 48
    ensures output[pos + 3] == HexLetter(b / 16) && output[pos + 4] == HexLetter(b % 16)
  {
    output[pos] := LETTER_U;
    output[pos + 1] := 48;
    output[pos + 2] := 48;
    output[pos + 3] := HexLetter(b / 16);
    output[pos + 4] := HexLetter(b % 16);
  }

  lemma EscapeNothing()
    ensures EscapeAll([]) == []
  {
  }

  lemma {:induction false} EscapeLength(s: Data, i: nat)
    requires i <= |s|
    ensures |EscapeAll(s[..i])| <= |EscapeAll(s)|
    decreases |s| - i
  {
    if i == |s| {
      assert s[..i] == s;
    } else {
      assert s[..i + 1] == s[..i] + [s[i]];
      EscapeAppend(s[..i], s[i]);
      EscapeLength(s, i + 1);
    }
  }
}
