/** UTF-8 (section 3 of RFC 3629) and UTF-16 surrogate pairs (section 2 of RFC 2781). */
module Unicode {
  import opened Bytes

  predicate Surrogate(cp: int) { 0xD800 <= cp <= 0xDFFF }

  predicate Scalar(cp: int) { 0 <= cp <= 0x10FFFF && !Surrogate(cp) }

  /** The bytes of a code point, most significant first, six bits in every byte but the first. */
  function Encode(cp: int): (b: Data)
    requires 0 <= cp <= 0x10FFFF
    ensures 1 <= |b| <= 4
  {
    if cp < 0x80 then [cp]
    else if cp < 0x800 then [0xC0 + cp / 0x40, 0x80 + cp % 0x40]
    else if cp < 0x1_0000 then [0xE0 + cp / 0x1000, 0x80 + cp / 0x40 % 0x40, 0x80 + cp % 0x40]
    else [0xF0 + cp / 0x4_0000, 0x80 + cp / 0x1000 % 0x40, 0x80 + cp / 0x40 % 0x40, 0x80 + cp % 0x40]
  }

  predicate Continuation(b: Byte) { 0x80 <= b < 0xC0 }

  /** A decoder that accepts exactly one well-formed UTF-8 sequence: no overlong form, no surrogate. */
  function Decode(b: Data): Option<int>
  {
    if |b| == 1 && b[0] < 0x80 then Some(b[0])
    else if |b| == 2 && 0xC0 <= b[0] < 0xE0 && Continuation(b[1]) then
      var cp := (b[0] as int - 0xC0) * 0x40 + (b[1] as int - 0x80);
      if cp < 0x80 then None else Some(cp)
    else if |b| == 3 && 0xE0 <= b[0] < 0xF0 && Continuation(b[1]) && Continuation(b[2]) then
      var cp := (b[0] as int - 0xE0) * 0x1000 + (b[1] as int - 0x80) * 0x40 + (b[2] as int - 0x80);
      if cp < 0x800 || Surrogate(cp) then None else Some(cp)
    else if |b| == 4 && 0xF0 <= b[0] < 0xF8 && Continuation(b[1]) && Continuation(b[2]) && Continuation(b[3]) then
      var cp := (b[0] as int - 0xF0) * 0x4_0000 + (b[1] as int - 0x80) * 0x1000 + (b[2] as int - 0x80) * 0x40
                + (b[3] as int - 0x80);
      if cp < 0x1_0000 || cp > 0x10FFFF then None else Some(cp)
    else None
  }

  lemma Digits(cp: int)
    requires 0 <= cp
    ensures cp / 0x40 * 0x40 + cp % 0x40 == cp
    ensures cp / 0x1000 * 0x40 + cp / 0x40 % 0x40 == cp / 0x40
    ensures cp / 0x4_0000 * 0x40 + cp / 0x1000 % 0x40 == cp / 0x1000
  {
  }

  lemma DigitsOf(a: int, x: int, y: int, z: int)
    requires 0 <= a && 0 <= x < 0x40 && 0 <= y < 0x40 && 0 <= z < 0x40
    ensures var cp := a * 0x4_0000 + x * 0x1000 + y * 0x40 + z;
      cp % 0x40 == z && cp / 0x40 % 0x40 == y && cp / 0x1000 % 0x40 == x && cp / 0x4_0000 == a
  {
    var cp := a * 0x4_0000 + x * 0x1000 + y * 0x40 + z;
    assert cp / 0x40 == a * 0x1000 + x * 0x40 + y;
    assert cp / 0x1000 == a * 0x40 + x;
  }

  /** Decoding undoes encoding. */
  lemma DecodeEncode(cp: int)
    requires Scalar(cp)
    ensures Decode(Encode(cp)) == Some(cp)
  {
    Digits(cp);
  }

  /** The encoding is the only sequence that decodes to a code point; so it is the shortest. */
  lemma EncodeDecode(b: Data)
    requires Decode(b).Some?
    ensures Scalar(Decode(b).value) && Encode(Decode(b).value) == b
  {
    if |b| == 2 {
      DigitsOf(0, 0, b[0] as int - 0xC0, b[1] as int - 0x80);
    } else if |b| == 3 {
      DigitsOf(0, b[0] as int - 0xE0, b[1] as int - 0x80, b[2] as int - 0x80);
    } else if |b| == 4 {
      DigitsOf(b[0] as int - 0xF0, b[1] as int - 0x80, b[2] as int - 0x80, b[3] as int - 0x80);
    }
  }

  /** The examples of section 7 of RFC 3629. */
  lemma Examples()
    ensures Encode(0x41) == [0x41] && Encode(0x391) == [0xCE, 0x91]
    ensures Encode(0x2262) == [0xE2, 0x89, 0xA2] && Encode(0xD55C) == [0xED, 0x95, 0x9C]
    ensures Encode(0x2_33B4) == [0xF0, 0xA3, 0x8E, 0xB4]
  {
  }

  /** A surrogate pair, as section 2.1 of RFC 2781 makes it. */
  function HighSurrogate(cp: int): int
    requires 0x1_0000 <= cp <= 0x10FFFF
  {
    0xD800 + (cp - 0x1_0000) / 0x400
  }

  function LowSurrogate(cp: int): int
    requires 0x1_0000 <= cp <= 0x10FFFF
  {
    0xDC00 + (cp - 0x1_0000) % 0x400
  }
}
