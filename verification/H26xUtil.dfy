/** The start-code stripper of src/h26x_util.c. */
module H26xUtil {
  import opened Bytes

  predicate LongCode(d: Data) { |d| >= 4 && d[0] == 0 && d[1] == 0 && d[2] == 0 && d[3] == 1 }

  predicate ShortCode(d: Data) { |d| >= 3 && d[0] == 0 && d[1] == 0 && d[2] == 1 }

  function StripLong(d: Data): (r: Data)
    ensures |r| <= |d| && !LongCode(r) && (!LongCode(d) ==> r == d)
  {
    if LongCode(d) then StripLong(d[4..]) else d
  }

  function StripShort(d: Data): (r: Data)
    ensures |r| <= |d| && !ShortCode(r) && (!ShortCode(d) ==> r == d)
  {
    if ShortCode(d) then StripShort(d[3..]) else d
  }

  /** What follows the start codes; it does not begin with a three-byte start code. */
  function StripStartCode(d: Data): (r: Data)
    ensures |r| <= |d| && !ShortCode(r)
    ensures !ShortCode(d) && !LongCode(d) ==> r == d
  {
    StripShort(StripLong(d))
  }

  const LONG: Data := [0, 0, 0, 1]
  const SHORT: Data := [0, 0, 1]

  /** A start code, `n` times. */
  function Codes(code: Data, n: nat): Data
  {
    if n == 0 then [] else code + Codes(code, n - 1)
  }

  /** `r` is `d` without the four-byte start codes it begins with, and then without three-byte ones; all of them. */
  ghost predicate Stripped(d: Data, r: Data, m: nat, n: nat)
  {
    d == Codes(LONG, m) + (Codes(SHORT, n) + r) && !LongCode(Codes(SHORT, n) + r) && !ShortCode(r)
  }

  /** The result is what is left of the data behind start codes, and nothing else is. */
  lemma OnlyStartCodes(d: Data, r: Data)
    ensures StripStartCode(d) == r <==> exists m: nat, n: nat :: Stripped(d, r, m, n)
  {
    if StripStartCode(d) == r {
      var m := LongCodes(d);
      var n := ShortCodes(StripLong(d));
      assert Stripped(d, r, m, n);
    }
    forall m: nat, n: nat | Stripped(d, r, m, n) ensures StripStartCode(d) == r {
      StripLongOf(m, Codes(SHORT, n) + r);
      StripShortOf(n, r);
    }
  }

  lemma {:induction false} LongCodes(d: Data) returns (m: nat)
    ensures d == Codes(LONG, m) + StripLong(d)
  {
    if LongCode(d) {
      m := LongCodes(d[4..]);
      assert d == LONG + d[4..];
      AppendAssoc(LONG, Codes(LONG, m), StripLong(d));
      m := m + 1;
    } else {
      m := 0;
    }
  }

  lemma {:induction false} ShortCodes(d: Data) returns (n: nat)
    ensures d == Codes(SHORT, n) + StripShort(d)
  {
    if ShortCode(d) {
      n := ShortCodes(d[3..]);
      assert d == SHORT + d[3..];
      AppendAssoc(SHORT, Codes(SHORT, n), StripShort(d));
      n := n + 1;
    } else {
      n := 0;
    }
  }

  lemma {:induction false} StripLongOf(m: nat, r: Data)
    requires !LongCode(r)
    ensures StripLong(Codes(LONG, m) + r) == r
  {
    if m == 0 {
      assert Codes(LONG, m) + r == r;
    } else {
      AppendAssoc(LONG, Codes(LONG, m - 1), r);
      AppendTail(LONG, Codes(LONG, m - 1) + r);
      StripLongOf(m - 1, r);
    }
  }

  lemma {:induction false} StripShortOf(n: nat, r: Data)
    requires !ShortCode(r)
    ensures StripShort(Codes(SHORT, n) + r) == r
  {
    if n == 0 {
      assert Codes(SHORT, n) + r == r;
    } else {
      AppendAssoc(SHORT, Codes(SHORT, n - 1), r);
      AppendTail(SHORT, Codes(SHORT, n - 1) + r);
      StripShortOf(n - 1, r);
    }
  }

  method StripStartCodes(data: Data) returns (r: Data)
    ensures r == StripStartCode(data)
  {
    r := data;
    while |r| >= 4 && r[0] == 0 && r[1] == 0 && r[2] == 0 && r[3] == 1
      invariant StripLong(r) == StripLong(data)
    {
      r := r[4..];
    }
    while |r| >= 3 && r[0] == 0 && r[1] == 0 && r[2] == 1
      invariant StripShort(r) == StripStartCode(data)
    {
      r := r[3..];
    }
  }
}
