/** Bytes, big-endian fields and subsequences: the vocabulary shared by the other modules. */
module Bytes {

  type Byte = x: int | 0 <= x < 0x100
  type Uint16 = x: int | 0 <= x < 0x1_0000
  type Uint32 = x: int | 0 <= x < 0x1_0000_0000
  type Data = seq<Byte>

  datatype Option<+T> = None | Some(value: T)

  /** `x++` on a `uint16_t`. */
  function Succ16(x: Uint16): Uint16 { if x == 0xFFFF then 0 else x + 1 }

  function Wrap32(n: int): Uint32 { n % 0x1_0000_0000 }

  function Wrap16(n: int): Uint16 { n % 0x1_0000 }

  lemma Wrap32Add(a: int, b: int)
    ensures Wrap32(Wrap32(a) + b) == Wrap32(a + b)
  {
  }

  function Be16(hi: Byte, lo: Byte): Uint16 { hi * 256 + lo }

  function Be32(b0: Byte, b1: Byte, b2: Byte, b3: Byte): Uint32
  {
    ((b0 * 256 + b1) * 256 + b2) * 256 + b3
  }

  /** The four bytes of a 32-bit number, most significant first. */
  function ToBe32(n: Uint32): (b: Data)
    ensures |b| == 4 && Be32(b[0], b[1], b[2], b[3]) == n
  {
    Be32Split(n);
    [n / 0x100_0000, n / 0x1_0000 % 0x100, n / 0x100 % 0x100, n % 0x100]
  }

  lemma Be32Split(n: Uint32)
    ensures n / 0x100_0000 < 0x100
    ensures ((n / 0x100_0000 * 256 + n / 0x1_0000 % 0x100) * 256 + n / 0x100 % 0x100) * 256 + n % 0x100 == n
  {
    var a := n / 0x100;
    var b := a / 0x100;
    var c := b / 0x100;
    assert b == n / 0x1_0000 && c == n / 0x100_0000;
    assert n == a * 256 + n % 0x100 && a == b * 256 + a % 0x100 && b == c * 256 + b % 0x100;
  }

  /** The total number of bytes in a list of byte strings. */
  function SumLen(ds: seq<Data>): nat
  {
    if ds == [] then 0 else SumLen(ds[..|ds| - 1]) + |ds[|ds| - 1]|
  }

  /** The byte strings of a list, one after the other. */
  function Concat(ds: seq<Data>): Data
  {
    if ds == [] then [] else Concat(ds[..|ds| - 1]) + ds[|ds| - 1]
  }

  lemma SumLenAppend(ds: seq<Data>, d: Data)
    ensures SumLen(ds + [d]) == SumLen(ds) + |d|
  {
    assert (ds + [d])[..|ds|] == ds;
  }

  lemma {:induction false} SumLenConcat(a: seq<Data>, b: seq<Data>)
    ensures SumLen(a + b) == SumLen(a) + SumLen(b)
  {
    if b == [] {
      assert a + b == a;
    } else {
      var b' := b[..|b| - 1];
      assert (a + b)[..|a + b| - 1] == a + b';
      SumLenConcat(a, b');
    }
  }

  lemma AppendAssoc<T>(a: seq<T>, b: seq<T>, c: seq<T>)
    ensures (a + b) + c == a + (b + c)
  {
  }

  lemma AppendTail<T>(a: seq<T>, b: seq<T>)
    ensures (a + b)[|a|..] == b
  {
  }

  /** `a` is obtained from `b` by dropping elements and keeping the order of the rest. */
  ghost predicate Subsequence<T>(a: seq<T>, b: seq<T>)
  {
    || a == []
    || (b != [] && a[|a| - 1] == b[|b| - 1] && Subsequence(a[..|a| - 1], b[..|b| - 1]))
    || (b != [] && Subsequence(a, b[..|b| - 1]))
  }

  lemma {:induction false} SubsequenceSkip<T>(a: seq<T>, b: seq<T>, c: seq<T>)
    requires Subsequence(a, b)
    ensures Subsequence(a, b + c)
  {
    if c == [] {
      assert b + c == b;
    } else {
      SubsequenceSkip(a, b, c[..|c| - 1]);
      assert (b + c)[..|b + c| - 1] == b + c[..|c| - 1];
    }
  }

  lemma {:induction false} SubsequenceKeep<T>(a: seq<T>, b: seq<T>, c: seq<T>)
    requires Subsequence(a, b)
    ensures Subsequence(a + c, b + c)
  {
    if c == [] {
      assert b + c == b && a + c == a;
    } else {
      SubsequenceKeep(a, b, c[..|c| - 1]);
      assert (b + c)[..|b + c| - 1] == b + c[..|c| - 1];
      assert (a + c)[..|a + c| - 1] == a + c[..|c| - 1];
    }
  }

  lemma {:induction false} SubsequenceConcat<T>(a: seq<T>, b: seq<T>, c: seq<T>, d: seq<T>)
    requires Subsequence(a, b) && Subsequence(c, d)
    ensures Subsequence(a + c, b + d)
  {
    if c == [] {
      assert a + c == a;
      SubsequenceSkip(a, b, d);
    } else {
      var d' := d[..|d| - 1];
      assert (b + d)[..|b + d| - 1] == b + d';
      if c[|c| - 1] == d[|d| - 1] && Subsequence(c[..|c| - 1], d') {
        SubsequenceConcat(a, b, c[..|c| - 1], d');
        assert (a + c)[..|a + c| - 1] == a + c[..|c| - 1];
      } else {
        SubsequenceConcat(a, b, c, d');
      }
    }
  }
}
