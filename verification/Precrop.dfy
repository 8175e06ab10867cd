/** The centred crop of src/pipeline_common.c that brings a sensor to the aspect ratio of an image. */
module Precrop {
  import opened Arith
  import opened Bytes

  datatype Rect = Rect(x: Uint16, y: Uint16, w: Uint16, h: Uint16)

  /** The length that has to the other side's length `side` the ratio `a` to `b`, in 32-bit arithmetic, as an even
      16-bit number. */
  function Scaled(side: Uint32, a: Uint32, b: Uint32): Uint16
    requires b > 0
  {
    Wrap16(Even(Wrap32(side * a) / b))
  }

  function Offset(total: Uint32, part: Uint16): Uint16 { Wrap16(Even(Wrap32(total - part) / 2)) }

  function ComputePrecrop(sensorW: Uint32, sensorH: Uint32, imageW: Uint32, imageH: Uint32): Rect
  {
    var sensorAr: nat, imageAr: nat := sensorW * imageH, imageW * sensorH;
    if sensorAr > imageAr then
      Positive(sensorW, imageH, imageAr);
      var w := Scaled(sensorH, imageW, imageH);
      Rect(Offset(sensorW, w), 0, w, Wrap16(sensorH))
    else if sensorAr < imageAr then
      Positive(imageW, sensorH, sensorAr);
      var h := Scaled(sensorW, imageH, imageW);
      Rect(0, Offset(sensorH, h), Wrap16(sensorW), h)
    else Rect(0, 0, Wrap16(sensorW), Wrap16(sensorH))
  }

  lemma Positive(a: nat, b: nat, c: int)
    requires a * b > c >= 0
    ensures a > 0 && b > 0
  {
  }

  /** The crop of one side: `part` of `total`, at `at`. */
  ghost predicate Centred(at: nat, part: nat, total: nat)
  {
    part % 2 == 0 && at % 2 == 0 && 2 * at + part <= total <= 2 * at + part + 3
  }

  /** The longest even length with at most the given ratio: two more would be too long. */
  ghost predicate Longest(part: nat, side: nat, a: nat, b: nat) { part * b <= side * a < (part + 2) * b }

  /** For any sensor whose sides fit the rectangle's 16 bits, the crop lies on the sensor. It cuts one side only, and
      only if the ratios differ; what it leaves of that side is even, at an even place and in the middle. It is less
      than two pixels short of the exact ratio just when the product that is scaled fits 32 bits or twice the divisor
      does not. */
  lemma PrecropFits(sensorW: Uint32, sensorH: Uint32, imageW: Uint32, imageH: Uint32)
    requires sensorW <= 0xFFFF && sensorH <= 0xFFFF
    ensures var r := ComputePrecrop(sensorW, sensorH, imageW, imageH);
      && r.x + r.w <= sensorW && r.y + r.h <= sensorH
      && (sensorW * imageH == imageW * sensorH ==> r == Rect(0, 0, sensorW, sensorH))
      && (sensorW * imageH > imageW * sensorH ==> r.y == 0 && r.h == sensorH && Centred(r.x, r.w, sensorW))
      && (sensorW * imageH < imageW * sensorH ==> r.x == 0 && r.w == sensorW && Centred(r.y, r.h, sensorH))
    ensures sensorW * imageH > imageW * sensorH ==>
      (sensorH * imageW < Max(WORD, 2 * imageH)
       <==> Longest(ComputePrecrop(sensorW, sensorH, imageW, imageH).w, sensorH, imageW, imageH))
    ensures sensorW * imageH < imageW * sensorH ==>
      (sensorW * imageH < Max(WORD, 2 * imageW)
       <==> Longest(ComputePrecrop(sensorW, sensorH, imageW, imageH).h, sensorW, imageH, imageW))
  {
    hide Scaled, Offset, Centred, Longest, Max;
    assert imageW * sensorH == sensorH * imageW;
    if sensorW * imageH > imageW * sensorH {
      Positive(sensorW, imageH, imageW * sensorH);
      OneSide(sensorW, sensorH, imageW, imageH);
    } else if sensorW * imageH < imageW * sensorH {
      Positive(imageW, sensorH, sensorW * imageH);
      OneSide(sensorH, sensorW, imageH, imageW);
    }
  }

  const WORD := 0x1_0000_0000

  /** Where the image's sides fit 16 bits as well, as they do once the image has been clamped to the sensor, the crop is
      always less than two pixels short. */
  lemma PrecropLongest(sensorW: Uint16, sensorH: Uint16, imageW: Uint16, imageH: Uint16)
    ensures var r := ComputePrecrop(sensorW, sensorH, imageW, imageH);
      && (sensorW * imageH > imageW * sensorH ==> Longest(r.w, sensorH, imageW, imageH))
      && (sensorW * imageH < imageW * sensorH ==> Longest(r.h, sensorW, imageH, imageW))
  {
    hide ComputePrecrop, Longest;
    SmallProduct(sensorH, imageW);
    SmallProduct(sensorW, imageH);
    PrecropFits(sensorW, sensorH, imageW, imageH);
  }

  lemma SmallProduct(a: Uint16, b: Uint16)
    ensures a * b < WORD
  {
    Times(a, 0xFFFF, b);
    Times(b, 0xFFFF, 0xFFFF);
    assert a * b <= 0xFFFF * b && b * 0xFFFF <= 0xFFFF * 0xFFFF;
  }

  lemma OneSide(total: Uint32, side: Uint32, a: Uint32, b: Uint32)
    requires b > 0 && total <= 0xFFFF && side * a < total * b
    ensures var part := Scaled(side, a, b);
      && Centred(Offset(total, part), part, total) && Offset(total, part) + part <= total
      && (Longest(part, side, a, b) <==> side * a < Max(WORD, 2 * b))
  {
    hide Scaled, Offset, Longest, Centred, Max;
    PartIs(total, side, a, b);
    OffsetIs(total, Scaled(side, a, b));
    LongestOf(total, side, a, b);
  }

  /** Whether or not the product wraps, the part is even and shorter than the whole. */
  lemma PartIs(total: Uint32, side: Uint32, a: Uint32, b: Uint32)
    requires b > 0 && total <= 0xFFFF && side * a < total * b
    ensures side * a >= 0 && Scaled(side, a, b) == Even(Wrap32(side * a) / b) < total
  {
    hide Scaled, Even, Wrap32, Wrap16;
    ScaledIs(side, a, b);
    Wrapped(side * a);
    QuotientBelow(Wrap32(side * a), b, total);
    Below(Wrap32(side * a) / b, total);
  }

  lemma LongestOf(total: Uint32, side: Uint32, a: Uint32, b: Uint32)
    requires b > 0 && total <= 0xFFFF && side * a < total * b
    ensures Longest(Scaled(side, a, b), side, a, b) <==> side * a < Max(WORD, 2 * b)
  {
    hide Scaled, Even, Wrap32, Longest, Max;
    PartIs(total, side, a, b);
    LongestIs(side, a, b, Wrap32(side * a) / b);
  }

  lemma LongestIs(side: nat, a: nat, b: nat, q: nat)
    requires b > 0 && side * a >= 0 && q == Wrap32(side * a) / b
    ensures Longest(Even(q), side, a, b) <==> side * a < Max(WORD, 2 * b)
  {
    hide Even, Wrap32, Max;
    QuotientBounds(side * a, b, q);
  }

  lemma ScaledIs(side: Uint32, a: Uint32, b: Uint32)
    requires b > 0
    ensures 0 <= side * a && Scaled(side, a, b) == Wrap16(Even(Wrap32(side * a) / b))
  {
    MulNonneg(side, a);
  }

  /** Wrapping subtracts nothing, or at least a word. */
  lemma Wrapped(n: nat)
    ensures Wrap32(n) <= n && (n < WORD ==> Wrap32(n) == n) && (n >= WORD ==> Wrap32(n) <= n - WORD)
  {
  }

  lemma Below(q: nat, total: nat)
    requires q < total <= 0xFFFF
    ensures Wrap16(Even(q)) == Even(q) < total
  {
  }

  lemma OffsetIs(total: Uint32, part: Uint16)
    requires part < total <= 0xFFFF && part % 2 == 0
    ensures Centred(Offset(total, part), part, total) && Offset(total, part) + part <= total
  {
    hide Wrap32, Wrap16;
    var half := (total - part) / 2;
    Wrapped(total - part);
    Below(half, 0xFFFF);
  }

  lemma QuotientBelow(n: nat, b: nat, total: nat)
    requires b > 0 && n < total * b
    ensures n / b < total
  {
    var q := n / b;
    assert q * b <= n;
    if q >= total {
      Times(total, q, b);
    }
  }

  /** The even number below a quotient of the wrapped product, between two multiples of the divisor. */
  lemma QuotientBounds(n: nat, b: nat, q: nat)
    requires b > 0 && q == Wrap32(n) / b
    ensures Even(q) * b <= n && (n < (Even(q) + 2) * b <==> n < Max(WORD, 2 * b))
  {
    hide Wrap32;
    var m, e := Wrap32(n), Even(q);
    Wrapped(n);
    Quotient(m, b, q);
    Times(e, q, b);
    Times(q + 1, e + 2, b);
    if n >= WORD {
      if 2 * b <= WORD {
        Times(e + 2, q + 2, b);
        assert (q + 2) * b == q * b + 2 * b;
      } else {
        SmallQuotient(m, b, q);
      }
    } else {
      if 2 * b > WORD {
        assert 2 * b > n;
      }
    }
  }

  lemma SmallQuotient(m: nat, b: nat, q: nat)
    requires b > 0 && m < WORD < 2 * b && q * b <= m
    ensures Even(q) == 0
  {
    if q >= 2 {
      Times(2, q, b);
    }
  }

  /** A product that does not fit, and an empty crop for it. */
  lemma ProductWraps()
    ensures var r := ComputePrecrop(0xFFFF, 0xFFFF, 65538, 65539);
      r.h == 0xFFFF && r.w == 0 && !Longest(r.w, 0xFFFF, 65538, 65539)
  {
    hide Even, Wrap16, Offset, ComputePrecrop;
    var n: int := 0xFFFF * 65538;
    assert n == WORD + 65534;
    assert Wrap32(n) == 65534 && 65534 / 65539 == 0;
    assert Scaled(0xFFFF, 65538, 65539) == Wrap16(Even(0));
    assert Wrap16(Even(0)) == 0 by {
      EvenZero();
    }
    Wider();
  }

  lemma EvenZero()
    ensures Wrap16(Even(0)) == 0
  {
  }

  lemma Wider()
    ensures ComputePrecrop(0xFFFF, 0xFFFF, 65538, 65539)
         == Rect(Offset(0xFFFF, Scaled(0xFFFF, 65538, 65539)), 0, Scaled(0xFFFF, 65538, 65539), 0xFFFF)
  {
    hide Scaled, Offset;
  }
}
