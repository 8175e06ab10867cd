/** The cache of VPS, SPS and PPS of src/h26x_param_sets.c. */
module ParamSets {
  import opened Bytes

  datatype Codec = H264 | H265

  const VPS_CAPACITY := 256
  const SPS_CAPACITY := 512
  const PPS_CAPACITY := 512

  /** The parameter sets currently stored; an empty one has never been stored. */
  datatype Sets = Sets(vps: Data, sps: Data, pps: Data)

  /** A NAL unit and the type the encoder reports for it. */
  datatype Unit = Unit(nal: Data, nalType: Byte)

  predicate Fits(nal: Data, capacity: nat) { 0 < |nal| < capacity }

  function UpdateSets(sets: Sets, codec: Codec, u: Unit): Sets
  {
    match codec
    case H265 =>
      if u.nalType == 32 && Fits(u.nal, VPS_CAPACITY) then sets.(vps := u.nal)
      else if u.nalType == 33 && Fits(u.nal, SPS_CAPACITY) then sets.(sps := u.nal)
      else if u.nalType == 34 && Fits(u.nal, PPS_CAPACITY) then sets.(pps := u.nal)
      else sets
    case H264 =>
      if u.nalType == 7 && Fits(u.nal, SPS_CAPACITY) then sets.(sps := u.nal)
      else if u.nalType == 8 && Fits(u.nal, PPS_CAPACITY) then sets.(pps := u.nal)
      else sets
  }

  function Present(d: Data): (r: seq<Data>) { if d == [] then [] else [d] }

  function Prepend(sets: Sets, codec: Codec, nalType: Byte): seq<Data>
  {
    if codec == H265 && (nalType == 19 || nalType == 20) then
      Present(sets.vps) + Present(sets.sps) + Present(sets.pps)
    else if codec == H264 && nalType == 5 then
      Present(sets.sps) + Present(sets.pps)
    else []
  }

  /** The cache after the units `h`, in order, on top of `sets`. */
  function After(sets: Sets, codec: Codec, h: seq<Unit>): Sets
  {
    if h == [] then sets else UpdateSets(After(sets, codec, h[..|h| - 1]), codec, h[|h| - 1])
  }

  /** What goes out for one unit: the sets it needs, and the unit itself. */
  function Emit(sets: Sets, codec: Codec, u: Unit): seq<Data>
  {
    Prepend(sets, codec, u.nalType) + [u.nal]
  }

  /** What goes out for the units `h`. */
  function Expand(sets: Sets, codec: Codec, h: seq<Unit>): seq<Data>
  {
    if h == [] then []
    else
      Expand(sets, codec, h[..|h| - 1]) + Emit(After(sets, codec, h), codec, h[|h| - 1])
  }

  lemma AfterAppend(sets: Sets, codec: Codec, h: seq<Unit>, u: Unit)
    ensures After(sets, codec, h + [u]) == UpdateSets(After(sets, codec, h), codec, u)
    ensures Expand(sets, codec, h + [u])
         == Expand(sets, codec, h) + Emit(After(sets, codec, h + [u]), codec, u)
  {
    assert (h + [u])[..|h|] == h;
  }

  /** Running the cache over `a` and then over `b` is running it over both. */
  lemma {:induction false} AfterConcat(sets: Sets, codec: Codec, a: seq<Unit>, b: seq<Unit>)
    ensures After(sets, codec, a + b) == After(After(sets, codec, a), codec, b)
  {
    if b == [] {
      assert a + b == a;
    } else {
      hide UpdateSets;
      var b', u := b[..|b| - 1], b[|b| - 1];
      AfterConcat(sets, codec, a, b');
      assert (a + b)[..|a + b| - 1] == a + b';
    }
  }

  lemma {:induction false} ExpandConcat(sets: Sets, codec: Codec, a: seq<Unit>, b: seq<Unit>)
    ensures Expand(sets, codec, a + b) == Expand(sets, codec, a) + Expand(After(sets, codec, a), codec, b)
  {
    if b == [] {
      assert a + b == a;
    } else {
      hide UpdateSets, Emit, After, Expand;
      var b', u, sets' := b[..|b| - 1], b[|b| - 1], After(sets, codec, a);
      var ab := a + b';
      assert ab + [u] == a + b && b' + [u] == b;
      ExpandConcat(sets, codec, a, b');
      AfterConcat(sets, codec, a, b);
      AfterAppend(sets, codec, ab, u);
      AfterAppend(sets', codec, b', u);
      var e, f, out := Expand(sets, codec, a), Expand(sets', codec, b'), Emit(After(sets, codec, a + b), codec, u);
      calc {
        Expand(sets, codec, a + b);
        (e + f) + out;
        { AppendAssoc(e, f, out); }
        e + (f + out);
        e + Expand(sets', codec, b);
      }
    }
  }

  /** `stored` is the most recent unit of type `nalType` in `h` that is shorter than `capacity`, or empty if there is
      none. */
  ghost predicate Latest(h: seq<Unit>, nalType: Byte, capacity: nat, stored: Data)
  {
    || (stored == [] && forall j :: 0 <= j < |h| ==> !(h[j].nalType == nalType && 0 < |h[j].nal| < capacity))
    || exists i :: 0 <= i < |h| && h[i] == Unit(stored, nalType) && 0 < |stored| < capacity
         && forall j :: i < j < |h| ==> !(h[j].nalType == nalType && 0 < |h[j].nal| < capacity)
  }

  lemma LatestStep(h: seq<Unit>, u: Unit, nalType: Byte, capacity: nat, stored: Data)
    requires Latest(h, nalType, capacity, stored)
    ensures Latest(h + [u], nalType, capacity,
                   if u.nalType == nalType && Fits(u.nal, capacity) then u.nal else stored)
  {
    if u.nalType == nalType && Fits(u.nal, capacity) {
      assert (h + [u])[|h|] == Unit(u.nal, nalType);
    } else if i :| 0 <= i < |h| && h[i] == Unit(stored, nalType) && 0 < |stored| < capacity
                   && forall j :: i < j < |h| ==> !(h[j].nalType == nalType && 0 < |h[j].nal| < capacity) {
      assert (h + [u])[i] == Unit(stored, nalType);
    }
  }

  const EMPTY := Sets([], [], [])

  /** `sets` are the most recent VPS, SPS and PPS of `h` that fit, which H.265 numbers 32 to 34; H.264 has an SPS and a
      PPS, numbered 7 and 8, and no VPS. */
  ghost predicate AllLatest(codec: Codec, h: seq<Unit>, sets: Sets)
  {
    match codec
    case H265 =>
      && Latest(h, 32, 256, sets.vps) && Latest(h, 33, 512, sets.sps) && Latest(h, 34, 512, sets.pps)
    case H264 =>
      sets.vps == [] && Latest(h, 7, 512, sets.sps) && Latest(h, 8, 512, sets.pps)
  }

  lemma AllLatestStep(codec: Codec, h: seq<Unit>, u: Unit, sets: Sets)
    requires AllLatest(codec, h, sets)
    ensures AllLatest(codec, h + [u], UpdateSets(sets, codec, u))
  {
    hide Latest, Fits;
    match codec
    case H265 =>
      LatestStep(h, u, 32, VPS_CAPACITY, sets.vps);
      LatestStep(h, u, 33, SPS_CAPACITY, sets.sps);
      LatestStep(h, u, 34, PPS_CAPACITY, sets.pps);
    case H264 =>
      LatestStep(h, u, 7, SPS_CAPACITY, sets.sps);
      LatestStep(h, u, 8, PPS_CAPACITY, sets.pps);
  }

  /** Starting empty, the cache always holds the most recent parameter sets that fit. */
  lemma {:induction false} CacheHoldsLatest(codec: Codec, h: seq<Unit>)
    ensures AllLatest(codec, h, After(EMPTY, codec, h))
  {
    hide UpdateSets;
    if h != [] {
      hide AllLatest;
      var h', u := h[..|h| - 1], h[|h| - 1];
      CacheHoldsLatest(codec, h');
      AllLatestStep(codec, h', u, After(EMPTY, codec, h'));
      assert h' + [u] == h;
    }
  }

  /** What is to stand in front of a unit: an IDR unit, which is of type 19 or 20 in H.265 and 5 in H.264, needs its
      parameter sets. */
  function Front(codec: Codec, nalType: Byte, sets: Sets): seq<Data>
  {
    if codec == H265 && (nalType == 19 || nalType == 20) then
      Present(sets.vps) + Present(sets.sps) + Present(sets.pps)
    else if codec == H264 && nalType == 5 then Present(sets.sps) + Present(sets.pps)
    else []
  }

  /** In `out`, unit `i` of the run stands right behind the most recent parameter sets, in their order, if it is an IDR
      unit; if not, nothing is put in front of it. */
  ghost predicate InPlace(codec: Codec, h: seq<Unit>, i: nat, out: seq<Data>)
    requires i < |h|
  {
    var sets, start := After(EMPTY, codec, h[..i + 1]), |Expand(EMPTY, codec, h[..i])|;
    var front := Front(codec, h[i].nalType, sets);
    && AllLatest(codec, h[..i + 1], sets)
    && start + |front| < |out| && out[start..start + |front|] == front && out[start + |front|] == h[i].nal
  }

  /** Over every run of units each of them is in place. */
  lemma {:induction false} SetsPrecedeIdr(codec: Codec, h: seq<Unit>, i: nat)
    requires i < |h|
    ensures InPlace(codec, h, i, Expand(EMPTY, codec, h))
  {
    hide UpdateSets, AllLatest, After, Expand, Prepend, Front;
    var upTo, rest := h[..i + 1], h[i + 1..];
    CacheHoldsLatest(codec, upTo);
    var sets := After(EMPTY, codec, upTo);
    var e0, before := Expand(EMPTY, codec, h[..i]), Prepend(sets, codec, h[i].nalType);
    assert upTo[..i] == h[..i] && upTo[i] == h[i];
    ExpandLast(EMPTY, codec, upTo);
    assert upTo + rest == h;
    ExpandConcat(EMPTY, codec, upTo, rest);
    Slice(e0, before, h[i].nal, Expand(sets, codec, rest));
    PrependIs(codec, sets, h[i].nalType);
  }

  lemma ExpandLast(sets: Sets, codec: Codec, h: seq<Unit>)
    requires h != []
    ensures Expand(sets, codec, h)
         == Expand(sets, codec, h[..|h| - 1])
            + (Prepend(After(sets, codec, h), codec, h[|h| - 1].nalType) + [h[|h| - 1].nal])
  {
    hide Prepend, After;
  }

  lemma PrependIs(codec: Codec, sets: Sets, nalType: Byte)
    ensures Prepend(sets, codec, nalType) == Front(codec, nalType, sets)
  {
  }

  lemma Slice<T>(a: seq<T>, b: seq<T>, x: T, c: seq<T>)
    ensures var whole := a + (b + [x]) + c; whole[|a| + |b|] == x && whole[|a|..|a| + |b|] == b
  {
  }

  class ParamCache {
    const vps: array<Byte>
    const sps: array<Byte>
    const pps: array<Byte>
    var vpsLen: nat
    var spsLen: nat
    var ppsLen: nat

    ghost predicate Valid()
      reads this
    {
      && vps.Length == VPS_CAPACITY && sps.Length == SPS_CAPACITY && pps.Length == PPS_CAPACITY
      && vps != sps && vps != pps && sps != pps
      && vpsLen < VPS_CAPACITY && spsLen < SPS_CAPACITY && ppsLen < PPS_CAPACITY
    }

    ghost function Value(): Sets
      requires Valid()
      reads this, vps, sps, pps
    {
      Sets(vps[..vpsLen], sps[..spsLen], pps[..ppsLen])
    }

    constructor ()
      ensures Valid() && Value() == EMPTY
      ensures fresh(vps) && fresh(sps) && fresh(pps)
    {
      vps := new Byte[VPS_CAPACITY](_ => 0);
      sps := new Byte[SPS_CAPACITY](_ => 0);
      pps := new Byte[PPS_CAPACITY](_ => 0);
      vpsLen, spsLen, ppsLen := 0, 0, 0;
    }

    static method Store(dst: array<Byte>, dstLen: nat, src: Data) returns (len: nat)
      requires dstLen < dst.Length
      modifies dst
      ensures len < dst.Length
      ensures dst[..len] == if Fits(src, dst.Length) then src else old(dst[..dstLen])
    {
      if |src| == 0 || |src| >= dst.Length {
        return dstLen;
      }
      forall i | 0 <= i < |src| {
        dst[i] := src[i];
      }
      return |src|;
    }

    method Update(codec: Codec, nalType: Byte, nal: Data)
      requires Valid()
      modifies this, vps, sps, pps
      ensures Valid() && Value() == UpdateSets(old(Value()), codec, Unit(nal, nalType))
    {
      if nal == [] {
        return;
      }
      if codec == H265 {
        if nalType == 32 {
          vpsLen := Store(vps, vpsLen, nal);
        } else if nalType == 33 {
          spsLen := Store(sps, spsLen, nal);
        } else if nalType == 34 {
          ppsLen := Store(pps, ppsLen, nal);
        }
        return;
      }
      if nalType == 7 {
        spsLen := Store(sps, spsLen, nal);
      } else if nalType == 8 {
        ppsLen := Store(pps, ppsLen, nal);
      }
    }

    /** The caller's array has room for `maxRefs` references; the first ones that fit are returned. */
    method GetPrepend(codec: Codec, nalType: Byte, maxRefs: nat) returns (refs: seq<Data>)
      requires Valid()
      ensures var all := Prepend(Value(), codec, nalType);
        refs == if |all| <= maxRefs then all else all[..maxRefs]
    {
      refs := [];
      if maxRefs == 0 {
        return;
      }
      if codec == H265 && (nalType == 19 || nalType == 20) {
        if vpsLen != 0 && |refs| < maxRefs {
          refs := refs + [vps[..vpsLen]];
        }
        if spsLen != 0 && |refs| < maxRefs {
          refs := refs + [sps[..spsLen]];
        }
        if ppsLen != 0 && |refs| < maxRefs {
          refs := refs + [pps[..ppsLen]];
        }
        return;
      }
      if codec == H264 && nalType == 5 {
        if spsLen != 0 && |refs| < maxRefs {
          refs := refs + [sps[..spsLen]];
        }
        if ppsLen != 0 && |refs| < maxRefs {
          refs := refs + [pps[..ppsLen]];
        }
      }
    }
  }
}
