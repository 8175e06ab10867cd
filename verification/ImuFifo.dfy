/** The FIFO decoder of src/imu_bmi270.c: one pass counts the gyro frames, a second one pushes exactly as many samples,
    with timestamps spread backwards from now. */
module ImuFifo {
  import opened Arith
  import opened Bytes
  import opened Timespec

  const HDR_ACC := 0x84
  const HDR_GYR := 0x88
  const HDR_ACC_GYR := 0x8C
  const HDR_SENS_TIME := 0x44
  const HDR_SKIP := 0x40
  const HDR_INPUT_CFG := 0x48
  const FIFO_MAX_BYTES := 1024
  const FIFO_MIN_BYTES := 7

  datatype Vec = Vec(x: real, y: real, z: real)

  datatype ImuSample = ImuSample(ts: Timespec, gyro: Vec, accel: Vec)

  const NOWHERE := Vec(0.0, 0.0, 0.0)

  /** Six or twelve bytes of a frame: gyro, and perhaps acceleration. */
  datatype Frame = Gyro(data: Data) | Combined(data: Data)

  /** The length of the frame at `pos`, or 0 where decoding stops: at an unknown header or a frame cut short. */
  function FrameLength(buf: Data, pos: nat): (n: nat)
    requires pos < |buf|
    ensures n > 0 ==> pos + n <= |buf|
  {
    var hdr := buf[pos];
    var n := if hdr == HDR_ACC_GYR then 13 else if hdr == HDR_GYR || hdr == HDR_ACC then 7
             else if hdr == HDR_INPUT_CFG then 5 else if hdr == HDR_SENS_TIME then 4
             else if hdr == HDR_SKIP then 2 else 0;
    if pos + n <= |buf| then n else 0
  }

  /** The frames from `pos` on that bear gyro data, up to where decoding stops. */
  function GyroFrames(buf: Data, pos: nat): seq<Frame>
    requires pos <= |buf|
    decreases |buf| - pos
  {
    if pos == |buf| || FrameLength(buf, pos) == 0 then []
    else
      var next := pos + FrameLength(buf, pos);
      if buf[pos] == HDR_ACC_GYR then [Combined(buf[pos + 1..next])] + GyroFrames(buf, next)
      else if buf[pos] == HDR_GYR then [Gyro(buf[pos + 1..next])] + GyroFrames(buf, next)
      else GyroFrames(buf, next)
  }

  /** A little-endian 16-bit number in two's complement. */
  function Int16(lo: Byte, hi: Byte): (n: int)
    ensures -0x8000 <= n < 0x8000 && (n - (hi * 256 + lo)) % 0x1_0000 == 0
  {
    var u := hi * 256 + lo;
    if u < 0x8000 then u else u - 0x1_0000
  }

  datatype Config = Config(gyroScale: real, accelScale: real, bias: Vec, rotation: Option<(Vec, Vec, Vec)>)

  function Dot(a: Vec, b: Vec): real { a.x * b.x + a.y * b.y + a.z * b.z }

  function Rotate(c: Config, v: Vec): Vec
  {
    match c.rotation
    case None => v
    case Some((r0, r1, r2)) => Vec(Dot(r0, v), Dot(r1, v), Dot(r2, v))
  }

  function RawVec(d: Data): Vec
    requires |d| == 6
  {
    Vec(Int16(d[0], d[1]) as real, Int16(d[2], d[3]) as real, Int16(d[4], d[5]) as real)
  }

  function Scale(v: Vec, s: real): Vec { Vec(v.x * s, v.y * s, v.z * s) }

  function Minus(a: Vec, b: Vec): Vec { Vec(a.x - b.x, a.y - b.y, a.z - b.z) }

  function GyroOf(c: Config, d: Data): Vec
    requires |d| == 6
  {
    Rotate(c, Minus(Scale(RawVec(d), c.gyroScale), c.bias))
  }

  function AccelOf(c: Config, d: Data): Vec
    requires |d| == 6
  {
    Rotate(c, Scale(RawVec(d), c.accelScale))
  }

  /** Gyro first, and acceleration if the frame has it. */
  function Decode(c: Config, f: Frame, ts: Timespec): ImuSample
    requires FrameOk(f)
  {
    match f
    case Gyro(d) => ImuSample(ts, GyroOf(c, d), NOWHERE)
    case Combined(d) => ImuSample(ts, GyroOf(c, d[..6]), AccelOf(c, d[6..]))
  }

  predicate FrameOk(f: Frame) { |f.data| == match f case Gyro(_) => 6 case Combined(_) => 12 }

  lemma {:induction false} FramesOk(buf: Data, pos: nat)
    requires pos <= |buf|
    ensures forall f :: f in GyroFrames(buf, pos) ==> FrameOk(f)
    decreases |buf| - pos
  {
    if pos < |buf| && FrameLength(buf, pos) > 0 {
      FramesOk(buf, pos + FrameLength(buf, pos));
    }
  }

  // ---- timestamps ----

  /** The instant of sample `i` of `total`. */
  function InstantOf(now: Timespec, periodNs: nat, i: nat, total: nat): int
  {
    Nanos(now) - (total - 1 - i) * periodNs
  }

  /** Sample `i` of `total`, spread backwards from now: a whole number of periods, in normal form. */
  method InterpolateTs(now: Timespec, periodNs: nat, i: nat, total: nat) returns (ts: Timespec)
    requires Normal(now) && i < total
    ensures Normal(ts) && Nanos(ts) == InstantOf(now, periodNs, i, total)
  {
    var offsetNs := (total - 1 - i) * periodNs;
    MulNonneg(total - 1 - i, periodNs);
    ts := Timespec(now.sec - offsetNs / SECOND, now.nsec - offsetNs % SECOND);
    if ts.nsec < 0 {
      ts := Timespec(ts.sec - 1, ts.nsec + SECOND);
    }
  }

  /** The samples of the given frames: frame `i` decoded, at its place before now. */
  ghost predicate SamplesOf(ss: seq<ImuSample>, c: Config, frames: seq<Frame>, now: Timespec, periodNs: nat, total: nat)
  {
    && |ss| == |frames|
    && forall i :: 0 <= i < |ss| ==>
         && FrameOk(frames[i]) && ss[i] == Decode(c, frames[i], ss[i].ts)
         && Normal(ss[i].ts) && Nanos(ss[i].ts) == InstantOf(now, periodNs, i, total)
  }

  /** Where both passes agree on the number of frames, consecutive samples are exactly one period apart, so they
      ascend, and the last one was taken now. */
  lemma Spacing(ss: seq<ImuSample>, c: Config, frames: seq<Frame>, now: Timespec, periodNs: nat)
    requires SamplesOf(ss, c, frames, now, periodNs, |frames|) && Normal(now)
    ensures forall i :: 0 <= i < |ss| - 1 ==> Nanos(ss[i + 1].ts) - Nanos(ss[i].ts) == periodNs
    ensures ss != [] ==> ss[|ss| - 1].ts == now
  {
    forall i | 0 <= i < |ss| - 1 ensures Nanos(ss[i + 1].ts) - Nanos(ss[i].ts) == periodNs {
      assert (|ss| - 1 - i) * periodNs == (|ss| - 2 - i) * periodNs + periodNs;
    }
    if ss != [] {
      SameInstant(ss[|ss| - 1].ts, now);
    }
  }

  // ---- the two passes ----

  /** First pass. */
  method CountGyroFrames(buf: Data) returns (count: nat)
    requires |buf| <= 0xFFFF
    ensures count == |GyroFrames(buf, 0)|
  {
    count := 0;
    var pos: Uint16 := 0;
    while pos < |buf|
      invariant pos <= |buf| && count + |GyroFrames(buf, pos)| == |GyroFrames(buf, 0)|
      decreases |buf| - pos
    {
      var hdr := buf[pos];
      if hdr == HDR_ACC_GYR && pos as int + 13 <= |buf| {
        count := count + 1;
        pos := pos + 13;
      } else if hdr == HDR_GYR && pos as int + 7 <= |buf| {
        count := count + 1;
        pos := pos + 7;
      } else if hdr == HDR_ACC && pos as int + 7 <= |buf| {
        pos := pos + 7;
      } else if hdr == HDR_INPUT_CFG && pos as int + 5 <= |buf| {
        pos := pos + 5;
      } else if hdr == HDR_SENS_TIME && pos as int + 4 <= |buf| {
        pos := pos + 4;
      } else if hdr == HDR_SKIP && pos as int + 2 <= |buf| {
        pos := pos + 2;
      } else {
        break;
      }
    }
  }

  class ImuState {
    const config: Config
    const sampleRateHz: nat
    var pushed: seq<ImuSample>
    var samplesRead: nat
    var readErrors: nat
    var lastGyro: Vec

    constructor (config: Config, sampleRateHz: nat)
      ensures this.config == config && this.sampleRateHz == sampleRateHz
      ensures pushed == [] && samplesRead == 0 && readErrors == 0
    {
      this.config, this.sampleRateHz := config, sampleRateHz;
      pushed, samplesRead, readErrors, lastGyro := [], 0, 0, NOWHERE;
    }

    method ParseFifoCombined(data: Data, ts: Timespec) returns (sample: ImuSample)
      requires |data| == 12
      ensures sample == Decode(config, Combined(data), ts) && sample.ts == ts
    {
      hide Int16, Dot;
      assert data[6..][0] == data[6];
      var g := Vec(Int16(data[0], data[1]) as real, Int16(data[2], data[3]) as real, Int16(data[4], data[5]) as real);
      var a := Vec(Int16(data[6], data[7]) as real, Int16(data[8], data[9]) as real, Int16(data[10], data[11]) as real);
      assert g == RawVec(data[..6]) && a == RawVec(data[6..]);
      var gyro, accel := Minus(Scale(g, config.gyroScale), config.bias), Scale(a, config.accelScale);
      sample := ImuSample(ts, Rotate(config, gyro), Rotate(config, accel));
    }

    method ParseFifoGyroOnly(data: Data, ts: Timespec) returns (sample: ImuSample)
      requires |data| == 6
      ensures sample == Decode(config, Gyro(data), ts) && sample.ts == ts
    {
      hide Int16, Dot;
      var g := Vec(Int16(data[0], data[1]) as real, Int16(data[2], data[3]) as real, Int16(data[4], data[5]) as real);
      sample := ImuSample(ts, Rotate(config, Minus(Scale(g, config.gyroScale), config.bias)), NOWHERE);
    }

    /** Second pass. */
    method ParseAndPush(buf: Data, now: Timespec, total: nat, periodNs: nat) returns (frameIdx: nat)
      requires |buf| <= 0xFFFF && Normal(now) && total == |GyroFrames(buf, 0)|
      modifies this
      ensures frameIdx == total && |pushed| == |old(pushed)| + total && pushed[..|old(pushed)|] == old(pushed)
      ensures SamplesOf(pushed[|old(pushed)|..], config, GyroFrames(buf, 0), now, periodNs, total)
      ensures samplesRead == old(samplesRead) + total && readErrors == old(readErrors)
      ensures lastGyro == if total > 0 then pushed[|pushed| - 1].gyro else old(lastGyro)
    {
      hide SamplesOf, Decode, InstantOf, Nanos, Normal, GyroFrames, DecodedTo;
      frameIdx := 0;
      var pos: Uint16 := 0;
      var sample := ImuSample(Timespec(0, 0), NOWHERE, NOWHERE);
      ghost var frames, added := [], [];
      NoSamples(config, now, periodNs, total);
      NoneDecoded(buf);
      while pos < |buf|
        invariant pos <= |buf| && DecodedTo(buf, pos, frames) && frameIdx == |frames|
        invariant pushed == old(pushed) + added && |added| == |frames|
        invariant SamplesOf(added, config, frames, now, periodNs, total)
        invariant samplesRead == old(samplesRead) && readErrors == old(readErrors) && lastGyro == old(lastGyro)
        invariant added != [] ==> sample == added[|added| - 1]
        decreases |buf| - pos
      {
        var hdr := buf[pos];
        Skips(buf, pos, frames);
        if hdr == HDR_ACC_GYR && pos as int + 13 <= |buf| {
          Unfold(buf, pos, frames);
          var ts := InterpolateTs(now, periodNs, frameIdx, total);
          sample := ParseFifoCombined(buf[pos + 1..pos as int + 13], ts);
          OneMore(added, config, frames, now, periodNs, total, sample, Combined(buf[pos + 1..pos as int + 13]));
          pushed := pushed + [sample];
          frames, added := frames + [Combined(buf[pos + 1..pos as int + 13])], added + [sample];
          frameIdx := frameIdx + 1;
          pos := pos + 13;
        } else if hdr == HDR_GYR && pos as int + 7 <= |buf| {
          Unfold(buf, pos, frames);
          var ts := InterpolateTs(now, periodNs, frameIdx, total);
          sample := ParseFifoGyroOnly(buf[pos + 1..pos as int + 7], ts);
          OneMore(added, config, frames, now, periodNs, total, sample, Gyro(buf[pos + 1..pos as int + 7]));
          pushed := pushed + [sample];
          frames, added := frames + [Gyro(buf[pos + 1..pos as int + 7])], added + [sample];
          frameIdx := frameIdx + 1;
          pos := pos + 7;
        } else if hdr == HDR_ACC && pos as int + 7 <= |buf| {
          pos := pos + 7;
        } else if hdr == HDR_INPUT_CFG && pos as int + 5 <= |buf| {
          pos := pos + 5;
        } else if hdr == HDR_SENS_TIME && pos as int + 4 <= |buf| {
          pos := pos + 4;
        } else if hdr == HDR_SKIP && pos as int + 2 <= |buf| {
          pos := pos + 2;
        } else {
          break;
        }
      }
      AllDecoded(buf, pos, frames);
      assert pushed[|old(pushed)|..] == added;
      if frameIdx > 0 {
        samplesRead := samplesRead + frameIdx;
        lastGyro := sample.gyro;
      }
    }

    /** Everything in the FIFO, read in one go: `length` are the two bytes of its count, `burst` what was read. */
    method Drain(length: Option<(Byte, Byte)>, burst: Option<Data>, now: Timespec) returns (n: nat)
      requires Normal(now) && sampleRateHz > 0
      requires length.Some? && burst.Some? ==> |burst.value| == BurstLength(length.value)
      modifies this
      ensures readErrors
           == old(readErrors) + if length.None? || (BurstLength(length.value) > 0 && burst.None?) then 1 else 0
      ensures n > 0 ==> length.Some? && burst.Some? && n == |GyroFrames(burst.value, 0)|
      ensures length.Some? && burst.Some? ==> n == |GyroFrames(burst.value, 0)|
      ensures |pushed| == |old(pushed)| + n && pushed[..|old(pushed)|] == old(pushed)
      ensures n > 0 ==>
        SamplesOf(pushed[|old(pushed)|..], config, GyroFrames(burst.value, 0), now, SECOND / sampleRateHz, n)
      ensures samplesRead == old(samplesRead) + n
      ensures lastGyro == if n > 0 then pushed[|pushed| - 1].gyro else old(lastGyro)
      ensures forall i :: |old(pushed)| <= i < |pushed| - 1 ==>
        Nanos(pushed[i + 1].ts) - Nanos(pushed[i].ts) == SECOND / sampleRateHz
      ensures n > 0 ==> pushed[|pushed| - 1].ts == now
    {
      hide SamplesOf, GyroFrames;
      if length.None? {
        readErrors := readErrors + 1;
        return 0;
      }
      var fifoBytes := length.value.1 % 0x40 * 256 + length.value.0;
      if fifoBytes < FIFO_MIN_BYTES {
        if burst.Some? {
          NoFrames(burst.value);
        }
        return 0;
      }
      if fifoBytes > FIFO_MAX_BYTES {
        fifoBytes := FIFO_MAX_BYTES;
      }
      if burst.None? {
        readErrors := readErrors + 1;
        return 0;
      }
      var nGyro := CountGyroFrames(burst.value);
      if nGyro == 0 {
        return 0;
      }
      var periodNs := SECOND / sampleRateHz;
      ghost var was := |pushed|;
      n := ParseAndPush(burst.value, now, nGyro, periodNs);
      ghost var added := pushed[was..];
      Spacing(added, config, GyroFrames(burst.value, 0), now, periodNs);
      forall i | was <= i < |pushed| - 1 ensures Nanos(pushed[i + 1].ts) - Nanos(pushed[i].ts) == periodNs {
        assert pushed[i] == added[i - was] && pushed[i + 1] == added[i - was + 1];
      }
      assert |added| == n && pushed[|pushed| - 1] == added[n - 1] by {
        SamplesLength(added, config, GyroFrames(burst.value, 0), now, periodNs);
      }
    }
  }

  /** How many bytes are read: nothing if there is less than the shortest useful frame, and no more than the FIFO
      holds. */
  function BurstLength(length: (Byte, Byte)): nat
  {
    var fifoBytes := length.1 % 0x40 * 256 + length.0;
    if fifoBytes < FIFO_MIN_BYTES then 0 else if fifoBytes > FIFO_MAX_BYTES then FIFO_MAX_BYTES else fifoBytes
  }

  lemma SamplesLength(ss: seq<ImuSample>, c: Config, frames: seq<Frame>, now: Timespec, periodNs: nat)
    requires SamplesOf(ss, c, frames, now, periodNs, |frames|)
    ensures |ss| == |frames|
  {
  }

  lemma NoFrames(buf: Data)
    requires buf == []
    ensures GyroFrames(buf, 0) == []
  {
  }

  lemma NoSamples(c: Config, now: Timespec, periodNs: nat, total: nat)
    ensures SamplesOf([], c, [], now, periodNs, total)
  {
  }

  lemma OneMore(ss: seq<ImuSample>, c: Config, frames: seq<Frame>, now: Timespec, periodNs: nat, total: nat,
      s: ImuSample, f: Frame)
    requires SamplesOf(ss, c, frames, now, periodNs, total)
    requires FrameOk(f) && s == Decode(c, f, s.ts)
    requires Normal(s.ts) && Nanos(s.ts) == InstantOf(now, periodNs, |frames|, total)
    ensures SamplesOf(ss + [s], c, frames + [f], now, periodNs, total)
  {
    hide Decode, InstantOf;
  }

  /** Frames without gyro data are skipped, and nothing comes behind the last frame. */
  lemma Decoding(buf: Data, pos: nat)
    requires pos <= |buf|
    ensures pos == |buf| || FrameLength(buf, pos) == 0 ==> GyroFrames(buf, pos) == []
    ensures pos < |buf| && FrameLength(buf, pos) > 0 && buf[pos] != HDR_ACC_GYR && buf[pos] != HDR_GYR ==>
      GyroFrames(buf, pos) == GyroFrames(buf, pos + FrameLength(buf, pos))
  {
  }

  /** At a frame that bears gyro data, there are frames still to come. */
  lemma Unfold(buf: Data, pos: nat, frames: seq<Frame>)
    requires pos < |buf| && FrameLength(buf, pos) > 0 && (buf[pos] == HDR_ACC_GYR || buf[pos] == HDR_GYR)
    requires DecodedTo(buf, pos, frames)
    ensures var next := pos + FrameLength(buf, pos);
      var f := if buf[pos] == HDR_ACC_GYR then Combined(buf[pos + 1..next]) else Gyro(buf[pos + 1..next]);
      DecodedTo(buf, next, frames + [f])
    ensures |frames| < |GyroFrames(buf, 0)|
  {
  }

  /** `frames` are those decoded up to `pos`. */
  ghost predicate DecodedTo(buf: Data, pos: nat, frames: seq<Frame>)
    requires pos <= |buf|
  {
    frames + GyroFrames(buf, pos) == GyroFrames(buf, 0)
  }

  lemma NoneDecoded(buf: Data)
    ensures DecodedTo(buf, 0, [])
  {
    assert [] + GyroFrames(buf, 0) == GyroFrames(buf, 0);
  }

  lemma Skips(buf: Data, pos: nat, frames: seq<Frame>)
    requires pos < |buf| && DecodedTo(buf, pos, frames)
    ensures FrameLength(buf, pos) > 0 && buf[pos] != HDR_ACC_GYR && buf[pos] != HDR_GYR ==>
      DecodedTo(buf, pos + FrameLength(buf, pos), frames)
  {
    hide GyroFrames, FrameLength;
    Decoding(buf, pos);
  }

  lemma AllDecoded(buf: Data, pos: nat, frames: seq<Frame>)
    requires pos <= |buf| && DecodedTo(buf, pos, frames) && (pos == |buf| || FrameLength(buf, pos) == 0)
    ensures frames == GyroFrames(buf, 0)
  {
    hide GyroFrames, FrameLength;
    Decoding(buf, pos);
    assert frames + [] == frames;
  }
}
