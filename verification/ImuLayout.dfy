/** The FIFO's layout from the sensor's side (src/imu_bmi270.c): what a drain makes of the frames a sensor wrote. */
module ImuLayout {
  import opened Arith
  import opened Bytes
  import opened Timespec
  import opened ImuFifo

  type Reading = n: int | -0x8000 <= n < 0x8000

  /** What a sensor measures on three axes. */
  datatype Three = Three(x: Reading, y: Reading, z: Reading)

  /** What a sensor writes: measurements of either kind or both, or something that is none. */
  datatype Entry =
    | GyroOnly(gyro: Three)
    | AccelOnly(accel: Three)
    | Both(gyro: Three, accel: Three)
    | InputConfig(config: Data)
    | SensorTime(time: Data)
    | Skipped(skipped: Byte)
  {
    predicate Ok() { (InputConfig? ==> |config| == 4) && (SensorTime? ==> |time| == 3) }

    predicate Turning() { GyroOnly? || Both? }

    function Written(): Data
    {
      match this
      case GyroOnly(g) => [0x88] + Six(g)
      case AccelOnly(a) => [0x84] + Six(a)
      case Both(g, a) => [0x8C] + Six(g) + Six(a)
      case InputConfig(d) => [0x48] + d
      case SensorTime(d) => [0x44] + d
      case Skipped(b) => [0x40, b]
    }
  }

  function Low(n: Reading): Byte { n % 0x100 }

  function High(n: Reading): Byte { (if n < 0 then n + 0x1_0000 else n) / 0x100 }

  /** Each axis with its low byte first. */
  function Six(t: Three): (d: Data)
    ensures |d| == 6
  {
    [Low(t.x), High(t.x), Low(t.y), High(t.y), Low(t.z), High(t.z)]
  }

  function Layout(es: seq<Entry>): Data
  {
    if es == [] then [] else es[0].Written() + Layout(es[1..])
  }

  function Turnings(es: seq<Entry>): seq<Entry>
  {
    if es == [] then [] else (if es[0].Turning() then [es[0]] else []) + Turnings(es[1..])
  }

  /** The bytes a decoder takes out of an entry. */
  function FrameFor(e: Entry): Frame
    requires e.Turning()
  {
    if e.GyroOnly? then Gyro(Six(e.gyro)) else Combined(Six(e.gyro) + Six(e.accel))
  }

  // ---- numbers and axes ----

  lemma BytesMean(n: Reading)
    ensures Int16(Low(n), High(n)) == n
  {
    var u := if n < 0 then n + 0x1_0000 else n;
    assert u == u / 0x100 * 0x100 + u % 0x100 && u % 0x100 == n % 0x100;
  }

  /** `v` is `w` in the camera's axes, if it is known how the sensor is mounted. */
  predicate Rotated(v: Vec, w: Vec, rotation: Option<(Vec, Vec, Vec)>)
  {
    match rotation
    case None => v == w
    case Some((a, b, c)) =>
      && v.x == a.x * w.x + a.y * w.y + a.z * w.z
      && v.y == b.x * w.x + b.y * w.y + b.z * w.z
      && v.z == c.x * w.x + c.y * w.y + c.z * w.z
  }

  /** The values in their unit, less what is measured at rest. */
  function Physical(t: Three, scale: real, rest: Vec): Vec
  {
    Vec(t.x as real * scale - rest.x, t.y as real * scale - rest.y, t.z as real * scale - rest.z)
  }

  lemma RotateMeans(c: Config, v: Vec)
    ensures Rotated(Rotate(c, v), v, c.rotation)
  {
  }

  lemma RawIs(t: Three)
    ensures RawVec(Six(t)) == Vec(t.x as real, t.y as real, t.z as real)
  {
    hide Int16, Low, High;
    BytesMean(t.x);
    BytesMean(t.y);
    BytesMean(t.z);
  }

  lemma GyroMeasures(c: Config, t: Three)
    ensures Rotated(GyroOf(c, Six(t)), Physical(t, c.gyroScale, c.bias), c.rotation)
  {
    hide RawVec, Six, Rotate, Rotated;
    RawIs(t);
    var v := Minus(Scale(RawVec(Six(t)), c.gyroScale), c.bias);
    RotateMeans(c, v);
    assert v == Physical(t, c.gyroScale, c.bias);
  }

  lemma AccelMeasures(c: Config, t: Three)
    ensures Rotated(AccelOf(c, Six(t)), Physical(t, c.accelScale, Vec(0.0, 0.0, 0.0)), c.rotation)
  {
    hide RawVec, Six, Rotate, Rotated;
    RawIs(t);
    var v := Scale(RawVec(Six(t)), c.accelScale);
    RotateMeans(c, v);
    assert v == Physical(t, c.accelScale, Vec(0.0, 0.0, 0.0));
  }

  /** What an entry is pushed as: its rotation, and its acceleration or none. */
  predicate SampleOf(s: ImuSample, c: Config, e: Entry)
    requires e.Turning()
  {
    && Rotated(s.gyro, Physical(e.gyro, c.gyroScale, c.bias), c.rotation)
    && if e.Both? then Rotated(s.accel, Physical(e.accel, c.accelScale, Vec(0.0, 0.0, 0.0)), c.rotation)
       else s.accel == Vec(0.0, 0.0, 0.0)
  }

  lemma DecodeMeasures(c: Config, e: Entry, ts: Timespec)
    requires e.Turning()
    ensures FrameOk(FrameFor(e)) && SampleOf(Decode(c, FrameFor(e), ts), c, e) && Decode(c, FrameFor(e), ts).ts == ts
  {
    hide Rotated, Physical, GyroOf, AccelOf, Six;
    GyroMeasures(c, e.gyro);
    if e.Both? {
      AccelMeasures(c, e.accel);
      var d := Six(e.gyro) + Six(e.accel);
      assert d[..6] == Six(e.gyro) && d[6..] == Six(e.accel);
    }
  }

  // ---- the layout ----

  /** The header tells the length, and what follows it is what the decoder takes out. */
  lemma WrittenIs(e: Entry)
    requires e.Ok()
    ensures var w := e.Written();
      && w != [] && HeaderLength(w[0]) == |w|
      && TakenOut(w[0], w[1..]) == if e.Turning() then [FrameFor(e)] else []
  {
    hide Six;
    if e.Both? {
      assert e.Written()[1..] == Six(e.gyro) + Six(e.accel);
    }
  }

  function TakenOut(hdr: Byte, d: Data): seq<Frame>
  {
    if hdr == 0x8C then [Combined(d)] else if hdr == 0x88 then [Gyro(d)] else []
  }

  function HeaderLength(hdr: Byte): nat
  {
    if hdr == 0x8C then 13 else if hdr == 0x88 || hdr == 0x84 then 7 else if hdr == 0x48 then 5
    else if hdr == 0x44 then 4 else if hdr == 0x40 then 2 else 0
  }

  lemma LengthAt(buf: Data, pos: nat)
    requires pos < |buf| && pos + HeaderLength(buf[pos]) <= |buf|
    ensures FrameLength(buf, pos) == HeaderLength(buf[pos])
  {
  }

  lemma OneFrame(buf: Data, pos: nat)
    requires pos < |buf| && FrameLength(buf, pos) > 0
    ensures var next := pos + FrameLength(buf, pos);
      && next <= |buf|
      && GyroFrames(buf, pos)
         == TakenOut(buf[pos], buf[pos + 1..next]) + GyroFrames(buf, next)
  {
    hide FrameLength;
  }

  /** An entry stands at `pos`. */
  predicate Stands(buf: Data, pos: nat, w: Data)
  {
    w != [] && pos + |w| <= |buf| && buf[pos] == w[0] && buf[pos + 1..pos + |w|] == w[1..]
  }

  lemma FrameAt(buf: Data, pos: nat, e: Entry)
    requires e.Ok() && Stands(buf, pos, e.Written())
    ensures GyroFrames(buf, pos)
         == (if e.Turning() then [FrameFor(e)] else []) + GyroFrames(buf, pos + |e.Written()|)
  {
    hide Entry.Written, FrameFor, GyroFrames, FrameLength, HeaderLength, TakenOut;
    WrittenIs(e);
    LengthAt(buf, pos);
    OneFrame(buf, pos);
  }

  lemma Middle(before: Data, w: Data, after: Data)
    requires w != []
    ensures Stands(before + w + after, |before|, w)
  {
  }

  /** What a drain stops at: the end, a byte that begins no frame, or a frame cut short. */
  predicate Stops(tail: Data)
  {
    tail == [] || tail[0] !in {0x84, 0x88, 0x8C, 0x48, 0x44, 0x40} || (tail[0] == 0x8C && |tail| < 13)
    || (tail[0] in {0x84, 0x88} && |tail| < 7) || (tail[0] == 0x48 && |tail| < 5) || (tail[0] == 0x44 && |tail| < 4)
    || (tail[0] == 0x40 && |tail| < 2)
  }

  predicate AllOk(es: seq<Entry>) { es != [] ==> es[0].Ok() && AllOk(es[1..]) }

  function FramesFor(es: seq<Entry>): (frames: seq<Frame>)
  {
    if es == [] then [] else (if es[0].Turning() then [FrameFor(es[0])] else []) + FramesFor(es[1..])
  }

  lemma {:induction false} FramesForAt(es: seq<Entry>)
    ensures var frames, turnings := FramesFor(es), Turnings(es);
      && |frames| == |turnings|
      && forall i :: 0 <= i < |frames| ==> turnings[i].Turning() && frames[i] == FrameFor(turnings[i])
  {
    hide FrameFor;
    if es != [] {
      FramesForAt(es[1..]);
    }
  }

  /** Just the entries with a rotation are decoded, up to what the drain stops at. */
  lemma {:induction false} LayoutFrames(before: Data, es: seq<Entry>, tail: Data)
    requires AllOk(es) && Stops(tail)
    ensures GyroFrames(before + Layout(es) + tail, |before|) == FramesFor(es)
    decreases |es|
  {
    hide FrameFor, Stops, GyroFrames, Stands, TakenOut;
    var buf := before + Layout(es) + tail;
    if es == [] {
      assert buf == before + tail;
      StopsAt(before, tail);
    } else {
      var w, rest := es[0].Written(), Layout(es[1..]);
      hide Layout, Entry.Written;
      assert buf == before + w + (rest + tail);
      WrittenIs(es[0]);
      Middle(before, w, rest + tail);
      FrameAt(buf, |before|, es[0]);
      LayoutFrames(before + w, es[1..], tail);
      assert buf == (before + w) + rest + tail;
    }
  }

  lemma StopsAt(before: Data, tail: Data)
    requires Stops(tail)
    ensures GyroFrames(before + tail, |before|) == []
  {
  }

  /** Draining a buffer a sensor wrote pushes one sample for each entry with a rotation, in order, with what was
      measured, the last one at the time of the drain and each one period before the next. At most 1024 bytes are read,
      however full the FIFO is. */
  method DrainLaid(imu: ImuState, length: (Byte, Byte), es: seq<Entry>, tail: Data, now: Timespec) returns (n: nat)
    requires Normal(now) && imu.sampleRateHz > 0 && AllOk(es) && Stops(tail)
    requires var fill := length.1 % 64 * 256 + length.0; 7 <= fill && |Layout(es) + tail| == Min(fill, 1024)
    modifies imu
    ensures n == |Turnings(es)| && |imu.pushed| == |old(imu.pushed)| + n
    ensures imu.pushed[..|old(imu.pushed)|] == old(imu.pushed)
    ensures forall i :: 0 <= i < n ==>
      Turnings(es)[i].Turning() && SampleOf(imu.pushed[|old(imu.pushed)| + i], imu.config, Turnings(es)[i])
    ensures forall i :: |old(imu.pushed)| <= i < |imu.pushed| - 1 ==>
      Nanos(imu.pushed[i + 1].ts) - Nanos(imu.pushed[i].ts) == SECOND / imu.sampleRateHz
    ensures n > 0 ==> imu.pushed[|imu.pushed| - 1].ts == now
  {
    hide GyroFrames, Layout, Turnings, FramesFor, Stops, SampleOf, FrameFor, Decode;
    var buf := Layout(es) + tail;
    LayoutFrames([], es, tail);
    FramesForAt(es);
    assert [] + Layout(es) + tail == buf;
    n := imu.Drain(Some(length), Some(buf), now);
    ghost var was := |old(imu.pushed)|;
    forall i | 0 <= i < n
      ensures Turnings(es)[i].Turning() && SampleOf(imu.pushed[was + i], imu.config, Turnings(es)[i])
    {
      assert imu.pushed[was..][i] == imu.pushed[was + i];
      DecodeMeasures(imu.config, Turnings(es)[i], imu.pushed[was + i].ts);
    }
  }
}
