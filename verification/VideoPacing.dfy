/**
 The pacing of the video sender: before each packet the thread waits for a target time computed from
 the bits sent since a start time, and it moves the start time forward after an idle period.
 */
module VideoPacing {
  import opened CInt

  const PKT_SIZE: int := 1280
  const U64_MOD: int := 0x1_0000_0000_0000_0000

  /** `sizeMod` is the modulus of `size_t`: 2^32 or 2^64. */
  datatype Cfg = Cfg(bitrate: U32, burstBits: U32, sizeMod: int)

  datatype Pace = Pace(start: nat, target: nat, sent: nat)

  /** One packet of `len` bytes: the clock when it was taken up, and when it was sent. */
  datatype Tick = Tick(jfs: nat, wake: nat, len: nat)

  ghost predicate ValidCfg(cfg: Cfg) {
    cfg.bitrate > 0 && cfg.sizeMod > 0
  }

  function MaxDelay(cfg: Cfg): int
    requires cfg.bitrate > 0
  {
    Time(cfg, PKT_SIZE * 8) + 1
  }

  function MaxBurst(cfg: Cfg): int
    requires cfg.bitrate > 0
  {
    cfg.burstBits * 1000000 / cfg.bitrate
  }

  /** Microseconds that a number of bits takes. */
  function Time(cfg: Cfg, bits: nat): (r: nat)
    requires cfg.bitrate > 0
  {
    bits * 1000000 / cfg.bitrate
  }

  /** The same as the source computes it, in `size_t`. */
  function WrappedTime(cfg: Cfg, bits: nat): nat
    requires ValidCfg(cfg)
  {
    bits * 1000000 % cfg.sizeMod / cfg.bitrate
  }

  /** Is the wait cut short because the target lies too far ahead? */
  predicate Clamped(cfg: Cfg, p: Pace, jfs: nat)
    requires cfg.bitrate > 0
  {
    jfs < p.target && p.target - jfs > MaxDelay(cfg)
  }

  /** Has the sender been idle for more than the tolerated burst? */
  predicate Idle(cfg: Cfg, p: Pace, jfs: nat)
    requires cfg.bitrate > 0
  {
    jfs >= p.target && (jfs - MaxBurst(cfg)) % U64_MOD > p.target
  }

  /** Microseconds to sleep; the argument of the sleep call is 32 bits wide. */
  function SleepTime(cfg: Cfg, p: Pace, jfs: nat): nat
    requires cfg.bitrate > 0
  {
    if jfs >= p.target then 0
    else (if Clamped(cfg, p, jfs) then MaxDelay(cfg) else p.target - jfs) % 0x1_0000_0000
  }

  /** The start time and the bits sent since, before this packet is counted. */
  function Restart(cfg: Cfg, p: Pace, jfs: nat): (int, nat)
    requires cfg.bitrate > 0
  {
    if Clamped(cfg, p, jfs) then ((jfs + MaxDelay(cfg)) % U64_MOD, 0)
    else if Idle(cfg, p, jfs) then ((jfs - MaxBurst(cfg)) % U64_MOD, 0)
    else (p.start, p.sent)
  }

  function PaceStep(cfg: Cfg, p: Pace, jfs: nat, len: nat): (r: Pace)
    requires ValidCfg(cfg)
  {
    var (start, base) := Restart(cfg, p, jfs);
    var sent := (base + len * 8) % cfg.sizeMod;
    Pace(start, (start + WrappedTime(cfg, sent)) % U64_MOD, sent)
  }

  /** The pacing state after a number of packets. */
  function After(cfg: Cfg, p: Pace, ticks: seq<Tick>): Pace
    requires ValidCfg(cfg)
  {
    if ticks == [] then p
    else
      var k := |ticks| - 1;
      PaceStep(cfg, After(cfg, p, ticks[..k]), ticks[k].jfs, ticks[k].len)
  }

  function Bits(ticks: seq<Tick>): nat {
    if ticks == [] then 0 else Bits(ticks[..|ticks| - 1]) + ticks[|ticks| - 1].len * 8
  }

  function LastWake(t: nat, ticks: seq<Tick>): nat {
    if ticks == [] then t else ticks[|ticks| - 1].wake
  }

  // ---------- Hypotheses on the clock and the packets ----------

  /** Since the clock was 0, more time has passed than the tolerated burst takes at the rate. */
  predicate BurstPassed(cfg: Cfg, jfs: nat) {
    cfg.burstBits * 1000000 < cfg.bitrate * (jfs + 1)
  }

  /** The clock does not go back, no sleep ends early, the packet has a legal size, the clock has
      passed the burst time, and neither the clock nor the bit count comes near its limits. */
  ghost predicate Proper(cfg: Cfg, p: Pace, last: nat, t: Tick)
    requires ValidCfg(cfg)
  {
    && last <= t.jfs && t.jfs + SleepTime(cfg, p, t.jfs) <= t.wake < 0x8000_0000_0000_0000
    && t.len <= PKT_SIZE
    && BurstPassed(cfg, t.jfs)
    && (p.sent + t.len * 8) * 1000000 < cfg.sizeMod
  }

  ghost predicate ProperRun(cfg: Cfg, p: Pace, t: nat, ticks: seq<Tick>)
    requires ValidCfg(cfg)
  {
    ticks == [] ||
    var k := |ticks| - 1;
    Proper(cfg, After(cfg, p, ticks[..k]), LastWake(t, ticks[..k]), ticks[k]) && ProperRun(cfg, p, t, ticks[..k])
  }

  // ---------- Arithmetic ----------

  /** On quotients x and y, without a division. */
  lemma SumBelow(a: int, b: int, c: int, x: int, y: int)
    requires a < c * x + c && b < c * y + c
    ensures a + b < c * (x + y + 2)
  {
    assert c * (x + y + 2) == c * x + c * y + 2 * c;
  }

  lemma FloorSum(a: int, b: int, c: int)
    requires c > 0
    ensures (a + b) / c <= a / c + b / c + 1
  {
    DivBounds(a, c);
    DivBounds(b, c);
    var x, y := a / c, b / c;
    SumBelow(a, b, c, x, y);
    QuotientBelow(a + b, c, x + y + 2);
  }

  // ---------- The invariant of a run ----------

  /** `total` bits were sent since t0, the last packet at time `last`. */
  ghost predicate Paced(cfg: Cfg, p: Pace, t0: int, total: int, last: int)
    requires ValidCfg(cfg)
  {
    && t0 <= p.start
    && p.sent <= total
    && (total - p.sent) * 1000000 <= cfg.bitrate * (p.start - t0)
    && p.start + Time(cfg, p.sent) <= p.target <= last + MaxDelay(cfg)
  }

  /** No more bits than the rate allows up to a time not before the target. */
  lemma RateAtTarget(cfg: Cfg, p: Pace, t0: int, total: int, last: int, t: int)
    requires ValidCfg(cfg) && Paced(cfg, p, t0, total, last) && p.target <= t
    ensures total * 1000000 < cfg.bitrate * (t - t0 + 1)
  {
    var q := Time(cfg, p.sent);
    DivBounds(p.sent * 1000000, cfg.bitrate);
    MulMonotone(cfg.bitrate, p.start - t0 + q + 1, t - t0 + 1);
  }

  /** The time one packet takes never exceeds the largest delay. */
  lemma PacketTime(cfg: Cfg, sent: nat, len: nat)
    requires cfg.bitrate > 0 && len <= PKT_SIZE
    ensures Time(cfg, sent + len * 8) <= Time(cfg, sent) + MaxDelay(cfg)
  {
    FloorSum(sent * 1000000, len * 8 * 1000000, cfg.bitrate);
    DivMonotone(len * 8 * 1000000, PKT_SIZE * 8 * 1000000, cfg.bitrate);
  }

  lemma DelayFits(cfg: Cfg)
    requires cfg.bitrate >= 3
    ensures 0 < MaxDelay(cfg) < 0x1_0000_0000
  {
    DivBounds(PKT_SIZE * 8 * 1000000, cfg.bitrate);
    var q := PKT_SIZE * 8 * 1000000 / cfg.bitrate;
    MulMonotone(q, 3, cfg.bitrate);
  }

  lemma SmallMod(x: int, m: int)
    requires 0 <= x < m
    ensures x % m == x
  {
  }

  /** Without wrap-around the next target is the start plus the time of the bits sent. */
  lemma NextTarget(cfg: Cfg, p: Pace, jfs: nat, len: nat, start: nat, base: nat)
    requires ValidCfg(cfg) && Restart(cfg, p, jfs) == (start, base)
    requires (base + len * 8) * 1000000 < cfg.sizeMod
    requires start + Time(cfg, base + len * 8) < U64_MOD
    ensures PaceStep(cfg, p, jfs, len) == Pace(start, start + Time(cfg, base + len * 8), base + len * 8)
  {
    var sent := base + len * 8;
    SmallMod(sent, cfg.sizeMod);
    SmallMod(sent * 1000000, cfg.sizeMod);
    assert WrappedTime(cfg, sent) == Time(cfg, sent);
    SmallMod(start + Time(cfg, sent), U64_MOD);
  }

  lemma BurstNonNegative(cfg: Cfg)
    requires cfg.bitrate > 0
    ensures 0 <= MaxBurst(cfg)
  {
  }

  /** The burst time is the whole microseconds that the burst takes at the rate. */
  lemma BurstTime(cfg: Cfg, x: int)
    requires cfg.bitrate > 0
    ensures MaxBurst(cfg) < x <==> cfg.burstBits * 1000000 < cfg.bitrate * x
    ensures cfg.bitrate * MaxBurst(cfg) <= cfg.burstBits * 1000000
  {
    DivBounds(cfg.burstBits * 1000000, cfg.bitrate);
    if MaxBurst(cfg) < x {
      MulMonotone(cfg.bitrate, MaxBurst(cfg) + 1, x);
    } else {
      MulMonotone(cfg.bitrate, x, MaxBurst(cfg));
    }
  }

  /** The largest delay is that of a packet of full size, rounded up to the next whole microsecond. */
  lemma DelayTime(cfg: Cfg)
    requires cfg.bitrate > 0
    ensures cfg.bitrate * (MaxDelay(cfg) - 1) <= 10240 * 1000000 < cfg.bitrate * MaxDelay(cfg)
  {
    DivBounds(10240 * 1000000, cfg.bitrate);
    assert cfg.bitrate * MaxDelay(cfg) == cfg.bitrate * (MaxDelay(cfg) - 1) + cfg.bitrate;
  }

  /** One packet after an idle period longer than the burst. */
  lemma IdleStep(cfg: Cfg, p: Pace, t0: int, total: nat, last: nat, t: Tick)
    requires ValidCfg(cfg) && cfg.bitrate >= 3
    requires Paced(cfg, p, t0, total, last) && Proper(cfg, p, last, t) && Idle(cfg, p, t.jfs)
    ensures Paced(cfg, PaceStep(cfg, p, t.jfs, t.len), t0, total + t.len * 8, t.wake)
  {
    var start := t.jfs - MaxBurst(cfg);
    BurstNonNegative(cfg);
    BurstTime(cfg, t.jfs + 1);
    PacketTime(cfg, 0, t.len);
    assert Time(cfg, 0) == 0;
    DelayFits(cfg);
    SmallMod(start, U64_MOD);
    NextTarget(cfg, p, t.jfs, t.len, start, 0);
    RateAtTarget(cfg, p, t0, total, last, start - 1);
  }

  /** One packet on the running count. */
  lemma RunningStep(cfg: Cfg, p: Pace, t0: int, total: nat, last: nat, t: Tick)
    requires ValidCfg(cfg) && cfg.bitrate >= 3
    requires Paced(cfg, p, t0, total, last) && Proper(cfg, p, last, t)
    requires !Idle(cfg, p, t.jfs) && !Clamped(cfg, p, t.jfs) && p.target <= t.wake
    ensures Paced(cfg, PaceStep(cfg, p, t.jfs, t.len), t0, total + t.len * 8, t.wake)
  {
    PacketTime(cfg, p.sent, t.len);
    DelayFits(cfg);
    NextTarget(cfg, p, t.jfs, t.len, p.start, p.sent);
  }

  /** A packet is never clamped, is sent no sooner than the rate allows, and keeps the invariant. */
  lemma ProperStep(cfg: Cfg, p: Pace, t0: nat, total: nat, last: nat, t: Tick)
    requires ValidCfg(cfg) && cfg.bitrate >= 3
    requires Paced(cfg, p, t0, total, last) && Proper(cfg, p, last, t)
    ensures !Clamped(cfg, p, t.jfs)
    ensures total * 1000000 < cfg.bitrate * (t.wake - t0 + 1)
    ensures Paced(cfg, PaceStep(cfg, p, t.jfs, t.len), t0, total + t.len * 8, t.wake)
  {
    DelayFits(cfg);
    assert p.target <= t.wake;
    RateAtTarget(cfg, p, t0, total, last, t.wake);
    if Idle(cfg, p, t.jfs) {
      IdleStep(cfg, p, t0, total, last, t);
    } else {
      RunningStep(cfg, p, t0, total, last, t);
    }
  }

  // ---------- Whole runs ----------

  /** The thread starts with two clock readings: the start time, then the first target. */
  function StartPace(t0: nat, t1: nat): Pace {
    Pace(t0, t1, 0)
  }

  lemma {:induction false} RunPaced(cfg: Cfg, t0: nat, t1: nat, ticks: seq<Tick>)
    requires ValidCfg(cfg) && cfg.bitrate >= 3 && t0 <= t1
    requires ProperRun(cfg, StartPace(t0, t1), t1, ticks)
    ensures Paced(cfg, After(cfg, StartPace(t0, t1), ticks), t0, Bits(ticks), LastWake(t1, ticks))
  {
    DelayFits(cfg);
    if ticks != [] {
      var k := |ticks| - 1;
      RunPaced(cfg, t0, t1, ticks[..k]);
      ProperStep(cfg, After(cfg, StartPace(t0, t1), ticks[..k]), t0, Bits(ticks[..k]), LastWake(t1, ticks[..k]),
                 ticks[k]);
    }
  }

  /** The rate bound over a whole run: when a packet is sent, the bits sent before it since the thread
      started are at most what the rate allows for the time passed plus one microsecond, through
      every idle reset. */
  lemma RateBound(cfg: Cfg, t0: nat, t1: nat, ticks: seq<Tick>)
    requires ValidCfg(cfg) && cfg.bitrate >= 3 && t0 <= t1 && ticks != []
    requires ProperRun(cfg, StartPace(t0, t1), t1, ticks)
    ensures Bits(ticks[..|ticks| - 1]) * 1000000 < cfg.bitrate * (LastWake(t1, ticks) - t0 + 1)
  {
    var k := |ticks| - 1;
    RunPaced(cfg, t0, t1, ticks[..k]);
    ProperStep(cfg, After(cfg, StartPace(t0, t1), ticks[..k]), t0, Bits(ticks[..k]), LastWake(t1, ticks[..k]),
               ticks[k]);
  }

  /** The clamp on the delay is dead: in no iteration does the target lie further ahead than the
      largest delay, the time of a packet of full size and a microsecond. */
  lemma ClampIsDead(cfg: Cfg, t0: nat, t1: nat, ticks: seq<Tick>)
    requires ValidCfg(cfg) && cfg.bitrate >= 3 && t0 <= t1 && ticks != []
    requires ProperRun(cfg, StartPace(t0, t1), t1, ticks)
    ensures var k := |ticks| - 1;
            var ahead := After(cfg, StartPace(t0, t1), ticks[..k]).target - ticks[k].jfs;
            ahead <= MaxDelay(cfg) && cfg.bitrate * (ahead - 1) <= 10240 * 1000000
  {
    RunPaced(cfg, t0, t1, ticks[..|ticks| - 1]);
    var k := |ticks| - 1;
    var ahead := After(cfg, StartPace(t0, t1), ticks[..k]).target - ticks[k].jfs;
    DelayTime(cfg);
    MulMonotone(cfg.bitrate, ahead - 1, MaxDelay(cfg) - 1);
  }

  // ---------- When the hypotheses hold ----------

  /** Two packets of full size at 1 Mbit/s: the second waits for its time. */
  lemma ProperRunExists()
    ensures var cfg := Cfg(1000000, 0, 0x1_0000_0000_0000_0000);
            ProperRun(cfg, StartPace(0, 0), 0, [Tick(0, 0, PKT_SIZE), Tick(0, 10240, PKT_SIZE)])
            && SleepTime(cfg, After(cfg, StartPace(0, 0), [Tick(0, 0, PKT_SIZE)]), 0) == 10240
  {
    var cfg := Cfg(1000000, 0, 0x1_0000_0000_0000_0000);
    var a, b := Tick(0, 0, PKT_SIZE), Tick(0, 10240, PKT_SIZE);
    var p0 := StartPace(0, 0);
    assert [a, b][..1] == [a] && [a][..0] == [];
    assert After(cfg, p0, []) == p0;
    assert After(cfg, p0, [a]) == Pace(0, 10240, 10240);
    assert ProperRun(cfg, p0, 0, []);
    assert Proper(cfg, p0, 0, a);
    assert ProperRun(cfg, p0, 0, [a]);
    assert Proper(cfg, Pace(0, 10240, 10240), 0, b);
  }

  /** The time computation is exact if and only if the product of bits and a million fits `size_t`. */
  lemma TimeExactIff(cfg: Cfg, bits: nat)
    requires ValidCfg(cfg) && cfg.bitrate <= cfg.sizeMod
    ensures WrappedTime(cfg, bits) == Time(cfg, bits) <==> bits * 1000000 < cfg.sizeMod
  {
    var x, m, b := bits * 1000000, cfg.sizeMod, cfg.bitrate;
    if x < m {
      SmallMod(x, m);
    } else {
      var r := x % m;
      ModDrop(x, m);
      DivMonotone(r + b, x, b);
      DivBounds(r, b);
      DivBounds(r + b, b);
      if (r + b) / b <= r / b {
        MulMonotone(b, (r + b) / b, r / b);
      }
    }
  }

  lemma ModDrop(x: int, m: int)
    requires 0 < m <= x
    ensures 0 <= x % m <= x - m
  {
    DivBounds(x, m);
    assert x == m * (x / m) + x % m;
    if x / m >= 1 {
      MulMonotone(m, 1, x / m);
    } else {
      MulMonotone(m, x / m, 0);
    }
  }

  /** The largest delay fits the 32-bit argument of the sleep call if and only if the rate is at
      least 3 bit/s. */
  lemma DelayFitsIff(cfg: Cfg)
    requires cfg.bitrate > 0
    ensures MaxDelay(cfg) < 0x1_0000_0000 <==> cfg.bitrate >= 3
  {
    if cfg.bitrate >= 3 {
      DelayFits(cfg);
    }
  }

  /** Three packets at a rate below 3 bit/s, taken up at time t: the second is woken too early. */
  function EarlyTicks(cfg: Cfg, t: nat): seq<Tick>
    requires cfg.bitrate > 0
  {
    var cut := Time(cfg, PKT_SIZE * 8) % 0x1_0000_0000;
    [Tick(t, t, PKT_SIZE), Tick(t, t + cut, PKT_SIZE), Tick(t + cut, t + cut + MaxDelay(cfg), 0)]
  }

  /** They meet the hypotheses on clock and packets. */
  lemma SlowRun(cfg: Cfg, t: nat)
    requires 1 <= cfg.bitrate <= 2 && cfg.sizeMod >= 0x1_0000_0000_0000 && t == MaxBurst(cfg)
    ensures var p, ticks := StartPace(t, t), EarlyTicks(cfg, t);
            && ProperRun(cfg, p, t, ticks)
            && After(cfg, p, ticks[..1]) == Pace(t, t + Time(cfg, 10240), 10240)
            && After(cfg, p, ticks[..2]) == Pace(t, t + Time(cfg, 20480), 20480)
  {
    var p, ticks := StartPace(t, t), EarlyTicks(cfg, t);
    SlowTimes(cfg);
    var p1, p2 := Pace(t, t + Time(cfg, 10240), 10240), Pace(t, t + Time(cfg, 20480), 20480);
    BurstNonNegative(cfg);
    assert ticks[..0] == [] && ticks[..1][..0] == [] && ticks[..2][..1] == ticks[..1] && ticks[..3] == ticks;
    NextTarget(cfg, p, t, PKT_SIZE, t, 0);
    BurstTime(cfg, t + 1);
    assert After(cfg, p, ticks[..1]) == p1;
    NextTarget(cfg, p1, t, PKT_SIZE, t, 10240);
    assert After(cfg, p, ticks[..2]) == p2;
    assert ProperRun(cfg, p, t, ticks[..1]);
    assert ProperRun(cfg, p, t, ticks[..2]);
  }

  /** The bound of RateBound, for every proper run. */
  ghost predicate RateKept(cfg: Cfg)
    requires ValidCfg(cfg)
  {
    forall t0: nat, t1: nat, ticks: seq<Tick> ::
      t0 <= t1 && ticks != [] && ProperRun(cfg, StartPace(t0, t1), t1, ticks) ==>
        Bits(ticks[..|ticks| - 1]) * 1000000 < cfg.bitrate * (LastWake(t1, ticks) - t0 + 1)
  }

  /** In no iteration of a proper run is the wait cut short. */
  ghost predicate NeverClamped(cfg: Cfg)
    requires ValidCfg(cfg)
  {
    forall t0: nat, t1: nat, ticks: seq<Tick> ::
      t0 <= t1 && ticks != [] && ProperRun(cfg, StartPace(t0, t1), t1, ticks) ==>
        !Clamped(cfg, After(cfg, StartPace(t0, t1), ticks[..|ticks| - 1]), ticks[|ticks| - 1].jfs)
  }

  lemma SlowRateBroken(cfg: Cfg)
    requires 1 <= cfg.bitrate <= 2 && cfg.sizeMod >= 0x1_0000_0000_0000
    ensures !RateKept(cfg) && !NeverClamped(cfg)
  {
    BurstNonNegative(cfg);
    var t: nat := MaxBurst(cfg);
    var ticks := EarlyTicks(cfg, t);
    SlowRun(cfg, t);
    SlowTimes(cfg);
    assert ProperRun(cfg, StartPace(t, t), t, ticks[..2]) && ticks[..2][..1] == ticks[..1];
    assert ticks[..1][..0] == [] && Bits(ticks[..1]) == 10240;
    assert !(Bits(ticks[..2][..1]) * 1000000 < cfg.bitrate * (LastWake(t, ticks[..2]) - t + 1));
    assert Clamped(cfg, After(cfg, StartPace(t, t), ticks[..|ticks| - 1]), ticks[|ticks| - 1].jfs);
  }

  /** With a 64-bit `size_t`, the rate bound and the dead clamp hold of every proper run if and only if
      the rate is at least 3 bit/s. */
  lemma RateBoundIff(cfg: Cfg)
    requires ValidCfg(cfg) && cfg.sizeMod >= 0x1_0000_0000_0000
    ensures RateKept(cfg) <==> cfg.bitrate >= 3
    ensures NeverClamped(cfg) <==> cfg.bitrate >= 3
  {
    if cfg.bitrate >= 3 {
      forall t0: nat, t1: nat, ticks: seq<Tick> |
          t0 <= t1 && ticks != [] && ProperRun(cfg, StartPace(t0, t1), t1, ticks)
        ensures Bits(ticks[..|ticks| - 1]) * 1000000 < cfg.bitrate * (LastWake(t1, ticks) - t0 + 1)
        ensures !Clamped(cfg, After(cfg, StartPace(t0, t1), ticks[..|ticks| - 1]), ticks[|ticks| - 1].jfs)
      {
        RateBound(cfg, t0, t1, ticks);
        ClampIsDead(cfg, t0, t1, ticks);
      }
    } else {
      SlowRateBroken(cfg);
    }
  }

  lemma SlowTimes(cfg: Cfg)
    requires 1 <= cfg.bitrate <= 2
    ensures if cfg.bitrate == 1 then Time(cfg, 10240) == 10240000000 && Time(cfg, 20480) == 20480000000
            else Time(cfg, 10240) == 5120000000 && Time(cfg, 20480) == 10240000000
  {
  }

  /** Has more time passed since the target than the tolerated burst takes at the rate? */
  predicate LongIdle(cfg: Cfg, p: Pace, jfs: nat) {
    cfg.burstBits * 1000000 < cfg.bitrate * (jfs - p.target)
  }

  /** The idle test tells whether the sender was idle for longer than the burst takes if and only if the
      clock has passed the burst time. */
  lemma IdleExactIff(cfg: Cfg, p: Pace, jfs: nat)
    requires cfg.bitrate > 0 && p.target <= jfs < 0x8000_0000_0000_0000
    ensures (Idle(cfg, p, jfs) <==> LongIdle(cfg, p, jfs)) <==> BurstPassed(cfg, jfs)
  {
    var b := MaxBurst(cfg);
    DivBounds(cfg.burstBits * 1000000, cfg.bitrate);
    BurstNonNegative(cfg);
    MulMonotone(b, 1, cfg.bitrate);
    BurstTime(cfg, jfs - p.target);
    BurstTime(cfg, jfs + 1);
    if jfs >= b {
      SmallMod(jfs - b, U64_MOD);
    } else {
      assert (jfs - b) % U64_MOD == jfs - b + U64_MOD;
    }
  }

  // ---------- Inputs outside the hypotheses ----------

  /** With a 32-bit `size_t`, one packet of full size already wraps the time computation: at 1 Mbit/s
      the next packet may follow after 1650 microseconds instead of 10240. */
  lemma SizeWraps()
    ensures PaceStep(Cfg(1000000, 0, 0x1_0000_0000), StartPace(0, 0), 0, PKT_SIZE).target == 1650
    ensures PaceStep(Cfg(1000000, 0, 0x1_0000_0000_0000_0000), StartPace(0, 0), 0, PKT_SIZE).target == 10240
  {
  }

  /** Before the clock has reached the burst time, the idle test wraps and the next packet is clamped. */
  lemma EarlyClockClamps()
    ensures var cfg := Cfg(1000000, 1000000, 0x1_0000_0000_0000_0000);
            var p := PaceStep(cfg, StartPace(0, 0), 5, PKT_SIZE);
            && Idle(cfg, StartPace(0, 0), 5) && Clamped(cfg, p, 5)
            && SleepTime(cfg, p, 5) == 10241 && Restart(cfg, p, 5) == (10246, 0)
  {
  }

  /** At 2 bit/s the sleep argument is cut to 32 bits and the sleep is shorter than the delay. */
  lemma SlowRateCutsSleep()
    ensures var cfg := Cfg(2, 0, 0x1_0000_0000_0000_0000);
            var p := PaceStep(cfg, StartPace(0, 0), 0, PKT_SIZE);
            p.target == 5120000000 && SleepTime(cfg, p, 0) == 825032704
  {
  }
}
