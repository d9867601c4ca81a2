/**
 The rate of the video sender over every window of a run: idle time does not add up to more than one
 burst, because the start time moves forward after it.
 */
module VideoWindow {
  import opened CInt
  import opened VideoPacing

  /** `total` bits were sent since a packet that opened a window at time w. */
  ghost predicate Windowed(cfg: Cfg, p: Pace, w: int, total: int)
    requires ValidCfg(cfg)
  {
    && (total - p.sent) * 1000000 <= cfg.bitrate * (p.start - w)
    && p.start + Time(cfg, p.sent) <= p.target
  }

  /** The target is at most the start and the time of the bits sent, but for the first reading. */
  ghost predicate Tight(cfg: Cfg, p: Pace, slack: nat)
    requires ValidCfg(cfg)
  {
    p.target <= p.start + Time(cfg, p.sent) + slack
  }

  /** Start and bits that the next packet is counted on. */
  function Base(cfg: Cfg, p: Pace, jfs: nat): (int, nat)
    requires cfg.bitrate > 0
  {
    if Idle(cfg, p, jfs) then (jfs - MaxBurst(cfg), 0) else (p.start, p.sent)
  }

  /** In a proper run one packet moves the pacing without any wrap-around. */
  lemma {:induction false} ProperNext(cfg: Cfg, p: Pace, t0: nat, total: nat, last: nat, t: Tick)
    requires ValidCfg(cfg) && cfg.bitrate >= 3
    requires Paced(cfg, p, t0, total, last) && Proper(cfg, p, last, t)
    ensures p.target <= t.wake
    ensures var (start, base) := Base(cfg, p, t.jfs); var sent := base + t.len * 8;
            start >= 0 && PaceStep(cfg, p, t.jfs, t.len) == Pace(start, start + Time(cfg, sent), sent)
  {
    ProperStep(cfg, p, t0, total, last, t);
    DelayFits(cfg);
    BurstNonNegative(cfg);
    BurstTime(cfg, t.jfs + 1);
    if Idle(cfg, p, t.jfs) {
      var start := t.jfs - MaxBurst(cfg);
      PacketTime(cfg, 0, t.len);
      assert Time(cfg, 0) == 0;
      SmallMod(start, U64_MOD);
      NextTarget(cfg, p, t.jfs, t.len, start, 0);
    } else {
      PacketTime(cfg, p.sent, t.len);
      NextTarget(cfg, p, t.jfs, t.len, p.start, p.sent);
    }
  }

  /** Unless the sender was idle, a burst before the packet is not after the target. */
  lemma {:induction false} NotIdle(cfg: Cfg, p: Pace, jfs: nat)
    requires cfg.bitrate > 0 && MaxBurst(cfg) <= jfs < 0x8000_0000_0000_0000 && !Idle(cfg, p, jfs)
    ensures jfs - MaxBurst(cfg) <= p.target
  {
    BurstNonNegative(cfg);
    SmallMod(jfs - MaxBurst(cfg), U64_MOD);
  }

  /** Time that has passed up to the start and the time of the bits sent is paid for. */
  lemma {:induction false} PaidFor(cfg: Cfg, sent: nat, x: int)
    requires cfg.bitrate > 0 && x <= Time(cfg, sent)
    ensures cfg.bitrate * x <= sent * 1000000
  {
    DivBounds(sent * 1000000, cfg.bitrate);
    MulMonotone(cfg.bitrate, x, Time(cfg, sent));
  }

  /** A packet opens a window a burst before it is taken up. */
  lemma {:induction false} OpenWindow(cfg: Cfg, p: Pace, t0: nat, total: nat, last: nat, t: Tick, slack: nat)
    requires ValidCfg(cfg) && cfg.bitrate >= 3 && Tight(cfg, p, slack)
    requires Paced(cfg, p, t0, total, last) && Proper(cfg, p, last, t)
    ensures Windowed(cfg, PaceStep(cfg, p, t.jfs, t.len), t.jfs - MaxBurst(cfg) - slack, t.len * 8)
  {
    ProperNext(cfg, p, t0, total, last, t);
    var w := t.jfs - MaxBurst(cfg) - slack;
    if Idle(cfg, p, t.jfs) {
      MulMonotone(cfg.bitrate, 0, slack);
    } else {
      BurstTime(cfg, t.jfs + 1);
      NotIdle(cfg, p, t.jfs);
      PaidFor(cfg, p.sent, w - p.start);
      Opposite(cfg.bitrate, w, p.start);
    }
  }

  lemma {:induction false} Opposite(b: int, x: int, y: int)
    ensures b * (x - y) == -(b * (y - x))
  {
  }

  /** At a time not before the target, the window holds no more bits than the rate allows. */
  lemma {:induction false} WindowAt(cfg: Cfg, p: Pace, w: int, total: int, t: int)
    requires ValidCfg(cfg) && Windowed(cfg, p, w, total) && p.target <= t
    ensures total * 1000000 < cfg.bitrate * (t - w + 1)
  {
    var q := Time(cfg, p.sent);
    DivBounds(p.sent * 1000000, cfg.bitrate);
    MulMonotone(cfg.bitrate, p.start - w + q + 1, t - w + 1);
  }

  /** A later packet leaves the window open, also when it moves the start. */
  lemma {:induction false} KeepWindow(cfg: Cfg, p: Pace, t0: nat, sum: nat, last: nat, t: Tick, w: int, total: int)
    requires ValidCfg(cfg) && cfg.bitrate >= 3 && Windowed(cfg, p, w, total)
    requires Paced(cfg, p, t0, sum, last) && Proper(cfg, p, last, t)
    ensures Windowed(cfg, PaceStep(cfg, p, t.jfs, t.len), w, total + t.len * 8)
  {
    ProperNext(cfg, p, t0, sum, last, t);
    if Idle(cfg, p, t.jfs) {
      BurstNonNegative(cfg);
      BurstTime(cfg, t.jfs + 1);
      SmallMod(t.jfs - MaxBurst(cfg), U64_MOD);
      WindowAt(cfg, p, w, total, t.jfs - MaxBurst(cfg) - 1);
    }
  }

  lemma {:induction false} RunTight(cfg: Cfg, t0: nat, t1: nat, ticks: seq<Tick>)
    requires ValidCfg(cfg) && cfg.bitrate >= 3 && t0 <= t1
    requires ProperRun(cfg, StartPace(t0, t1), t1, ticks)
    ensures Tight(cfg, After(cfg, StartPace(t0, t1), ticks), t1 - t0)
  {
    if ticks != [] {
      var k := |ticks| - 1;
      RunPaced(cfg, t0, t1, ticks[..k]);
      ProperNext(cfg, After(cfg, StartPace(t0, t1), ticks[..k]), t0, Bits(ticks[..k]), LastWake(t1, ticks[..k]),
                 ticks[k]);
    }
  }

  lemma {:induction false} RunWindowed(cfg: Cfg, t0: nat, t1: nat, ticks: seq<Tick>, i: nat)
    requires ValidCfg(cfg) && cfg.bitrate >= 3 && t0 <= t1 && i < |ticks|
    requires ProperRun(cfg, StartPace(t0, t1), t1, ticks)
    ensures Windowed(cfg, After(cfg, StartPace(t0, t1), ticks), ticks[i].jfs - MaxBurst(cfg) - (t1 - t0),
                     Bits(ticks) - Bits(ticks[..i]))
  {
    var k := |ticks| - 1;
    var init, last := ticks[..k], LastWake(t1, ticks[..k]);
    var p := After(cfg, StartPace(t0, t1), init);
    RunPaced(cfg, t0, t1, init);
    if i == k {
      RunTight(cfg, t0, t1, init);
      OpenWindow(cfg, p, t0, Bits(init), last, ticks[k], t1 - t0);
    } else {
      RunWindowed(cfg, t0, t1, init, i);
      assert init[..i] == ticks[..i];
      KeepWindow(cfg, p, t0, Bits(init), last, ticks[k], ticks[i].jfs - MaxBurst(cfg) - (t1 - t0),
                 Bits(init) - Bits(ticks[..i]));
    }
  }

  lemma {:induction false} ProperPrefix(cfg: Cfg, p: Pace, t: nat, ticks: seq<Tick>, j: nat)
    requires ValidCfg(cfg) && j <= |ticks| && ProperRun(cfg, p, t, ticks)
    ensures ProperRun(cfg, p, t, ticks[..j])
  {
    if j == |ticks| {
      assert ticks[..j] == ticks;
    } else {
      ProperPrefix(cfg, p, t, ticks[..|ticks| - 1], j);
      assert ticks[..|ticks| - 1][..j] == ticks[..j];
    }
  }

  lemma {:induction false} WindowLast(cfg: Cfg, t0: nat, t1: nat, ticks: seq<Tick>, i: nat, t: Tick)
    requires ValidCfg(cfg) && cfg.bitrate >= 3 && t0 <= t1 && i < |ticks|
    requires ProperRun(cfg, StartPace(t0, t1), t1, ticks)
    requires Proper(cfg, After(cfg, StartPace(t0, t1), ticks), LastWake(t1, ticks), t)
    ensures (Bits(ticks) - Bits(ticks[..i])) * 1000000
            < cfg.bitrate * (t.wake - (ticks[i].jfs - MaxBurst(cfg) - (t1 - t0)) + 1)
  {
    var p := After(cfg, StartPace(t0, t1), ticks);
    RunPaced(cfg, t0, t1, ticks);
    RunWindowed(cfg, t0, t1, ticks, i);
    ProperNext(cfg, p, t0, Bits(ticks), LastWake(t1, ticks), t);
    WindowAt(cfg, p, ticks[i].jfs - MaxBurst(cfg) - (t1 - t0), Bits(ticks) - Bits(ticks[..i]), t.wake);
  }

  /** The rate bound over every window of a run: between packet i, taken up, and a later packet j, sent,
      the bits sent are less than what the rate allows for the time passed and one microsecond, plus the
      burst; however long the sender was idle before or in between. */
  lemma {:induction false} WindowBound(cfg: Cfg, t0: nat, t1: nat, ticks: seq<Tick>, i: nat, j: nat)
    requires ValidCfg(cfg) && cfg.bitrate >= 3 && t0 <= t1 && i < j < |ticks|
    requires ProperRun(cfg, StartPace(t0, t1), t1, ticks)
    ensures (Bits(ticks[..j]) - Bits(ticks[..i])) * 1000000
            < cfg.bitrate * (ticks[j].wake - ticks[i].jfs + (t1 - t0) + 1) + cfg.burstBits * 1000000
  {
    ProperPrefix(cfg, StartPace(t0, t1), t1, ticks, j + 1);
    assert ticks[..j + 1][..j] == ticks[..j] && ticks[..j][..i] == ticks[..i];
    WindowLast(cfg, t0, t1, ticks[..j], i, ticks[j]);
    BurstTime(cfg, 0);
    var passed := ticks[j].wake - ticks[i].jfs + (t1 - t0) + 1;
    assert ticks[j].wake - (ticks[i].jfs - MaxBurst(cfg) - (t1 - t0)) + 1 == passed + MaxBurst(cfg);
    assert cfg.bitrate * (passed + MaxBurst(cfg)) == cfg.bitrate * passed + cfg.bitrate * MaxBurst(cfg);
  }

  // ---------- No undue wait ----------

  /** `total` bits were sent since an idle period ended; the count starts no later than a burst before
      the packets since. */
  ghost predicate Rested(cfg: Cfg, p: Pace, last: int, total: nat)
    requires ValidCfg(cfg)
  {
    && p.start + MaxBurst(cfg) <= last && p.sent <= total
    && p.target == p.start + Time(cfg, p.sent)
  }

  lemma {:induction false} LongIdleIs(cfg: Cfg, p: Pace, last: nat, t: Tick)
    requires ValidCfg(cfg) && Proper(cfg, p, last, t)
    ensures LongIdle(cfg, p, t.jfs) ==> Idle(cfg, p, t.jfs)
    ensures Idle(cfg, p, t.jfs) ==> LongIdle(cfg, p, t.jfs)
  {
    if p.target <= t.jfs {
      IdleExactIff(cfg, p, t.jfs);
    } else {
      MulMonotone(cfg.bitrate, t.jfs - p.target, 0);
    }
  }

  /** The packet that ends an idle period. */
  lemma {:induction false} RestOver(cfg: Cfg, p: Pace, t0: nat, sum: nat, last: nat, t: Tick)
    requires ValidCfg(cfg) && cfg.bitrate >= 3
    requires Paced(cfg, p, t0, sum, last) && Proper(cfg, p, last, t) && LongIdle(cfg, p, t.jfs)
    ensures Rested(cfg, PaceStep(cfg, p, t.jfs, t.len), t.jfs, t.len * 8)
  {
    LongIdleIs(cfg, p, last, t);
    ProperNext(cfg, p, t0, sum, last, t);
  }

  lemma {:induction false} RestedNext(cfg: Cfg, p: Pace, t0: nat, sum: nat, last: nat, t: Tick, before: nat, total: nat)
    requires ValidCfg(cfg) && cfg.bitrate >= 3 && before <= last && Rested(cfg, p, before, total)
    requires Paced(cfg, p, t0, sum, last) && Proper(cfg, p, last, t)
    ensures Rested(cfg, PaceStep(cfg, p, t.jfs, t.len), t.jfs, total + t.len * 8)
  {
    ProperNext(cfg, p, t0, sum, last, t);
  }

  /** Up to the burst, the next packet does not wait. */
  lemma {:induction false} RestedReady(cfg: Cfg, p: Pace, before: nat, total: nat, jfs: nat)
    requires ValidCfg(cfg) && before <= jfs && Rested(cfg, p, before, total) && total <= cfg.burstBits
    ensures p.target <= jfs && SleepTime(cfg, p, jfs) == 0
  {
    DivMonotone(p.sent * 1000000, cfg.burstBits * 1000000, cfg.bitrate);
  }

  lemma {:induction false} RunRested(cfg: Cfg, t0: nat, t1: nat, ticks: seq<Tick>, i: nat)
    requires ValidCfg(cfg) && cfg.bitrate >= 3 && t0 <= t1 && i < |ticks|
    requires ProperRun(cfg, StartPace(t0, t1), t1, ticks)
    requires LongIdle(cfg, After(cfg, StartPace(t0, t1), ticks[..i]), ticks[i].jfs)
    ensures Bits(ticks[..i]) <= Bits(ticks)
    ensures Rested(cfg, After(cfg, StartPace(t0, t1), ticks), ticks[|ticks| - 1].jfs, Bits(ticks) - Bits(ticks[..i]))
  {
    var k := |ticks| - 1;
    var init, last := ticks[..k], LastWake(t1, ticks[..k]);
    var p := After(cfg, StartPace(t0, t1), init);
    RunPaced(cfg, t0, t1, init);
    if i == k {
      RestOver(cfg, p, t0, Bits(init), last, ticks[k]);
    } else {
      assert init[..i] == ticks[..i];
      RunRested(cfg, t0, t1, init, i);
      ProperWake(cfg, StartPace(t0, t1), t1, init);
      RestedNext(cfg, p, t0, Bits(init), last, ticks[k], init[k - 1].jfs, Bits(init) - Bits(ticks[..i]));
    }
  }

  lemma {:induction false} ProperWake(cfg: Cfg, p: Pace, t: nat, ticks: seq<Tick>)
    requires ValidCfg(cfg) && ticks != [] && ProperRun(cfg, p, t, ticks)
    ensures ticks[|ticks| - 1].jfs <= LastWake(t, ticks)
  {
  }

  lemma {:induction false} BurstLast(cfg: Cfg, t0: nat, t1: nat, ticks: seq<Tick>, i: nat, t: Tick)
    requires ValidCfg(cfg) && cfg.bitrate >= 3 && t0 <= t1 && i < |ticks|
    requires ProperRun(cfg, StartPace(t0, t1), t1, ticks) && LastWake(t1, ticks) <= t.jfs
    requires LongIdle(cfg, After(cfg, StartPace(t0, t1), ticks[..i]), ticks[i].jfs)
    requires Bits(ticks) - Bits(ticks[..i]) <= cfg.burstBits
    ensures SleepTime(cfg, After(cfg, StartPace(t0, t1), ticks), t.jfs) == 0
  {
    RunRested(cfg, t0, t1, ticks, i);
    ProperWake(cfg, StartPace(t0, t1), t1, ticks);
    RestedReady(cfg, After(cfg, StartPace(t0, t1), ticks), ticks[|ticks| - 1].jfs,
                Bits(ticks) - Bits(ticks[..i]), t.jfs);
  }

  /** After an idle time in which the rate would have allowed more than the burst, packets of up to the
      burst in all are sent without a wait. */
  lemma {:induction false} BurstAtOnce(cfg: Cfg, t0: nat, t1: nat, ticks: seq<Tick>, i: nat, j: nat)
    requires ValidCfg(cfg) && cfg.bitrate >= 3 && t0 <= t1 && i < j < |ticks|
    requires ProperRun(cfg, StartPace(t0, t1), t1, ticks)
    requires LongIdle(cfg, After(cfg, StartPace(t0, t1), ticks[..i]), ticks[i].jfs)
    requires Bits(ticks[..j]) - Bits(ticks[..i]) <= cfg.burstBits
    ensures SleepTime(cfg, After(cfg, StartPace(t0, t1), ticks[..j]), ticks[j].jfs) == 0
  {
    var p0 := StartPace(t0, t1);
    ProperPrefix(cfg, p0, t1, ticks, j + 1);
    assert ticks[..j + 1][..j] == ticks[..j] && ticks[..j][..i] == ticks[..i];
    assert ticks[..j][i] == ticks[i];
    BurstLast(cfg, t0, t1, ticks[..j], i, ticks[j]);
  }

  /** A packet waits only until the bits counted since the start are due at the rate. */
  lemma {:induction false} WaitIsDue(cfg: Cfg, t0: nat, t1: nat, ticks: seq<Tick>)
    requires ValidCfg(cfg) && cfg.bitrate >= 3 && t0 <= t1 && ticks != []
    requires ProperRun(cfg, StartPace(t0, t1), t1, ticks)
    ensures var k := |ticks| - 1; var p := After(cfg, StartPace(t0, t1), ticks[..k]);
            var sleep := SleepTime(cfg, p, ticks[k].jfs);
            sleep > 0 ==> cfg.bitrate * (ticks[k].jfs + sleep - p.start - (t1 - t0)) <= p.sent * 1000000
  {
    var k := |ticks| - 1;
    var p := After(cfg, StartPace(t0, t1), ticks[..k]);
    RunTight(cfg, t0, t1, ticks[..k]);
    ClampIsDead(cfg, t0, t1, ticks);
    DelayFits(cfg);
    if ticks[k].jfs < p.target {
      SmallMod(p.target - ticks[k].jfs, 0x1_0000_0000);
      PaidFor(cfg, p.sent, p.target - p.start - (t1 - t0));
    }
  }
}
