/** What the statistics of the jitter buffer add up to, and the arithmetic of its moving average. */
module JbufAccounting {
  import opened CInt
  import opened Common
  import opened JbufModel

  // ---------- Conservation of packets ----------

  /** Packets put since the last flush less those that left or are still there, as an integer. */
  function Missing(y: Sys): int {
    var t := y.jb.stat;
    t.nPut - t.nDups - t.nOverflow - (t.nGet - t.nUnderflow) - y.drained - y.jb.n
  }

  predicate Balanced(y: Sys) {
    Missing(y) % 0x1_0000_0000 == 0
  }

  /** Adding differences that cancel modulo 2^32 keeps a multiple of 2^32. */
  lemma Cancel(a: int, x: U32, y: U32)
    requires a % 0x1_0000_0000 == 0
    ensures (a + Inc(x) - Inc(y) - x + y) % 0x1_0000_0000 == 0
    ensures (a + Inc(x) - x - 1) % 0x1_0000_0000 == 0
    ensures (a - Inc(x) + x + 1) % 0x1_0000_0000 == 0
  {
  }

  /** The counters after a store: the packet is new, a duplicate, or either of these after a steal. */
  lemma StoreCounts(s: Jb, p: Pkt)
    requires Shape(s)
    ensures var (r, err) := Store(s, p);
            && r.stat.nPut == Inc(s.stat.nPut)
            && r.stat.nDups == (if err == EALREADY then Inc(s.stat.nDups) else s.stat.nDups)
            && r.stat.nOverflow == (if s.free == 0 then Inc(s.stat.nOverflow) else s.stat.nOverflow)
            && r.stat.nGet == s.stat.nGet && r.stat.nUnderflow == s.stat.nUnderflow
            && r.n == s.n + 1 - (if err == EALREADY then 1 else 0) - (if s.free == 0 then 1 else 0)
  {
  }

  /** The balance of a store, on the counters alone. */
  lemma StoreBalance(m: int, put: U32, dups: U32, over: U32, dup: bool, steal: bool)
    requires m % 0x1_0000_0000 == 0
    ensures (m + Inc(put) - put - (if dup then Inc(dups) - dups else 0) - (if steal then Inc(over) - over else 0)
             - (1 - (if dup then 1 else 0) - (if steal then 1 else 0))) % 0x1_0000_0000 == 0
  {
    Cancel(m, put, put);
    var m1 := m + Inc(put) - put - 1;
    Cancel(m1, dups, dups);
    var m2 := if dup then m1 - Inc(dups) + dups + 1 else m1;
    Cancel(m2, over, over);
  }

  lemma StoreBalanced(y: Sys, p: Pkt)
    requires Shape(y.jb) && Balanced(y)
    ensures Balanced(y.(jb := Store(y.jb, p).0))
  {
    var t := y.jb.stat;
    var err := Store(y.jb, p).1;
    StoreCounts(y.jb, p);
    StoreBalance(Missing(y), t.nPut, t.nDups, t.nOverflow, err == EALREADY, y.jb.free == 0);
  }

  lemma AdaptedCounts(s: Jb, h: Hdr, now: nat, ub: U32)
    requires Shape(s)
    ensures var r := Adapted(s, h, now, ub);
            if PutFlushes(s, h, now) then r.stat == NO_STAT.(nFlush := r.stat.nFlush) && r.n == 0
            else r.stat == s.stat && r.n == s.n
  {
  }

  lemma PutBalanced(y: Sys, op: Op)
    requires Shape(y.jb) && Balanced(y) && op.OpPut?
    ensures Balanced(Step(y, op))
  {
    var s1 := Adapted(y.jb, op.h, op.now, op.ub);
    var y1 := if PutFlushes(y.jb, op.h, op.now) then Sys(s1, [], 0) else y.(jb := s1);
    AdaptedCounts(y.jb, op.h, op.now, op.ub);
    assert Balanced(y1);
    if !Late(s1, op.h.sn) {
      StoreBalanced(y1, Pkt(op.h, op.mem));
    }
  }

  lemma GetCounts(s: Jb)
    requires Shape(s)
    ensures var r := Get(s).0;
            && r.stat.nGet == Inc(s.stat.nGet)
            && r.stat.nUnderflow == (if Ready(s) then s.stat.nUnderflow else Inc(s.stat.nUnderflow))
            && r.stat.nPut == s.stat.nPut && r.stat.nDups == s.stat.nDups
            && r.stat.nOverflow == s.stat.nOverflow
            && r.n == (if Ready(s) then s.n - 1 else s.n)
  {
  }

  lemma GetBalanced(y: Sys)
    requires Shape(y.jb) && Balanced(y)
    ensures Balanced(Step(y, OpGet))
  {
    var t := y.jb.stat;
    GetCounts(y.jb);
    Cancel(Missing(y), t.nUnderflow, t.nGet);
    Cancel(Missing(y), t.nGet, t.nGet);
  }

  lemma StepBalanced(y: Sys, op: Op)
    requires Shape(y.jb) && Balanced(y)
    ensures Balanced(Step(y, op))
  {
    match op
    case OpPut(_, _, _, _) => PutBalanced(y, op);
    case OpGet => GetBalanced(y);
    case OpDrain =>
      assert y.jb.pkts != [] ==> Step(y, op).jb.n == y.jb.n - 1;
    case OpFlush =>
    case OpWishDown =>
  }

  /** In every reachable state, on any input: since the last flush, packets put are those found
      duplicate, those dropped on overflow, those got, those drained and those still buffered. */
  lemma {:induction false} RunBalanced(y: Sys, ops: seq<Op>)
    requires Shape(y.jb) && Balanced(y)
    ensures Shape(Run(y, ops).jb) && Balanced(Run(y, ops))
    decreases |ops|
  {
    if ops != [] {
      StepBalanced(y, ops[0]);
      RunBalanced(Step(y, ops[0]), ops[1..]);
    }
  }

  lemma StartBalanced(min: U32, max: U32, jbtype: JbType, gnackOn: bool)
    requires min <= max && max > 0
    ensures Balanced(Start(min, max, jbtype, gnackOn)) && Start(min, max, jbtype, gnackOn).jb.rdiff == 0
  {
  }

  // ---------- The moving average ----------

  /** The largest difference of two 16-bit numbers, in the units of the average. */
  const EMA_TOP: int := 0x8000 * 1024

  /** The product that the average is computed from, before it is stored in 32 bits. */
  function EmaProduct(s: Jb, sn: U16): int {
    var adiff := Abs(ReverseDiff(s, sn) * EMA_COEFF);
    (adiff - s.rdiff) * EmaSpeed(s, adiff)
  }

  predicate FitsI32(x: int) {
    -0x8000_0000 <= x < 0x8000_0000
  }

  predicate Between(a: int, x: int, b: int) {
    a <= x <= b || b <= x <= a
  }

  /** Is the difference less than 4096 packets above the average? */
  predicate NoJump(s: Jb, sn: U16) {
    Abs(ReverseDiff(s, sn) * EMA_COEFF) - s.rdiff < 4096 * EMA_COEFF
  }

  /** From any average that differences can lead to, the product overflows exactly when the difference
      is 4096 packets or more above it. */
  lemma EmaOverflowIff(s: Jb, sn: U16)
    requires 0 <= s.rdiff <= EMA_TOP
    ensures FitsI32(EmaProduct(s, sn)) <==> NoJump(s, sn)
  {
  }

  lemma I32Same(x: int)
    requires FitsI32(x)
    ensures ToI32(x) == x
  {
  }

  /** The step of the average, on numbers: k is the speed. */
  lemma EmaArithmetic(r: int, a: int, k: int)
    requires 0 <= r <= EMA_TOP && 0 <= a <= EMA_TOP && a - r < 4096 * EMA_COEFF
    requires if a > r then k == UP_SPEED else 1 <= k <= 3
    ensures FitsI32((a - r) * k) && Between(r, r + CDiv((a - r) * k, EMA_COEFF), a)
  {
    assert k == 1 || k == 2 || k == 3 || k == UP_SPEED;
  }

  /** Without a jump nothing overflows, and the average moves toward the new difference without
      passing it. */
  lemma EmaBounded(s: Jb, sn: U16)
    requires 0 <= s.rdiff <= EMA_TOP && NoJump(s, sn)
    ensures FitsI32(EmaProduct(s, sn))
    ensures Ema(s, sn) == s.rdiff + CDiv(EmaProduct(s, sn), EMA_COEFF)
    ensures Between(s.rdiff, Ema(s, sn), Abs(ReverseDiff(s, sn) * EMA_COEFF))
  {
    var a := Abs(ReverseDiff(s, sn) * EMA_COEFF);
    EmaArithmetic(s.rdiff, a, EmaSpeed(s, a));
    I32Same(EmaProduct(s, sn));
    I32Same(s.rdiff + CDiv(EmaProduct(s, sn), EMA_COEFF));
  }

  lemma UpStep(d: int)
    requires d > 0
    ensures CDiv(d * UP_SPEED, EMA_COEFF) == d / 2
  {
  }

  lemma DownStep(d: int, k: int)
    requires d >= 0 && 1 <= k <= 3
    ensures CDiv(-d * k, EMA_COEFF) == -(d * k / 1024) && 0 <= 1024 * (d * k / 1024) <= 3 * d
  {
    assert k == 1 || k == 2 || k == 3;
  }

  /** Parts in 1024 by which the average falls. */
  function FallParts(wish: U32): int {
    if wish <= 1 then 3 else if wish == 2 then 2 else 1
  }

  /** Upward the average covers half of the way, rounded down; downward it covers three parts in 1024 at a
      wish size of at most one frame, two at two frames and one above, rounded down, so that it stalls
      exactly when those parts come to less than one. */
  lemma EmaSteps(s: Jb, sn: U16)
    requires 0 <= s.rdiff <= EMA_TOP && NoJump(s, sn)
    ensures var a := Abs(ReverseDiff(s, sn) * EMA_COEFF);
            && (a > s.rdiff ==> Ema(s, sn) - s.rdiff == (a - s.rdiff) / 2)
            && (a <= s.rdiff ==> s.rdiff - Ema(s, sn) == (s.rdiff - a) * FallParts(s.wish) / 1024)
            && (a <= s.rdiff ==> (Ema(s, sn) == s.rdiff <==> (s.rdiff - a) * FallParts(s.wish) < 1024))
  {
    EmaBounded(s, sn);
    var a := Abs(ReverseDiff(s, sn) * EMA_COEFF);
    if a > s.rdiff {
      UpStep(a - s.rdiff);
    } else {
      DownStep(s.rdiff - a, EmaSpeed(s, a));
    }
  }

  /** The first difference that overflows, from an average of zero. */
  lemma EmaFirstOverflow(s: Jb, sn: U16)
    requires s.rdiff == 0
    ensures Abs(ReverseDiff(s, sn)) >= 4096 <==> !FitsI32(EmaProduct(s, sn))
  {
  }

  /** Does this operation move the average? */
  predicate Averages(y: Sys, op: Op)
    requires Shape(y.jb)
  {
    op.OpPut? &&
    var s := Prepare(y.jb, op.h, op.now);
    s.running && s.jbtype == Adaptive && s.seqGet != 0
  }

  /** No difference that is averaged jumps 4096 packets or more above the average. */
  ghost predicate SmoothRun(y: Sys, ops: seq<Op>)
    requires Shape(y.jb)
    decreases |ops|
  {
    ops == [] ||
    ((Averages(y, ops[0]) ==> NoJump(y.jb, ops[0].h.sn)) && SmoothRun(Step(y, ops[0]), ops[1..]))
  }

  /** No difference that is averaged is of more than d packets. */
  ghost predicate CloseRun(y: Sys, ops: seq<Op>, d: nat)
    requires Shape(y.jb)
    decreases |ops|
  {
    ops == [] ||
    ((Averages(y, ops[0]) ==> Abs(ReverseDiff(y.jb, ops[0].h.sn)) <= d) && CloseRun(Step(y, ops[0]), ops[1..], d))
  }

  /** No product of the run overflows. */
  ghost predicate ExactRun(y: Sys, ops: seq<Op>)
    requires Shape(y.jb)
    decreases |ops|
  {
    ops == [] ||
    ((Averages(y, ops[0]) ==> FitsI32(EmaProduct(Prepare(y.jb, ops[0].h, ops[0].now), ops[0].h.sn)))
     && ExactRun(Step(y, ops[0]), ops[1..]))
  }

  /** Preparing for a packet touches neither the average nor the difference. */
  lemma PrepareKeepsAverage(s: Jb, h: Hdr, now: nat)
    requires Shape(s)
    ensures var s1 := Prepare(s, h, now);
            s1.rdiff == s.rdiff && ReverseDiff(s1, h.sn) == ReverseDiff(s, h.sn)
  {
  }

  lemma StoreKeepsAverage(s: Jb, p: Pkt)
    requires Shape(s)
    ensures Store(s, p).0.rdiff == s.rdiff
  {
  }

  /** The average after a put. */
  lemma PutAverage(y: Sys, op: Op)
    requires Shape(y.jb) && op.OpPut?
    ensures Step(y, op).jb.rdiff
            == if Averages(y, op) then Ema(Prepare(y.jb, op.h, op.now), op.h.sn) else y.jb.rdiff
  {
    PrepareKeepsAverage(y.jb, op.h, op.now);
    StoreKeepsAverage(Adapted(y.jb, op.h, op.now, op.ub), Pkt(op.h, op.mem));
  }

  lemma StepEma(y: Sys, op: Op, d: nat)
    requires Shape(y.jb) && 0 <= y.jb.rdiff <= d * EMA_COEFF && d <= 0x8000
    requires Averages(y, op) ==> NoJump(y.jb, op.h.sn) && Abs(ReverseDiff(y.jb, op.h.sn)) <= d
    ensures 0 <= Step(y, op).jb.rdiff <= d * EMA_COEFF
  {
    if op.OpPut? {
      PutAverage(y, op);
      PrepareKeepsAverage(y.jb, op.h, op.now);
      if Averages(y, op) {
        EmaBounded(Prepare(y.jb, op.h, op.now), op.h.sn);
      }
    }
  }

  /** In every reachable state of a run without jumps and with differences of at most d packets the
      average is in 0..d*1024; d = 2^15 covers every difference of 16-bit numbers. */
  lemma {:induction false} RunEmaBounded(y: Sys, ops: seq<Op>, d: nat)
    requires Shape(y.jb) && 0 <= y.jb.rdiff <= d * EMA_COEFF && d <= 0x8000
    requires SmoothRun(y, ops) && (d == 0x8000 || CloseRun(y, ops, d))
    ensures 0 <= Run(y, ops).jb.rdiff <= d * EMA_COEFF
    decreases |ops|
  {
    if ops != [] {
      StepEma(y, ops[0], d);
      RunEmaBounded(Step(y, ops[0]), ops[1..], d);
    }
  }

  /** Over a whole run no product overflows if and only if no difference jumps. */
  lemma {:induction false} RunExactIff(y: Sys, ops: seq<Op>)
    requires Shape(y.jb) && 0 <= y.jb.rdiff <= EMA_TOP
    ensures ExactRun(y, ops) <==> SmoothRun(y, ops)
    decreases |ops|
  {
    if ops != [] {
      var op := ops[0];
      if op.OpPut? {
        PrepareKeepsAverage(y.jb, op.h, op.now);
        EmaOverflowIff(Prepare(y.jb, op.h, op.now), op.h.sn);
      }
      if Averages(y, op) ==> NoJump(y.jb, op.h.sn) {
        StepEma(y, op, 0x8000);
        RunExactIff(Step(y, op), ops[1..]);
      }
    }
  }

  /** Differences of less than 4096 packets never jump. */
  lemma {:induction false} CloseIsSmooth(y: Sys, ops: seq<Op>, d: nat)
    requires Shape(y.jb) && 0 <= y.jb.rdiff <= d * EMA_COEFF && d < 4096 && CloseRun(y, ops, d)
    ensures SmoothRun(y, ops)
    decreases |ops|
  {
    if ops != [] {
      StepEma(y, ops[0], d);
      CloseIsSmooth(Step(y, ops[0]), ops[1..], d);
    }
  }
}
