/**
 How deep the buffer wishes to be: packets that arrive out of step raise the wish to what the averaged
 difference asks for and no further, and only the timer lowers it, one frame at a time.
 */
module JbufWish {
  import opened CInt
  import opened JbufModel
  import opened JbufOrder
  import opened JbufFrames
  import opened JbufAccounting

  // ---------- One adaptation ----------

  /** The averaged difference makes this many whole frames, at the packets to a frame that are buffered. */
  predicate Asked(s: Jb, rdiff: int, w: int) {
    if s.nf > 0 then w * (EMA_COEFF * s.n) <= rdiff * s.nf < (w + 1) * (EMA_COEFF * s.n)
    else w * EMA_COEFF <= rdiff < (w + 1) * EMA_COEFF
  }

  /** The pool holds this many whole frames, at the packets to a frame that are buffered. */
  predicate Scaled(s: Jb, limit: int) {
    if s.nf > 0 then limit * s.n <= s.max * s.nf < (limit + 1) * s.n else limit == s.max
  }

  lemma QuotientIs(x: int, d: int, q: int)
    requires d > 0 && q * d <= x < (q + 1) * d
    ensures x / d == q
  {
    DivBounds(x, d);
    if x / d < q {
      MulMonotone(d, x / d + 1, q);
    } else if x / d > q {
      MulMonotone(d, q + 1, x / d);
    }
  }

  lemma RawWishIs(s: Jb, rdiff: int, ub: U32, w: int)
    requires Shape(s) && Exact(s) && 0 <= rdiff < 0x8000_0000 && Asked(s, rdiff, w)
    ensures RawWish(s, rdiff, ub) == w
  {
    if s.nf > 0 {
      ProductBelow(rdiff, s.nf, s.n);
      QuotientFits(rdiff, s.nf, s.n);
      QuotientIs(rdiff * s.nf, EMA_COEFF * s.n, w);
    } else {
      QuotientIs(rdiff, EMA_COEFF, w);
    }
  }

  lemma FrameLimitIs(s: Jb, ub: U32, limit: int)
    requires Shape(s) && Exact(s) && Scaled(s, limit)
    ensures FrameLimit(s, ub) == limit && 1 <= limit <= s.max
  {
    FrameLimitBounds(s, ub);
    if s.nf > 0 {
      ScaleBounds(s.max, s.nf, s.n);
      QuotientIs(s.max * s.nf, s.n, limit);
    }
  }

  /** Adapting raises the wish to the frames that the averaged difference makes, but at least to the
      minimum and at most to one frame less than the pool holds; it never lowers it. */
  lemma WishIs(s: Jb, sn: U16, ub: U32, asked: int, limit: int)
    requires Shape(s) && Exact(s) && s.jbtype == Adaptive && s.seqGet != 0 && 0 <= Ema(s, sn) < 0x8000_0000
    requires Asked(s, Ema(s, sn), asked) && Scaled(s, limit)
    ensures CalcRdiff(s, sn, ub).wish == Max(s.wish, Min(Max(asked, s.min), limit - 1))
  {
    RawWishIs(s, Ema(s, sn), ub, asked);
    FrameLimitIs(s, ub, limit);
  }

  lemma {:induction false} DivAsked(s: Jb, rdiff: int) returns (asked: int)
    requires Shape(s) && Exact(s)
    ensures Asked(s, rdiff, asked)
  {
    if s.nf > 0 {
      asked := rdiff * s.nf / (EMA_COEFF * s.n);
      DivBounds(rdiff * s.nf, EMA_COEFF * s.n);
    } else {
      asked := rdiff / EMA_COEFF;
    }
  }

  lemma {:induction false} DivScaled(s: Jb) returns (limit: int)
    requires Shape(s) && Exact(s)
    ensures Scaled(s, limit)
  {
    if s.nf > 0 {
      limit := s.max * s.nf / s.n;
      DivBounds(s.max * s.nf, s.n);
    } else {
      limit := s.max;
    }
  }

  /** The averaged difference asks for at least this many frames. */
  predicate AsksFor(s: Jb, rdiff: int, w: int) {
    if s.nf > 0 then w * (EMA_COEFF * s.n) <= rdiff * s.nf else w * EMA_COEFF <= rdiff
  }

  lemma AskedFewer(s: Jb, rdiff: int, asked: int, w: int)
    requires Asked(s, rdiff, asked) && w <= asked
    ensures AsksFor(s, rdiff, w)
  {
    MulMonotone(EMA_COEFF * s.n, w, asked);
  }

  /** So adapting raises the wish no further than the averaged difference asks for. */
  lemma WishNoHigher(s: Jb, sn: U16, ub: U32, r: Jb)
    requires Shape(s) && Exact(s) && s.jbtype == Adaptive && s.seqGet != 0 && 0 <= Ema(s, sn) < 0x8000_0000
    requires s.min <= s.wish && r == CalcRdiff(s, sn, ub)
    ensures r.wish > s.wish ==> AsksFor(s, r.rdiff, r.wish)
  {
    var asked := DivAsked(s, Ema(s, sn));
    var limit := DivScaled(s);
    WishIs(s, sn, ub, asked, limit);
    if r.wish > s.wish {
      AskedFewer(s, Ema(s, sn), asked, r.wish);
    }
  }

  // ---------- Runs ----------

  lemma ScaledWithin(n: int, nf: int, rdiff: int, d: int)
    requires 0 < nf <= n && rdiff <= d * EMA_COEFF && 0 <= d
    ensures rdiff * nf < (d + 1) * (EMA_COEFF * n)
  {
    MulMonotone(nf, rdiff, d * EMA_COEFF);
    MulMonotone(d * EMA_COEFF, nf, n);
    assert (d + 1) * (EMA_COEFF * n) == d * EMA_COEFF * n + EMA_COEFF * n;
  }

  /** In packets: an average of at most d packets asks for at most d frames. */
  lemma AsksWithin(s: Jb, rdiff: int, w: int, d: nat)
    requires Shape(s) && Exact(s) && AsksFor(s, rdiff, w) && rdiff <= d * EMA_COEFF
    ensures w <= d
  {
    if s.nf > 0 {
      ScaledWithin(s.n, s.nf, rdiff, d);
      if w >= d + 1 {
        MulMonotone(EMA_COEFF * s.n, d + 1, w);
      }
    }
  }

  lemma WishWithin(s: Jb, sn: U16, ub: U32, d: nat, r: Jb)
    requires Shape(s) && Exact(s) && s.jbtype == Adaptive && s.seqGet != 0 && s.min <= s.wish
    requires 0 <= Ema(s, sn) <= d * EMA_COEFF && d <= 0x8000 && r == CalcRdiff(s, sn, ub)
    ensures r.wish <= Max(s.wish, d)
  {
    WishNoHigher(s, sn, ub, r);
    if r.wish > s.wish {
      AsksWithin(s, r.rdiff, r.wish, d);
    }
  }

  lemma PrepareExact(s: Jb, h: Hdr, now: nat)
    requires Shape(s) && Exact(s)
    ensures var r := Prepare(s, h, now);
            Shape(r) && Exact(r) && r.wish == s.wish && r.min == s.min && r.jbtype == s.jbtype
  {
  }

  lemma PutWish(y: Sys, op: Op)
    requires Shape(y.jb) && op.OpPut?
    ensures Step(y, op).jb.wish == Adapted(y.jb, op.h, op.now, op.ub).wish
  {
    StoreKeeps(Adapted(y.jb, op.h, op.now, op.ub), Pkt(op.h, op.mem));
  }

  /** What put does to the wish: it is left alone, or adapted where the difference is averaged. */
  lemma PutAdapts(y: Sys, op: Op)
    requires Shape(y.jb) && op.OpPut?
    ensures var s := Prepare(y.jb, op.h, op.now);
            Step(y, op).jb.wish == if Averages(y, op) then CalcRdiff(s, op.h.sn, op.ub).wish else s.wish
  {
    PutWish(y, op);
  }

  lemma StepWish(y: Sys, op: Op, d: nat)
    requires Shape(y.jb) && Exact(y.jb) && y.jb.min <= y.jb.wish
    requires 0 <= y.jb.rdiff <= d * EMA_COEFF && d <= 0x8000
    requires Averages(y, op) ==> NoJump(y.jb, op.h.sn) && Abs(ReverseDiff(y.jb, op.h.sn)) <= d
    ensures Step(y, op).jb.wish <= Max(y.jb.wish, d)
  {
    if op.OpPut? {
      var s := Prepare(y.jb, op.h, op.now);
      PutAdapts(y, op);
      PrepareExact(y.jb, op.h, op.now);
      if Averages(y, op) {
        StepEma(y, op, d);
        PutAverage(y, op);
        WishWithin(s, op.h.sn, op.ub, d, CalcRdiff(s, op.h.sn, op.ub));
      }
    }
  }

  /** Over every run in which no packet arrives more than d packets from where it was due, the wish does not
      rise above d frames; on a stream in order, with d = 0, nothing ever raises it. */
  lemma {:induction false} RunWish(y: Sys, ops: seq<Op>, d: nat)
    requires FrameInv(y) && FrameRun(y, ops) && 0 <= y.jb.rdiff <= d * EMA_COEFF && d <= 0x8000
    requires SmoothRun(y, ops) && CloseRun(y, ops, d)
    ensures Run(y, ops).jb.wish <= Max(y.jb.wish, d)
    decreases |ops|
  {
    if ops != [] {
      StepWish(y, ops[0], d);
      StepEma(y, ops[0], d);
      StepFrames(y, ops[0]);
      RunWish(Step(y, ops[0]), ops[1..], d);
    }
  }

  // ---------- The timer ----------

  /** The wish after the timer has fired k times: one frame less each time, down to the minimum. */
  lemma {:induction false} TimerLowers(s: Jb, k: nat, r: Jb)
    requires s.min <= s.wish && r == Fired(s, k)
    ensures r.wish == Max(s.min, s.wish - k) && r == s.(wish := r.wish)
  {
    if k > 0 {
      TimerLowers(s, k - 1, Fired(s, k - 1));
    }
  }

  function Fired(s: Jb, k: nat): Jb {
    if k == 0 then s else WishDown(Fired(s, k - 1))
  }

  /** Delivering and flushing leave the wish and the average alone. */
  lemma OthersKeepWish(y: Sys, op: Op)
    requires Shape(y.jb) && (op.OpGet? || op.OpDrain? || op.OpFlush?)
    ensures Step(y, op).jb.wish == y.jb.wish && Step(y, op).jb.rdiff == y.jb.rdiff
  {
  }
}
