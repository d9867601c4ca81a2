/**
 Frames of several packets: with at most k packets to a timestamp the receiver never overflows its
 jitter buffer as long as k times the largest depth the buffer may wish for stays below the pool size.
 */
module RtpFrames {
  import opened CInt
  import opened Common
  import opened JbufModel
  import opened JbufOrder
  import opened JbufFrames
  import opened RtpModel
  import opened RtpOverflow

  /** How many packets have this timestamp. */
  function Same(pkts: seq<Pkt>, ts: U32): nat {
    if pkts == [] then 0 else (if pkts[0].hdr.ts == ts then 1 else 0) + Same(pkts[1..], ts)
  }

  ghost predicate AtMost(pkts: seq<Pkt>, k: nat) {
    forall ts: U32 :: Same(pkts, ts) <= k
  }

  lemma {:induction false} SameInsert(pkts: seq<Pkt>, i: nat, p: Pkt, ts: U32)
    requires i <= |pkts|
    ensures Same(InsertAt(pkts, i, p), ts) == Same(pkts, ts) + (if p.hdr.ts == ts then 1 else 0)
    decreases i
  {
    var r := InsertAt(pkts, i, p);
    if i == 0 {
      assert r[1..] == pkts;
    } else {
      SameInsert(pkts[1..], i - 1, p, ts);
      assert r[1..] == InsertAt(pkts[1..], i - 1, p);
    }
  }

  lemma {:induction false} TailAtMost(pkts: seq<Pkt>, k: nat)
    requires AtMost(pkts, k) && pkts != []
    ensures AtMost(pkts[1..], k)
  {
    forall ts: U32
      ensures Same(pkts[1..], ts) <= k
    {
      assert Same(pkts, ts) <= k;
    }
  }

  /** Packets in the first frame. */
  function Lead(pkts: seq<Pkt>): nat {
    if pkts == [] then 0 else if HeadEndsFrame(pkts) then 1 else 1 + Lead(pkts[1..])
  }

  lemma {:induction false} LeadIsSame(pkts: seq<Pkt>)
    requires pkts != []
    ensures Lead(pkts) <= Same(pkts, pkts[0].hdr.ts)
  {
    if !HeadEndsFrame(pkts) {
      LeadIsSame(pkts[1..]);
    }
  }

  /** At most k packets to a frame. */
  lemma {:induction false} FramesHold(pkts: seq<Pkt>, k: nat)
    requires AtMost(pkts, k)
    ensures pkts != [] ==> |pkts| <= k * (Frames(pkts) - 1) + Lead(pkts)
    ensures |pkts| <= k * Frames(pkts)
  {
    if pkts != [] {
      var rest := pkts[1..];
      TailAtMost(pkts, k);
      FramesHold(rest, k);
      LeadIsSame(pkts);
      assert Same(pkts, pkts[0].hdr.ts) <= k;
      if HeadEndsFrame(pkts) {
        assert Frames(pkts) - 1 == Frames(rest);
      } else {
        assert Frames(pkts) == Frames(rest);
      }
      assert k * Frames(pkts) == k * (Frames(pkts) - 1) + k;
    }
  }

  // ---------- The receiver ----------

  /** The largest depth that a buffer may wish for: adaptation can take it up to max - 1. */
  function MaxDepth(min: U32, max: U32, jbtype: JbType): nat {
    if jbtype == Fixed || min >= max then min else max - 1
  }

  predicate Roomy(s: Jb, k: nat) {
    (s.jbtype == Fixed ==> s.wish == s.min) && k * MaxDepth(s.min, s.max, s.jbtype) < s.max
  }

  /** What the buffer keeps at every point of the loop. */
  ghost predicate Holding(y: Sys, k: nat) {
    FrameInv(y) && AtMost(y.jb.pkts, k) && Roomy(y.jb, k) && y.jb.stat.nOverflow == 0
  }

  /** Between operations there is also a free node. */
  ghost predicate Settled(y: Sys, k: nat) {
    Holding(y, k) && y.jb.free > 0
  }

  /** With no more frames than wished for, a node is free. */
  lemma HoldingFree(y: Sys, k: nat)
    requires Holding(y, k) && k > 0 && y.jb.nf <= y.jb.wish
    ensures Settled(y, k)
  {
    var depth := MaxDepth(y.jb.min, y.jb.max, y.jb.jbtype);
    if y.jb.min >= y.jb.max {
      MulMonotone(depth, 1, k);
    }
    FramesHold(y.jb.pkts, k);
    MulMonotone(k, y.jb.nf, depth);
  }

  /** A new packet of this timestamp is at most the k-th. */
  ghost predicate FewPackets(y: Sys, op: Op, k: nat) {
    op.OpPut? ==>
      var met := Met(y, op.h, op.now); op.mem.ext in Exts(met) || Same(met, op.h.ts) < k
  }

  lemma StoreFew(s: Jb, p: Pkt, k: nat)
    requires Shape(s) && s.free > 0 && Sorted(s.pkts) && Numbered(p) && AtMost(s.pkts, k)
    requires forall q :: q in s.pkts ==> Near(q.mem.ext, p.mem.ext)
    requires p.mem.ext in Exts(s.pkts) || Same(s.pkts, p.hdr.ts) < k
    ensures var r := Store(s, p).0; AtMost(r.pkts, k) && r.stat.nOverflow == s.stat.nOverflow
  {
    DuplicateMeans(s.pkts, p);
    if !Duplicate(s.pkts, p.hdr.sn) {
      forall ts: U32
        ensures Same(Store(s, p).0.pkts, ts) <= k
      {
        SameInsert(s.pkts, ScanBack(s.pkts, p.hdr.sn), p, ts);
        assert Same(s.pkts, ts) <= k;
      }
    }
  }

  lemma AdaptedHolds(s: Jb, h: Hdr, now: nat, ub: U32)
    requires Shape(s) && s.free > 0 && s.stat.nOverflow == 0
    ensures var r := Adapted(s, h, now, ub);
            && r.jbtype == s.jbtype && (s.jbtype == Fixed ==> r.wish == s.wish)
            && r.free > 0 && r.stat.nOverflow == 0
  {
  }

  lemma StoreKeepsType(s: Jb, p: Pkt)
    requires Shape(s)
    ensures Store(s, p).0.jbtype == s.jbtype
  {
  }

  lemma PutHolds(y: Sys, op: Op, k: nat)
    requires Holding(y, k) && y.jb.free > 0 && op.OpPut?
    requires Admissible(y, op) && FramesTogether(y, op) && FewPackets(y, op, k)
    ensures Holding(Step(y, op), k)
  {
    var s1, p := Adapted(y.jb, op.h, op.now, op.ub), Pkt(op.h, op.mem);
    StepFrames(y, op);
    AdaptedKeeps(y.jb, op.h, op.now, op.ub);
    AdaptedHolds(y.jb, op.h, op.now, op.ub);
    if !Late(s1, op.h.sn) {
      StoreFew(s1, p, k);
      StoreKeeps(s1, p);
      StoreKeepsType(s1, p);
    }
  }

  lemma GetHolds(y: Sys, k: nat)
    requires Holding(y, k)
    ensures Holding(Step(y, OpGet), k)
    ensures Ready(y.jb) ==> |Step(y, OpGet).jb.pkts| == |y.jb.pkts| - 1
    ensures Get(y.jb).1 != EAGAIN ==> Step(y, OpGet).jb.nf <= Step(y, OpGet).jb.wish
  {
    GetFewer(y);
    if Ready(y.jb) {
      TailAtMost(y.jb.pkts, k);
    }
  }

  lemma {:induction false} LoopSettles(rx: Rx, n: nat, ignores: seq<bool>, k: nat, r: Rx)
    requires Holding(rx.sys, k) && k > 0 && n == |rx.sys.jb.pkts| && EndsIn(rx, n, ignores, r)
    ensures Settled(r.sys, k)
    decreases n
  {
    if n == 0 {
      HoldingFree(rx.sys, k);
    } else {
      GetHolds(rx.sys, k);
      FrameStep(rx, First(ignores));
      var (rx1, again) := DecodeFrame(rx, First(ignores));
      if again {
        LoopSettles(rx1, n - 1, Rest(ignores), k, r);
      } else {
        HoldingFree(rx1.sys, k);
      }
    }
  }

  ghost predicate FewArrive(rx: Rx, op: RxOp, k: nat)
    requires Shape(rx.sys.jb)
  {
    Accepts(rx, op) ==>
      var y := BeforePut(rx, op.h);
      Admissible(y, PutOp(op)) && FramesTogether(y, PutOp(op)) && FewPackets(y, PutOp(op), k)
  }

  ghost predicate FewRun(rx: Rx, ops: seq<RxOp>, k: nat)
    requires Shape(rx.sys.jb)
    decreases |ops|
  {
    ops == [] || (FewArrive(rx, ops[0], k) && FewRun(RxStep(rx, ops[0]), ops[1..], k))
  }

  lemma FlushSettles(y: Sys, k: nat)
    requires Settled(y, k)
    ensures Settled(Step(y, OpFlush), k)
  {
    StepFrames(y, OpFlush);
  }

  lemma ReceiveSettles(rx: Rx, op: RxOp, k: nat)
    requires Settled(rx.sys, k) && k > 0 && Accepts(rx, op) && FewArrive(rx, op, k)
    ensures Settled(RxStep(rx, op).sys, k)
  {
    var y := BeforePut(rx, op.h);
    if SsrcMoved(rx, op.h) {
      FlushSettles(rx.sys, k);
    }
    PutHolds(y, PutOp(op), k);
    var r := AfterPut(rx, op);
    LoopSettles(r, r.sys.jb.n, op.ignores, k, RxStep(rx, op));
  }

  lemma OtherSettles(rx: Rx, op: RxOp, k: nat)
    requires Settled(rx.sys, k) && !Accepts(rx, op)
    ensures Settled(RxStep(rx, op).sys, k)
  {
    match op
    case Receive(h, _, _, _, _, _) => assert RxStep(rx, op).sys == rx.sys;
    case WishTimer => StepFrames(rx.sys, OpWishDown);
    case FlushRx => FlushSettles(rx.sys, k);
    case Enable(_) =>
    case SetSsrc(_) =>
  }

  /** In every reachable state, on frames of at most k packets and with k times the largest depth below
      max: nothing has been dropped for want of a node, and a node is free for the next. */
  lemma {:induction false} FramesNeverOverflow(rx: Rx, ops: seq<RxOp>, k: nat)
    requires Settled(rx.sys, k) && k > 0 && FewRun(rx, ops, k)
    ensures Settled(RxRun(rx, ops).sys, k)
    decreases |ops|
  {
    if ops != [] {
      if Accepts(rx, ops[0]) {
        ReceiveSettles(rx, ops[0], k);
      } else {
        OtherSettles(rx, ops[0], k);
      }
      FramesNeverOverflow(RxStep(rx, ops[0]), ops[1..], k);
    }
  }

  lemma StartSettled(min: U32, max: U32, k: nat, jbtype: JbType, gnackOn: bool)
    requires max >= 2 && min <= max && k * MaxDepth(min, max, jbtype) < max
    ensures Settled(RxStart(min, max, jbtype, gnackOn).sys, k)
  {
    StartFrames(min, max, jbtype, gnackOn);
  }
}
