/**
 The receiver never overflows its jitter buffer on a stream with one packet per timestamp: every
 received packet leaves at most as many frames as wished for, so the next one finds a free node.
 */
module RtpOverflow {
  import opened CInt
  import opened Common
  import opened JbufModel
  import opened JbufOrder
  import opened JbufFrames
  import opened RtpModel

  /** No two buffered packets share a timestamp. */
  ghost predicate Distinct(pkts: seq<Pkt>) {
    forall i, j :: 0 <= i < j < |pkts| ==> pkts[i].hdr.ts != pkts[j].hdr.ts
  }

  lemma {:induction false} DistinctFrames(pkts: seq<Pkt>)
    requires Distinct(pkts)
    ensures Frames(pkts) == |pkts|
  {
    if pkts != [] {
      DistinctFrames(pkts[1..]);
    }
  }

  /** What the buffer keeps at every point of the loop. */
  ghost predicate Flowing(y: Sys) {
    && Inv(y) && Exact(y.jb) && Distinct(y.jb.pkts) && WishBounded(y.jb)
    && y.jb.min < y.jb.max && y.jb.stat.nOverflow == 0
  }

  /** One packet per timestamp: a buffered packet with this timestamp is this packet. */
  ghost predicate OneStamp(y: Sys, op: Op) {
    op.OpPut? ==> forall q :: q in Met(y, op.h, op.now) && q.hdr.ts == op.h.ts ==> q.mem.ext == op.mem.ext
  }

  lemma InsertDistinct(pkts: seq<Pkt>, i: nat, p: Pkt)
    requires Distinct(pkts) && i <= |pkts| && forall k :: 0 <= k < |pkts| ==> pkts[k].hdr.ts != p.hdr.ts
    ensures Distinct(InsertAt(pkts, i, p))
  {
  }

  /** With a free node, storing neither steals nor splits. */
  lemma StoreDistinct(s: Jb, p: Pkt)
    requires Shape(s) && s.free > 0 && Sorted(s.pkts) && Numbered(p) && Distinct(s.pkts)
    requires forall q :: q in s.pkts ==> Near(q.mem.ext, p.mem.ext)
    requires forall q :: q in s.pkts && q.hdr.ts == p.hdr.ts ==> q.mem.ext == p.mem.ext
    ensures Distinct(Store(s, p).0.pkts) && !StoreSplits(s, p)
  {
    DuplicateMeans(s.pkts, p);
    if !Duplicate(s.pkts, p.hdr.sn) {
      forall k | 0 <= k < |s.pkts|
        ensures s.pkts[k].hdr.ts != p.hdr.ts
      {
        assert s.pkts[k] in s.pkts;
      }
      InsertDistinct(s.pkts, ScanBack(s.pkts, p.hdr.sn), p);
    }
  }

  /** With a free node, a packet of a new timestamp is stored exactly and nothing is dropped. */
  lemma StoreFlows(s: Jb, p: Pkt)
    requires Shape(s) && s.free > 0 && Sorted(s.pkts) && Numbered(p)
    requires Exact(s) && Distinct(s.pkts) && s.stat.nOverflow == 0
    requires forall q :: q in s.pkts ==> Near(q.mem.ext, p.mem.ext)
    requires forall q :: q in s.pkts && q.hdr.ts == p.hdr.ts ==> q.mem.ext == p.mem.ext
    ensures var r := Store(s, p).0;
            Exact(r) && Distinct(r.pkts) && r.stat.nOverflow == 0
  {
    StoreDistinct(s, p);
    StoreExactIff(s, p);
  }

  lemma AdaptedFlows(s: Jb, h: Hdr, now: nat, ub: U32)
    requires Shape(s) && Exact(s) && WishBounded(s) && s.stat.nOverflow == 0 && s.free > 0
    ensures var r := Adapted(s, h, now, ub);
            Exact(r) && WishBounded(r) && r.stat.nOverflow == 0 && r.free > 0
  {
    var s1 := Prepare(s, h, now);
    assert Exact(s1) && WishBounded(s1) && s1.stat.nOverflow == 0 && s1.free > 0;
    CalcRdiffBounded(s1, h.sn, ub);
  }

  lemma PutFlows(y: Sys, op: Op)
    requires Flowing(y) && y.jb.free > 0 && op.OpPut? && Admissible(y, op) && OneStamp(y, op)
    ensures Flowing(Step(y, op))
  {
    var s1 := Adapted(y.jb, op.h, op.now, op.ub);
    PutRefines(y, op);
    AdaptedKeeps(y.jb, op.h, op.now, op.ub);
    AdaptedFlows(y.jb, op.h, op.now, op.ub);
    if !Late(s1, op.h.sn) {
      StoreFlows(s1, Pkt(op.h, op.mem));
      StoreKeeps(s1, Pkt(op.h, op.mem));
    }
  }

  lemma PopFlows(s: Jb)
    requires Shape(s) && s.pkts != [] && Exact(s) && Distinct(s.pkts)
    ensures Exact(Pop(s)) && Distinct(Pop(s).pkts)
  {
    PopExact(s);
  }

  lemma GetFlows(y: Sys)
    requires Flowing(y)
    ensures Flowing(Step(y, OpGet))
    ensures Ready(y.jb) ==> |Step(y, OpGet).jb.pkts| == |y.jb.pkts| - 1
    ensures Get(y.jb).1 != EAGAIN ==> Step(y, OpGet).jb.nf <= y.jb.wish
    ensures Step(y, OpGet).jb.wish == y.jb.wish
  {
    StepRefines(y, OpGet);
    if Ready(y.jb) {
      PopFlows(y.jb);
    }
  }

  /** Once the loop has had as many turns as packets, no more frames are left than wished for. */
  lemma {:induction false} LoopFlows(rx: Rx, n: nat, ignores: seq<bool>)
    requires Flowing(rx.sys) && n == |rx.sys.jb.pkts|
    ensures var y := DecodeLoop(rx, n, ignores).sys; Flowing(y) && y.jb.nf <= y.jb.wish
    decreases n
  {
    if n > 0 {
      GetFlows(rx.sys);
      FrameStep(rx, First(ignores));
      var (rx1, again) := DecodeFrame(rx, First(ignores));
      if again {
        LoopFlows(rx1, n - 1, Rest(ignores));
      }
    }
  }

  /** Between operations there is also a free node. */
  ghost predicate RxInv(rx: Rx) {
    Flowing(rx.sys) && rx.sys.jb.free > 0
  }

  ghost predicate SinglePacketFrames(rx: Rx, op: RxOp)
    requires Shape(rx.sys.jb)
  {
    Accepts(rx, op) ==>
      Admissible(BeforePut(rx, op.h), PutOp(op)) && OneStamp(BeforePut(rx, op.h), PutOp(op))
  }

  ghost predicate SinglePacketRun(rx: Rx, ops: seq<RxOp>)
    requires Shape(rx.sys.jb)
    decreases |ops|
  {
    ops == [] || (SinglePacketFrames(rx, ops[0]) && SinglePacketRun(RxStep(rx, ops[0]), ops[1..]))
  }

  /** A received packet leaves no more frames than wished for, fewer than the pool holds. */
  lemma ReceiveFlows(rx: Rx, op: RxOp)
    requires RxInv(rx) && Accepts(rx, op) && SinglePacketFrames(rx, op)
    ensures var r := RxStep(rx, op);
            RxInv(r) && r.sys.jb.nf == r.sys.jb.n <= r.sys.jb.wish <= r.sys.jb.max - 1
  {
    var y := BeforePut(rx, op.h);
    assert Flowing(y) && y.jb.free > 0;
    PutFlows(y, PutOp(op));
    var r := AfterPut(rx, op);
    LoopFlows(r, r.sys.jb.n, op.ignores);
    DistinctFrames(RxStep(rx, op).sys.jb.pkts);
  }

  lemma OtherFlows(rx: Rx, op: RxOp)
    requires RxInv(rx) && !Accepts(rx, op)
    ensures RxInv(RxStep(rx, op))
  {
    match op
    case Receive(h, _, _, _, _, _) => assert RxStep(rx, op).sys == rx.sys;
    case WishTimer => StepRefines(rx.sys, OpWishDown);
    case FlushRx => StepRefines(rx.sys, OpFlush);
    case Enable(_) =>
    case SetSsrc(_) =>
  }

  /** In every reachable state, whatever timers, flushes and handlers do in between, no packet has
      been dropped for want of a node and a node is free for the next one. */
  lemma {:induction false} NeverOverflows(rx: Rx, ops: seq<RxOp>)
    requires RxInv(rx) && SinglePacketRun(rx, ops)
    ensures RxInv(RxRun(rx, ops))
    decreases |ops|
  {
    if ops != [] {
      if Accepts(rx, ops[0]) {
        ReceiveFlows(rx, ops[0]);
      } else {
        OtherFlows(rx, ops[0]);
      }
      NeverOverflows(RxStep(rx, ops[0]), ops[1..]);
    }
  }

  lemma StartFlows(min: U32, max: U32, jbtype: JbType, gnackOn: bool)
    requires min < max
    ensures RxInv(RxStart(min, max, jbtype, gnackOn))
  {
  }

  // ---------- Frames of several packets ----------

  lemma GetFewer(y: Sys)
    requires FrameInv(y)
    ensures FrameInv(Step(y, OpGet))
    ensures Ready(y.jb) ==> |Step(y, OpGet).jb.pkts| == |y.jb.pkts| - 1
    ensures Get(y.jb).1 != EAGAIN ==> Step(y, OpGet).jb.nf <= Step(y, OpGet).jb.wish
  {
    StepFrames(y, OpGet);
  }

  /** The same loop on frames of any number of packets. */
  lemma {:induction false} LoopFrames(rx: Rx, n: nat, ignores: seq<bool>)
    requires FrameInv(rx.sys) && n == |rx.sys.jb.pkts|
    ensures var y := DecodeLoop(rx, n, ignores).sys; FrameInv(y) && y.jb.nf <= y.jb.wish
    decreases n
  {
    if n > 0 {
      GetFewer(rx.sys);
      FrameStep(rx, First(ignores));
      var (rx1, again) := DecodeFrame(rx, First(ignores));
      if again {
        LoopFrames(rx1, n - 1, Rest(ignores));
      }
    }
  }

  /** With frames of any number of packets too, a received packet leaves no more frames than wished
      for; the packets of those frames may still fill the pool. */
  lemma ReceiveFrames(rx: Rx, op: RxOp)
    requires FrameInv(rx.sys) && rx.sys.jb.min < rx.sys.jb.max && Accepts(rx, op)
    requires Admissible(BeforePut(rx, op.h), PutOp(op)) && FramesTogether(BeforePut(rx, op.h), PutOp(op))
    ensures var y := RxStep(rx, op).sys; FrameInv(y) && y.jb.nf <= y.jb.wish
  {
    var y := BeforePut(rx, op.h);
    if SsrcMoved(rx, op.h) {
      StepFrames(rx.sys, OpFlush);
    }
    StepFrames(y, PutOp(op));
    var r := AfterPut(rx, op);
    LoopFrames(r, r.sys.jb.n, op.ignores);
  }
}
