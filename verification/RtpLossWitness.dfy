/**
 Losses that are not reported. When the first packet received is dropped for want of a node, whether it
 counts as lost hangs on its sequence number; a gap of 2999 packets or more is not counted at all.
 */
module RtpLossWitness {
  import opened CInt
  import opened JbufModel
  import opened JbufOrder
  import opened JbufFrames
  import opened JbufAnswers
  import opened JbufWitness
  import opened RtpModel
  import opened RtpLoss
  import opened RtpFramesWitness

  function Received(p: Pkt): RxOp {
    Receive(p.hdr, p.mem, 0, 0, false, [])
  }

  /** Nothing delivered yet, these packets buffered. */
  ghost predicate Buffers(rx: Rx, l: seq<Pkt>, pseq: U32) {
    var s := rx.sys.jb;
    && Quiet(s, 1) && s.pkts == l && Exact(s) && s.wish == 1 && s.max == 2
    && rx.sys.out == [] && rx.lost == [] && rx.enabled && rx.pseqSet && rx.ssrc == 1 && rx.pseq == pseq
  }

  lemma LoopWaits(rx: Rx, n: nat, l: seq<Pkt>, pseq: U32)
    requires Buffers(rx, l, pseq) && rx.sys.jb.nf <= 1
    ensures Buffers(DecodeLoop(rx, n, []), l, pseq)
  {
    if n > 0 {
      assert !Ready(rx.sys.jb);
      LoopStep(rx, n, []);
    }
  }

  /** The receiver before such a packet: the first one sets source and reference. */
  ghost predicate Awaits(rx: Rx, l: seq<Pkt>, p: Pkt, pseq: U32) {
    && Shape(rx.sys.jb) && Buffers(Sync(rx, p.hdr), l, pseq) && !SsrcMoved(rx, p.hdr)
    && p.hdr.ssrc == 1 && !IsRtcp(p.hdr.pt) && |l| < 2
    && (l != [] ==> SeqLess(Last(l).hdr.sn, p.hdr.sn))
  }

  lemma PutBehind(rx: Rx, l: seq<Pkt>, p: Pkt, pseq: U32)
    requires Awaits(rx, l, p, pseq)
    ensures Buffers(AfterPut(rx, Received(p)), l + [p], pseq)
  {
    ArriveBehind(rx.sys, p);
    ArriveCounts(rx.sys, p);
  }

  /** A packet behind the tail that completes no second frame is kept. */
  lemma KeepPacket(rx: Rx, l: seq<Pkt>, p: Pkt, pseq: U32)
    requires Awaits(rx, l, p, pseq) && Frames(l + [p]) <= 1
    ensures Buffers(RxStep(rx, Received(p)), l + [p], pseq)
  {
    PutBehind(rx, l, p, pseq);
    var r := AfterPut(rx, Received(p));
    LoopWaits(r, r.sys.jb.n, l + [p], pseq);
  }

  /** The third packet takes the node of the first. */
  lemma StealFirst(y: Sys, a: Pkt, b: Pkt, c: Pkt)
    requires Quiet(y.jb, c.hdr.ssrc) && y.jb.pkts == [a, b] && y.jb.free == 0 && y.jb.nf == 1 && y.jb.wish == 1
    requires a.hdr.ts == b.hdr.ts && b.hdr.ts != c.hdr.ts && SeqLess(b.hdr.sn, c.hdr.sn)
    ensures var r := Step(y, Arrive(c));
            Shape(r.jb) && r.jb.pkts == [b, c] && r.jb.nf == 2 && r.jb.wish == 1 && r.out == y.out
  {
    AdaptQuietly(y.jb, c);
    PlaceBehind([b], c);
    assert [a, b][1..] == [b] && [b] + [c] == [b, c];
  }

  lemma DeliverSecond(rx: Rx, b: Pkt, c: Pkt)
    requires Shape(rx.sys.jb) && rx.sys.jb.pkts == [b, c] && rx.sys.jb.nf == 2 && rx.sys.jb.wish == 1
    requires b.hdr.ts != c.hdr.ts && rx.sys.out == [] && rx.lost == []
    ensures var r := DecodeLoop(rx, 2, []);
            r.sys.out == [b] && r.lost == [LostCalc(rx.pseq, b.hdr.sn).0]
  {
    LoopStep(rx, 2, []);
  }

  lemma ReceiveThird(rx: Rx, a: Pkt, b: Pkt, c: Pkt, pseq: U32)
    requires Buffers(rx, [a, b], pseq) && rx.sys.jb.nf == 1
    requires c.hdr.ssrc == 1 && !IsRtcp(c.hdr.pt)
    requires a.hdr.ts == b.hdr.ts && b.hdr.ts != c.hdr.ts && SeqLess(b.hdr.sn, c.hdr.sn)
    ensures var r := RxStep(rx, Received(c));
            r.sys.out == [b] && r.lost == [LostCalc(pseq, b.hdr.sn).0]
  {
    StealFirst(rx.sys, a, b, c);
    DeliverSecond(AfterPut(rx, Received(c)), b, c);
  }

  lemma FramesOfTwo(a: Pkt, b: Pkt)
    requires a.hdr.ts == b.hdr.ts
    ensures Frames([a]) == 1 && Frames([a, b]) == 1
  {
    assert [a, b][1..] == [b] && Frames([b]) == 1;
  }

  /** Three packets in order, the first two of one frame, in a pool of two: the first one is dropped, the
      second delivered, and its loss count is that of the counter from the first one's reference. */
  lemma FirstStolen(a: Pkt, b: Pkt, c: Pkt)
    requires a.hdr.ssrc == b.hdr.ssrc == c.hdr.ssrc == 1 && a.hdr.ts == b.hdr.ts && b.hdr.ts != c.hdr.ts
    requires SeqLess(a.hdr.sn, b.hdr.sn) && SeqLess(b.hdr.sn, c.hdr.sn)
    requires !IsRtcp(a.hdr.pt) && !IsRtcp(b.hdr.pt) && !IsRtcp(c.hdr.pt)
    ensures var r := RxStep(RxStep(RxStep(RxStart(1, 2, Fixed, false), Received(a)), Received(b)), Received(c));
            r.sys.out == [b] && r.lost == [LostCalc(ToU32(a.hdr.sn - 1), b.hdr.sn).0]
  {
    var rx, pseq := RxStart(1, 2, Fixed, false), ToU32(a.hdr.sn - 1);
    FramesOfTwo(a, b);
    assert [] + [a] == [a] && [a] + [b] == [a, b];
    KeepPacket(rx, [], a, pseq);
    var rx1 := RxStep(rx, Received(a));
    KeepPacket(rx1, [a], b, pseq);
    ReceiveThird(RxStep(rx1, Received(b)), a, b, c, pseq);
  }

  lemma NextCounts(sn: U16)
    ensures LostCalc(ToU32(sn - 1), ToU16(sn + 1)).0 == if sn == 0 then 0 else 1
    ensures SeqLess(sn, ToU16(sn + 1)) && SeqLess(ToU16(sn + 1), ToU16(sn + 2))
  {
  }

  /** With consecutive numbers one packet is lost. It is reported if and only if its 16-bit number is
      not 0. */
  lemma LossOfFirst(a: Pkt, b: Pkt, c: Pkt)
    requires a.hdr.ssrc == b.hdr.ssrc == c.hdr.ssrc == 1 && a.hdr.ts == b.hdr.ts && b.hdr.ts != c.hdr.ts
    requires b.hdr.sn == ToU16(a.hdr.sn + 1) && c.hdr.sn == ToU16(a.hdr.sn + 2)
    requires !IsRtcp(a.hdr.pt) && !IsRtcp(b.hdr.pt) && !IsRtcp(c.hdr.pt)
    ensures var r := RxStep(RxStep(RxStep(RxStart(1, 2, Fixed, false), Received(a)), Received(b)), Received(c));
            r.sys.out == [b] && r.lost == [if a.hdr.sn == 0 then 0 else 1]
  {
    NextCounts(a.hdr.sn);
    FirstStolen(a, b, c);
  }

  // ---------- A long step ----------

  /** Nothing buffered, and the next packet is delivered at once. */
  predicate Empty(rx: Rx) {
    var s := rx.sys.jb;
    && Shape(s) && s.pkts == [] && s.nf == 0 && s.wish == 0 && s.jbtype == Fixed && s.tr == 0
    && (s.ssrc == 0 || s.ssrc == 1) && rx.enabled && (rx.pseqSet ==> rx.ssrc == 1)
  }

  /** A buffer that holds just this packet. */
  predicate Holds(s: Jb, p: Pkt) {
    && Shape(s) && s.pkts == [p] && s.n == 1 && s.nf == 1 && s.wish == 0 && s.jbtype == Fixed
    && s.tr == 0 && s.ssrc == 1
  }

  lemma StoreOne(s: Jb, p: Pkt)
    requires Shape(s) && s.pkts == [] && s.nf == 0 && s.wish == 0 && s.jbtype == Fixed && s.tr == 0 && s.ssrc == 1
    ensures Holds(Store(s, p).0, p)
  {
    assert InsertAt([], 0, p) == [p];
  }

  lemma AdaptEmpty(s: Jb, p: Pkt)
    requires Shape(s) && s.pkts == [] && s.nf == 0 && s.wish == 0 && s.jbtype == Fixed && s.tr == 0
    requires (s.ssrc == 0 || s.ssrc == 1) && p.hdr.ssrc == 1
    ensures var r := Adapted(s, p.hdr, 0, 0);
            && Shape(r) && r.pkts == [] && r.nf == 0 && r.wish == 0 && r.jbtype == Fixed && r.tr == 0 && r.ssrc == 1
            && (Late(r, p.hdr.sn) <==> Late(s, p.hdr.sn)) && !PutFlushes(s, p.hdr, 0)
  {
  }

  lemma PutEmpty(rx: Rx, p: Pkt)
    requires Empty(rx) && p.hdr.ssrc == 1 && !Late(rx.sys.jb, p.hdr.sn)
    ensures var r := AfterPut(rx, Received(p));
            && Holds(r.sys.jb, p) && r.sys.out == rx.sys.out && r.enabled && r.pseqSet && r.ssrc == 1
            && r.pseq == Sync(rx, p.hdr).pseq && r.lost == if rx.sys.out == [] then [] else rx.lost
  {
    AdaptEmpty(rx.sys.jb, p);
    StoreOne(Adapted(rx.sys.jb, p.hdr, 0, 0), p);
    assert BeforePut(rx, p.hdr) == rx.sys;
  }

  /** What a packet delivered at once reports, and where it leaves the receiver. */
  lemma DeliverAtOnce(rx: Rx, p: Pkt, r: Rx)
    requires Empty(rx) && p.hdr.ssrc == 1 && !IsRtcp(p.hdr.pt) && !Late(rx.sys.jb, p.hdr.sn)
    requires (rx.sys.out == [] ==> rx.lost == []) && r == RxStep(rx, Received(p))
    ensures var (l, q) := LostCalc(Sync(rx, p.hdr).pseq, p.hdr.sn);
            && Empty(r) && r.sys.out == rx.sys.out + [p] && r.lost == rx.lost + [l] && r.pseq == q
            && r.pseqSet && r.sys.jb.seqGet == p.hdr.sn
  {
    PutEmpty(rx, p);
    var r1 := AfterPut(rx, Received(p));
    LoopStep(r1, 1, []);
  }

  lemma FirstAtOnce(p: Pkt, rx: Rx, r: Rx)
    requires Numbered(p) && p.hdr.ssrc == 1 && !IsRtcp(p.hdr.pt)
    requires rx == RxStart(0, 2, Fixed, false) && r == RxStep(rx, Received(p))
    ensures Empty(r) && r.sys.out == [p] && r.lost == [0] && r.pseqSet
    ensures r.pseq == r.sys.jb.seqGet == p.hdr.sn
  {
    DeliverAtOnce(rx, p, r);
    FirstReferenceIs(p.mem.ext);
    if p.hdr.sn != 0 {
      LostCalcStep(p.mem.ext - 1, p.mem.ext);
    }
  }

  lemma SecondAtOnce(p: Pkt, q: Pkt, rx: Rx, r: Rx)
    requires Numbered(p) && Numbered(q) && MAX_STEP <= q.mem.ext - p.mem.ext < 0x8000
    requires Empty(rx) && rx.sys.out == [p] && rx.lost == [0] && rx.pseqSet
    requires rx.pseq == rx.sys.jb.seqGet == p.hdr.sn
    requires q.hdr.ssrc == 1 && !IsRtcp(q.hdr.pt) && r == RxStep(rx, Received(q))
    ensures r.sys.out == [p, q] && r.lost == [0, 0]
  {
    LateIsNotAfter(q.mem.ext, p.mem.ext);
    LostCalcStep(p.mem.ext, q.mem.ext);
    DeliverAtOnce(rx, q, r);
  }

  /** Two packets, the second 3000 or more behind the first: both are delivered and no loss is reported. */
  lemma LongStepUnreported(p: Pkt, q: Pkt, rx: Rx)
    requires Numbered(p) && Numbered(q) && MAX_STEP <= q.mem.ext - p.mem.ext < 0x8000
    requires p.hdr.ssrc == q.hdr.ssrc == 1 && !IsRtcp(p.hdr.pt) && !IsRtcp(q.hdr.pt)
    requires rx == RxStart(0, 2, Fixed, false)
    ensures var r := RxStep(RxStep(rx, Received(p)), Received(q));
            r.sys.out == [p, q] && r.lost == [0, 0]
  {
    var r := RxStep(rx, Received(p));
    FirstAtOnce(p, rx, r);
    SecondAtOnce(p, q, r, RxStep(r, Received(q)));
  }

  // ---------- A rejected first packet ----------

  /** Nothing delivered yet, these packets buffered, and two frames wished for. */
  ghost predicate Gathers(rx: Rx, l: seq<Pkt>, ssrc: U32) {
    var s := rx.sys.jb;
    && Quiet(s, ssrc) && s.ssrc == ssrc && s.pkts == l && Exact(s) && s.wish == 2 && s.free == 3 - |l|
    && rx.enabled && rx.pseqSet && rx.ssrc == ssrc
  }

  lemma GathersOn(rx: Rx, n: nat, l: seq<Pkt>, ssrc: U32, r: Rx)
    requires Gathers(rx, l, ssrc) && |l| <= 2 && EndsIn(rx, n, [], r)
    ensures Gathers(r, l, ssrc)
  {
    if n > 0 {
      assert !Ready(rx.sys.jb);
      NextEnds(rx, n, [], r);
    }
  }

  lemma ArriveSource(y: Sys, p: Pkt)
    requires Quiet(y.jb, p.hdr.ssrc)
    ensures Step(y, Arrive(p)).jb.ssrc == p.hdr.ssrc && Step(y, Arrive(p)).jb.wish == y.jb.wish
  {
    PutRemembers(y, Arrive(p));
    ArriveCounts(y, p);
  }

  /** A packet behind those that are there, of a source that the buffer does not take for a new one. */
  lemma Gather(rx: Rx, l: seq<Pkt>, p: Pkt, r: Rx)
    requires |l| < 2 && Quiet(rx.sys.jb, p.hdr.ssrc) && rx.sys.jb.pkts == l && Exact(rx.sys.jb)
    requires rx.sys.jb.wish == 2 && rx.sys.jb.free == 3 - |l| && rx.enabled && !IsRtcp(p.hdr.pt)
    requires !SsrcMoved(rx, p.hdr) && (l != [] ==> SeqLess(Last(l).hdr.sn, p.hdr.sn))
    requires r == RxStep(rx, Received(p))
    ensures Gathers(r, l + [p], p.hdr.ssrc)
  {
    ArriveBehind(rx.sys, p);
    ArriveSource(rx.sys, p);
    var r1 := AfterPut(rx, Received(p));
    assert Gathers(r1, l + [p], p.hdr.ssrc);
    GathersOn(r1, r1.sys.jb.n, l + [p], p.hdr.ssrc, r);
  }

  /** A packet of source 0, a rejected one of source 1 and another of source 1: the first is still buffered
      with the last. */
  lemma SourcesMixed(a: Pkt, h: Hdr, mem: Payload, c: Pkt, rx: Rx)
    requires a.hdr.ssrc == 0 && h.ssrc == c.hdr.ssrc == 1 && SeqLess(a.hdr.sn, c.hdr.sn)
    requires !IsRtcp(a.hdr.pt) && !IsRtcp(h.pt) && !IsRtcp(c.hdr.pt) && rx == RxStart(2, 3, Fixed, false)
    ensures var r := RxStep(RxStep(RxStep(rx, Received(a)), Receive(h, mem, 0, 0, true, [])), Received(c));
            r.sys.jb.pkts == [a, c]
  {
    var r1, reject := RxStep(rx, Received(a)), Receive(h, mem, 0, 0, true, []);
    Gather(rx, [], a, r1);
    assert [] + [a] == [a] && [a] + [c] == [a, c];
    RejectedFollows(r1, reject, Received(c), RxStep(r1, reject));
    Gather(RxStep(r1, reject), [a], c, RxStep(RxStep(r1, reject), Received(c)));
  }
}
