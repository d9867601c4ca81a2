/** Concrete runs on which the jitter buffer departs from what its counters and checks are for. */
module JbufWitness {
  import opened CInt
  import opened JbufModel
  import opened JbufOrder
  import opened JbufFrames
  import A = JbufAccounting

  function P(ext: int, ts: U32): Pkt {
    Pkt(Hdr(ext % 0x1_0000, ts, 1, false, 0), Payload(0, ext))
  }

  function Arrive(p: Pkt): Op {
    OpPut(p.hdr, p.mem, 0, 0)
  }

  lemma RunStep(y: Sys, ops: seq<Op>)
    requires Shape(y.jb) && ops != []
    ensures Run(y, ops) == Run(Step(y, ops[0]), ops[1..])
  {
  }

  /** Nothing delivered yet and no flush due. */
  predicate Quiet(s: Jb, ssrc: U32) {
    Shape(s) && s.seqGet == 0 && s.tr == 0 && (s.ssrc == 0 || s.ssrc == ssrc)
  }

  lemma AdaptQuietly(s: Jb, p: Pkt)
    requires Quiet(s, p.hdr.ssrc)
    ensures var r := Adapted(s, p.hdr, 0, 0);
            && Quiet(r, p.hdr.ssrc) && r.ssrc == p.hdr.ssrc && !Late(r, p.hdr.sn)
            && r.pkts == s.pkts && r.free == s.free && r.nf == s.nf && r.wish == s.wish && r.max == s.max
  {
  }

  /** What a new packet does to a buffer with room. */
  lemma StoreQuietly(s: Jb, p: Pkt)
    requires Quiet(s, p.hdr.ssrc) && s.free > 0 && !Duplicate(s.pkts, p.hdr.sn)
    ensures var r, i := Store(s, p).0, ScanBack(s.pkts, p.hdr.sn);
            && Quiet(r, p.hdr.ssrc) && r.running && r.ssrc == s.ssrc
            && r.pkts == InsertAt(s.pkts, i, p)
            && r.nf == (if JoinsFrame(s.pkts, i, p) then s.nf else Inc(s.nf))
            && r.free == s.free - 1 && r.wish == s.wish && r.max == s.max
  {
  }

  lemma ArriveQuietly(y: Sys, p: Pkt)
    requires Quiet(y.jb, p.hdr.ssrc) && y.jb.free > 0 && !Duplicate(y.jb.pkts, p.hdr.sn)
    ensures var s, i := Step(y, Arrive(p)).jb, ScanBack(y.jb.pkts, p.hdr.sn);
            && Quiet(s, p.hdr.ssrc) && s.running && s.ssrc == p.hdr.ssrc
            && s.pkts == InsertAt(y.jb.pkts, i, p)
            && s.nf == (if JoinsFrame(y.jb.pkts, i, p) then y.jb.nf else Inc(y.jb.nf))
            && s.free == y.jb.free - 1 && s.wish == y.jb.wish && s.max == y.jb.max
  {
    AdaptQuietly(y.jb, p);
    StoreQuietly(Adapted(y.jb, p.hdr, 0, 0), p);
  }

  lemma AdaptKeeps(s: Jb, p: Pkt)
    requires Quiet(s, p.hdr.ssrc)
    ensures var r := Adapted(s, p.hdr, 0, 0); r.rdiff == s.rdiff && r.jbtype == s.jbtype
  {
  }

  lemma StoreFirst(s: Jb, p: Pkt)
    requires Shape(s) && s.pkts == []
    ensures var r := Store(s, p).0;
            r.seqPut == p.hdr.sn && r.rdiff == s.rdiff && r.jbtype == s.jbtype
  {
  }

  /** One packet in an empty buffer. */
  lemma ArriveFirst(y: Sys, p: Pkt)
    requires Quiet(y.jb, p.hdr.ssrc) && y.jb.pkts == [] && y.jb.nf == 0
    ensures var r := Step(y, Arrive(p)); var s := r.jb;
            && r.out == y.out && Quiet(s, p.hdr.ssrc) && s.pkts == [p] && s.nf == 1 && s.wish == y.jb.wish
            && s.seqPut == p.hdr.sn && s.running && s.ssrc == p.hdr.ssrc
            && s.rdiff == y.jb.rdiff && s.jbtype == y.jb.jbtype
  {
    ArriveQuietly(y, p);
    assert InsertAt([], 0, p) == [p];
    AdaptQuietly(y.jb, p);
    AdaptKeeps(y.jb, p);
    StoreFirst(Adapted(y.jb, p.hdr, 0, 0), p);
  }

  lemma GetOne(y: Sys, p: Pkt)
    requires Shape(y.jb) && y.jb.pkts == [p] && y.jb.nf == 1 && y.jb.wish == 0
    ensures var r := Step(y, OpGet); var s := r.jb;
            && r.out == y.out + [p] && Shape(s) && s.pkts == [] && s.nf == 0 && s.wish == 0
            && s.seqGet == p.hdr.sn && s.seqPut == y.jb.seqPut && s.running == y.jb.running && s.tr == y.jb.tr
            && s.ssrc == y.jb.ssrc && s.rdiff == y.jb.rdiff && s.jbtype == y.jb.jbtype
  {
  }

  /** A packet that is delivered at once. */
  lemma DeliverOne(y: Sys, p: Pkt)
    requires Quiet(y.jb, p.hdr.ssrc) && y.jb.pkts == [] && y.jb.nf == 0 && y.jb.wish == 0
    ensures var r := Run(y, [Arrive(p), OpGet]); var s := r.jb;
            && r.out == y.out + [p] && Shape(s) && s.pkts == [] && s.nf == 0 && s.wish == 0
            && s.seqGet == s.seqPut == p.hdr.sn && s.running && s.tr == 0 && s.ssrc == p.hdr.ssrc
            && s.rdiff == y.jb.rdiff && s.jbtype == y.jb.jbtype
  {
    ArriveFirst(y, p);
    GetOne(Step(y, Arrive(p)), p);
    RunTwo(y, Arrive(p), OpGet);
  }

  lemma RunTwo(y: Sys, a: Op, b: Op)
    requires Shape(y.jb)
    ensures Run(y, [a, b]) == Step(Step(y, a), b)
  {
    RunStep(y, [a, b]);
    assert [a, b][1..] == [b] && [b][1..] == [];
  }

  lemma {:induction false} RunJoined(y: Sys, a: seq<Op>, b: seq<Op>)
    requires Shape(y.jb)
    ensures Run(y, a + b) == Run(Run(y, a), b)
    decreases |a|
  {
    if a == [] {
      assert a + b == b;
    } else {
      assert (a + b)[1..] == a[1..] + b;
      RunJoined(Step(y, a[0]), a[1..], b);
    }
  }

  /** An empty buffer that delivers the next packet at once. */
  predicate Waits(s: Jb, ssrc: U32) {
    Quiet(s, ssrc) && s.pkts == [] && s.nf == 0 && s.wish == 0
  }

  /** After a packet with 16-bit number 0 it is again as if nothing had been delivered. */
  lemma DeliverZero(y: Sys, p: Pkt)
    requires Waits(y.jb, p.hdr.ssrc) && p.hdr.sn == 0
    ensures var r := Run(y, [Arrive(p), OpGet]); Waits(r.jb, p.hdr.ssrc) && r.out == y.out + [p]
  {
    DeliverOne(y, p);
  }

  lemma DeliverBehind(y: Sys, y1: Sys, ops: seq<Op>, q: Pkt)
    requires Shape(y.jb) && y1 == Run(y, ops) && Waits(y1.jb, q.hdr.ssrc)
    ensures Run(y, ops + [Arrive(q), OpGet]).out == y1.out + [q]
  {
    RunJoined(y, ops, [Arrive(q), OpGet]);
    DeliverOne(y1, q);
  }

  lemma DeliverTwo(y: Sys, p: Pkt, q: Pkt)
    requires Waits(y.jb, p.hdr.ssrc) && p.hdr.ssrc == q.hdr.ssrc && p.hdr.sn == 0
    ensures Run(y, [Arrive(p), OpGet] + [Arrive(q), OpGet]).out == y.out + [p] + [q]
  {
    DeliverZero(y, p);
    DeliverBehind(y, Run(y, [Arrive(p), OpGet]), [Arrive(p), OpGet], q);
  }

  /** After delivery of a packet whose 16-bit number is 0, the packet before it is still accepted
      and delivered behind it. */
  lemma LateAcceptedAfterZero()
    ensures Run(Start(0, 2, Fixed, false), [Arrive(P(0x1_0000, 9)), OpGet, Arrive(P(0xffff, 8)), OpGet]).out
            == [P(0x1_0000, 9), P(0xffff, 8)]
  {
    var p, q := P(0x1_0000, 9), P(0xffff, 8);
    DeliverTwo(Start(0, 2, Fixed, false), p, q);
    assert [Arrive(p), OpGet] + [Arrive(q), OpGet] == [Arrive(p), OpGet, Arrive(q), OpGet];
  }

  lemma {:induction false} PlaceBehind(l: seq<Pkt>, p: Pkt)
    requires l != [] ==> SeqLess(Last(l).hdr.sn, p.hdr.sn)
    ensures ScanBack(l, p.hdr.sn) == |l| && !Duplicate(l, p.hdr.sn) && InsertAt(l, |l|, p) == l + [p]
    ensures Frames(l + [p]) == Frames(l) + (if JoinsFrame(l, |l|, p) then 0 else 1)
  {
    assert InsertAt(l, |l|, p) == l + [p];
    FramesInsert(l, |l|, p);
  }

  /** A packet that goes behind the tail. */
  lemma ArriveBehind(y: Sys, p: Pkt)
    requires Quiet(y.jb, p.hdr.ssrc) && y.jb.free > 0 && Exact(y.jb)
    requires y.jb.pkts != [] ==> SeqLess(Last(y.jb.pkts).hdr.sn, p.hdr.sn)
    ensures var s := Step(y, Arrive(p)).jb;
            && Quiet(s, p.hdr.ssrc) && s.free == y.jb.free - 1 && s.pkts == y.jb.pkts + [p] && Exact(s)
  {
    PlaceBehind(y.jb.pkts, p);
    ArriveQuietly(y, p);
  }

  /** Each packet of the list follows the one before it. */
  ghost predicate Ascending(l: seq<Pkt>) {
    forall i :: 0 <= i < |l| - 1 ==> SeqLess(l[i].hdr.sn, l[i + 1].hdr.sn)
  }

  function Arrivals(l: seq<Pkt>): seq<Op> {
    if l == [] then [] else [Arrive(l[0])] + Arrivals(l[1..])
  }

  lemma Reassociate(a: seq<Pkt>, l: seq<Pkt>)
    requires l != []
    ensures a + [l[0]] + l[1..] == a + l
  {
  }

  /** Packets that arrive in order fill the buffer, and their frames are counted exactly. */
  lemma {:induction false} FillInOrder(y: Sys, l: seq<Pkt>, ssrc: U32)
    requires Quiet(y.jb, ssrc) && y.jb.free >= |l| && Exact(y.jb)
    requires Ascending(y.jb.pkts + l) && forall i :: 0 <= i < |l| ==> l[i].hdr.ssrc == ssrc
    ensures var s := Run(y, Arrivals(l)).jb;
            Quiet(s, ssrc) && s.free == y.jb.free - |l| && s.pkts == y.jb.pkts + l && Exact(s)
    decreases |l|
  {
    if l != [] {
      var k := |y.jb.pkts|;
      assert k > 0 ==> (y.jb.pkts + l)[k - 1] == Last(y.jb.pkts) && (y.jb.pkts + l)[k - 1 + 1] == l[0];
      ArriveBehind(y, l[0]);
      var y1 := Step(y, Arrive(l[0]));
      Reassociate(y.jb.pkts, l);
      FillInOrder(y1, l[1..], ssrc);
      RunStep(y, Arrivals(l));
      assert Arrivals(l)[1..] == Arrivals(l[1..]);
    }
  }

  lemma ScanTwo(a: Pkt, c: Pkt)
    requires a == P(1, 5) && c == P(3, 5)
    ensures ScanBack([a, c], 2) == 1
  {
    assert StopsAt(a, 2) && !StopsAt(c, 2);
  }

  lemma ArriveBetween(y: Sys, a: Pkt, b: Pkt, c: Pkt)
    requires Quiet(y.jb, b.hdr.ssrc) && y.jb.free > 0 && y.jb.pkts == [a, c] && y.jb.nf == 1
    requires ScanBack([a, c], b.hdr.sn) == 1 && a.hdr.sn != b.hdr.sn
    requires a.hdr.ts != b.hdr.ts && c.hdr.ts != b.hdr.ts
    ensures Step(y, Arrive(b)).jb.pkts == [a, b, c] && Step(y, Arrive(b)).jb.nf == 2
  {
    ArriveQuietly(y, b);
    assert InsertAt([a, c], 1, b) == [a, b, c];
  }

  lemma DrainThree(y: Sys, a: Pkt, b: Pkt, c: Pkt)
    requires Shape(y.jb) && y.jb.pkts == [a, b, c] && y.jb.nf == 2
    requires a.hdr.ts != b.hdr.ts && b.hdr.ts != c.hdr.ts
    ensures var s := Run(y, [OpDrain, OpDrain, OpDrain]).jb; s.n == 0 && s.nf == 0xffff_ffff
  {
    var y1 := Step(y, OpDrain);
    assert y1.jb.pkts == [b, c] && y1.jb.nf == 1;
    var y2 := Step(y1, OpDrain);
    assert y2.jb.pkts == [c] && y2.jb.nf == 0;
    var ops := [OpDrain, OpDrain, OpDrain];
    RunStep(y, ops);
    RunStep(y1, ops[1..]);
    RunStep(y2, ops[2..]);
  }

  lemma StampsOfThree(a: Pkt, b: Pkt, c: Pkt)
    requires a.hdr.ts == c.hdr.ts == 5 && b.hdr.ts == 7
    ensures Stamps([a, b, c]) == {5, 7}
  {
    assert forall p :: p in [a, b, c] <==> p == a || p == b || p == c;
  }

  lemma StampsOfFour(a: Pkt, b: Pkt, c: Pkt, d: Pkt)
    requires a.hdr.ts == b.hdr.ts == d.hdr.ts == 5 && c.hdr.ts == 7
    ensures Stamps([a, b, c, d]) == {5, 7}
  {
    assert forall p :: p in [a, b, c, d] <==> p == a || p == b || p == c || p == d;
  }

  lemma FramesOfFour(a: Pkt, b: Pkt, c: Pkt, d: Pkt)
    requires a.hdr.ts == b.hdr.ts && b.hdr.ts != c.hdr.ts && c.hdr.ts != d.hdr.ts
    ensures Frames([a, b, c, d]) == 3
  {
    assert [a, b, c, d] == [a, b] + [c, d];
    assert [a, b][1..] == [b] && [c, d][1..] == [d];
    assert Frames([b]) == 1 && Frames([d]) == 1;
    FramesConcat([a, b], [c, d]);
  }

  lemma FillFour(a: Pkt, b: Pkt, c: Pkt, d: Pkt)
    requires a.hdr.ssrc == b.hdr.ssrc == c.hdr.ssrc == d.hdr.ssrc == 1
    requires SeqLess(a.hdr.sn, b.hdr.sn) && SeqLess(b.hdr.sn, c.hdr.sn) && SeqLess(c.hdr.sn, d.hdr.sn)
    ensures var s := Run(Start(0, 4, Fixed, false), Arrivals([a, b, c, d])).jb;
            s.pkts == [a, b, c, d] && Exact(s)
  {
    var y, l := Start(0, 4, Fixed, false), [a, b, c, d];
    assert y.jb.pkts + l == l;
    FillInOrder(y, l, 1);
  }

  /** Four packets, the third of another frame: the fourth is counted as a frame of its own. */
  lemma StrayPacketMiscounted()
    ensures var s := Run(Start(0, 4, Fixed, false), Arrivals([P(1, 5), P(2, 5), P(3, 7), P(4, 5)])).jb;
            s.nf == 3 && Stamps(s.pkts) == {5, 7}
  {
    FillFour(P(1, 5), P(2, 5), P(3, 7), P(4, 5));
    FramesOfFour(P(1, 5), P(2, 5), P(3, 7), P(4, 5));
    StampsOfFour(P(1, 5), P(2, 5), P(3, 7), P(4, 5));
  }

  lemma FillPair(a: Pkt, c: Pkt)
    requires a.hdr.ssrc == c.hdr.ssrc == 1 && a.hdr.ts == c.hdr.ts && SeqLess(a.hdr.sn, c.hdr.sn)
    ensures var s := Run(Start(0, 3, Fixed, false), Arrivals([a, c])).jb;
            Quiet(s, 1) && s.free == 1 && s.pkts == [a, c] && s.nf == 1
  {
    var y, l := Start(0, 3, Fixed, false), [a, c];
    assert y.jb.pkts + l == l && l[1..] == [c];
    FillInOrder(y, l, 1);
    assert Frames([c]) == 1;
  }

  /** A packet between two packets of one frame is counted right, but the frame then leaves in two
      parts and makes the counter wrap below zero. */
  lemma SplitFrameUnderflows()
    ensures var y := Run(Start(0, 3, Fixed, false), Arrivals([P(1, 5), P(3, 5)]));
            var y1 := Step(y, Arrive(P(2, 7)));
            var s := Run(y1, [OpDrain, OpDrain, OpDrain]).jb;
            && y1.jb.nf == 2 && Stamps(y1.jb.pkts) == {5, 7}
            && s.n == 0 && s.nf == 0xffff_ffff
  {
    var a, b, c := P(1, 5), P(2, 7), P(3, 5);
    FillPair(a, c);
    var y := Run(Start(0, 3, Fixed, false), Arrivals([a, c]));
    ScanTwo(a, c);
    ArriveBetween(y, a, b, c);
    StampsOfThree(a, b, c);
    DrainThree(Step(y, Arrive(b)), a, b, c);
  }

  /** In a pool of one packet, a second packet replaces the first without uncounting its frame. */
  lemma ReplaceOnly(y: Sys, a: Pkt, b: Pkt)
    requires Quiet(y.jb, b.hdr.ssrc) && y.jb.free == 0 && y.jb.pkts == [a] && y.jb.nf == 1
    ensures var s := Step(y, Arrive(b)).jb;
            s.pkts == [b] && s.nf == 2 && s.running && s.wish == y.jb.wish
  {
    AdaptQuietly(y.jb, b);
    assert [a][1..] == [];
  }

  lemma GetOnly(y: Sys, b: Pkt)
    requires Shape(y.jb) && y.jb.pkts == [b] && y.jb.nf == 2 && y.jb.wish == 0 && y.jb.running
    ensures var s := Step(y, OpGet).jb;
            s.n == 0 && s.nf == 1 && s.running && s.seqGet == b.hdr.sn
  {
  }

  /** With a pool of one packet the counter claims a frame in an empty buffer; the next adaptation
      divides by a packet count of zero and its limit is whatever the conversion yields. */
  lemma SinglePacketPoolDividesByZero(ub: U32)
    ensures var s := Run(Start(0, 1, Adaptive, false), [Arrive(P(1, 1)), Arrive(P(2, 2)), OpGet]).jb;
            && s.n == 0 && s.nf == 1 && s.running && s.seqGet != 0
            && FrameLimit(s, ub) == ub
  {
    var a, b := P(1, 1), P(2, 2);
    var y0 := Start(0, 1, Adaptive, false);
    ArriveQuietly(y0, a);
    var y1 := Step(y0, Arrive(a));
    ReplaceOnly(y1, a, b);
    var y2 := Step(y1, Arrive(b));
    GetOnly(y2, b);
    var ops := [Arrive(a), Arrive(b), OpGet];
    RunStep(y0, ops);
    RunStep(y1, ops[1..]);
    RunStep(y2, ops[2..]);
  }

  /** A packet 4999 after the last one, at an average of zero. */
  lemma JumpOverflows(s: Jb, b: Pkt)
    requires Shape(s) && s.rdiff == 0 && s.seqPut == 1 && b.hdr.sn == 5000
    ensures ReverseDiff(s, b.hdr.sn) == -4998
    ensures !A.FitsI32(A.EmaProduct(s, b.hdr.sn)) && Ema(s, b.hdr.sn) == -1635328
  {
  }

  /** After packet 1 is delivered, packet 5000 makes the product overflow and the average negative. */
  lemma AverageOverflows(y0: Sys, a: Pkt, b: Pkt)
    requires y0 == Start(0, 2, Adaptive, false) && a == P(1, 1) && b == P(5000, 2)
    ensures var y := Run(y0, [Arrive(a), OpGet]); var op := Arrive(b);
            && A.Averages(y, op) && !A.FitsI32(A.EmaProduct(Prepare(y.jb, op.h, op.now), op.h.sn))
            && Step(y, op).jb.rdiff == -1635328
  {
    DeliverOne(y0, a);
    JumpAverages(Run(y0, [Arrive(a), OpGet]), b);
  }

  lemma JumpAverages(y: Sys, b: Pkt)
    requires Shape(y.jb) && y.jb.rdiff == 0 && y.jb.seqPut == y.jb.seqGet == 1 && y.jb.jbtype == Adaptive
    requires y.jb.running && y.jb.tr == 0 && y.jb.ssrc == b.hdr.ssrc && b.hdr.sn == 5000
    ensures var op := Arrive(b);
            && A.Averages(y, op) && !A.FitsI32(A.EmaProduct(Prepare(y.jb, op.h, op.now), op.h.sn))
            && Step(y, op).jb.rdiff == -1635328
  {
    A.PrepareKeepsAverage(y.jb, b.hdr, 0);
    JumpOverflows(Prepare(y.jb, b.hdr, 0), b);
    A.PutAverage(y, Arrive(b));
  }
}
