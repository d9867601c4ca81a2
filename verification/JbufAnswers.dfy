/**
 What the operations of the jitter buffer answer, and which counters they move, told on packets: on the
 timestamps and the numbers of what is buffered and what was delivered.
 */
module JbufAnswers {
  import opened CInt
  import opened Common
  import opened JbufModel
  import opened JbufOrder
  import opened JbufFrames

  // ---------- Results ----------

  /** How many frames are buffered, told by their timestamps. */
  ghost function Depth(pkts: seq<Pkt>): nat {
    |Stamps(pkts)|
  }

  lemma ExactDepth(s: Jb)
    requires FrameOk(s)
    ensures s.nf == Depth(s.pkts) && (s.pkts != [] ==> Depth(s.pkts) > 0)
  {
    FramesAreStamps(s.pkts);
  }

  /** Get delivers exactly when more frames are buffered than wished for; it then asks to be called again
      exactly when that is still so without the packet delivered. */
  lemma GetAnswers(y: Sys)
    requires FrameInv(y)
    ensures var s, (r, err) := y.jb, Get(y.jb);
            && (err == ENOENT <==> Depth(s.pkts) <= s.wish)
            && (Depth(s.pkts) > s.wish ==>
                  s.pkts != [] && r.pkts == s.pkts[1..]
                  && err == if Depth(s.pkts[1..]) > s.wish then EAGAIN else Ok)
            && (Depth(s.pkts) <= s.wish ==> r.pkts == s.pkts)
  {
    ExactDepth(y.jb);
    GetFrames(y.jb);
    ExactDepth(Get(y.jb).0);
  }

  /** Drain delivers whenever something is buffered. */
  lemma DrainAnswers(s: Jb)
    requires Shape(s)
    ensures var (r, err) := Drain(s);
            && (err == ENOENT <==> s.pkts == []) && (err == Ok <==> s.pkts != [])
            && (s.pkts != [] ==> r.pkts == s.pkts[1..]) && (s.pkts == [] ==> r == s)
  {
  }

  // ---------- Counters ----------

  /** The packets among which put looks for the place, after it has made room. */
  function Room(s: Jb): seq<Pkt>
    requires Shape(s)
  {
    if s.free > 0 then s.pkts else s.pkts[1..]
  }

  /** Some packet of the list is numbered after e. */
  ghost predicate LaterThere(pkts: seq<Pkt>, e: int) {
    exists k :: 0 <= k < |pkts| && pkts[k].mem.ext > e
  }

  lemma StoreOrderCount(s: Jb, p: Pkt)
    requires Shape(s)
    ensures var (r, err) := Store(s, p);
            && (err == EALREADY <==> Duplicate(Room(s), p.hdr.sn)) && (err != EALREADY ==> err == Ok)
            && r.stat.nOos == (if err == Ok && OutOfSequence(Room(s), p.hdr.sn) then Inc(s.stat.nOos) else s.stat.nOos)
            && r.stat.nLate == s.stat.nLate && r.stat.nLost == s.stat.nLost
  {
  }

  lemma RoomOrder(s: Jb, p: Pkt)
    requires Shape(s) && Sorted(s.pkts) && Numbered(p) && !Duplicate(Room(s), p.hdr.sn)
    requires forall q :: q in s.pkts ==> Near(q.mem.ext, p.mem.ext)
    ensures OutOfSequence(Room(s), p.hdr.sn) <==> LaterThere(Room(s), p.mem.ext)
  {
    var l := Room(s);
    assert forall k :: 0 <= k < |l| ==> l[k] in s.pkts;
    OutOfSequenceMeans(l, p);
  }

  /** Storing counts a packet out of sequence exactly when it is new and a later one is buffered. */
  lemma StoreCountsLater(s: Jb, p: Pkt)
    requires Shape(s) && Sorted(s.pkts) && Numbered(p)
    requires forall q :: q in s.pkts ==> Near(q.mem.ext, p.mem.ext)
    ensures var (r, err) := Store(s, p);
            r.stat.nOos == if err == Ok && LaterThere(Room(s), p.mem.ext) then Inc(s.stat.nOos) else s.stat.nOos
  {
    StoreOrderCount(s, p);
    if !Duplicate(Room(s), p.hdr.sn) {
      RoomOrder(s, p);
    }
  }

  /** What put finds before it decides, with its counters: a flush clears them. */
  lemma AdaptedStat(s: Jb, h: Hdr, now: nat, ub: U32)
    requires Shape(s)
    ensures var r, f := Adapted(s, h, now, ub), PutFlushes(s, h, now);
            && r.pkts == (if f then [] else s.pkts) && r.free == (if f then s.max else s.free)
            && r.stat == (if f then NO_STAT.(nFlush := r.stat.nFlush) else s.stat)
            && r.gnacks == s.gnacks && r.gnackOn == s.gnackOn
  {
  }

  /** The packets among which put looks for the place, after a flush or after it has made room. */
  function RoomOf(s: Jb, h: Hdr, now: nat): seq<Pkt>
    requires Shape(s)
  {
    if PutFlushes(s, h, now) then [] else Room(s)
  }

  /** Put counts a packet late exactly when it is at or before the last one delivered, where that is known;
      and out of sequence exactly when it is stored and a later one is buffered. */
  lemma PutCounts(y: Sys, op: Op)
    requires Inv(y) && op.OpPut? && Admissible(y, op)
    ensures var (r, err) := Put(y.jb, op.h, op.mem, op.now, op.ub);
            var t := if PutFlushes(y.jb, op.h, op.now) then NO_STAT else y.jb.stat;
            var limit := Limit(y, op.h, op.now);
            var late := limit.Some? && op.mem.ext <= limit.value;
            var later := LaterThere(RoomOf(y.jb, op.h, op.now), op.mem.ext);
            && (err == ETIMEDOUT <==> late)
            && r.stat.nLate == (if late then Inc(t.nLate) else t.nLate)
            && r.stat.nOos == (if err == Ok && later then Inc(t.nOos) else t.nOos)
            && r.stat.nLost == t.nLost
  {
    LateMeans(y, op);
    AdaptedStat(y.jb, op.h, op.now, op.ub);
    var s1, p := Adapted(y.jb, op.h, op.now, op.ub), Pkt(op.h, op.mem);
    if !Late(s1, op.h.sn) {
      StoreOrderCount(s1, p);
      StoreCountsLater(s1, p);
    }
  }

  lemma GetLostCount(s: Jb)
    requires Shape(s)
    ensures var r := Get(s).0;
            && r.stat.nLost == (if Ready(s) && SkipsPackets(s) then Inc(s.stat.nLost) else s.stat.nLost)
            && r.stat.nOos == s.stat.nOos && r.stat.nLate == s.stat.nLate
  {
  }

  /** Get counts one loss for a delivery that skips numbers, however many it skips. */
  lemma GetCountsGap(y: Sys)
    requires Inv(y) && (Ready(y.jb) && y.jb.seqGet != 0 ==> Near(y.jb.pkts[0].mem.ext, Last(y.out).mem.ext))
    ensures var r := Get(y.jb).0;
            r.stat.nLost == if Ready(y.jb) && y.jb.seqGet != 0 && y.jb.pkts[0].mem.ext > Last(y.out).mem.ext + 1
                            then Inc(y.jb.stat.nLost) else y.jb.stat.nLost
  {
    GetLostCount(y.jb);
    if Ready(y.jb) && y.jb.seqGet != 0 {
      LossMeansGap(y);
    }
  }

  // ---------- When put flushes ----------

  /** Does a put begin anew after an earlier one: another source, or a marked packet more than 400
      milliseconds later? A source or a time of 0 reads as none. */
  predicate Anew(h0: Hdr, now0: nat, h: Hdr, now: nat) {
    (h0.ssrc != 0 && h.ssrc != h0.ssrc) || (h.m && now0 != 0 && now - now0 > 400)
  }

  lemma PutRemembers(y: Sys, op: Op)
    requires Shape(y.jb) && op.OpPut?
    ensures Step(y, op).jb.tr == op.now && Step(y, op).jb.ssrc == op.h.ssrc
  {
    var s1 := Adapted(y.jb, op.h, op.now, op.ub);
    assert s1.tr == op.now && s1.ssrc == op.h.ssrc;
    StoreRemembersStream(s1, Pkt(op.h, op.mem));
  }

  lemma StoreRemembersStream(s: Jb, p: Pkt)
    requires Shape(s)
    ensures Store(s, p).0.tr == s.tr && Store(s, p).0.ssrc == s.ssrc
  {
  }

  /** Without puts the time and the source of the last put stay, also through a flush. */
  lemma {:induction false} RunRemembers(y: Sys, ops: seq<Op>)
    requires Shape(y.jb) && forall i :: 0 <= i < |ops| ==> !ops[i].OpPut?
    ensures Run(y, ops).jb.tr == y.jb.tr && Run(y, ops).jb.ssrc == y.jb.ssrc
    decreases |ops|
  {
    if ops != [] {
      var y1 := Step(y, ops[0]);
      assert y1.jb.tr == y.jb.tr && y1.jb.ssrc == y.jb.ssrc;
      RunRemembers(y1, ops[1..]);
    }
  }

  lemma InsertHas(l: seq<Pkt>, i: nat, p: Pkt, q: Pkt)
    requires i <= |l| && q != p
    ensures q in InsertAt(l, i, p) <==> q in l
  {
    assert l == l[..i] + l[i..];
  }

  /** Storing with room, or with another packet to drop, leaves the others. */
  lemma StoreKeepsOthers(s: Jb, p: Pkt, q: Pkt)
    requires Shape(s) && q != p && (s.free > 0 || (s.pkts != [] && q in s.pkts[1..]))
    ensures q in Store(s, p).0.pkts <==> q in s.pkts
  {
    var l := Room(s);
    assert q in l <==> q in s.pkts;
    if !Duplicate(l, p.hdr.sn) {
      var i := ScanBack(l, p.hdr.sn);
      assert Store(s, p).0.pkts == InsertAt(l, i, p);
      InsertHas(l, i, p, q);
    }
  }

  /** With room, a buffered packet stays unless put flushes. */
  lemma PutKeepsIff(s: Jb, h: Hdr, mem: Payload, now: nat, ub: U32, q: Pkt)
    requires Shape(s) && q in s.pkts && q != Pkt(h, mem) && s.free > 0
    ensures q in Put(s, h, mem, now, ub).0.pkts <==> !PutFlushes(s, h, now)
  {
    AdaptedKeeps(s, h, now, ub);
    AdaptedRoom(s, h, now, ub);
    var s1 := Adapted(s, h, now, ub);
    if !Late(s1, h.sn) {
      StoreKeepsOthers(s1, Pkt(h, mem), q);
    }
  }

  lemma AdaptedRoom(s: Jb, h: Hdr, now: nat, ub: U32)
    requires Shape(s)
    ensures Adapted(s, h, now, ub).free == if PutFlushes(s, h, now) then s.max else s.free
  {
  }

  lemma {:induction false} LastPut(y: Sys, a: Op, ops: seq<Op>, y1: Sys)
    requires Shape(y.jb) && a.OpPut? && forall i :: 0 <= i < |ops| ==> !ops[i].OpPut?
    requires y1 == Run(Step(y, a), ops)
    ensures Shape(y1.jb) && y1.jb.tr == a.now && y1.jb.ssrc == a.h.ssrc
  {
    PutRemembers(y, a);
    RunRemembers(Step(y, a), ops);
  }

  lemma FlushesAnew(s: Jb, h0: Hdr, now0: nat, h: Hdr, now: nat)
    requires s.tr == now0 && s.ssrc == h0.ssrc && now0 <= now < 0x1_0000_0000_0000_0000
    ensures PutFlushes(s, h, now) <==> Anew(h0, now0, h, now)
  {
    assert (now - now0) % 0x1_0000_0000_0000_0000 == now - now0;
  }

  /** After a put and any deliveries, with a clock that does not go back: a packet that is still buffered
      stays when the next one is put, with room for it, if and only if that put does not begin anew. */
  lemma {:induction false} FlushIff(y: Sys, a: Op, ops: seq<Op>, b: Op, q: Pkt, y1: Sys)
    requires Shape(y.jb) && a.OpPut? && b.OpPut? && a.now <= b.now < 0x1_0000_0000_0000_0000
    requires forall i :: 0 <= i < |ops| ==> !ops[i].OpPut?
    requires y1 == Run(Step(y, a), ops) && q in y1.jb.pkts && q != Pkt(b.h, b.mem) && y1.jb.free > 0
    ensures q in Step(y1, b).jb.pkts <==> !Anew(a.h, a.now, b.h, b.now)
  {
    LastPut(y, a, ops, y1);
    FlushesAnew(y1.jb, a.h, a.now, b.h, b.now);
    PutKeepsIff(y1.jb, b.h, b.mem, b.now, b.ub, q);
  }

  /** And what was delivered counts as delivered before the new beginning. */
  lemma FlushRestarts(y: Sys, op: Op)
    requires Shape(y.jb) && op.OpPut?
    ensures var r := Step(y, op);
            r.out == (if PutFlushes(y.jb, op.h, op.now) then [] else y.out)
            && r.jb.seqGet == if PutFlushes(y.jb, op.h, op.now) then 0 else y.jb.seqGet
  {
    AdaptedKeeps(y.jb, op.h, op.now, op.ub);
    StoreKeeps(Adapted(y.jb, op.h, op.now, op.ub), Pkt(op.h, op.mem));
  }

  /** How often an operation flushes. A put from a new source after a silence flushes twice. */
  function FlushesIn(s: Jb, op: Op): nat {
    match op
    case OpPut(h, _, now, _) => (if SsrcChanged(s, h) then 1 else 0) + (if TimedOut(s, now) && h.m then 1 else 0)
    case OpFlush => 1
    case _ => 0
  }

  function Flushes(y: Sys, ops: seq<Op>): nat
    requires Shape(y.jb)
    decreases |ops|
  {
    if ops == [] then 0 else FlushesIn(y.jb, ops[0]) + Flushes(Step(y, ops[0]), ops[1..])
  }

  lemma StoreKeepsFlushes(s: Jb, p: Pkt)
    requires Shape(s)
    ensures Store(s, p).0.stat.nFlush == s.stat.nFlush
  {
  }

  lemma AdaptedFlushes(s: Jb, op: Op)
    requires Shape(s) && op.OpPut?
    ensures Adapted(s, op.h, op.now, op.ub).stat.nFlush == AddU32(s.stat.nFlush, FlushesIn(s, op))
  {
  }

  lemma StepFlushes(y: Sys, op: Op)
    requires Shape(y.jb)
    ensures Step(y, op).jb.stat.nFlush == AddU32(y.jb.stat.nFlush, FlushesIn(y.jb, op))
  {
    if op.OpPut? {
      AdaptedFlushes(y.jb, op);
      StoreKeepsFlushes(Adapted(y.jb, op.h, op.now, op.ub), Pkt(op.h, op.mem));
    }
  }

  /** The flush counter counts them all: flushes clear the other counters, but not this one. */
  lemma {:induction false} RunFlushes(y: Sys, ops: seq<Op>)
    requires Shape(y.jb)
    ensures Run(y, ops).jb.stat.nFlush == AddU32(y.jb.stat.nFlush, Flushes(y, ops))
    decreases |ops|
  {
    if ops != [] {
      StepFlushes(y, ops[0]);
      RunFlushes(Step(y, ops[0]), ops[1..]);
      AddTwice(y.jb.stat.nFlush, FlushesIn(y.jb, ops[0]), Flushes(Step(y, ops[0]), ops[1..]));
    }
  }

  /** The payload type of the first packet put, if there is one. */
  function FirstType(ops: seq<Op>): int {
    if ops == [] then -1 else if ops[0].OpPut? then ops[0].h.pt else FirstType(ops[1..])
  }

  lemma StepKeepsType(y: Sys, op: Op)
    requires Shape(y.jb)
    ensures Step(y, op).jb.pt == if y.jb.pt == -1 && op.OpPut? then op.h.pt else y.jb.pt
  {
    if op.OpPut? {
      AdaptedType(y.jb, op);
      StoreKeepsPayloadType(Adapted(y.jb, op.h, op.now, op.ub), Pkt(op.h, op.mem));
    }
  }

  lemma AdaptedType(s: Jb, op: Op)
    requires Shape(s) && op.OpPut?
    ensures Adapted(s, op.h, op.now, op.ub).pt == if s.pt == -1 then op.h.pt else s.pt
  {
  }

  lemma StoreKeepsPayloadType(s: Jb, p: Pkt)
    requires Shape(s)
    ensures Store(s, p).0.pt == s.pt
  {
  }

  /** The buffer notes the payload type of the first packet put, for good. */
  lemma {:induction false} RunNotesType(y: Sys, ops: seq<Op>)
    requires Shape(y.jb)
    ensures Run(y, ops).jb.pt == if y.jb.pt == -1 then FirstType(ops) else y.jb.pt
    decreases |ops|
  {
    if ops != [] {
      StepKeepsType(y, ops[0]);
      RunNotesType(Step(y, ops[0]), ops[1..]);
    }
  }
}
