/** The RTP receiver in place, proved to follow the transition system of `RtpModel`. */
module RtpReceivers {
  import opened CInt
  import opened Common
  import opened JbufModel
  import opened RtpModel
  import opened JitterBuffers

  class RtpReceiver {
    const jbuf: JitterBuffer
    var enabled: bool
    var ssrc: U32
    var pseq: U32
    var pseqSet: bool

    /** What was delivered since the last flush, and the loss count of each. */
    ghost var out: seq<Pkt>
    ghost var lost: seq<int>

    ghost function State(): Rx
      reads this, jbuf
    {
      Rx(Sys(jbuf.State(), out, 0), enabled, ssrc, pseq, pseqSet, lost)
    }

    ghost predicate Valid()
      reads this, jbuf
    {
      jbuf.Valid() && jbuf.max > 0
    }

    constructor (min: U32, max: U32, jbtype: JbType, gnackOn: bool)
      requires min <= max && max > 0
      ensures Valid() && fresh(jbuf) && State() == RxStart(min, max, jbtype, gnackOn)
    {
      jbuf := new JitterBuffer(min, max, jbtype, gnackOn);
      enabled, ssrc, pseq, pseqSet, out, lost := true, 0, PSEQ_UNSET, false, [], [];
    }

    /** Packets lost before this one; negative for an old packet, which leaves the reference. */
    method CountLost(sn: U16) returns (lostc: int)
      modifies this`pseq
      ensures (lostc, pseq) == LostCalc(old(pseq), sn)
    {
      var delta := ToU16(sn - pseq);
      if pseq == PSEQ_UNSET {
        lostc := 0;
      } else if delta == 0 {
        return -1;
      } else if delta < 3000 {
        lostc := delta - 1;
      } else if delta < 0xff9c {
        lostc := 0;
      } else {
        return -2;
      }
      pseq := sn;
    }

    /** Get one frame and pass it on; `again` if the loop should go on. */
    method GetFrame(ignore: bool) returns (again: bool)
      requires Valid()
      modifies this`pseq, this`out, this`lost, jbuf
      ensures Valid() && (State(), again) == DecodeFrame(old(State()), ignore)
    {
      var err, p := jbuf.GetPacket();
      if p.None? {
        return false;
      }
      var lostc := CountLost(p.value.hdr.sn);
      out, lost := out + [p.value], lost + [lostc];
      return ignore || err == EAGAIN;
    }

    /** Follow the packet's source; `flush` if it is a new one. */
    method FollowSource(h: Hdr) returns (flush: bool)
      modifies this`ssrc, this`pseq, this`pseqSet
      ensures State() == Sync(old(State()), h) && flush == SsrcMoved(old(State()), h)
    {
      flush := false;
      if !pseqSet {
        ssrc, pseq, pseqSet := h.ssrc, ToU32(h.sn - 1), true;
      } else if h.ssrc != ssrc {
        ssrc, pseq, flush := h.ssrc, ToU32(h.sn - 1), true;
      }
    }

    /** Flush the jitter buffer if the source is new. */
    method FlushMoved(flush: bool)
      requires Valid()
      modifies this`out, this`lost, jbuf
      ensures Valid()
      ensures State() == if flush then old(State()).(sys := Step(old(State()).sys, OpFlush), lost := [])
                         else old(State())
    {
      if flush {
        jbuf.FlushAll();
        out, lost := [], [];
      }
    }

    /** Put the packet into the jitter buffer. */
    method PutReceived(h: Hdr, mem: Payload, now: nat, ub: U32) returns (err: Err)
      requires Valid()
      modifies this`out, this`lost, jbuf
      ensures Valid()
      ensures var y := Step(old(State()).sys, OpPut(h, mem, now, ub));
              State() == old(State()).(sys := y, lost := if y.out == [] then [] else old(lost))
    {
      ghost var flushed := PutFlushes(jbuf.State(), h, now);
      err := jbuf.PutPacket(h, mem, now, ub);
      if flushed {
        out := [];
      }
      if out == [] {
        lost := [];
      }
    }

    /** Put the packet into the jitter buffer, after a flush if its source is new. */
    method PutFollowed(h: Hdr, mem: Payload, now: nat, ub: U32, flush: bool) returns (err: Err)
      requires Valid()
      modifies this`out, this`lost, jbuf
      ensures Valid()
      ensures var y0 := old(State()).sys;
              var y := Step(if flush then Step(y0, OpFlush) else y0, OpPut(h, mem, now, ub));
              State() == old(State()).(sys := y, lost := if y.out == [] then [] else old(lost))
    {
      ghost var rx := State();
      FlushMoved(flush);
      ghost var rx1 := State();
      err := PutReceived(h, mem, now, ub);
      PutFollowedIs(rx, rx1, flush, OpPut(h, mem, now, ub));
    }

    /** After a flush there is no delivery, so that the loss counts are empty either way. */
    static lemma PutFollowedIs(rx: Rx, rx1: Rx, flush: bool, op: Op)
      requires Shape(rx.sys.jb) && op.OpPut?
      requires rx1 == if flush then rx.(sys := Step(rx.sys, OpFlush), lost := []) else rx
      ensures var y := Step(rx1.sys, op);
              rx1.(sys := y, lost := if y.out == [] then [] else rx1.lost)
              == rx.(sys := y, lost := if y.out == [] then [] else rx.lost)
    {
    }

    /** One turn of the loop that ends in state `goal`. */
    method NextFrame(n: nat, ignores: seq<bool>, ghost goal: Rx) returns (again: bool)
      requires Valid() && n > 0 && EndsIn(State(), n, ignores, goal)
      modifies this`pseq, this`out, this`lost, jbuf
      ensures Valid() && EndsIn(State(), if again then n - 1 else 0, Rest(ignores), goal)
    {
      LoopStep(State(), n, ignores);
      again := GetFrame(First(ignores));
    }

    /** Get frames until the loop should not go on, at most `count`; `n` of 0 ends it. */
    method GetFrames(count: nat, ignores: seq<bool>)
      requires Valid()
      modifies this`pseq, this`out, this`lost, jbuf
      ensures Valid() && State() == DecodeLoop(old(State()), count, ignores)
    {
      ghost var goal := DecodeLoop(State(), count, ignores);
      var n, rest := count, ignores;
      while n > 0
        invariant Valid() && 0 <= n && EndsIn(State(), n, rest, goal)
        decreases n
      {
        var again := NextFrame(n, rest, goal);
        n, rest := if again then n - 1 else 0, Rest(rest);
      }
    }

    /** Handle one received RTP packet. */
    method ReceivePacket(h: Hdr, mem: Payload, now: nat, ub: U32, ptErr: bool, ignores: seq<bool>)
      requires Valid()
      modifies this, jbuf
      ensures Valid() && State() == RxStep(old(State()), Receive(h, mem, now, ub, ptErr, ignores))
    {
      if !enabled || IsRtcp(h.pt) {
        return;
      }
      var flush := FollowSource(h);
      if ptErr {
        return;
      }
      var err := PutFollowed(h, mem, now, ub, flush);
      GetFrames(jbuf.n, ignores);
    }
  }
}
