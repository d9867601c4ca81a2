/** The video sender in place, proved to follow the pacing, the queues and the NACK handler. */
module VideoSenders {
  import opened CInt
  import opened JbufModel
  import opened VideoPacing
  import opened VideoNack
  import Q = VideoQueue

  class VideoSender {
    const cfg: Cfg
    var startJfs: nat
    var targetJfs: nat
    var sentBits: nat
    var sendq: seq<Qent>
    var sendqnb: seq<Qent>
    var encSeq: U16
    var jfs: nat
    var flight: bool

    ghost var queued: seq<nat>
    ghost var lens: seq<nat>
    ghost var sent: seq<nat>
    ghost var aired: seq<bool>
    ghost var times: seq<nat>
    /** Packets sent again. */
    ghost var resent: seq<Qent>

    ghost function Queues(): Q.Vtx
      reads this
    {
      Q.Vtx(sendq, sendqnb, encSeq, jfs, flight, queued, lens, sent, aired, times, resent)
    }

    function Pacing(): Pace
      reads this
    {
      Pace(startJfs, targetJfs, sentBits)
    }

    constructor (cfg: Cfg, t0: nat, t1: nat, encSeq: U16)
      ensures this.cfg == cfg && Queues() == Q.Start(encSeq) && Pacing() == StartPace(t0, t1)
    {
      this.cfg, startJfs, targetJfs, sentBits := cfg, t0, t1, 0;
      sendq, sendqnb, jfs, flight := [], [], 0, false;
      this.encSeq := encSeq;
      queued, lens, sent, aired, times, resent := [], [], [], [], [], [];
    }

    /** Append a packet to the send queue. */
    method Enqueue(id: nat, len: nat)
      modifies this`sendq, this`queued, this`lens
      ensures Queues() == Q.Step(old(Queues()), Q.Enqueue(id, len))
    {
      sendq := sendq + [Qent(id, len, 0, 0)];
      queued, lens := queued + [id], lens + [len];
    }

    /** How long to wait for the target time; a target too far ahead or an idle period longer than
        the burst moves the start. */
    method WaitForTarget(now: nat) returns (sleep: nat)
      requires ValidCfg(cfg)
      modifies this`startJfs, this`sentBits
      ensures (startJfs, sentBits) == Restart(cfg, old(Pacing()), now)
      ensures sleep == SleepTime(cfg, old(Pacing()), now)
    {
      var maxDelay := MaxDelay(cfg);
      var maxBurst := MaxBurst(cfg);
      sleep := 0;
      if now < targetJfs {
        var delay := targetJfs - now;
        if delay > maxDelay {
          delay := maxDelay;
          startJfs := (now + delay) % U64_MOD;
          sentBits := 0;
        }
        sleep := delay % 0x1_0000_0000;
      } else {
        if (now - maxBurst) % U64_MOD > targetJfs {
          startJfs := (now - maxBurst) % U64_MOD;
          sentBits := 0;
        }
      }
    }

    /** Wait for the target time and compute the next one. */
    method PaceNext(now: nat, len: nat) returns (sleep: nat)
      requires ValidCfg(cfg)
      modifies this`startJfs, this`targetJfs, this`sentBits
      ensures Pacing() == PaceStep(cfg, old(Pacing()), now, len)
      ensures sleep == SleepTime(cfg, old(Pacing()), now)
    {
      sleep := WaitForTarget(now);
      sentBits := (sentBits + len * 8) % cfg.sizeMod;
      targetJfs := (startJfs + WrappedTime(cfg, sentBits)) % U64_MOD;
    }

    /** Note that the head of the send queue was sent; a transmission uses the next number. */
    method MarkSent(now: nat, transmitted: bool)
      requires !flight && sendq != []
      modifies this`jfs, this`flight, this`sent, this`aired, this`times, this`encSeq
      ensures Queues() == Q.Step(old(Queues()), Q.Send(now, transmitted))
    {
      jfs, flight, sent, aired, times := now, true, sent + [sendq[0].id], aired + [transmitted], times + [now];
      if transmitted {
        encSeq := ToU16(encSeq + 1);
      }
    }

    /** Take up the head of the send queue, pace it and send it. */
    method SendHead(now: nat, transmitted: bool) returns (sleep: nat)
      requires ValidCfg(cfg) && !flight && sendq != []
      modifies this`startJfs, this`targetJfs, this`sentBits, this`jfs, this`flight, this`sent, this`aired,
               this`times, this`encSeq
      ensures Queues() == Q.Step(old(Queues()), Q.Send(now, transmitted))
      ensures Pacing() == PaceStep(cfg, old(Pacing()), now, sendq[0].len)
      ensures sleep == SleepTime(cfg, old(Pacing()), now)
    {
      sleep := PaceNext(now, sendq[0].len);
      MarkSent(now, transmitted);
    }

    /** Move the packet just sent to the history and clean the history up. */
    method FinishSend()
      requires flight && sendq != []
      modifies this`sendq, this`sendqnb, this`flight
      ensures Queues() == Q.Step(old(Queues()), Q.Finish)
    {
      var qent := sendq[0].(jfsNack := jfs + Q.NACK_QUEUE_TIME * 1000, sn := encSeq);
      sendq, flight := sendq[1..], false;
      sendqnb := sendqnb + [qent];
      ghost var h := sendqnb;
      while |sendqnb| > 0
        invariant Q.Purge(sendqnb, jfs) == Q.Purge(h, jfs)
        modifies this`sendqnb
        decreases |sendqnb|
      {
        if jfs > sendqnb[0].jfsNack {
          sendqnb := sendqnb[1..];
        } else {
          break;
        }
      }
    }

    /** Spell out the sequence numbers that a NACK asks for. */
    method DecodePids(g: Gnack) returns (pids: array<U16>)
      requires |g.blp| == NACK_BLPSZ
      ensures fresh(pids) && pids[..] == Pids(g)
    {
      pids := new U16[NACK_BLPSZ + 1](_ => 0);
      pids[0] := g.pid;
      for i := 1 to NACK_BLPSZ + 1
        invariant pids.Length == NACK_BLPSZ + 1
        invariant forall k :: 0 <= k < i ==> pids[k] == Pids(g)[k]
        invariant forall k :: i <= k <= NACK_BLPSZ ==> pids[k] == 0
      {
        if g.blp[i - 1] {
          pids[i] := ToU16(g.pid + i);
        }
      }
    }

    /** Find the packet asked for first. */
    method FindFirst(pid: U16) returns (k: nat)
      ensures k == FindPid(sendqnb, pid)
    {
      k := 0;
      while k < |sendqnb| && sendqnb[k].sn != pid
        invariant k <= |sendqnb|
        invariant FindPid(sendqnb, pid) == k + FindPid(sendqnb[k..], pid)
      {
        k := k + 1;
      }
    }

    /** From entry `first` on, compare entry by entry with the numbers asked for and send those
        that match again, each once. */
    method ResendFrom(first: nat, pids: array<U16>)
      requires first <= |sendqnb| && pids.Length == NACK_BLPSZ + 1
      modifies this`sendqnb, this`resent
      ensures var r := Resend(old(sendqnb)[first..], pids[..]);
              sendqnb == old(sendqnb)[..first] + r.0 && resent == old(resent) + r.1
    {
      ghost var want := Resend(sendqnb[first..], pids[..]);
      ghost var pre0, done0 := sendqnb[..first], resent;
      var k, i := first, 0;
      assert pids[0..] == pids[..];
      while i < NACK_BLPSZ + 1 && k < |sendqnb|
        invariant 0 <= i <= NACK_BLPSZ + 1 && 0 <= k <= |sendqnb|
        invariant sendqnb[..k] + Resend(sendqnb[k..], pids[i..]).0 == pre0 + want.0
        invariant resent + Resend(sendqnb[k..], pids[i..]).1 == done0 + want.1
        decreases NACK_BLPSZ + 1 - i
      {
        var qent := sendqnb[k];
        ghost var pre, q := sendqnb[..k], sendqnb[k..];
        ResendStep(pre, q, pids[i..], resent);
        assert pids[i..][1..] == pids[i + 1..] && q[1..] == sendqnb[k + 1..];
        if qent.sn == pids[i] {
          resent := resent + [qent];
          sendqnb := sendqnb[..k] + sendqnb[k + 1..];
          assert sendqnb[..k] == pre && sendqnb[k..] == q[1..];
        } else {
          k := k + 1;
          assert sendqnb[..k] == pre + [qent];
        }
        i := i + 1;
      }
      assert sendqnb[..k] + sendqnb[k..] == sendqnb;
    }

    /** Answer a NACK from the history. */
    method AnswerNack(g: Gnack)
      requires |g.blp| == NACK_BLPSZ
      modifies this`sendqnb, this`resent
      ensures Queues() == Q.Step(old(Queues()), Q.Nack(g))
    {
      var pids := DecodePids(g);
      var k := FindFirst(g.pid);
      ResendFrom(k, pids);
    }
  }
}
