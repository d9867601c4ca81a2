/**
 The queues of the video sender: packets are appended to the send queue, sent from its head by one
 thread, kept in a history for retransmission and removed from it by age or by a NACK. The operations
 that take the lock are the steps; the sending itself lies between two of them.
 */
module VideoQueue {
  import opened CInt
  import opened JbufModel
  import opened VideoNack

  const NACK_QUEUE_TIME: int := 500

  /** `clock` is the last clock reading of the thread, `flight` whether the head of the send queue has
      been sent but not moved yet. The others record what happened: the ids and lengths of the packets
      queued, the ids of those sent with whether the stream transmitted them and when they were taken up,
      and what was sent again. */
  datatype Vtx = Vtx(sendq: seq<Qent>, history: seq<Qent>, encSeq: U16, clock: nat, flight: bool,
                     queued: seq<nat>, lens: seq<nat>, sent: seq<nat>, aired: seq<bool>, times: seq<nat>,
                     resent: seq<Qent>)

  datatype Op =
    | Enqueue(id: nat, len: nat)
    | Send(jfs: nat, transmitted: bool)
    | Finish
    | Nack(g: Gnack)

  function Ids(q: seq<Qent>): (r: seq<nat>)
    ensures |r| == |q|
  {
    seq(|q|, i requires 0 <= i < |q| => q[i].id)
  }

  /** Drop expired entries from the head up to the first that is not. */
  function Purge(q: seq<Qent>, jfs: nat): seq<Qent> {
    if q != [] && jfs > q[0].jfsNack then Purge(q[1..], jfs) else q
  }

  /** The entry as it goes into the history. */
  function Stamped(v: Vtx): Qent
    requires v.sendq != []
  {
    v.sendq[0].(jfsNack := v.clock + NACK_QUEUE_TIME * 1000, sn := v.encSeq)
  }

  function Step(v: Vtx, op: Op): Vtx {
    match op
    case Enqueue(id, len) => v.(sendq := v.sendq + [Qent(id, len, 0, 0)], queued := v.queued + [id],
                                 lens := v.lens + [len])
    case Send(jfs, transmitted) =>
      if v.flight || v.sendq == [] then v
      else v.(clock := jfs, flight := true, sent := v.sent + [v.sendq[0].id],
              aired := v.aired + [transmitted], times := v.times + [jfs],
              encSeq := if transmitted then ToU16(v.encSeq + 1) else v.encSeq)
    case Finish =>
      if !v.flight || v.sendq == [] then v
      else v.(sendq := v.sendq[1..], flight := false,
              history := Purge(v.history + [Stamped(v)], v.clock))
    case Nack(g) =>
      if |g.blp| != NACK_BLPSZ then v
      else
        var (kept, resent) := HandleNack(v.history, g);
        v.(history := kept, resent := v.resent + resent)
  }

  function Run(v: Vtx, ops: seq<Op>): Vtx
    decreases |ops|
  {
    if ops == [] then v else Run(Step(v, ops[0]), ops[1..])
  }

  function Start(encSeq: U16): Vtx {
    Vtx([], [], encSeq, 0, false, [], [], [], [], [], [])
  }

  // ---------- Queue discipline ----------

  ghost predicate SortedByAge(q: seq<Qent>) {
    forall i, j :: 0 <= i < j < |q| ==> q[i].jfsNack <= q[j].jfsNack
  }

  /** Packets not sent yet. */
  function Waiting(v: Vtx): seq<Qent> {
    if v.flight && v.sendq != [] then v.sendq[1..] else v.sendq
  }

  ghost predicate Orderly(v: Vtx) {
    && (v.flight ==> v.sendq != [])
    && v.sent + Ids(Waiting(v)) == v.queued
    && SortedByAge(v.history)
    && (forall i :: 0 <= i < |v.history| ==> v.history[i].jfsNack <= v.clock + NACK_QUEUE_TIME * 1000)
  }

  /** The clock of the thread does not go back. */
  ghost predicate ClockForward(v: Vtx, op: Op) {
    op.Send? ==> v.clock <= op.jfs
  }

  ghost predicate ForwardRun(v: Vtx, ops: seq<Op>)
    decreases |ops|
  {
    ops == [] || (ClockForward(v, ops[0]) && ForwardRun(Step(v, ops[0]), ops[1..]))
  }

  /** The entries that have not expired. */
  function Unexpired(q: seq<Qent>, jfs: nat): seq<Qent> {
    if q == [] then []
    else if jfs > q[0].jfsNack then Unexpired(q[1..], jfs)
    else [q[0]] + Unexpired(q[1..], jfs)
  }

  lemma {:induction false} AllUnexpired(q: seq<Qent>, jfs: nat)
    requires forall i :: 0 <= i < |q| ==> jfs <= q[i].jfsNack
    ensures Unexpired(q, jfs) == q
  {
    if q != [] {
      AllUnexpired(q[1..], jfs);
    }
  }

  /** On a history sorted by age the early exit of the clean-up misses nothing: exactly the expired
      entries go. */
  lemma {:induction false} PurgeIsExact(q: seq<Qent>, jfs: nat)
    requires SortedByAge(q)
    ensures Purge(q, jfs) == Unexpired(q, jfs)
  {
    if q != [] {
      if jfs > q[0].jfsNack {
        PurgeIsExact(q[1..], jfs);
      } else {
        AllUnexpired(q, jfs);
      }
    }
  }

  lemma {:induction false} PurgeKeeps(q: seq<Qent>, jfs: nat, top: int)
    requires SortedByAge(q) && forall i :: 0 <= i < |q| ==> q[i].jfsNack <= top
    ensures SortedByAge(Purge(q, jfs)) && forall i :: 0 <= i < |Purge(q, jfs)| ==> Purge(q, jfs)[i].jfsNack <= top
  {
    if q != [] && jfs > q[0].jfsNack {
      PurgeKeeps(q[1..], jfs, top);
    }
  }

  /** What is kept by a NACK is a subsequence: its entries are of q and as sorted as q. */
  lemma {:induction false} ResendKeeps(q: seq<Qent>, pids: seq<U16>, low: int, top: int)
    requires SortedByAge(q) && forall i :: 0 <= i < |q| ==> low <= q[i].jfsNack <= top
    ensures var r := Resend(q, pids).0;
            SortedByAge(r) && forall i :: 0 <= i < |r| ==> low <= r[i].jfsNack <= top
  {
    if q != [] && pids != [] {
      ResendKeeps(q[1..], pids[1..], q[0].jfsNack, top);
    }
  }

  lemma NackKeeps(q: seq<Qent>, g: Gnack, top: int)
    requires |g.blp| == NACK_BLPSZ && SortedByAge(q) && forall i :: 0 <= i < |q| ==> q[i].jfsNack <= top
    ensures var r := HandleNack(q, g).0;
            SortedByAge(r) && forall i :: 0 <= i < |r| ==> r[i].jfsNack <= top
  {
    var k := FindPid(q, g.pid);
    if k < |q| {
      ResendKeeps(q[k..], Pids(g), q[k].jfsNack, top);
    }
  }

  lemma FinishOrderly(v: Vtx)
    requires Orderly(v) && v.flight
    ensures Orderly(Step(v, Finish))
  {
    var h := v.history + [Stamped(v)];
    PurgeKeeps(h, v.clock, v.clock + NACK_QUEUE_TIME * 1000);
  }

  lemma StepOrderly(v: Vtx, op: Op)
    requires Orderly(v) && ClockForward(v, op)
    ensures Orderly(Step(v, op))
  {
    match op
    case Enqueue(id, len) =>
      assert Ids(Waiting(Step(v, op))) == Ids(Waiting(v)) + [id];
    case Send(jfs, transmitted) =>
      if !v.flight && v.sendq != [] {
        assert Ids(v.sendq) == [v.sendq[0].id] + Ids(v.sendq[1..]);
      }
    case Finish =>
      if v.flight {
        FinishOrderly(v);
      }
    case Nack(g) =>
      if |g.blp| == NACK_BLPSZ {
        NackKeeps(v.history, g, v.clock + NACK_QUEUE_TIME * 1000);
      }
  }

  /** In every reachable state, however packets, sends and NACKs interleave: the packets sent, then
      those waiting, are the packets queued in order, and the history is sorted by age. */
  lemma {:induction false} RunOrderly(v: Vtx, ops: seq<Op>)
    requires Orderly(v) && ForwardRun(v, ops)
    ensures Orderly(Run(v, ops))
    decreases |ops|
  {
    if ops != [] {
      StepOrderly(v, ops[0]);
      RunOrderly(Step(v, ops[0]), ops[1..]);
    }
  }

  /** So each clean-up removes exactly the expired entries. */
  lemma FinishPurgesExactly(v: Vtx)
    requires Orderly(v) && v.flight
    ensures Step(v, Finish).history == Unexpired(v.history + [Stamped(v)], v.clock)
  {
    PurgeIsExact(v.history + [Stamped(v)], v.clock);
  }

  /** The clean-up leaves an end piece of the history, from the first entry on that has not expired. */
  lemma {:induction false} PurgeSuffix(q: seq<Qent>, jfs: nat) returns (k: nat)
    ensures k <= |q| && Purge(q, jfs) == q[k..]
    ensures forall i :: 0 <= i < k ==> q[i].jfsNack < jfs
    ensures k < |q| ==> jfs <= q[k].jfsNack
  {
    if q != [] && jfs > q[0].jfsNack {
      k := PurgeSuffix(q[1..], jfs);
      k := k + 1;
    } else {
      k := 0;
    }
  }

  /** A new sender starts these runs. */
  lemma StartOrderly(encSeq: U16)
    ensures Orderly(Start(encSeq))
  {
  }

  // ---------- Every packet is sent ----------

  /** The thread takes up a packet at each of these times, sends it, transmitted or not, and cleans up. */
  function Rounds(sends: seq<(nat, bool)>): seq<Op> {
    if sends == [] then [] else [Send(sends[0].0, sends[0].1), Finish] + Rounds(sends[1..])
  }

  lemma {:induction false} RunTwo(v: Vtx, a: Op, b: Op, rest: seq<Op>)
    ensures Run(v, [a, b] + rest) == Run(Step(Step(v, a), b), rest)
  {
    assert ([a, b] + rest)[1..] == [b] + rest && ([b] + rest)[1..] == rest;
  }

  /** One round sends the oldest packet waiting and puts it last into the history, which is not old enough to
      lose it. */
  lemma {:induction false} RoundSends(v: Vtx, jfs: nat, transmitted: bool, r: Vtx)
    requires Orderly(v) && !v.flight && v.sendq != [] && v.clock <= jfs
    requires r == Step(Step(v, Send(jfs, transmitted)), Finish)
    ensures Orderly(r) && !r.flight && r.clock == jfs && r.queued == v.queued && r.sendq == v.sendq[1..]
    ensures r.sent == v.sent + [v.queued[|v.sent|]]
    ensures r.history != [] && r.history[|r.history| - 1].id == v.queued[|v.sent|]
  {
    var v1 := Step(v, Send(jfs, transmitted));
    StepOrderly(v, Send(jfs, transmitted));
    StepOrderly(v1, Finish);
    assert Ids(v.sendq)[0] == v.sendq[0].id && v.queued[|v.sent|] == Ids(v.sendq)[0];
    var h := v1.history + [Stamped(v1)];
    var k := PurgeSuffix(h, v1.clock);
    assert h[|h| - 1] == Stamped(v1);
  }

  /** With one round for each packet waiting, however the clock goes on, all that was queued is sent, in
      order. */
  lemma {:induction false} AllSent(v: Vtx, sends: seq<(nat, bool)>)
    requires Orderly(v) && !v.flight && |sends| == |v.sendq| && (sends != [] ==> v.clock <= sends[0].0)
    requires forall i, j :: 0 <= i < j < |sends| ==> sends[i].0 <= sends[j].0
    ensures var r := Run(v, Rounds(sends)); r.sent == v.queued == r.queued && r.sendq == []
    decreases |sends|
  {
    if sends == [] {
      assert Ids(v.sendq) == [];
    } else {
      var (jfs, transmitted) := sends[0];
      var r := Step(Step(v, Send(jfs, transmitted)), Finish);
      RoundSends(v, jfs, transmitted, r);
      AllSent(r, sends[1..]);
      RunTwo(v, Send(jfs, transmitted), Finish, Rounds(sends[1..]));
    }
  }
}
