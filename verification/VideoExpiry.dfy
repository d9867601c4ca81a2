/**
 How long a packet is kept for retransmission: in every reachable state the history holds the packets sent
 less than half a second before the last clean-up, less those that a NACK has taken out.
 */
module VideoExpiry {
  import opened CInt
  import J = JbufModel
  import opened NackExact
  import opened VideoNack
  import opened VideoQueue
  import opened VideoHistory

  /** Microseconds that a packet is kept. */
  const KEEP_TIME: int := 500000

  /** Entry i is the packet sent at place places[i], with the length it was queued with, to be kept for half
      a second from when it was taken up. */
  ghost predicate Dated(q: seq<Qent>, places: seq<nat>, sent: seq<nat>, lens: seq<nat>, times: seq<nat>) {
    && |q| == |places| && |times| == |sent| <= |lens|
    && forall i :: 0 <= i < |q| ==>
         && places[i] < |sent| && sent[places[i]] == q[i].id && lens[places[i]] == q[i].len
         && q[i].jfsNack == times[places[i]] + KEEP_TIME
  }

  ghost predicate Timed(times: seq<nat>) {
    forall i, j :: 0 <= i < j < |times| ==> times[i] <= times[j]
  }

  function LastTime(times: seq<nat>): nat {
    if times == [] then 0 else times[|times| - 1]
  }

  /** The clock of the last clean-up: that of the packet moved to the history last. */
  function CleanTime(v: Vtx): nat {
    if 0 < Moved(v) <= |v.times| then v.times[Moved(v) - 1] else 0
  }

  /** The packet sent at this place, and not sent again, is too old at the last clean-up. */
  predicate Expired(v: Vtx, p: nat)
    requires p < |v.times|
  {
    CleanTime(v) - v.times[p] > KEEP_TIME
  }

  /** A packet that was moved to the history is there, was sent again, or is too old; no two of these. */
  ghost predicate Accounted(v: Vtx, places: seq<nat>, again: seq<nat>)
    requires |v.times| == |v.sent|
  {
    forall p: nat :: p < Moved(v) ==> (p in places <==> p !in again && !Expired(v, p))
  }

  /** The packets in the send queue have the lengths they were queued with. */
  ghost predicate Lengths(v: Vtx) {
    && Moved(v) >= 0 && |v.lens| == Moved(v) + |v.sendq|
    && forall i :: 0 <= i < |v.sendq| ==> v.sendq[i].len == v.lens[Moved(v) + i]
  }

  ghost predicate Queued(v: Vtx) {
    && Lengths(v) && Timed(v.times) && |v.times| == |v.sent| && v.clock == LastTime(v.times)
    && (v.flight ==> v.sendq != [] && v.sent != [] && v.sent[|v.sent| - 1] == v.sendq[0].id)
  }

  ghost predicate InPlace(v: Vtx, places: seq<nat>, again: seq<nat>) {
    && Dated(v.history, places, v.sent, v.lens, v.times) && Ascends(places)
    && Dated(v.resent, again, v.sent, v.lens, v.times)
    && (forall i :: 0 <= i < |places| ==> places[i] < Moved(v))
    && (forall i :: 0 <= i < |again| ==> again[i] < Moved(v))
  }

  ghost predicate Kept(v: Vtx, places: seq<nat>, again: seq<nat>) {
    Queued(v) && InPlace(v, places, again) && Accounted(v, places, again)
  }

  // ---------- Queueing and sending ----------

  lemma {:induction false} EnqueueKept(v: Vtx, id: nat, len: nat, places: seq<nat>, again: seq<nat>)
    requires Kept(v, places, again)
    ensures Kept(Step(v, Enqueue(id, len)), places, again)
  {
    var r := Step(v, Enqueue(id, len));
    assert Moved(r) == Moved(v) && CleanTime(r) == CleanTime(v);
  }

  lemma {:induction false} SendQueued(v: Vtx, jfs: nat, transmitted: bool)
    requires Queued(v) && !v.flight && v.sendq != [] && v.clock <= jfs
    ensures var r := Step(v, Send(jfs, transmitted)); Queued(r) && Moved(r) == Moved(v) && CleanTime(r) == CleanTime(v)
  {
    var t := v.times + [jfs];
    forall i, j | 0 <= i < j < |t|
      ensures t[i] <= t[j]
    {
      if j == |v.times| && i < |v.times| - 1 {
        assert t[i] <= v.times[|v.times| - 1];
      }
    }
  }

  lemma {:induction false} SendKept(v: Vtx, jfs: nat, transmitted: bool, places: seq<nat>, again: seq<nat>)
    requires Kept(v, places, again) && v.clock <= jfs
    ensures Kept(Step(v, Send(jfs, transmitted)), places, again)
  {
    if !v.flight && v.sendq != [] {
      SendQueued(v, jfs, transmitted);
      var r := Step(v, Send(jfs, transmitted));
      assert InPlace(r, places, again);
      assert forall p: nat :: p < Moved(v) ==> r.times[p] == v.times[p];
    }
  }

  // ---------- The clean-up ----------

  /** The history with the packet just sent, before the clean-up. */
  lemma {:induction false} AppendDated(v: Vtx, places: seq<nat>, again: seq<nat>)
    requires Kept(v, places, again) && v.flight
    ensures var all := places + [|v.sent| - 1];
            Dated(v.history + [Stamped(v)], all, v.sent, v.lens, v.times) && Ascends(all)
  {
    assert v.sendq[0].len == v.lens[Moved(v) + 0];
  }

  /** Places in order are in order of time, so that the clean-up splits them by age. */
  lemma {:induction false} SplitByAge(q: seq<Qent>, places: seq<nat>, v: Vtx, k: nat, p: nat)
    requires Dated(q, places, v.sent, v.lens, v.times) && Ascends(places) && Timed(v.times) && k <= |q|
    requires forall i :: 0 <= i < k ==> q[i].jfsNack < v.clock
    requires k < |q| ==> v.clock <= q[k].jfsNack
    requires p < |v.times|
    ensures p in places[k..] <==> p in places && v.clock <= v.times[p] + KEEP_TIME
  {
    if p in places {
      var i :| 0 <= i < |places| && places[i] == p;
      if i >= k {
        assert places[k..][i - k] == p;
        assert i > k ==> v.times[places[k]] <= v.times[places[i]];
      }
    }
  }

  lemma {:induction false} SplitAllByAge(q: seq<Qent>, places: seq<nat>, v: Vtx, k: nat)
    requires Dated(q, places, v.sent, v.lens, v.times) && Ascends(places) && Timed(v.times) && k <= |q|
    requires forall i :: 0 <= i < k ==> q[i].jfsNack < v.clock
    requires k < |q| ==> v.clock <= q[k].jfsNack
    ensures forall p: nat :: p < |v.times| ==> (p in places[k..] <==> p in places && v.clock <= v.times[p] + KEEP_TIME)
  {
    forall p: nat | p < |v.times|
      ensures p in places[k..] <==> p in places && v.clock <= v.times[p] + KEEP_TIME
    {
      SplitByAge(q, places, v, k, p);
    }
  }

  lemma {:induction false} FinishQueued(v: Vtx)
    requires Queued(v) && v.flight
    ensures var r := Step(v, Finish); Queued(r) && Moved(r) == |v.sent| == Moved(v) + 1 && CleanTime(r) == v.clock
    ensures CleanTime(v) <= v.clock
  {
  }

  lemma {:induction false} FinishAccounted(v: Vtx, places: seq<nat>, again: seq<nat>, k: nat, rest: seq<nat>)
    requires Kept(v, places, again) && v.flight && k <= |places| + 1
    requires rest == (places + [|v.sent| - 1])[k..]
    requires forall p: nat :: p < |v.times| ==>
               (p in rest <==> p in places + [|v.sent| - 1] && v.clock <= v.times[p] + KEEP_TIME)
    ensures Accounted(Step(v, Finish), rest, again)
  {
    FinishQueued(v);
    var r := Step(v, Finish);
    forall p: nat | p < Moved(r)
      ensures p in rest <==> p !in again && !Expired(r, p)
    {
      if p == |v.sent| - 1 {
        assert v.times[p] == v.clock && p !in again && (places + [|v.sent| - 1])[|places|] == p;
      } else {
        assert p in places + [|v.sent| - 1] <==> p in places;
      }
    }
  }

  lemma {:induction false} FinishInPlace(v: Vtx, places: seq<nat>, again: seq<nat>, all: seq<nat>, k: nat, r: Vtx)
    requires Queued(v) && InPlace(v, places, again) && v.flight && k <= |v.history| + 1
    requires all == places + [|v.sent| - 1] && Ascends(all)
    requires Dated(v.history + [Stamped(v)], all, v.sent, v.lens, v.times)
    requires r == v.(sendq := v.sendq[1..], flight := false, history := (v.history + [Stamped(v)])[k..])
    ensures InPlace(r, all[k..], again)
  {
  }

  lemma {:induction false} FinishIs(v: Vtx, k: nat)
    requires v.flight && v.sendq != [] && k <= |v.history| + 1
    requires Purge(v.history + [Stamped(v)], v.clock) == (v.history + [Stamped(v)])[k..]
    ensures Step(v, Finish) == v.(sendq := v.sendq[1..], flight := false, history := (v.history + [Stamped(v)])[k..])
  {
  }

  lemma {:induction false} FinishKept(v: Vtx, places: seq<nat>, again: seq<nat>) returns (rest: seq<nat>)
    requires Kept(v, places, again) && v.flight
    ensures Kept(Step(v, Finish), rest, again)
  {
    var h, all := v.history + [Stamped(v)], places + [|v.sent| - 1];
    AppendDated(v, places, again);
    var k := PurgeSuffix(h, v.clock);
    rest := all[k..];
    SplitAllByAge(h, all, v, k);
    FinishAccounted(v, places, again, k, rest);
    FinishQueued(v);
    FinishIs(v, k);
    FinishInPlace(v, places, again, all, k, Step(v, Finish));
  }

  // ---------- NACKs ----------

  lemma {:induction false} PickDated(q: seq<Qent>, places: seq<nat>, mask: seq<bool>, v: Vtx, top: int)
    requires |mask| == |q| && Dated(q, places, v.sent, v.lens, v.times)
    requires forall i :: 0 <= i < |places| ==> places[i] < top
    ensures Dated(Pick(q, mask), Pick<nat>(places, mask), v.sent, v.lens, v.times)
    ensures forall i :: 0 <= i < |Pick<nat>(places, mask)| ==> Pick<nat>(places, mask)[i] < top
  {
    PickSize(q, places, mask);
    forall i | 0 <= i < |Pick(q, mask)|
      ensures var p, e := Pick<nat>(places, mask)[i], Pick(q, mask)[i];
              && p < |v.sent| && p < top && v.sent[p] == e.id && v.lens[p] == e.len
              && e.jfsNack == v.times[p] + KEEP_TIME
    {
      var j := PickedFrom(q, places, mask, i);
    }
  }

  /** Of distinct elements each is picked by the mask or by its opposite. */
  lemma {:induction false} PickParted(l: seq<nat>, mask: seq<bool>, p: nat)
    requires |mask| == |l| && Ascends(l)
    ensures p in Pick(l, Not(mask)) <==> p in l && p !in Pick(l, mask)
    ensures p in Pick(l, mask) ==> p in l
  {
    if l != [] {
      var rest := l[1..];
      PickParted(rest, mask[1..], p);
      NotTail(mask);
      assert l == [l[0]] + rest;
      assert p in rest ==> p != l[0];
    }
  }

  lemma {:induction false} NackSplits(v: Vtx, g: J.Gnack, mask: seq<bool>, r: Vtx)
    requires |g.blp| == NACK_BLPSZ && mask == Taken(v.history, g) && r == Step(v, Nack(g))
    ensures r == v.(history := Pick(v.history, Not(mask)), resent := v.resent + Pick(v.history, mask))
  {
    NackSelects(v.history, g);
  }

  lemma {:induction false} NackAccounted(v: Vtx, places: seq<nat>, again: seq<nat>, mask: seq<bool>)
    requires |v.times| == |v.sent| && Accounted(v, places, again) && |mask| == |places| && Ascends(places)
    ensures Accounted(v, Pick<nat>(places, Not(mask)), again + Pick<nat>(places, mask))
  {
    forall p: nat | p < Moved(v)
      ensures p in Pick<nat>(places, Not(mask)) <==> p !in again + Pick<nat>(places, mask) && !Expired(v, p)
    {
      PickParted(places, mask, p);
    }
  }

  lemma {:induction false} JoinDated(a: seq<Qent>, p: seq<nat>, b: seq<Qent>, q: seq<nat>, v: Vtx)
    requires Dated(a, p, v.sent, v.lens, v.times) && Dated(b, q, v.sent, v.lens, v.times)
    ensures Dated(a + b, p + q, v.sent, v.lens, v.times)
  {
  }

  lemma {:induction false} NackInPlace(v: Vtx, places: seq<nat>, again: seq<nat>, mask: seq<bool>, r: Vtx)
    requires |mask| == |v.history| && InPlace(v, places, again)
    requires r == v.(history := Pick(v.history, Not(mask)), resent := v.resent + Pick(v.history, mask))
    ensures InPlace(r, Pick<nat>(places, Not(mask)), again + Pick<nat>(places, mask))
  {
    PickDated(v.history, places, Not(mask), v, Moved(v));
    PickDated(v.history, places, mask, v, Moved(v));
    PickAscends(places, Not(mask));
    JoinDated(v.resent, again, Pick(v.history, mask), Pick<nat>(places, mask), v);
  }

  /** What the records are about does not hang on the history and what was sent again. */
  lemma {:induction false} NackFrame(v: Vtx, r: Vtx, places: seq<nat>, again: seq<nat>)
    requires Queued(v) && r == v.(history := r.history, resent := r.resent)
    ensures Queued(r) && (Accounted(v, places, again) ==> Accounted(r, places, again))
  {
  }

  lemma {:induction false} NackKept(v: Vtx, g: J.Gnack, places: seq<nat>, again: seq<nat>)
    returns (rest: seq<nat>, more: seq<nat>)
    requires Kept(v, places, again) && |g.blp| == NACK_BLPSZ
    ensures Kept(Step(v, Nack(g)), rest, more)
  {
    var mask, r := Taken(v.history, g), Step(v, Nack(g));
    rest, more := Pick<nat>(places, Not(mask)), again + Pick<nat>(places, mask);
    NackSplits(v, g, mask, r);
    NackInPlace(v, places, again, mask, r);
    NackAccounted(v, places, again, mask);
    NackFrame(v, r, rest, more);
  }

  // ---------- Runs ----------

  lemma {:induction false} StepKept(v: Vtx, op: Op, places: seq<nat>, again: seq<nat>)
    returns (rest: seq<nat>, more: seq<nat>)
    requires Kept(v, places, again) && ClockForward(v, op)
    ensures Kept(Step(v, op), rest, more)
  {
    rest, more := places, again;
    match op
    case Enqueue(id, len) => EnqueueKept(v, id, len, places, again);
    case Send(jfs, transmitted) => SendKept(v, jfs, transmitted, places, again);
    case Finish =>
      if v.flight {
        rest := FinishKept(v, places, again);
      }
    case Nack(g) =>
      if |g.blp| == NACK_BLPSZ {
        rest, more := NackKept(v, g, places, again);
      }
  }

  /** In every reachable state, a packet that was sent, and not sent again, is in the history if and only if
      at most 500000 microseconds lie between its sending and the last clean-up; and every entry of the
      history, the send queue and what was sent again has the length it was queued with. */
  lemma {:induction false} RunKept(v: Vtx, ops: seq<Op>, places: seq<nat>, again: seq<nat>)
    returns (rest: seq<nat>, more: seq<nat>)
    requires Kept(v, places, again) && ForwardRun(v, ops)
    ensures Kept(Run(v, ops), rest, more)
    decreases |ops|
  {
    rest, more := places, again;
    if ops != [] {
      rest, more := StepKept(v, ops[0], places, again);
      rest, more := RunKept(Step(v, ops[0]), ops[1..], rest, more);
    }
  }

  /** A new sender starts these runs. */
  lemma StartKept(encSeq: U16)
    ensures Kept(Start(encSeq), [], [])
  {
  }
}
