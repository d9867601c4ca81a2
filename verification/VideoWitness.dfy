/** Concrete runs of the video sender after which a NACK gets less, or more, than it asks for. */
module VideoWitness {
  import opened CInt
  import J = JbufModel
  import opened NackExact
  import opened VideoNack
  import opened VideoQueue

  /** One packet queued, sent at this time and moved to the history. */
  function Ship(id: nat, jfs: nat): seq<Op> {
    [Enqueue(id, 1), Send(jfs, true), Finish]
  }

  function Kept(id: nat, jfs: nat, sn: U16): Qent {
    Qent(id, 1, jfs + NACK_QUEUE_TIME * 1000, sn)
  }

  lemma {:induction false} RunJoined(v: Vtx, a: seq<Op>, b: seq<Op>)
    ensures Run(v, a + b) == Run(Run(v, a), b)
    decreases |a|
  {
    if a == [] {
      assert a + b == b;
    } else {
      assert (a + b)[1..] == a[1..] + b;
      RunJoined(Step(v, a[0]), a[1..], b);
    }
  }

  lemma ShipRun(v: Vtx, id: nat, jfs: nat)
    requires v.sendq == [] && !v.flight
    ensures var w := Run(v, Ship(id, jfs));
            && w.sendq == [] && !w.flight && w.encSeq == Next(v.encSeq) && w.resent == v.resent
            && w.history == Purge(v.history + [Kept(id, jfs, w.encSeq)], jfs)
  {
    var ops := Ship(id, jfs);
    var v1 := Step(v, ops[0]);
    var v2 := Step(v1, ops[1]);
    assert v1.sendq == [Qent(id, 1, 0, 0)];
    assert ops[1..][1..] == [Finish] && Run(v2, [Finish]) == Step(v2, Finish);
  }

  lemma PurgeNone(q: seq<Qent>, jfs: nat)
    requires q != [] && jfs <= q[0].jfsNack
    ensures Purge(q, jfs) == q
  {
  }

  /** Ask for this number only. */
  function Only(pid: U16): J.Gnack {
    J.Gnack(pid, seq(16, _ => false))
  }

  /** Packets 5 and 6, sent 600 ms apart: packet 5 has left the history, and the NACK for both finds
      nothing, although packet 6 is kept and asked for. */
  lemma FirstExpired()
    ensures var v := Run(Start(4), Ship(5, 0) + Ship(6, 600000));
            && v.history == [Kept(6, 600000, 6)] && Asks(GapNack(4, 7), 6)
            && HandleNack(v.history, GapNack(4, 7)) == (v.history, [])
  {
    RunJoined(Start(4), Ship(5, 0), Ship(6, 600000));
    ShipRun(Start(4), 5, 0);
    var v := Run(Start(4), Ship(5, 0));
    PurgeNone([Kept(5, 0, 5)], 0);
    assert v.history == [Kept(5, 0, 5)];
    ShipRun(v, 6, 600000);
    var h := [Kept(5, 0, 5), Kept(6, 600000, 6)];
    assert h == v.history + [Kept(6, 600000, 6)] && h[1..] == [Kept(6, 600000, 6)];
    PurgeNone(h[1..], 600000);
    NothingFound(h[1..], GapNack(4, 7));
  }

  lemma {:induction false} NothingFound(q: seq<Qent>, g: J.Gnack)
    requires |g.blp| == NACK_BLPSZ && FindPid(q, g.pid) == |q|
    ensures HandleNack(q, g) == (q, [])
  {
    assert q[|q|..] == [] && q[..|q|] + [] == q;
    assert Resend([], Pids(g)) == ([], []);
  }

  lemma ShipTwo(encSeq: U16)
    ensures var v := Run(Start(encSeq), Ship(1, 0) + Ship(2, 0));
            && v.sendq == [] && !v.flight && v.encSeq == Next(Next(encSeq))
            && v.history == [Kept(1, 0, Next(encSeq)), Kept(2, 0, Next(Next(encSeq)))]
  {
    RunJoined(Start(encSeq), Ship(1, 0), Ship(2, 0));
    ShipRun(Start(encSeq), 1, 0);
    var v := Run(Start(encSeq), Ship(1, 0));
    PurgeNone([Kept(1, 0, Next(encSeq))], 0);
    assert v.history == [Kept(1, 0, Next(encSeq))];
    ShipRun(v, 2, 0);
    PurgeNone(v.history + [Kept(2, 0, Next(Next(encSeq)))], 0);
  }

  lemma {:induction false} ResendOne(b: Qent, pids: seq<U16>)
    requires pids != []
    ensures Resend([b], pids) == if b.sn == pids[0] then ([], [b]) else ([b], [])
  {
    assert [b][1..] == [] && Resend([], pids[1..]) == ([], []);
    assert [b] + [] == [b];
  }

  /** Entry by entry, from the first one asked for. */
  lemma {:induction false} ResendTwo(a: Qent, b: Qent, g: J.Gnack)
    requires |g.blp| == NACK_BLPSZ && a.sn == g.pid
    ensures Resend([a, b], Pids(g)) == if b.sn == Pids(g)[1] then ([], [a, b]) else ([b], [a])
    ensures HandleNack([a, b], g) == Resend([a, b], Pids(g))
  {
    var q, pids := [a, b], Pids(g);
    ResendOne(b, pids[1..]);
    assert q[1..] == [b] && [a] + [b] == q && [a] + [] == [a];
    assert FindPid(q, g.pid) == 0 && q[0..] == q && q[..0] + Resend(q, pids).0 == Resend(q, pids).0;
  }

  /** Packets 65535 and 0: a NACK for the first alone has both sent again. */
  lemma ZeroSentUnasked()
    ensures var h := Run(Start(65534), Ship(1, 0) + Ship(2, 0)).history;
            && h == [Kept(1, 0, 65535), Kept(2, 0, 0)] && !Asks(Only(65535), 0)
            && HandleNack(h, Only(65535)) == ([], h)
  {
    ShipTwo(65534);
    ResendTwo(Kept(1, 0, 65535), Kept(2, 0, 0), Only(65535));
  }

  /** Packets 1, 2 and 3, of which a NACK takes packet 2. */
  lemma HoleLeft()
    ensures Run(Start(0), Ship(1, 0) + Ship(2, 0) + Ship(3, 0) + [Nack(Only(2))]).history
            == [Kept(1, 0, 1), Kept(3, 0, 3)]
  {
    var a, b, c := Kept(1, 0, 1), Kept(2, 0, 2), Kept(3, 0, 3);
    var two := Ship(1, 0) + Ship(2, 0);
    ShipTwo(0);
    RunJoined(Start(0), two, Ship(3, 0));
    ShipRun(Run(Start(0), two), 3, 0);
    PurgeNone([a, b] + [c], 0);
    var v := Run(Start(0), two + Ship(3, 0));
    assert v.history == [a, b, c];
    TakeMiddle(a, b, c);
    RunJoined(Start(0), two + Ship(3, 0), [Nack(Only(2))]);
    assert Run(v, [Nack(Only(2))]) == Step(v, Nack(Only(2)));
  }

  lemma {:induction false} TakeMiddle(a: Qent, b: Qent, c: Qent)
    requires a.sn == 1 && b.sn == 2 && c.sn == 3
    ensures HandleNack([a, b, c], Only(2)) == ([a, c], [b])
  {
    var q := [a, b, c];
    assert q[1..] == [b, c] && FindPid([b, c], 2) == 0 && FindPid(q, 2) == 1;
    ResendTwo(b, c, Only(2));
    assert q[..1] + [c] == [a, c];
  }

  /** Behind that hole, packet 3 is not sent again although a NACK for 1 and 3 asks for it. */
  lemma HoleHidesPacket(g: J.Gnack)
    requires g == J.Gnack(1, seq(16, i => i == 1))
    ensures var h := Run(Start(0), Ship(1, 0) + Ship(2, 0) + Ship(3, 0) + [Nack(Only(2))]).history;
            && Asks(g, 1) && Asks(g, 3)
            && HandleNack(h, g) == ([Kept(3, 0, 3)], [Kept(1, 0, 1)])
  {
    HoleLeft();
    ResendTwo(Kept(1, 0, 1), Kept(3, 0, 3), g);
  }

  /** The number 0 stands for not asked for: packet 0, asked for together with 65533, is sent again
      although packet 65534 is missing before it, because its place is one of those not asked for. */
  lemma {:induction false} ZeroBehindHole(a: Qent, b: Qent, c: Qent, g: J.Gnack)
    requires a.sn == 65533 && b.sn == 65535 && c.sn == 0 && g == J.Gnack(65533, seq(16, i => i == 2))
    ensures Asks(g, 65533) && !Asks(g, 65535) && Asks(g, 0)
    ensures HandleNack([a, b, c], g) == ([b], [a, c])
  {
    var q, pids := [a, b, c], Pids(g);
    assert pids[1] == 0 && pids[2] == 0 && pids[1..][1..] == pids[2..];
    ResendOne(c, pids[2..]);
    assert [b, c][1..] == [c] && [b] + [] == [b];
    assert Resend([b, c], pids[1..]) == ([b], [c]);
    assert q[1..] == [b, c] && [a] + [c] == [a, c];
    assert Resend(q, pids) == ([b], [a, c]);
    assert FindPid(q, g.pid) == 0 && q[0..] == q && q[..0] + [b] == [b];
  }

  /** One packet queued and sent at this time while the stream does not transmit, then moved. */
  function Suppress(id: nat, jfs: nat): seq<Op> {
    [Enqueue(id, 1), Send(jfs, false), Finish]
  }

  lemma SuppressRun(v: Vtx, id: nat, jfs: nat)
    requires v.sendq == [] && !v.flight
    ensures Run(v, Suppress(id, jfs)).history == Purge(v.history + [Kept(id, jfs, v.encSeq)], jfs)
  {
    var ops := Suppress(id, jfs);
    var v1 := Step(v, ops[0]);
    var v2 := Step(v1, ops[1]);
    assert v1.sendq == [Qent(id, 1, 0, 0)];
    assert ops[1..][1..] == [Finish] && Run(v2, [Finish]) == Step(v2, Finish);
  }

  lemma {:induction false} TakeOnly(a: Qent, g: J.Gnack)
    requires |g.blp| == NACK_BLPSZ && a.sn == g.pid
    ensures HandleNack([a], g) == ([], [a])
  {
    var q := [a];
    ResendOne(a, Pids(g));
    assert FindPid(q, g.pid) == 0 && q[0..] == q && q[..0] + [] == [];
  }

  /** Packet 1 is transmitted as number 5; packet 2, 600 ms later, is not transmitted and goes to the
      history under the same number. A NACK for number 5 then has packet 2 sent under it. */
  lemma SuppressedResent()
    ensures var h := Run(Start(4), Ship(1, 0) + Suppress(2, 600000)).history;
            h == [Kept(2, 600000, 5)] && HandleNack(h, Only(5)) == ([], h)
  {
    RunJoined(Start(4), Ship(1, 0), Suppress(2, 600000));
    ShipRun(Start(4), 1, 0);
    var v := Run(Start(4), Ship(1, 0));
    PurgeNone([Kept(1, 0, 5)], 0);
    assert v.history == [Kept(1, 0, 5)];
    SuppressRun(v, 2, 600000);
    var h := [Kept(1, 0, 5), Kept(2, 600000, 5)];
    assert h == v.history + [Kept(2, 600000, 5)] && h[1..] == [Kept(2, 600000, 5)];
    PurgeNone(h[1..], 600000);
    TakeOnly(Kept(2, 600000, 5), Only(5));
  }
}
