/**
 The packet nodes of a jitter buffer and the two lists they move between. Nodes live in one table and
 lists hold indices into it, as the linked lists of the source hold pointers to preallocated nodes.
 */
module PacketNodes {
  import opened Common
  import opened JbufModel

  /** A node holds one reference to a payload, or none. */
  datatype Node = Node(hdr: Hdr, mem: Option<Payload>)

  const FREE_NODE := Node(Hdr(0, 0, 0, false, 0), None)

  ghost predicate Once(l: seq<nat>) {
    forall i, j :: 0 <= i < j < |l| ==> l[i] != l[j]
  }

  /** The lists and the loose node, if any, are all the nodes of the table, each in one place once. */
  ghost predicate Partition(size: nat, pool: seq<nat>, list: seq<nat>, loose: seq<nat>) {
    && Once(pool + list + loose)
    && |pool + list + loose| == size
    && forall i :: 0 <= i < |pool + list + loose| ==> (pool + list + loose)[i] < size
  }

  /** Nodes of this list hold a payload. */
  ghost predicate Full(nodes: seq<Node>, l: seq<nat>) {
    forall i :: 0 <= i < |l| ==> l[i] < |nodes| && nodes[l[i]].mem.Some?
  }

  /** Nodes of this list hold nothing. */
  ghost predicate Empty(nodes: seq<Node>, l: seq<nat>) {
    forall i :: 0 <= i < |l| ==> l[i] < |nodes| && nodes[l[i]].mem == None
  }

  ghost predicate Placed(nodes: seq<Node>, pool: seq<nat>, list: seq<nat>, loose: seq<nat>) {
    Partition(|nodes|, pool, list, loose) && Empty(nodes, pool) && Full(nodes, list) && Empty(nodes, loose)
  }

  /** The packets in a list. */
  ghost function Contents(nodes: seq<Node>, list: seq<nat>): (r: seq<Pkt>)
    requires Full(nodes, list)
  {
    seq(|list|, i requires 0 <= i < |list| => Pkt(nodes[list[i]].hdr, nodes[list[i]].mem.value))
  }

  /** The payloads of a list of packets, each as often as it occurs. */
  ghost function Held(pkts: seq<Pkt>): multiset<Payload> {
    if pkts == [] then multiset{} else multiset{pkts[0].mem} + Held(pkts[1..])
  }

  lemma {:induction false} HeldInsert(pkts: seq<Pkt>, i: nat, p: Pkt)
    requires i <= |pkts|
    ensures Held(InsertAt(pkts, i, p)) == Held(pkts) + multiset{p.mem}
    decreases i
  {
    var r := InsertAt(pkts, i, p);
    if i == 0 {
      assert r[1..] == pkts;
    } else {
      HeldInsert(pkts[1..], i - 1, p);
      assert r[1..] == InsertAt(pkts[1..], i - 1, p);
    }
  }

  function Cleared(nodes: seq<Node>, f: nat): seq<Node>
    requires f < |nodes|
  {
    nodes[f := nodes[f].(mem := None)]
  }

  lemma InitPlaced(nodes: seq<Node>, pool: seq<nat>)
    requires |nodes| == |pool| && forall i :: 0 <= i < |pool| ==> pool[i] == i && nodes[i].mem == None
    ensures Placed(nodes, pool, [], [])
  {
  }

  /** The oldest packet dropped, its node loose. */
  lemma HeadLoose(nodes: seq<Node>, pool: seq<nat>, list: seq<nat>)
    requires Placed(nodes, pool, list, []) && list != []
    ensures Placed(Cleared(nodes, list[0]), pool, list[1..], [list[0]])
    ensures Contents(Cleared(nodes, list[0]), list[1..]) == Contents(nodes, list)[1..]
  {
    var all := pool + list + [];
    var moved := pool + list[1..] + [list[0]];
    var p := |pool|;
    assert forall i :: 0 <= i < |moved| ==> moved[i] == all[if i < p then i else if i < |all| - 1 then i + 1 else p];
    forall i | 0 <= i < |list[1..]|
      ensures list[1..][i] != list[0]
    {
      assert all[p] == list[0] && all[p + i + 1] == list[1..][i];
    }
    forall i | 0 <= i < |pool|
      ensures pool[i] != list[0]
    {
      assert all[p] == list[0] && all[i] == pool[i];
    }
  }

  /** A free node taken out of the pool. */
  lemma PoolLoose(nodes: seq<Node>, pool: seq<nat>, list: seq<nat>)
    requires Placed(nodes, pool, list, []) && pool != []
    ensures Placed(nodes, pool[1..], list, [pool[0]])
  {
    var all := pool + list + [];
    var moved := pool[1..] + list + [pool[0]];
    assert forall i :: 0 <= i < |moved| ==> moved[i] == all[if i < |all| - 1 then i + 1 else 0];
  }

  /** A loose node given back to the pool. */
  lemma LooseFreed(nodes: seq<Node>, pool: seq<nat>, list: seq<nat>, f: nat)
    requires Placed(nodes, pool, list, [f])
    ensures Placed(nodes, pool + [f], list, [])
  {
    var all := pool + list + [f];
    var moved := pool + [f] + list + [];
    var p := |pool|;
    assert forall i :: 0 <= i < |moved| ==>
      moved[i] == all[if i < p then i else if i == p then |all| - 1 else i - 1];
  }

  /** A loose node filled and linked after the first k nodes of the list. */
  lemma LooseLinked(nodes: seq<Node>, pool: seq<nat>, list: seq<nat>, f: nat, k: nat, q: Pkt)
    requires Placed(nodes, pool, list, [f]) && k <= |list|
    ensures f < |nodes|
    ensures var nodes' := nodes[f := Node(q.hdr, Some(q.mem))];
            var list' := list[..k] + [f] + list[k..];
            && Placed(nodes', pool, list', [])
            && Contents(nodes', list') == InsertAt(Contents(nodes, list), k, q)
  {
    var all := pool + list + [f];
    var list' := list[..k] + [f] + list[k..];
    var moved := pool + list' + [];
    var p := |pool|;
    assert all[|all| - 1] == f;
    assert forall i :: 0 <= i < |moved| ==>
      moved[i] == all[if i < p + k then i else if i == p + k then |all| - 1 else i - 1];
    forall i | 0 <= i < |list|
      ensures list[i] != f
    {
      assert all[p + i] == list[i];
    }
    forall i | 0 <= i < |pool|
      ensures pool[i] != f
    {
      assert all[i] == pool[i];
    }
  }
}
