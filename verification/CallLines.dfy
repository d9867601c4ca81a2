/** Line numbers of the calls of a user agent: smallest free number first, 255 lines at most. */
module CallLines {
  import opened Common

  const LINENUM_MIN: int := 1
  const LINENUM_MAX: int := 256

  datatype Call = Call(id: nat, linenum: int)

  predicate InUse(calls: seq<Call>, num: int) {
    exists i :: 0 <= i < |calls| && calls[i].linenum == num
  }

  /** The smallest number from `num` on that no call uses, if there is one below the limit. */
  function FirstFree(calls: seq<Call>, num: int): (r: Option<int>)
    decreases LINENUM_MAX - num
  {
    if num >= LINENUM_MAX then None
    else if !InUse(calls, num) then Some(num)
    else FirstFree(calls, num + 1)
  }

  datatype Op = Open(id: nat) | Close(k: nat) | Current(k: nat)

  function Removed(calls: seq<Call>, k: nat): seq<Call>
    requires k < |calls|
  {
    calls[..k] + calls[k + 1..]
  }

  /** A new call goes to the tail, which is the current call; it fails when no number is free. */
  function Step(calls: seq<Call>, op: Op): seq<Call> {
    match op
    case Open(id) =>
      var num := FirstFree(calls, LINENUM_MIN);
      if num.Some? then calls + [Call(id, num.value)] else calls
    case Close(k) => if k < |calls| then Removed(calls, k) else calls
    case Current(k) => if k < |calls| then Removed(calls, k) + [calls[k]] else calls
  }

  function Run(calls: seq<Call>, ops: seq<Op>): seq<Call>
    decreases |ops|
  {
    if ops == [] then calls else Run(Step(calls, ops[0]), ops[1..])
  }

  // ---------- Invariant ----------

  ghost predicate Distinct(calls: seq<Call>) {
    && (forall i :: 0 <= i < |calls| ==> LINENUM_MIN <= calls[i].linenum < LINENUM_MAX)
    && (forall i, j :: 0 <= i < j < |calls| ==> calls[i].linenum != calls[j].linenum)
  }

  lemma {:induction false} FirstFreeIs(calls: seq<Call>, num: int)
    ensures var r := FirstFree(calls, num);
            && (r.Some? ==> num <= r.value < LINENUM_MAX && !InUse(calls, r.value)
                            && forall n :: num <= n < r.value ==> InUse(calls, n))
            && (r.None? ==> forall n :: num <= n < LINENUM_MAX ==> InUse(calls, n))
    decreases LINENUM_MAX - num
  {
    if num < LINENUM_MAX && InUse(calls, num) {
      FirstFreeIs(calls, num + 1);
    }
  }

  lemma RemovedDistinct(calls: seq<Call>, k: nat)
    requires Distinct(calls) && k < |calls|
    ensures Distinct(Removed(calls, k)) && !InUse(Removed(calls, k), calls[k].linenum)
  {
    var r := Removed(calls, k);
    assert forall i :: 0 <= i < |r| ==> r[i] == calls[if i < k then i else i + 1];
  }

  lemma AppendedDistinct(calls: seq<Call>, c: Call)
    requires Distinct(calls) && !InUse(calls, c.linenum) && LINENUM_MIN <= c.linenum < LINENUM_MAX
    ensures Distinct(calls + [c])
  {
  }

  lemma StepDistinct(calls: seq<Call>, op: Op)
    requires Distinct(calls)
    ensures Distinct(Step(calls, op))
  {
    match op
    case Open(id) =>
      FirstFreeIs(calls, LINENUM_MIN);
      var num := FirstFree(calls, LINENUM_MIN);
      if num.Some? {
        AppendedDistinct(calls, Call(id, num.value));
      }
    case Close(k) =>
      if k < |calls| {
        RemovedDistinct(calls, k);
      }
    case Current(k) =>
      if k < |calls| {
        RemovedDistinct(calls, k);
        AppendedDistinct(Removed(calls, k), calls[k]);
      }
  }

  /** In every history of opening, closing and switching calls, the live calls have pairwise
      distinct numbers between 1 and 255. */
  lemma {:induction false} RunDistinct(calls: seq<Call>, ops: seq<Op>)
    requires Distinct(calls)
    ensures Distinct(Run(calls, ops))
    decreases |ops|
  {
    if ops != [] {
      StepDistinct(calls, ops[0]);
      RunDistinct(Step(calls, ops[0]), ops[1..]);
    }
  }

  // ---------- What happens to each call ----------

  /** `r` is `calls` without the call at place k, the others in their order. */
  ghost predicate Without(calls: seq<Call>, k: nat, r: seq<Call>) {
    && k < |calls| && |r| == |calls| - 1
    && (forall i :: 0 <= i < k ==> r[i] == calls[i])
    && (forall i :: k <= i < |r| ==> r[i] == calls[i + 1])
  }

  lemma WithoutBag(calls: seq<Call>, k: nat, r: seq<Call>)
    requires Without(calls, k, r)
    ensures multiset(r) + multiset{calls[k]} == multiset(calls)
  {
    var a, b := calls[..k], calls[k + 1..];
    assert r == a + b;
    assert calls == a + [calls[k]] + b;
  }

  lemma WithoutLines(calls: seq<Call>, k: nat, r: seq<Call>, n: int)
    requires Without(calls, k, r) && Distinct(calls)
    ensures InUse(r, n) <==> n != calls[k].linenum && InUse(calls, n)
  {
    if InUse(calls, n) && n != calls[k].linenum {
      var i :| 0 <= i < |calls| && calls[i].linenum == n;
      assert r[if i < k then i else i - 1].linenum == n;
    }
    if InUse(r, n) {
      var i :| 0 <= i < |r| && r[i].linenum == n;
      assert calls[if i < k then i else i + 1].linenum == n;
    }
  }

  /** Closing a call takes that call off the list and leaves the others in their order; its line, and no
      other, becomes free. */
  lemma CloseFrees(calls: seq<Call>, k: nat)
    requires Distinct(calls) && k < |calls|
    ensures var r := Step(calls, Close(k));
            && Without(calls, k, r) && multiset(r) + multiset{calls[k]} == multiset(calls)
            && (forall n :: InUse(r, n) <==> n != calls[k].linenum && InUse(calls, n))
  {
    var r := Step(calls, Close(k));
    WithoutBag(calls, k, r);
    forall n
      ensures InUse(r, n) <==> n != calls[k].linenum && InUse(calls, n)
    {
      WithoutLines(calls, k, r, n);
    }
  }

  /** Making a call the current one moves it to the tail and leaves the others in their order; no call
      changes its line. */
  lemma CurrentMoves(calls: seq<Call>, k: nat)
    requires k < |calls|
    ensures var r := Step(calls, Current(k));
            && r != [] && r[|r| - 1] == calls[k] && Without(calls, k, r[..|r| - 1])
            && multiset(r) == multiset(calls)
  {
    var r := Step(calls, Current(k));
    var init := r[..|r| - 1];
    assert r == init + [calls[k]];
    WithoutBag(calls, k, init);
  }

  /** A new call goes behind the others, which stay as they are, and takes the smallest number that none of
      them has; without such a number nothing changes. */
  lemma OpenTakes(calls: seq<Call>, id: nat)
    requires Distinct(calls)
    ensures var r := Step(calls, Open(id));
            if |calls| == 255 then r == calls
            else && |r| == |calls| + 1 && r[..|calls|] == calls && r[|calls|].id == id
                 && !InUse(calls, r[|calls|].linenum) && 1 <= r[|calls|].linenum <= 255
                 && forall n :: 1 <= n < r[|calls|].linenum ==> InUse(calls, n)
  {
    FullExactly(calls);
    FirstFreeIs(calls, LINENUM_MIN);
  }

  /** A line that is closed is the next one given out if no smaller one is free. */
  lemma ClosedLineReused(calls: seq<Call>, k: nat, id: nat)
    requires Distinct(calls) && k < |calls| && forall n :: 1 <= n < calls[k].linenum ==> InUse(calls, n)
    ensures var r := Step(Step(calls, Close(k)), Open(id));
            |r| == |calls| && r[|r| - 1] == Call(id, calls[k].linenum)
  {
    var c, line := Step(calls, Close(k)), calls[k].linenum;
    CloseFrees(calls, k);
    StepDistinct(calls, Close(k));
    FullExactly(calls);
    OpenTakes(c, id);
    var num := Step(c, Open(id))[|c|].linenum;
    assert !InUse(c, line);
    assert num < line ==> InUse(c, num);
  }

  // ---------- When the numbers run out ----------

  ghost function Lines(calls: seq<Call>): set<int> {
    set c | c in calls :: c.linenum
  }

  ghost function Below(k: int): (r: set<int>)
    ensures forall n :: n in r <==> LINENUM_MIN <= n < k
    decreases k
  {
    if k <= LINENUM_MIN then {} else Below(k - 1) + {k - 1}
  }

  lemma {:induction false} LinesSize(calls: seq<Call>)
    requires Distinct(calls)
    ensures |Lines(calls)| == |calls|
  {
    if calls != [] {
      var rest := calls[1..];
      LinesSize(rest);
      LinesHead(calls);
    }
  }

  lemma LinesHead(calls: seq<Call>)
    requires Distinct(calls) && calls != []
    ensures Lines(calls) == {calls[0].linenum} + Lines(calls[1..]) && calls[0].linenum !in Lines(calls[1..])
  {
    assert calls == [calls[0]] + calls[1..];
  }

  /** Pigeonhole: k - 1 numbers below k are all of them. */
  lemma {:induction false} FullRange(a: set<int>, k: nat)
    requires k >= 1 && a <= Below(k)
    ensures |a| <= k - 1
    ensures |a| == k - 1 <==> a == Below(k)
  {
    if k == 1 {
      assert a == {} && Below(k) == {};
    } else {
      var b := a - {k - 1};
      FullRange(b, k - 1);
      assert Below(k) == Below(k - 1) + {k - 1};
      assert a == if k - 1 in a then b + {k - 1} else b;
    }
  }

  lemma LinesAreUsed(calls: seq<Call>, n: int)
    ensures n in Lines(calls) <==> InUse(calls, n)
  {
    if InUse(calls, n) {
      var i :| 0 <= i < |calls| && calls[i].linenum == n;
      assert calls[i] in calls;
    }
  }

  lemma FullBelow(calls: seq<Call>, k: nat)
    requires Distinct(calls) && k == LINENUM_MAX
    ensures |calls| <= k - 1
    ensures (forall n :: LINENUM_MIN <= n < k ==> InUse(calls, n)) <==> |calls| == k - 1
  {
    forall n
      ensures n in Lines(calls) <==> InUse(calls, n)
    {
      LinesAreUsed(calls, n);
    }
    LinesSize(calls);
    FullRange(Lines(calls), k);
  }

  /** With distinct numbers, opening a call fails exactly when 255 calls are live. */
  lemma FullExactly(calls: seq<Call>)
    requires Distinct(calls)
    ensures |calls| <= 255
    ensures FirstFree(calls, LINENUM_MIN).None? <==> |calls| == 255
  {
    FirstFreeIs(calls, LINENUM_MIN);
    FullBelow(calls, LINENUM_MAX);
  }

  // ---------- In place ----------

  class CallList {
    var calls: seq<Call>

    constructor ()
      ensures calls == []
    {
      calls := [];
    }

    /** Look for the call with a line number. */
    method FindLine(num: int) returns (c: Option<Call>)
      ensures c.Some? <==> InUse(calls, num)
      ensures c.Some? ==> c.value in calls && c.value.linenum == num
    {
      for i := 0 to |calls|
        invariant forall k :: 0 <= k < i ==> calls[k].linenum != num
      {
        if calls[i].linenum == num {
          return Some(calls[i]);
        }
      }
      return None;
    }

    /** The smallest free line number, or none. */
    method AssignLine() returns (num: Option<int>)
      ensures num == FirstFree(calls, LINENUM_MIN)
    {
      var n := LINENUM_MIN;
      while n < LINENUM_MAX
        invariant LINENUM_MIN <= n <= LINENUM_MAX
        invariant FirstFree(calls, n) == FirstFree(calls, LINENUM_MIN)
      {
        var c := FindLine(n);
        if c.None? {
          return Some(n);
        }
        n := n + 1;
      }
      return None;
    }

    /** Open a call; ENOENT when all lines are taken. */
    method NewCall(id: nat) returns (err: Err)
      requires Distinct(calls)
      modifies this
      ensures Distinct(calls) && calls == Step(old(calls), Open(id))
      ensures err == ENOENT <==> |old(calls)| == 255
      ensures err != ENOENT ==>
                && err == Ok && |calls| == |old(calls)| + 1 && calls[..|old(calls)|] == old(calls)
                && calls[|old(calls)|].id == id && !InUse(old(calls), calls[|old(calls)|].linenum)
    {
      OpenTakes(calls, id);
      FullExactly(calls);
      StepDistinct(calls, Open(id));
      var num := AssignLine();
      if num.None? {
        return ENOENT;
      }
      calls := calls + [Call(id, num.value)];
      return Ok;
    }

    /** Unlink a call that is destroyed. */
    method Destroy(k: nat)
      requires Distinct(calls) && k < |calls|
      modifies this
      ensures Distinct(calls) && calls == Step(old(calls), Close(k))
      ensures Without(old(calls), k, calls) && multiset(calls) + multiset{old(calls)[k]} == multiset(old(calls))
      ensures forall n :: InUse(calls, n) <==> n != old(calls)[k].linenum && InUse(old(calls), n)
    {
      CloseFrees(calls, k);
      StepDistinct(calls, Close(k));
      calls := calls[..k] + calls[k + 1..];
    }

    /** Make a call the current one. */
    method SetCurrent(k: nat)
      requires Distinct(calls) && k < |calls|
      modifies this
      ensures Distinct(calls) && calls == Step(old(calls), Current(k))
      ensures calls != [] && calls[|calls| - 1] == old(calls)[k] && Without(old(calls), k, calls[..|calls| - 1])
      ensures multiset(calls) == multiset(old(calls))
    {
      CurrentMoves(calls, k);
      StepDistinct(calls, Current(k));
      var c := calls[k];
      calls := calls[..k] + calls[k + 1..];
      calls := calls + [c];
    }
  }
}
