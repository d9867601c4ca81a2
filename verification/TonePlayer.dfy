/**
 The tone player: the audio device asks for frames, and the player copies the tone as often as it is
 to be repeated, with a pause between the copies.
 */
module TonePlayer {
  import opened CInt

  /** `trep` is the time at which the tone starts again, 0 when none is set; `out` is what was copied
      into frames so far, without the silence. A negative `repeat` means for ever. */
  datatype Play = Play(tone: seq<int>, pos: nat, repeat: int, trep: nat, delay: nat, eof: bool, out: seq<int>)

  predicate ValidPlay(p: Play) {
    p.pos <= |p.tone|
  }

  /** Samples that a request for n gets. */
  function Count(p: Play, n: nat): nat
    requires ValidPlay(p)
  {
    Min(|p.tone| - p.pos, n)
  }

  /** Copy up to n samples from the tone. */
  function Copy(p: Play, n: nat): (r: Play)
    requires ValidPlay(p)
    ensures ValidPlay(r) && p.out <= r.out && |r.out| == |p.out| + Count(p, n)
  {
    p.(pos := p.pos + Count(p, n), out := p.out + p.tone[p.pos..p.pos + Count(p, n)])
  }

  /** At the end of the tone: the new state, and whether it starts again right now. */
  function CheckRestart(p: Play, now: nat): (r: (Play, bool))
    requires ValidPlay(p)
    ensures ValidPlay(r.0) && r.0.out == p.out
  {
    if p.trep != 0 then
      if p.trep > now then (p, false) else (p.(trep := 0), true)
    else
      var repeat := if p.repeat > 0 then p.repeat - 1 else p.repeat;
      if repeat == 0 then (p.(repeat := repeat, eof := true), false)
      else (p.(repeat := repeat, trep := now + p.delay), false)
  }

  /** A frame of n samples, with the clock readings at the ends of the tone. */
  datatype Callback = Callback(n: nat, now: nat, later: nat)

  /** One read of the tone for the `left` samples a frame still lacks: the new state, the samples
      then lacking, and whether the tone starts again for them. */
  function Turn(p: Play, left: nat, now: nat): (r: (Play, nat, bool))
    requires ValidPlay(p)
    ensures ValidPlay(r.0) && r.1 <= left && (r.2 ==> r.1 > 0 && r.0.trep == 0)
    ensures p.out <= r.0.out && |r.0.out| == |p.out| + left - r.1
  {
    var left1 := left - Count(p, left);
    if left1 == 0 then (Copy(p, left), 0, false)
    else
      var (p1, again) := CheckRestart(Copy(p, left), now);
      if again then (p1.(pos := 0), left1, true) else (p1, left1, false)
  }

  /** One frame: at most two reads of the tone. */
  function WriteFrame(p: Play, cb: Callback): (r: Play)
    requires ValidPlay(p)
    ensures ValidPlay(r) && p.out <= r.out && |r.out| <= |p.out| + cb.n
  {
    if p.eof || cb.n == 0 then p
    else
      var (p1, left, again) := Turn(p, cb.n, cb.now);
      if again then Turn(p1, left, cb.later).0 else p1
  }

  /** A frame is one turn, or two if the tone starts again; the second always ends the frame. */
  lemma FrameTurns(p: Play, cb: Callback)
    requires ValidPlay(p) && !p.eof
    ensures var (p1, left, again) := Turn(p, cb.n, cb.now);
            && (cb.n > 0 && !again ==> WriteFrame(p, cb) == p1)
            && (again ==> WriteFrame(p, cb) == Turn(p1, left, cb.later).0 && !Turn(p1, left, cb.later).2)
  {
  }

  function PlayRun(p: Play, cbs: seq<Callback>): (r: Play)
    requires ValidPlay(p)
    ensures ValidPlay(r)
    decreases |cbs|
  {
    if cbs == [] then p else PlayRun(WriteFrame(p, cbs[0]), cbs[1..])
  }

  function Start(tone: seq<int>, repeat: int, delay: nat): Play {
    Play(tone, 0, if repeat == 0 then 1 else repeat, 0, delay, false, [])
  }

  // ---------- Invariant ----------

  function Copies(tone: seq<int>, k: nat): seq<int> {
    if k == 0 then [] else Copies(tone, k - 1) + tone
  }

  /** Is the tone used up, waiting for the next start or for good? */
  predicate Resting(p: Play) {
    p.trep != 0 || p.eof
  }

  /** k copies are complete, and the current one is copied up to the position. */
  ghost predicate Playing(p: Play, total: int, k: nat) {
    && ValidPlay(p)
    && (if total > 0 then k <= total && p.repeat == total - k && (p.eof <==> k == total)
        else p.repeat == total && !p.eof)
    && (p.trep != 0 ==> p.pos == |p.tone|)
    && p.out == Copies(p.tone, k) + (if Resting(p) then [] else p.tone[..p.pos])
  }

  lemma CopyPlays(p: Play, n: nat, total: int, k: nat)
    requires total != 0 && Playing(p, total, k) && !p.eof
    ensures Playing(Copy(p, n), total, k) && !Copy(p, n).eof
    ensures n > Count(p, n) ==> Copy(p, n).pos == |p.tone|
  {
    var c := p.pos + Count(p, n);
    if p.trep == 0 {
      assert p.tone[..p.pos] + p.tone[p.pos..c] == p.tone[..c];
      assert p.out + p.tone[p.pos..c] == Copies(p.tone, k) + p.tone[..c];
    } else {
      assert p.tone[p.pos..c] == [];
    }
  }

  /** The end of the tone completes a copy, unless a pause is running; after the pause the tone
      starts from the beginning. */
  lemma RestartPlays(p: Play, now: nat, total: int, k: nat) returns (k': nat)
    requires total != 0 && Playing(p, total, k) && !p.eof && p.pos == |p.tone| && now > 0
    ensures var (r, restart) := CheckRestart(p, now);
            if restart then k' == k && r.trep == 0 && Playing(r.(pos := 0), total, k) && !r.eof
            else Playing(r, total, k')
  {
    k' := k;
    if p.trep == 0 {
      k' := k + 1;
      assert p.tone[..p.pos] == p.tone;
      var r := CheckRestart(p, now).0;
      assert Resting(r);
      assert r.out == Copies(p.tone, k') + [];
    } else {
      assert p.tone[..0] == [];
    }
  }

  lemma TurnPlays(p: Play, left: nat, now: nat, total: int, k: nat) returns (k': nat)
    requires total != 0 && Playing(p, total, k) && !p.eof && now > 0
    ensures var (r, _, again) := Turn(p, left, now);
            Playing(r, total, k') && (again ==> k' == k && !r.eof)
  {
    CopyPlays(p, left, total, k);
    k' := k;
    if left > Count(p, left) {
      k' := RestartPlays(Copy(p, left), now, total, k);
    }
  }

  lemma FramePlays(p: Play, cb: Callback, total: int, k: nat) returns (k': nat)
    requires total != 0 && Playing(p, total, k) && cb.now > 0 && cb.later > 0
    ensures Playing(WriteFrame(p, cb), total, k')
  {
    k' := k;
    if !p.eof && cb.n > 0 {
      k' := TurnPlays(p, cb.n, cb.now, total, k);
      var (p1, left, again) := Turn(p, cb.n, cb.now);
      if again {
        k' := TurnPlays(p1, left, cb.later, total, k);
      }
    }
  }

  lemma {:induction false} RunPlays(p: Play, cbs: seq<Callback>, total: int, k: nat) returns (k': nat)
    requires total != 0 && Playing(p, total, k)
    requires forall i :: 0 <= i < |cbs| ==> cbs[i].now > 0 && cbs[i].later > 0
    ensures Playing(PlayRun(p, cbs), total, k') && PlayRun(p, cbs).tone == p.tone
    decreases |cbs|
  {
    k' := k;
    if cbs != [] {
      k' := FramePlays(p, cbs[0], total, k);
      FrameKeepsTone(p, cbs[0]);
      k' := RunPlays(WriteFrame(p, cbs[0]), cbs[1..], total, k');
    }
  }

  lemma FrameKeepsTone(p: Play, cb: Callback)
    requires ValidPlay(p)
    ensures WriteFrame(p, cb).tone == p.tone
  {
  }

  lemma {:induction false} CopiesGrow(tone: seq<int>, k: nat, m: nat)
    requires k <= m
    ensures Copies(tone, k) <= Copies(tone, m)
  {
    if k < m {
      CopiesGrow(tone, k, m - 1);
    }
  }

  lemma PartialCopy(tone: seq<int>, k: nat, pos: nat, m: nat)
    requires k < m && pos <= |tone|
    ensures Copies(tone, k) + tone[..pos] <= Copies(tone, m)
  {
    CopiesGrow(tone, k + 1, m);
    assert Copies(tone, k + 1) == Copies(tone, k) + tone[..pos] + tone[pos..];
  }

  /** How many copies a count asks for: at least one. */
  function Asked(repeat: nat): nat {
    if repeat == 0 then 1 else repeat
  }

  /** With a positive clock and any frame sizes: what is copied is always the beginning of the tone
      repeated, and when the player is at its end it is exactly the tone as often as asked for. */
  lemma ToneRepeats(tone: seq<int>, repeat: nat, delay: nat, cbs: seq<Callback>)
    requires forall i :: 0 <= i < |cbs| ==> cbs[i].now > 0 && cbs[i].later > 0
    ensures var r := PlayRun(Start(tone, repeat, delay), cbs);
            && (r.trep != 0 ==> r.pos == |tone|)
            && r.out <= Copies(tone, Asked(repeat))
            && (r.eof ==> r.out == Copies(tone, Asked(repeat)))
  {
    var p, total := Start(tone, repeat, delay), Asked(repeat);
    assert p.out == Copies(tone, 0) + tone[..0];
    var k := RunPlays(p, cbs, total, 0);
    var r := PlayRun(p, cbs);
    CopiesGrow(tone, k, total);
    if k < total {
      PartialCopy(tone, k, r.pos, total);
    }
  }

  /** With a negative count the player never comes to an end. */
  lemma ToneForEver(tone: seq<int>, repeat: int, delay: nat, cbs: seq<Callback>) returns (k: nat)
    requires repeat < 0
    requires forall i :: 0 <= i < |cbs| ==> cbs[i].now > 0 && cbs[i].later > 0
    ensures var r := PlayRun(Start(tone, repeat, delay), cbs);
            !r.eof && r.tone == tone && r.out == Copies(tone, k) + (if r.trep != 0 then [] else tone[..r.pos])
  {
    var p := Start(tone, repeat, delay);
    assert p.out == Copies(tone, 0) + tone[..0];
    k := RunPlays(p, cbs, repeat, 0);
  }

  // ---------- Pauses ----------

  /** The clock reading at which a copy of the tone ends in this frame, if one does. */
  function EndTime(p: Play, cb: Callback): (r: int)
    requires ValidPlay(p)
  {
    var left := |p.tone| - p.pos;
    if left >= cb.n then -1
    else if p.trep == 0 then cb.now
    else if p.trep <= cb.now && left + |p.tone| < cb.n then cb.later
    else -1
  }

  /** The tone is used up and starts again at time t. */
  predicate WaitsUntil(p: Play, t: nat) {
    ValidPlay(p) && !p.eof && p.pos == |p.tone| && p.trep == t != 0
  }

  /** If more copies are to come, the end of one begins a pause. */
  lemma PauseBegins(p: Play, cb: Callback)
    requires ValidPlay(p) && !p.eof && p.repeat != 0 && p.repeat != 1
    requires EndTime(p, cb) >= 0 && EndTime(p, cb) + p.delay > 0
    ensures WaitsUntil(WriteFrame(p, cb), EndTime(p, cb) + p.delay)
  {
  }

  /** Frames before the time are left alone. */
  lemma {:induction false} PauseRun(p: Play, cbs: seq<Callback>, t: nat)
    requires WaitsUntil(p, t) && forall i :: 0 <= i < |cbs| ==> cbs[i].now < t
    ensures PlayRun(p, cbs) == p
    decreases |cbs|
  {
    if cbs != [] {
      assert p.tone[p.pos..p.pos] == [];
      assert WriteFrame(p, cbs[0]) == p;
      PauseRun(p, cbs[1..], t);
    }
  }

  /** The first frame at or after it gets the beginning of the tone. */
  lemma PauseEnds(p: Play, cb: Callback, t: nat)
    requires WaitsUntil(p, t) && cb.n > 0
    ensures cb.now >= t ==> WriteFrame(p, cb).out == p.out + p.tone[..Min(|p.tone|, cb.n)]
    ensures cb.now < t ==> WriteFrame(p, cb) == p
  {
    assert p.tone[p.pos..p.pos] == [] && p.out + [] == p.out;
  }

  /** How long a pause lasts: after the frame in which a copy ends at time e, with more copies to come, the
      next copy starts in the first frame whose clock reading is at least e plus the delay, and not before. */
  lemma PauseLasts(p: Play, cb: Callback, cbs: seq<Callback>, next: Callback, e: nat)
    requires ValidPlay(p) && !p.eof && p.repeat != 0 && p.repeat != 1 && e == EndTime(p, cb) && e + p.delay > 0
    requires forall i :: 0 <= i < |cbs| ==> cbs[i].now < e + p.delay
    requires p.tone != [] && next.n > 0
    ensures var w := PlayRun(WriteFrame(p, cb), cbs);
            && w == WriteFrame(p, cb)
            && (WriteFrame(w, next).out != w.out <==> next.now >= e + p.delay)
            && (next.now >= e + p.delay ==> WriteFrame(w, next).out == w.out + p.tone[..Min(|p.tone|, next.n)])
  {
    var w := WriteFrame(p, cb);
    PauseBegins(p, cb);
    PauseRun(w, cbs, e + p.delay);
    FrameKeepsTone(p, cb);
    PauseEnds(w, next, e + p.delay);
  }

  // ---------- The rest of a frame ----------

  /** Samples that a frame gets from the tone. */
  function Filled(p: Play, cb: Callback): nat
    requires ValidPlay(p)
  {
    |WriteFrame(p, cb).out| - |p.out|
  }

  /** The device's frame after the call: the samples copied, then silence once the player is at its
      end, and otherwise what the device had there. */
  function Frame(p: Play, cb: Callback, buf: seq<int>): (r: seq<int>)
    requires ValidPlay(p) && |buf| == cb.n
    ensures |r| == cb.n
  {
    var w := WriteFrame(p, cb);
    w.out[|p.out|..] + if w.eof then seq(cb.n - Filled(p, cb), _ => 0) else buf[Filled(p, cb)..]
  }

  /** Is this the frame in which the last copy ends: right away, or after a pause that is over now? */
  predicate Ends(p: Play, cb: Callback)
    requires ValidPlay(p)
  {
    var left := |p.tone| - p.pos;
    && 0 <= p.repeat <= 1
    && left < cb.n
    && (p.trep == 0 || (p.trep <= cb.now && left + |p.tone| < cb.n))
  }

  lemma EndsIff(p: Play, cb: Callback)
    requires ValidPlay(p) && !p.eof
    ensures WriteFrame(p, cb).eof <==> Ends(p, cb)
  {
  }

  /** Does the tone fill the frame: with what is left of it, or after a pause that is over with one more
      copy? */
  predicate Fills(p: Play, cb: Callback)
    requires ValidPlay(p)
  {
    var left := |p.tone| - p.pos;
    cb.n <= left || (p.trep != 0 && p.trep <= cb.now && cb.n <= left + |p.tone|)
  }

  lemma FillsIff(p: Play, cb: Callback)
    requires ValidPlay(p) && !p.eof
    ensures Filled(p, cb) == cb.n <==> Fills(p, cb)
  {
  }

  ghost predicate Silent(s: seq<int>) {
    forall i :: 0 <= i < |s| ==> s[i] == 0
  }

  /** What the tone does not fill is silent, whatever the device had there, if and only if the player
      was at its end, comes to it in this frame, or the tone fills the frame, all of which is known
      before the call. In a pause it is not. */
  lemma SilentIff(p: Play, cb: Callback)
    requires ValidPlay(p)
    ensures (forall buf: seq<int> :: |buf| == cb.n ==> Silent(Frame(p, cb, buf)[Filled(p, cb)..]))
            <==> p.eof || Ends(p, cb) || Fills(p, cb)
  {
    if !p.eof {
      EndsIff(p, cb);
      FillsIff(p, cb);
    }
    var noise := seq(cb.n, _ => 1);
    var k := Filled(p, cb);
    if !WriteFrame(p, cb).eof && k < cb.n {
      assert Frame(p, cb, noise)[k..][0] == 1;
    }
  }

  /** A frame that falls into a pause is handed back as it came. */
  lemma PausedFrame(p: Play, cb: Callback, buf: seq<int>)
    requires ValidPlay(p) && !p.eof && p.pos == |p.tone| && p.trep > cb.now && |buf| == cb.n
    ensures Frame(p, cb, buf) == buf
  {
    assert WriteFrame(p, cb).out == p.out;
  }

  // ---------- In place ----------

  class Player {
    const tone: seq<int>
    const delay: nat
    var pos: nat
    var repeat: int
    var trep: nat
    var eof: bool
    ghost var out: seq<int>

    ghost function State(): Play
      reads this
    {
      Play(tone, pos, repeat, trep, delay, eof, out)
    }

    constructor (tone: seq<int>, repeat: int, delay: nat)
      ensures State() == Start(tone, repeat, delay) && ValidPlay(State())
    {
      this.tone, this.delay := tone, delay;
      this.repeat := if repeat == 0 then 1 else repeat;
      pos, trep, eof, out := 0, 0, false, [];
    }

    /** Count a repetition or wait for the next start; true if the tone starts again now. */
    method Restart(now: nat) returns (again: bool)
      requires ValidPlay(State())
      modifies this`repeat, this`trep, this`eof
      ensures (State(), again) == CheckRestart(old(State()), now)
    {
      if trep != 0 {
        if trep > now {
          return false;
        }
        trep := 0;
        return true;
      }
      if repeat > 0 {
        repeat := repeat - 1;
      }
      if repeat == 0 {
        eof := true;
      } else {
        trep := now + delay;
      }
      return false;
    }

    /** The first `at` samples of the frame were copied since the output was `before`; the others are
        those of the device's frame `was`. */
    ghost predicate Copied(sampv: array<int>, at: nat, before: seq<int>, was: seq<int>)
      reads this, sampv
    {
      at <= sampv.Length == |was| && out == before + sampv[..at] && sampv[at..] == was[at..]
    }

    /** Copy into the frame what is left of the tone, as far as the frame goes. */
    method Read(sampv: array<int>, first: nat, ghost before: seq<int>, ghost was: seq<int>) returns (at: nat)
      requires ValidPlay(State()) && Copied(sampv, first, before, was)
      modifies this`pos, this`out, sampv
      ensures Copied(sampv, at, before, was) && at == first + Count(old(State()), sampv.Length - first)
      ensures State() == Copy(old(State()), sampv.Length - first)
    {
      var n := sampv.Length - first;
      var count := if |tone| - pos > n then n else |tone| - pos;
      at := first + count;
      forall i | first <= i < at {
        sampv[i] := tone[pos + i - first];
      }
      assert sampv[..at] == old(sampv[..first]) + tone[pos..pos + count];
      out := out + tone[pos..pos + count];
      pos := pos + count;
    }

    /** One read of the tone into the frame from sample `first` on. */
    method OneTurn(sampv: array<int>, first: nat, now: nat, ghost before: seq<int>, ghost was: seq<int>)
      returns (at: nat, again: bool)
      requires ValidPlay(State()) && Copied(sampv, first, before, was)
      modifies this, sampv
      ensures first <= at && Copied(sampv, at, before, was)
      ensures (State(), sampv.Length - at, again) == Turn(old(State()), sampv.Length - first, now)
    {
      at := Read(sampv, first, before, was);
      again := false;
      if at < sampv.Length {
        again := Restart(now);
        if again {
          pos := 0;
        }
      }
    }

    /** Fill a frame from the tone, `at` samples of it, in at most two reads: a second end of the tone
        in one frame always begins a pause. */
    method WriteTone(sampv: array<int>, now: nat, later: nat) returns (at: nat, turns: nat)
      requires ValidPlay(State()) && !eof
      modifies this, sampv
      ensures State() == WriteFrame(old(State()), Callback(sampv.Length, now, later))
      ensures Copied(sampv, at, old(out), old(sampv[..])) && turns <= 2
    {
      at, turns := 0, 0;
      var again := true;
      ghost var p, was := State(), sampv[..];
      FrameTurns(p, Callback(sampv.Length, now, later));
      while at < sampv.Length && again
        invariant ValidPlay(State()) && Copied(sampv, at, p.out, was) && turns <= 2
        invariant turns == 0 ==> State() == p && at == 0 && again
        invariant turns == 1 ==> (State(), sampv.Length - at, again) == Turn(p, sampv.Length, now)
        invariant turns == 2 ==> !again && State() == WriteFrame(p, Callback(sampv.Length, now, later))
        decreases 2 - turns
      {
        at, again := OneTurn(sampv, at, if turns == 0 then now else later, p.out, was);
        turns := turns + 1;
      }
    }

    /** One frame; what the tone does not fill is silence once the player is at its end, and left as it
        was in a pause. */
    method Write(sampv: array<int>, now: nat, later: nat) returns (at: nat)
      requires ValidPlay(State())
      modifies this, sampv
      ensures ValidPlay(State()) && State() == WriteFrame(old(State()), Callback(sampv.Length, now, later))
      ensures at <= sampv.Length && out == old(out) + sampv[..at]
      ensures sampv[..] == Frame(old(State()), Callback(sampv.Length, now, later), old(sampv[..]))
    {
      at := 0;
      if !eof {
        var turns;
        at, turns := WriteTone(sampv, now, later);
      }
      if eof {
        ghost var got := sampv[..at];
        forall i | at <= i < sampv.Length {
          sampv[i] := 0;
        }
        assert sampv[..at] == got;
      }
    }
  }
}
