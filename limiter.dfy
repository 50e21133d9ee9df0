/**
 * The per-URL sliding-window rate limiter (`Limiter::allow_request`).
 *
 * Time is a steady-clock reading in ticks; the clock is read by the caller and passed in as `now`.
 * The limiter admits freely while it remembers fewer than MaxBurst timestamps; once full it rejects
 * while the oldest remembered timestamp is at most one WHOLE second old (the elapsed time is truncated
 * to whole seconds), and otherwise forgets every stale timestamp at the front and remembers `now`.
 */
module RateLimit {
  import opened Common

  const MaxBurst: nat := 10
  /** steady_clock ticks in one second (nanoseconds with libstdc++). */
  const TicksPerSecond: nat := 1_000_000_000

  /** `duration_cast<seconds>`: whole seconds, truncated toward zero. */
  function WholeSeconds(elapsed: int): (r: int)
    ensures elapsed >= 0 ==> 0 <= r && r * TicksPerSecond <= elapsed < (r + 1) * TicksPerSecond
    ensures elapsed < 0 ==> r <= 0 && (r - 1) * TicksPerSecond < elapsed <= r * TicksPerSecond
  {
    if elapsed >= 0 then elapsed / TicksPerSecond else -((-elapsed) / TicksPerSecond)
  }

  /** A remembered timestamp `t` is stale at `now` when at least two seconds of ticks have passed since it. */
  predicate Stale(now: int, t: int)
  {
    now - t >= 2 * TicksPerSecond
  }

  /**
   * The source's test: a timestamp is popped, or lets a full queue admit, when MORE than one WHOLE second
   * has passed. Because of the truncation that is exactly `Stale`: at least two seconds of ticks.
   */
  lemma StaleIff(now: int, t: int)
    ensures Stale(now, t) <==> WholeSeconds(now - t) > 1
  {
  }

  /** How many entries the sliding path pops: the run of stale entries at the front, up to the first fresh one. */
  function StalePrefix(q: seq<int>, now: int): (k: nat)
    ensures k <= |q|
    ensures forall i :: 0 <= i < k ==> Stale(now, q[i])
    ensures k < |q| ==> !Stale(now, q[k])
  {
    if q != [] && Stale(now, q[0]) then 1 + StalePrefix(q[1..], now) else 0
  }

  /** The queue left after popping stale entries from the front until the front is fresh (or none is left). */
  function DropStale(q: seq<int>, now: int): seq<int>
  {
    q[StalePrefix(q, now)..]
  }

  datatype Decision = Decision(queue: seq<int>, admitted: bool)

  /** What one call of `allow_request` at time `now` decides and leaves in the queue. */
  function Step(q: seq<int>, now: int): Decision
  {
    if |q| < MaxBurst then Decision(q + [now], true)
    else if !Stale(now, q[0]) then Decision(q, false)
    else Decision(DropStale(q, now) + [now], true)
  }

  /** Below the burst size every call is admitted and `now` goes to the back. */
  lemma StepUnderBurst(q: seq<int>, now: int)
    requires |q| < MaxBurst
    ensures Step(q, now) == Decision(q + [now], true)
  {
  }

  /** With a full queue, the call is rejected exactly when the oldest entry is less than two seconds old. */
  lemma StepWhenFull(q: seq<int>, now: int)
    requires |q| >= MaxBurst
    ensures Step(q, now).admitted <==> now - q[0] >= 2 * TicksPerSecond
  {
  }

  /**
   * A rejection leaves the queue exactly as it was; an admission keeps a suffix of the old queue,
   * puts `now` at the back, and never lets the queue outgrow MaxBurst.
   */
  lemma StepShape(q: seq<int>, now: int)
    ensures !Step(q, now).admitted ==> Step(q, now).queue == q
    ensures Step(q, now).admitted ==>
      exists k :: 0 <= k <= |q| && Step(q, now).queue == q[k..] + [now]
    ensures |q| <= MaxBurst ==> |Step(q, now).queue| <= MaxBurst
  {
    var d := Step(q, now);
    if |q| < MaxBurst {
      assert d.queue == q[0..] + [now];
    } else if d.admitted {
      var k := StalePrefix(q, now);
      assert d.queue == q[k..] + [now];
      assert k > 0;
    }
  }

  /** With a time-ordered queue, the sliding path keeps exactly the entries that are still fresh. */
  lemma SlideKeepsExactlyFresh(q: seq<int>, now: int)
    requires NonDecreasing(q)
    ensures forall t :: t in DropStale(q, now) ==> !Stale(now, t)
    ensures forall i :: 0 <= i < |q| && !Stale(now, q[i]) ==> q[i] in DropStale(q, now)
  {
    var k := StalePrefix(q, now);
    var r := DropStale(q, now);
    forall t | t in r
      ensures !Stale(now, t)
    {
      var j :| 0 <= j < |r| && r[j] == t;
      assert r[0] == q[k] && t == q[k + j];
      assert q[k] <= t;
    }
    forall i | 0 <= i < |q| && !Stale(now, q[i])
      ensures q[i] in r
    {
      assert i >= k && r[i - k] == q[i];
    }
  }

  lemma AppendKeepsOrder(s: seq<int>, x: int)
    requires NonDecreasing(s) && (s != [] ==> Last(s) <= x)
    ensures NonDecreasing(s + [x])
  {
    var s' := s + [x];
    forall i, j | 0 <= i <= j < |s'|
      ensures s'[i] <= s'[j]
    {
      if j == |s| && i < |s| {
        assert s'[i] == s[i] <= Last(s);
      }
    }
  }

  lemma SuffixKeepsOrder(s: seq<int>, k: nat)
    requires NonDecreasing(s) && k <= |s|
    ensures NonDecreasing(s[k..])
  {
    var t := s[k..];
    forall i, j | 0 <= i <= j < |t|
      ensures t[i] <= t[j]
    {
      assert t[i] == s[k + i] && t[j] == s[k + j];
    }
  }

  /** Feeding a time that is not older than the newest entry keeps the queue time-ordered. */
  lemma StepKeepsOrder(q: seq<int>, now: int)
    requires NonDecreasing(q)
    requires q != [] ==> Last(q) <= now
    ensures NonDecreasing(Step(q, now).queue)
  {
    if |q| < MaxBurst {
      AppendKeepsOrder(q, now);
    } else if Stale(now, q[0]) {
      var r := DropStale(q, now);
      SuffixKeepsOrder(q, StalePrefix(q, now));
      assert r != [] ==> Last(r) == Last(q);
      AppendKeepsOrder(r, now);
    }
  }

  /** The outcome of feeding the times `nows`, in order, to a fresh limiter. */
  datatype Trace = Trace(queue: seq<int>, admitted: seq<int>)

  function Replay(nows: seq<int>): Trace
  {
    if nows == [] then Trace([], [])
    else
      var prev := Replay(nows[..|nows| - 1]);
      var d := Step(prev.queue, Last(nows));
      Trace(d.queue, if d.admitted then prev.admitted + [Last(nows)] else prev.admitted)
  }

  /** Any MaxBurst + 1 consecutive admissions span at least two seconds. */
  ghost predicate Spaced(a: seq<int>)
  {
    forall i :: 0 <= i < |a| - MaxBurst ==> a[i + MaxBurst] - a[i] >= 2 * TicksPerSecond
  }

  /**
   * What holds after a replay, seen from time `now`: the queue is the latest admissions, every older
   * admission is stale, and admissions are spaced.
   */
  ghost predicate ReplayInvariant(now: int, tr: Trace)
  {
    && |tr.queue| <= MaxBurst
    && |tr.queue| <= |tr.admitted|
    && tr.queue == tr.admitted[|tr.admitted| - |tr.queue|..]
    && (forall i :: 0 <= i < |tr.admitted| - |tr.queue| ==> Stale(now, tr.admitted[i]))
    && Spaced(tr.admitted)
  }

  lemma InvariantLater(now: int, later: int, tr: Trace)
    requires ReplayInvariant(now, tr) && now <= later
    ensures ReplayInvariant(later, tr)
  {
    forall i | 0 <= i < |tr.admitted| - |tr.queue|
      ensures Stale(later, tr.admitted[i])
    {
      assert Stale(now, tr.admitted[i]);
    }
  }

  /** An admission below the burst size keeps the invariant. */
  lemma UnderBurstKeepsInvariant(now: int, q: seq<int>, a: seq<int>)
    requires ReplayInvariant(now, Trace(q, a)) && |q| < MaxBurst
    ensures ReplayInvariant(now, Trace(q + [now], a + [now]))
  {
    var a' := a + [now];
    assert (q + [now]) == a'[|a'| - |q| - 1..];
    forall i | 0 <= i < |a'| - MaxBurst
      ensures a'[i + MaxBurst] - a'[i] >= 2 * TicksPerSecond
    {
      if i + MaxBurst == |a| {
        assert a'[i] == a[i] && i < |a| - |q|;
      } else {
        assert a'[i + MaxBurst] == a[i + MaxBurst] && a'[i] == a[i];
      }
    }
  }

  /** On the sliding path every admission older than the new window is stale. */
  lemma SlideKeepsStale(now: int, q: seq<int>, a: seq<int>, q': seq<int>, a': seq<int>)
    requires ReplayInvariant(now, Trace(q, a)) && |q| == MaxBurst
    requires q' == DropStale(q, now) + [now] && a' == a + [now]
    ensures forall i :: 0 <= i < |a'| - |q'| ==> Stale(now, a'[i])
  {
    var off := |a| - |q|;
    forall i | 0 <= i < |a'| - |q'|
      ensures Stale(now, a'[i])
    {
      if i >= off {
        assert a'[i] == q[i - off];
      }
    }
  }

  /** On the sliding path the new admission is two seconds after the one MaxBurst places back. */
  lemma SlideKeepsSpacing(now: int, q: seq<int>, a: seq<int>)
    requires ReplayInvariant(now, Trace(q, a)) && |q| == MaxBurst && Stale(now, q[0])
    ensures Spaced(a + [now])
  {
    var a' := a + [now];
    forall i | 0 <= i < |a'| - MaxBurst
      ensures a'[i + MaxBurst] - a'[i] >= 2 * TicksPerSecond
    {
      if i + MaxBurst == |a| {
        assert a'[i] == q[0];
      } else {
        assert a'[i + MaxBurst] == a[i + MaxBurst] && a'[i] == a[i];
      }
    }
  }

  /** An admission on the sliding path keeps the invariant. */
  lemma SlideKeepsInvariant(now: int, q: seq<int>, a: seq<int>)
    requires ReplayInvariant(now, Trace(q, a)) && |q| == MaxBurst && Stale(now, q[0])
    ensures ReplayInvariant(now, Trace(DropStale(q, now) + [now], a + [now]))
  {
    var q', a' := DropStale(q, now) + [now], a + [now];
    SlideShape(now, q, a, q', a');
    SlideKeepsStale(now, q, a, q', a');
    SlideKeepsSpacing(now, q, a);
  }

  /** On the sliding path the new window is at most MaxBurst long and is the latest admissions. */
  lemma SlideShape(now: int, q: seq<int>, a: seq<int>, q': seq<int>, a': seq<int>)
    requires |q| <= |a| && q == a[|a| - |q|..] && |q| == MaxBurst && Stale(now, q[0])
    requires q' == DropStale(q, now) + [now] && a' == a + [now]
    ensures |q'| <= MaxBurst && |q'| <= |a'| && q' == a'[|a'| - |q'|..]
  {
    var k := StalePrefix(q, now);
    assert k > 0;
    assert q[k..] == a[|a| - |q| + k..];
  }

  lemma {:induction false} ReplayKeepsInvariant(nows: seq<int>)
    requires nows != [] && NonDecreasing(nows)
    ensures ReplayInvariant(Last(nows), Replay(nows))
  {
    var init := nows[..|nows| - 1];
    var now := Last(nows);
    var prev := Replay(init);
    if init != [] {
      ReplayKeepsInvariant(init);
      InvariantLater(Last(init), now, prev);
    } else {
      assert prev == Trace([], []);
    }
    var q, a := prev.queue, prev.admitted;
    if |q| < MaxBurst {
      UnderBurstKeepsInvariant(now, q, a);
    } else if Stale(now, q[0]) {
      SlideKeepsInvariant(now, q, a);
    }
  }

  /**
   * The limiter's real guarantee: of any MaxBurst + 1 consecutive admissions, the last is at least two
   * seconds after the first, so no window shorter than two seconds holds more than MaxBurst admissions.
   */
  lemma AdmissionSpacing(nows: seq<int>, i: nat)
    requires NonDecreasing(nows)
    requires i + MaxBurst < |Replay(nows).admitted|
    ensures Replay(nows).admitted[i + MaxBurst] - Replay(nows).admitted[i] >= 2 * TicksPerSecond
  {
    ReplayKeepsInvariant(nows);
  }

  /** A fresh limiter admits its first MaxBurst calls whatever their timing. */
  lemma {:induction false} BurstAdmitted(nows: seq<int>)
    requires |nows| <= MaxBurst
    ensures Replay(nows) == Trace(nows, nows)
  {
    if nows != [] {
      var init := nows[..|nows| - 1];
      BurstAdmitted(init);
      StepUnderBurst(init, Last(nows));
      assert init + [Last(nows)] == nows;
    }
  }

  /**
   * Eleven calls on a fresh limiter, the last less than two seconds after the first: the first ten are
   * admitted and the eleventh is rejected.
   */
  lemma EleventhRejected(nows: seq<int>)
    requires |nows| == MaxBurst + 1
    requires nows[MaxBurst] - nows[0] < 2 * TicksPerSecond
    ensures Replay(nows).admitted == nows[..MaxBurst]
    ensures Replay(nows).queue == nows[..MaxBurst]
  {
    var init := nows[..MaxBurst];
    BurstAdmitted(init);
    assert nows[..|nows| - 1] == init;
    StepWhenFull(init, nows[MaxBurst]);
  }

  /** A `Limiter` object: the queue of timestamps of its recent admissions. */
  class Limiter {
    var requests: seq<int>

    ghost predicate Valid()
      reads this
    {
      |requests| <= MaxBurst
    }

    constructor ()
      ensures Valid() && requests == []
    {
      requests := [];
    }

    /** `allow_request`, with the clock reading passed in as `now`. */
    method AllowRequest(now: int) returns (admitted: bool)
      requires Valid()
      modifies this
      ensures Valid()
      ensures requests == Step(old(requests), now).queue
      ensures admitted == Step(old(requests), now).admitted
    {
      if |requests| < MaxBurst {
        requests := requests + [now];
        return true;
      }
      StaleIff(now, requests[0]);
      if WholeSeconds(now - requests[0]) <= 1 {
        return false;
      } else {
        while requests != [] && WholeSeconds(now - requests[0]) > 1
          invariant |requests| <= |old(requests)|
          invariant |old(requests)| - |requests| <= StalePrefix(old(requests), now)
          invariant requests == old(requests)[|old(requests)| - |requests|..]
          invariant requests != [] ==> (Stale(now, requests[0]) <==> WholeSeconds(now - requests[0]) > 1)
        {
          requests := requests[1..];
          if requests != [] {
            StaleIff(now, requests[0]);
          }
        }
        requests := requests + [now];
        return true;
      }
    }
  }
}
