/**
 The fixed-window counter behind lib/rate-limit.ts, first as one identifier sees it:
 a counter that only knows the times of that identifier's own calls. This is the
 reference the bounded, pruned store is compared with in LocalStore.dfy.
 */
module FixedWindow {
  import opened Common

  datatype WindowUnit = Seconds | Minutes | Hours

  datatype Window = Window(amount: nat, unit: WindowUnit)

  function WindowMs(window: Window): nat {
    match window.unit
    case Seconds => window.amount * 1_000
    case Minutes => window.amount * 60_000
    case Hours => window.amount * 3_600_000
  }

  /** A second has 1,000 milliseconds, a minute 60 seconds, an hour 60 minutes. */
  lemma WindowLengths(amount: nat)
    ensures WindowMs(Window(1, Seconds)) == 1_000
    ensures WindowMs(Window(amount, Seconds)) == amount * WindowMs(Window(1, Seconds))
    ensures WindowMs(Window(amount, Minutes)) == WindowMs(Window(60 * amount, Seconds))
    ensures WindowMs(Window(amount, Hours)) == WindowMs(Window(60 * amount, Minutes))
  {
  }

  datatype Policy = Policy(limit: nat, window: Window) {
    function Ms(): nat {
      WindowMs(window)
    }

    /** Every policy the program declares admits something and lasts for a while. */
    predicate Sensible() {
      1 <= limit && 1 <= window.amount
    }
  }

  datatype Bucket = Bucket(count: nat, reset: int)

  /** What one call is told (`RateLimitResult`). */
  datatype Verdict = Verdict(success: bool, limit: int, remaining: int, reset: int)

  /** The bucket a call leaves behind, given the live bucket it found, if any. */
  function Counted(live: Option<Bucket>, now: int, policy: Policy): Bucket {
    match live
    case None => Bucket(1, now + policy.Ms())
    case Some(b) => Bucket(b.count + 1, b.reset)
  }

  function Answer(live: Option<Bucket>, now: int, policy: Policy): Verdict {
    match live
    case None => Verdict(true, policy.limit, policy.limit - 1, now + policy.Ms())
    case Some(b) =>
      Verdict(b.count + 1 <= policy.limit, policy.limit, Max(policy.limit - (b.count + 1), 0), b.reset)
  }

  function IfLive(b: Option<Bucket>, now: int): Option<Bucket> {
    if b.Some? && b.value.reset > now then b else None
  }

  ghost predicate Nondecreasing(times: seq<int>) {
    forall i, j | 0 <= i <= j < |times| :: times[i] <= times[j]
  }

  /** The counter of an identifier that called at `times`, never pruned or evicted. */
  function Solo(times: seq<int>, policy: Policy): Option<Bucket> {
    if times == [] then None
    else
      var now := times[|times| - 1];
      Some(Counted(IfLive(Solo(times[..|times| - 1], policy), now), now, policy))
  }

  /** The verdict on a call at `now` by an identifier that called at `times` before. */
  function SoloVerdict(times: seq<int>, now: int, policy: Policy): Verdict {
    Answer(IfLive(Solo(times, policy), now), now, policy)
  }

  /** How many of the calls at `times` were admitted at an instant in [lo, hi). */
  function Admitted(times: seq<int>, policy: Policy, lo: int, hi: int): nat {
    if times == [] then 0
    else
      var before, now := times[..|times| - 1], times[|times| - 1];
      Admitted(before, policy, lo, hi)
      + if lo <= now < hi && SoloVerdict(before, now, policy).success then 1 else 0
  }

  // ---------------------------------------------------------------- windows

  /** The instant the current window of the counter opened. */
  ghost function Opening(times: seq<int>, policy: Policy): int
    requires times != []
  {
    Solo(times, policy).value.reset - policy.Ms()
  }

  lemma {:induction false} OpeningBounds(times: seq<int>, policy: Policy)
    requires times != [] && Nondecreasing(times) && policy.Sensible()
    ensures times[0] <= Opening(times, policy) <= times[|times| - 1] < Solo(times, policy).value.reset
    ensures 1 <= Solo(times, policy).value.count
  {
    var before, now := times[..|times| - 1], times[|times| - 1];
    if IfLive(Solo(before, policy), now).Some? {
      OpeningBounds(before, policy);
    }
  }

  lemma {:induction false} NoneOutside(times: seq<int>, policy: Policy, lo: int, hi: int)
    requires forall k | 0 <= k < |times| :: times[k] < lo || hi <= times[k]
    ensures Admitted(times, policy, lo, hi) == 0
  {
    if times != [] {
      NoneOutside(times[..|times| - 1], policy, lo, hi);
    }
  }

  lemma {:induction false} AdmittedSplits(times: seq<int>, policy: Policy, lo: int, mid: int, hi: int)
    requires lo <= mid <= hi
    ensures Admitted(times, policy, lo, hi)
         == Admitted(times, policy, lo, mid) + Admitted(times, policy, mid, hi)
  {
    if times != [] {
      AdmittedSplits(times[..|times| - 1], policy, lo, mid, hi);
    }
  }

  /**
   The current window admits at most `limit` calls, the opening one included; an interval
   that starts after the opening misses the opening call and sees one fewer.
   */
  lemma {:induction false} WindowAdmits(times: seq<int>, policy: Policy, lo: int, hi: int)
    requires times != [] && Nondecreasing(times) && policy.Sensible()
    requires Opening(times, policy) <= lo
    ensures Admitted(times, policy, lo, hi)
         <= Min(Solo(times, policy).value.count, policy.limit)
            - (if lo > Opening(times, policy) then 1 else 0)
  {
    var before, now := times[..|times| - 1], times[|times| - 1];
    if IfLive(Solo(before, policy), now).Some? {
      WindowAdmits(before, policy, lo, hi);
    } else {
      if before != [] {
        OpeningBounds(before, policy);
        WindowsAreDisjoint(before, policy, now);
      }
      NoneOutside(before, policy, lo, hi);
    }
  }

  /** Once a window is over at `now`, all the calls it counted came before `now`. */
  lemma WindowsAreDisjoint(times: seq<int>, policy: Policy, now: int)
    requires times != [] && Nondecreasing(times) && policy.Sensible()
    requires IfLive(Solo(times, policy), now).None?
    ensures forall k | 0 <= k < |times| :: times[k] < now
  {
    OpeningBounds(times, policy);
  }

  /** In the window's length before an opening, fewer than `limit` calls were admitted. */
  lemma {:induction false} BeforeTheOpening(times: seq<int>, policy: Policy, lo: int)
    requires times != [] && Nondecreasing(times) && policy.Sensible()
    requires Opening(times, policy) - policy.Ms() < lo
    ensures Admitted(times, policy, lo, Opening(times, policy)) <= policy.limit - 1
  {
    var before, now := times[..|times| - 1], times[|times| - 1];
    OpeningBounds(times, policy);
    if before != [] {
      if IfLive(Solo(before, policy), now).Some? {
        BeforeTheOpening(before, policy, lo);
      } else if Opening(before, policy) < lo {
        WindowAdmits(before, policy, lo, now);
      }
    }
  }

  /**
   Burst bound: whatever the call times, an interval as long as the window holds at most
   2 * limit - 1 admissions. `BurstIsAttained` shows that the bound is sharp.
   */
  lemma {:induction false} BurstBound(times: seq<int>, policy: Policy, lo: int)
    requires Nondecreasing(times) && policy.Sensible()
    ensures Admitted(times, policy, lo, lo + policy.Ms()) <= 2 * policy.limit - 1
  {
    if times != [] {
      var before, now := times[..|times| - 1], times[|times| - 1];
      var hi := lo + policy.Ms();
      if now < lo || hi <= now {
        BurstBound(before, policy, lo);
      } else {
        OpeningBounds(times, policy);
        var open := Opening(times, policy);
        if open <= lo {
          WindowAdmits(times, policy, lo, hi);
        } else {
          AdmittedSplits(times, policy, lo, open, hi);
          BeforeTheOpening(times, policy, lo);
          WindowAdmits(times, policy, open, hi);
        }
      }
    }
  }

  // ----------------------------------------------------------- the sharp burst

  function Repeat(t: int, n: nat): (r: seq<int>)
    ensures |r| == n && forall x | x in r :: x == t
  {
    seq(n, _ => t)
  }

  lemma OneMoreIsAdmitted(times: seq<int>, policy: Policy, t: int, lo: int, hi: int)
    requires lo <= t < hi
    requires times != [] && Solo(times, policy).value.reset > t && Solo(times, policy).value.count < policy.limit
    ensures Solo(times + [t], policy)
         == Some(Bucket(Solo(times, policy).value.count + 1, Solo(times, policy).value.reset))
    ensures Admitted(times + [t], policy, lo, hi) == Admitted(times, policy, lo, hi) + 1
  {
    assert (times + [t])[..|times|] == times;
  }

  /** `n` more calls at `t`, while the window with `count` calls is open, are all admitted up to the limit. */
  lemma {:induction false} RepeatIsAdmitted(times: seq<int>, policy: Policy, t: int, n: nat, lo: int, hi: int)
    requires lo <= t < hi
    requires times != [] && Solo(times, policy).value.reset > t
    requires Solo(times, policy).value.count + n <= policy.limit
    ensures Solo(times + Repeat(t, n), policy)
         == Some(Bucket(Solo(times, policy).value.count + n, Solo(times, policy).value.reset))
    ensures Admitted(times + Repeat(t, n), policy, lo, hi) == Admitted(times, policy, lo, hi) + n
  {
    if n == 0 {
      assert times + Repeat(t, n) == times;
    } else {
      var earlier := times + Repeat(t, n - 1);
      assert times + Repeat(t, n) == earlier + [t];
      RepeatIsAdmitted(times, policy, t, n - 1, lo, hi);
      OneMoreIsAdmitted(earlier, policy, t, lo, hi);
    }
  }

  /** One call at 0, the rest of the limit just before the window ends, a full limit right after. */
  function Burst(limit: nat, w: nat): seq<int>
    requires 1 <= limit && 1 <= w
  {
    [0] + Repeat(w - 1, limit - 1) + [w] + Repeat(w, limit - 1)
  }

  lemma BurstIsAttained(policy: Policy)
    requires policy.Sensible()
    ensures 1 <= policy.Ms() && Nondecreasing(Burst(policy.limit, policy.Ms()))
    ensures Admitted(Burst(policy.limit, policy.Ms()), policy, policy.Ms() - 1, 2 * policy.Ms() - 1)
         == 2 * policy.limit - 1
  {
    BurstOfWindow(policy, policy.Ms());
  }

  lemma BurstOfWindow(policy: Policy, w: nat)
    requires policy.Sensible() && w == policy.Ms()
    ensures 1 < w && Nondecreasing(Burst(policy.limit, w))
    ensures Admitted(Burst(policy.limit, w), policy, w - 1, 2 * w - 1) == 2 * policy.limit - 1
  {
    StepsUp(0, w - 1, policy.limit - 1, w, policy.limit - 1);
    var spent := FirstWindowSpent(policy, w, w - 1, 2 * w - 1);
    SecondWindowSpent(spent, policy, w, w - 1, 2 * w - 1);
  }

  lemma SecondWindowSpent(spent: seq<int>, policy: Policy, w: int, lo: int, hi: int)
    requires policy.Sensible() && lo <= w < hi && spent != [] && Solo(spent, policy) == Some(Bucket(policy.limit, w))
    ensures Admitted(spent + [w] + Repeat(w, policy.limit - 1), policy, lo, hi)
         == Admitted(spent, policy, lo, hi) + policy.limit
  {
    WindowReopens(spent, policy, w, lo, hi);
    RepeatIsAdmitted(spent + [w], policy, w, policy.limit - 1, lo, hi);
  }

  lemma StepsUp(t: int, u: int, m: nat, v: int, n: nat)
    requires t <= u <= v
    ensures Nondecreasing([t] + Repeat(u, m) + [v] + Repeat(v, n))
  {
    var times := [t] + Repeat(u, m) + [v] + Repeat(v, n);
    assert forall i | 0 <= i < |times| :: times[i] == if i == 0 then t else if i <= m then u else v;
  }

  lemma FirstWindowSpent(policy: Policy, w: int, lo: int, hi: int) returns (spent: seq<int>)
    requires policy.Sensible() && w == policy.Ms() && 0 < lo < w && lo == w - 1 < hi
    ensures spent == [0] + Repeat(w - 1, policy.limit - 1) && Solo(spent, policy) == Some(Bucket(policy.limit, w))
    ensures Admitted(spent, policy, lo, hi) == policy.limit - 1
  {
    FirstCall(policy, 0, lo, hi);
    RepeatIsAdmitted([0], policy, w - 1, policy.limit - 1, lo, hi);
    spent := [0] + Repeat(w - 1, policy.limit - 1);
  }

  lemma FirstCall(policy: Policy, t: int, lo: int, hi: int)
    requires policy.Sensible() && t < lo
    ensures Solo([t], policy) == Some(Bucket(1, t + policy.Ms())) && Admitted([t], policy, lo, hi) == 0
  {
    assert [t][..0] == [];
  }

  lemma WindowReopens(times: seq<int>, policy: Policy, t: int, lo: int, hi: int)
    requires lo <= t < hi && times != [] && Solo(times, policy).value.reset <= t
    ensures Solo(times + [t], policy) == Some(Bucket(1, t + policy.Ms()))
    ensures Admitted(times + [t], policy, lo, hi) == Admitted(times, policy, lo, hi) + 1
  {
    assert (times + [t])[..|times|] == times;
  }
}
