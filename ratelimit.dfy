/**
 * check_limit of urlshorten.py: a sliding one-hour window per client key,
 * kept as a queue of expiry times, oldest first.
 */
module RateLimit {

  /** A client key; the source uses the request's remote address. */
  type Token = string

  /** How long an admitted request holds its slot: one hour, in seconds. */
  const Window: int := 60 * 60

  /** check_limit still pushes while the pruned queue is at most this long (a literal 20). */
  const PushBound: nat := 20

  /**
   * The queue after check_limit's while loop: the leading entries that are
   * strictly before now are removed, and nothing else.
   */
  function Pruned(q: seq<int>, now: int): (r: seq<int>)
    ensures |r| <= |q| && r == q[|q| - |r|..]
    ensures forall i | 0 <= i < |q| - |r| :: q[i] < now
    ensures r != [] ==> r[0] >= now
  {
    if q != [] && q[0] < now then Pruned(q[1..], now) else q
  }

  /** Prune, then push now + Window if the pruned queue is at most bound long. */
  function Admit(q: seq<int>, now: int, bound: nat): (r: seq<int>)
    ensures r != []
    ensures |q| <= bound + 1 ==> |r| <= bound + 1
  {
    var p := Pruned(q, now);
    if |p| <= bound then p + [now + Window] else p
  }

  /** The queue of a key; a key seen for the first time gets an empty one. */
  function QueueOf(windows: map<Token, seq<int>>, token: Token): (r: seq<int>)
    ensures token !in windows ==> r == []
  {
    if token in windows then windows[token] else []
  }

  predicate Sorted(q: seq<int>)
  {
    forall i, j | 0 <= i < j < |q| :: q[i] <= q[j]
  }

  lemma {:induction false} PrunedSorted(q: seq<int>, now: int)
    requires Sorted(q)
    ensures Sorted(Pruned(q, now))
    ensures forall i | 0 <= i < |Pruned(q, now)| :: Pruned(q, now)[i] >= now
  {
    if q != [] && q[0] < now {
      assert Sorted(q[1..]) by {
        forall i, j | 0 <= i < j < |q[1..]| ensures q[1..][i] <= q[1..][j] {
          assert q[1..][i] == q[i + 1] && q[1..][j] == q[j + 1];
        }
      }
      PrunedSorted(q[1..], now);
    } else if q != [] {
      assert forall i | 0 <= i < |q| :: q[0] <= q[i];
    }
  }

  /**
   * With a clock that does not run backwards, the queue stays in order and
   * after a call holds only unexpired slots, each ending within the hour.
   */
  lemma AdmitKeepsOrder(q: seq<int>, now: int, bound: nat)
    requires Sorted(q)
    requires forall i | 0 <= i < |q| :: q[i] <= now + Window
    ensures Sorted(Admit(q, now, bound))
    ensures forall i | 0 <= i < |Admit(q, now, bound)| :: now <= Admit(q, now, bound)[i] <= now + Window
  {
    PrunedSorted(q, now);
    var p := Pruned(q, now);
    forall i | 0 <= i < |p| ensures p[i] <= now + Window {
      assert p[i] == q[|q| - |p| + i];
    }
    if |p| <= bound {
      SortedAppend(p, now + Window);
    }
  }

  lemma SortedAppend(p: seq<int>, x: int)
    requires Sorted(p)
    requires forall i | 0 <= i < |p| :: p[i] <= x
    ensures Sorted(p + [x])
  {
    forall i, j | 0 <= i < j < |p| + 1 ensures (p + [x])[i] <= (p + [x])[j] {
      assert (p + [x])[i] == p[i];
    }
  }

  /** Once every slot has expired, a call is counted as the only one in the window. */
  lemma ExpiredWindowResets(q: seq<int>, now: int, bound: nat)
    requires forall i | 0 <= i < |q| :: q[i] < now
    ensures Admit(q, now, bound) == [now + Window]
  {
  }

  /** The state after n calls for one key at the same instant. */
  function Repeat(q: seq<int>, now: int, bound: nat, n: nat): (r: seq<int>)
    decreases n
  {
    if n == 0 then q else Repeat(Admit(q, now, bound), now, bound, n - 1)
  }

  function Min(a: int, b: int): (r: int)
  {
    if a <= b then a else b
  }

  /** A burst of n calls adds one slot per call until the queue holds bound + 1. */
  lemma {:induction false} BurstLength(q: seq<int>, now: int, bound: nat, n: nat)
    requires |q| <= bound + 1
    requires forall i | 0 <= i < |q| :: q[i] >= now
    ensures |Repeat(q, now, bound, n)| == Min(|q| + n, bound + 1)
    decreases n
  {
    if n > 0 {
      assert Pruned(q, now) == q;
      var q' := Admit(q, now, bound);
      assert forall i | 0 <= i < |q'| :: q'[i] >= now;
      BurstLength(q', now, bound, n - 1);
    }
  }

  /** A burst of n calls on a fresh key holds min(n, 21) slots. */
  lemma BurstFromEmpty(now: int, n: nat)
    ensures |Repeat([], now, PushBound, n)| == Min(n, PushBound + 1)
  {
    BurstLength([], now, PushBound, n);
  }

  /**
   * A caller is refused when check_limit returns a negative remainder
   * (urlshorten.py:67). With a limit of 20, the 20th call of a burst is
   * still served and the 21st is refused.
   */
  lemma TwentyFirstCallRefused(now: int)
    ensures 20 - |Repeat([], now, PushBound, 20)| == 0
    ensures 20 - |Repeat([], now, PushBound, 21)| == -1
  {
    BurstFromEmpty(now, 20);
    BurstFromEmpty(now, 21);
  }

  /**
   * As written, with a limit of at most 20, a call is refused exactly when
   * the window already held as many unexpired slots as the limit.
   */
  lemma RefusedIffFull(q: seq<int>, now: int, limit: int)
    requires limit <= PushBound
    ensures limit - |Admit(q, now, PushBound)| < 0 <==> |Pruned(q, now)| >= limit
  {
  }

  /**
   * As written, with a limit of 21 or more nothing is ever refused: a queue
   * the limiter keeps never grows past 21 slots, whatever the traffic.
   */
  lemma AsWrittenNeverRefuses(q: seq<int>, now: int, limit: int)
    requires |q| <= PushBound + 1
    requires limit >= PushBound + 1
    ensures limit - |Admit(q, now, PushBound)| >= 0
  {
  }

  /** With a limit of 30, the 31st call of a burst within the hour is still served. */
  lemma AsWrittenBurstOfThirty(now: int)
    ensures 30 - |Repeat([], now, PushBound, 31)| >= 0
  {
    BurstFromEmpty(now, 31);
  }

  /**
   * With the push bound equal to the limit instead, a call is refused
   * exactly when the window already held limit unexpired slots, for every
   * limit.
   */
  lemma CorrectedRefusedIffFull(q: seq<int>, now: int, limit: nat)
    ensures limit - |Admit(q, now, limit)| < 0 <==> |Pruned(q, now)| >= limit
  {
  }

  /** Replacing a key's queue twice leaves only the second replacement. */
  lemma UpdateTwice(m: map<Token, seq<int>>, token: Token, a: seq<int>, b: seq<int>)
    ensures m[token := a][token := b] == m[token := b]
  {
  }

  /** limiter_dict and the check_limit that updates it. */
  class Limiter {
    var windows: map<Token, seq<int>>

    constructor ()
      ensures windows == map[]
    {
      windows := map[];
    }

    /**
     * The shared body of check_limit: pop expired slots in place, push the
     * new one if the pruned queue is at most bound long, and report.
     */
    method Check(token: Token, now: int, limit: int, bound: nat) returns (remaining: int, reset: int)
      modifies this
      ensures windows == old(windows)[token := Admit(QueueOf(old(windows), token), now, bound)]
      ensures remaining == limit - |windows[token]| && reset == windows[token][0]
    {
      var queue: seq<int> := [];
      if token in windows {
        PopExpired(token, now);
        queue := windows[token];
      } else {
        windows := windows[token := queue];
      }
      assert windows == old(windows)[token := queue];
      assert queue == Pruned(QueueOf(old(windows), token), now);
      ghost var pruned := queue;
      if |queue| <= bound {
        queue := queue + [now + Window];
      }
      assert queue == Admit(QueueOf(old(windows), token), now, bound);
      UpdateTwice(old(windows), token, pruned, queue);
      windows := windows[token := queue];
      remaining := limit - |queue|;
      reset := queue[0];
    }

    /** check_limit's while loop: pop the front slot while it is before now. */
    method PopExpired(token: Token, now: int)
      requires token in windows
      modifies this
      ensures windows == old(windows)[token := Pruned(old(windows)[token], now)]
    {
      while |windows[token]| > 0 && windows[token][0] < now
        invariant token in windows
        invariant windows == old(windows)[token := windows[token]]
        invariant Pruned(windows[token], now) == Pruned(old(windows)[token], now)
        decreases |windows[token]|
      {
        windows := windows[token := windows[token][1..]];
      }
    }

    /** check_limit as written: the push bound is the literal 20, whatever the limit. */
    method CheckLimit(token: Token, now: int, limit: int) returns (remaining: int, reset: int)
      modifies this
      ensures windows == old(windows)[token := Admit(QueueOf(old(windows), token), now, PushBound)]
      ensures |QueueOf(old(windows), token)| <= PushBound + 1 ==> 0 < |windows[token]| <= PushBound + 1
      ensures remaining == limit - |windows[token]| && reset == windows[token][0]
    {
      remaining, reset := Check(token, now, limit, PushBound);
    }

    /** check_limit with the push bound taken from the configured limit. */
    method CheckLimitCorrected(token: Token, now: int, limit: nat) returns (remaining: int, reset: int)
      modifies this
      ensures windows == old(windows)[token := Admit(QueueOf(old(windows), token), now, limit)]
      ensures remaining == limit - |windows[token]| && reset == windows[token][0]
      ensures remaining < 0 <==> |Pruned(QueueOf(old(windows), token), now)| >= limit
    {
      remaining, reset := Check(token, now, limit, limit);
      CorrectedRefusedIffFull(QueueOf(old(windows), token), now, limit);
    }
  }
}
