/** The wait for a claim label to show up on GitHub: a jittered exponential backoff inside a
    fixed window. Durations are nanoseconds in a wrapping signed 64-bit integer. */
module Backoff {
  import opened Text

  const WINDOW := 5_000_000_000
  const BASE := 100_000_000
  const MAX_WAIT := 1_000_000_000

  // ---------------------------------------------------------------- the delay

  function Pow2(n: nat): nat {
    if n == 0 then 1 else 2 * Pow2(n - 1)
  }

  /** The signed 64-bit value of an integer. */
  function Wrap(x: int): int {
    var low := x % 0x1_0000_0000_0000_0000;
    if low < 0x8000_0000_0000_0000 then low else low - 0x1_0000_0000_0000_0000
  }

  /** The base shifted left in 64 bits; the bits shifted out are lost. */
  function Shifted(attempt: nat): int {
    Wrap(BASE * Pow2(attempt))
  }

  function Ceiling(attempt: nat): int {
    var ceiling := Shifted(attempt);
    if ceiling <= 0 || ceiling > MAX_WAIT then MAX_WAIT else ceiling
  }

  /** claimLabelConvergenceDelay; offset is what the jitter source answered, none without
      one. */
  function Delay(attempt: nat, offset: Option<int>): int {
    var ceiling := Ceiling(attempt);
    var floor := if ceiling / 2 <= 0 then ceiling else ceiling / 2;
    var window := ceiling - floor;
    match offset
    case None => floor
    case Some(o) => floor + (if o < 0 then 0 else if o > window then window else o)
  }

  lemma Pow2Values()
    ensures Pow2(0) == 1 && Pow2(1) == 2 && Pow2(2) == 4 && Pow2(3) == 8 && Pow2(4) == 16
    ensures Pow2(22) == 4_194_304
  {
    assert Pow2(8) == 256;
    assert Pow2(12) == 4_096;
    assert Pow2(16) == 65_536;
    assert Pow2(20) == 1_048_576;
  }

  lemma {:induction false} Pow2Splits(n: nat)
    ensures Pow2(22 + n) == 4_194_304 * Pow2(n)
  {
    if n == 0 {
      Pow2Values();
    } else {
      Pow2Splits(n - 1);
    }
  }

  lemma {:induction false} Pow2Grows(m: nat, n: nat)
    requires m <= n
    ensures 1 <= Pow2(m) <= Pow2(n)
  {
    if n == 0 {
    } else if m == n {
      Pow2Grows(m - 1, n - 1);
    } else {
      Pow2Grows(m, n - 1);
    }
  }

  /** However often the shift wraps around, the ceiling is the unbounded one: 100, 200,
      400 and 800 milliseconds, then a second for ever. */
  lemma CeilingNeverWraps(attempt: nat)
    ensures Ceiling(attempt) == if attempt < 4 then BASE * Pow2(attempt) else MAX_WAIT
  {
    Pow2Values();
    if attempt >= 22 {
      LargeShift(attempt);
    } else if attempt >= 4 {
      MiddleShift(attempt);
    }
  }

  lemma MiddleShift(attempt: nat)
    requires 4 <= attempt <= 22
    ensures Shifted(attempt) > MAX_WAIT
  {
    Pow2Values();
    Pow2Grows(4, attempt);
    Pow2Grows(attempt, 22);
  }

  lemma LargeShift(attempt: nat)
    requires attempt >= 22
    ensures Shifted(attempt) <= 0 || Shifted(attempt) > MAX_WAIT
  {
    var p := Pow2(attempt - 22);
    Pow2Splits(attempt - 22);
    assert BASE * Pow2(attempt) == 0x4000_0000 * (390_625 * p);
    WrappedMultiple(390_625 * p);
  }

  /** Wrapping keeps the low thirty bits clear, so a wrapped positive value is still over a
      second. */
  lemma WrappedMultiple(k: int)
    ensures Wrap(0x4000_0000 * k) <= 0 || Wrap(0x4000_0000 * k) >= 0x4000_0000
  {
    var q, low := k / 0x4_0000_0000, k % 0x4_0000_0000;
    RemainderIs(0x4000_0000 * k, q, 0x4000_0000 * low);
  }

  lemma RemainderIs(x: int, q: int, r: int)
    requires x == q * 0x1_0000_0000_0000_0000 + r && 0 <= r < 0x1_0000_0000_0000_0000
    ensures x % 0x1_0000_0000_0000_0000 == r
  {
  }

  /** Every delay lies between half its ceiling and its ceiling, so between 50 milliseconds
      and a second, whatever the jitter source answers. */
  lemma DelayBounds(attempt: nat, offset: Option<int>)
    ensures Ceiling(attempt) / 2 <= Delay(attempt, offset) <= Ceiling(attempt)
    ensures 50_000_000 <= Delay(attempt, offset) <= 1_000_000_000
  {
    CeilingNeverWraps(attempt);
    if attempt < 4 {
      Pow2Grows(0, attempt);
      Pow2Grows(attempt, 3);
      Pow2Values();
    }
  }

  /** The ceiling before an attempt: 100, 200, 400 and 800 milliseconds, then a second. */
  ghost function Step(attempt: nat): nat {
    if attempt == 0 then 100_000_000 else if attempt == 1 then 200_000_000
    else if attempt == 2 then 400_000_000 else if attempt == 3 then 800_000_000 else 1_000_000_000
  }

  /** Without jitter the delay is half its ceiling; jitter adds what the source answered, cut
      to what remains below the ceiling. */
  lemma JitterIsAdded(attempt: nat, o: int)
    ensures Delay(attempt, None) == Step(attempt) / 2
    ensures 0 <= o <= Step(attempt) / 2 ==> Delay(attempt, Some(o)) == Step(attempt) / 2 + o
    ensures o < 0 ==> Delay(attempt, Some(o)) == Step(attempt) / 2
    ensures o > Step(attempt) / 2 ==> Delay(attempt, Some(o)) == Step(attempt)
  {
    CeilingNeverWraps(attempt);
    Pow2Values();
  }

  // ---------------------------------------------------------------- the wait

  datatype Reading = Unreadable | Unlabelled | Labelled

  /** One turn of the loop: the clock, the jitter, whether the sleep ran through, and what
      the item then read. */
  datatype Turn = Turn(at: int, offset: Option<int>, slept: bool, reading: Reading)

  datatype Outcome = Found | Drifted | Interrupted | ReadFailed

  /** The sleep asked for at one turn. */
  function Pause(start: int, turn: Turn, attempt: nat): int {
    var delay, remaining := Delay(attempt, turn.offset), start + WINDOW - turn.at;
    if delay > remaining then remaining else delay
  }

  /** Sleeping takes at least as long as was asked. */
  ghost predicate ClockAdvances(start: int, turns: nat -> Turn) {
    && start <= turns(0).at
    && forall k: nat :: turns(k).at < start + WINDOW ==> turns(k + 1).at >= turns(k).at + Pause(start, turns(k), k)
  }

  /** The turn goes round again. */
  predicate Continues(start: int, turn: Turn) {
    turn.at < start + WINDOW && turn.slept && turn.reading.Unlabelled?
  }

  ghost function Slept(start: int, turns: nat -> Turn, n: nat): int {
    if n == 0 then 0 else Slept(start, turns, n - 1) + Pause(start, turns(n - 1), n - 1)
  }

  /** The least time n untruncated delays can take. */
  function LeastElapsed(n: nat): nat {
    if n == 0 then 0
    else if n == 1 then 50_000_000
    else if n == 2 then 150_000_000
    else if n == 3 then 350_000_000
    else 750_000_000 + 500_000_000 * (n - 4)
  }

  lemma LeastElapsedNext(n: nat, offset: Option<int>)
    ensures LeastElapsed(n + 1) <= LeastElapsed(n) + Delay(n, offset)
  {
    DelayBounds(n, offset);
    CeilingNeverWraps(n);
    Pow2Values();
  }

  /** waitForClaimLabel. Turns 0 to n - 1 found no label; turn n settles the wait. */
  method WaitForClaimLabel(start: int, turns: nat -> Turn) returns (outcome: Outcome, n: nat)
    requires ClockAdvances(start, turns)
    ensures forall k: nat :: k < n ==> Continues(start, turns(k))
    ensures outcome.Drifted? <==> turns(n).at >= start + WINDOW
    ensures outcome.Interrupted? <==> turns(n).at < start + WINDOW && !turns(n).slept
    ensures outcome.ReadFailed? <==> turns(n).at < start + WINDOW && turns(n).slept && turns(n).reading.Unreadable?
    ensures outcome.Found? <==> turns(n).at < start + WINDOW && turns(n).slept && turns(n).reading.Labelled?
    ensures n <= 13 && (!outcome.Drifted? ==> n <= 12)
    ensures 0 <= Slept(start, turns, n) <= WINDOW
    ensures !outcome.Drifted? ==> Slept(start, turns, n + 1) <= WINDOW
  {
    n := 0;
    while true
      invariant forall k: nat :: k < n ==> Continues(start, turns(k))
      invariant 0 <= Slept(start, turns, n) <= turns(n).at - start
      invariant Slept(start, turns, n) <= WINDOW
      invariant LeastElapsed(n) <= turns(n).at - start || (turns(n).at >= start + WINDOW && n <= 13)
      invariant n <= 13
      decreases start + WINDOW - turns(n).at
    {
      var turn := turns(n);
      var delay := Delay(n, turn.offset);
      var remaining := start + WINDOW - turn.at;
      if remaining <= 0 {
        return Drifted, n;
      }
      if delay > remaining {
        delay := remaining;
      }
      LeastElapsedNext(n, turn.offset);
      DelayBounds(n, turn.offset);
      assert delay == Pause(start, turn, n) && Slept(start, turns, n + 1) == Slept(start, turns, n) + delay;
      if !turn.slept {
        return Interrupted, n;
      }
      if turn.reading.Unreadable? {
        return ReadFailed, n;
      }
      if turn.reading.Labelled? {
        return Found, n;
      }
      n := n + 1;
    }
  }
}
