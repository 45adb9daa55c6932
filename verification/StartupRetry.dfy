/**
 Retrying a startup operation with exponential backoff.  Durations are 64-bit nanosecond counts, so
 the shift that doubles them can overflow; the model keeps the wrap-around.
 */
module StartupRetry {
  import opened Options

  const ATTEMPTS := 12
  const INITIAL := 250_000_000
  const MAXIMUM := 5_000_000_000

  function Pow2(k: nat): (r: nat)
    ensures r > 0
  {
    if k == 0 then 1 else 2 * Pow2(k - 1)
  }

  // The value that 64 bits keep, read as a signed number.
  function Wrap64(n: int): (r: int)
    ensures -0x8000_0000_0000_0000 <= r < 0x8000_0000_0000_0000
  {
    (n + 0x8000_0000_0000_0000) % 0x1_0000_0000_0000_0000 - 0x8000_0000_0000_0000
  }

  function Delay(attempt: nat): (r: int) {
    var delay := Wrap64(INITIAL * Pow2(attempt));
    if delay > MAXIMUM then MAXIMUM else delay
  }

  // The intended backoff: double the delay, up to the maximum.
  function Backoff(attempt: nat): (r: int) {
    var delay := INITIAL * Pow2(attempt);
    if delay > MAXIMUM then MAXIMUM else delay
  }

  function Sum(s: seq<int>): (r: int) {
    if |s| == 0 then 0 else Sum(s[..|s| - 1]) + s[|s| - 1]
  }

  // The time a run spends waiting if all its attempts fail.
  function TotalWait(attempts: nat): (r: int) {
    if attempts <= 1 then 0 else TotalWait(attempts - 1) + Delay(attempts - 2)
  }

  /******* The loop *******/

  // `operation(k)` and `wait(k)` are the errors of the k-th call, None for success.  `delays` are the
  // waits begun and `reported` the errors passed to the retry callback, one before each wait.
  method Retry(attempts: int, operation: nat -> Option<string>, wait: nat -> Option<string>)
      returns (err: Option<string>, calls: nat, delays: seq<int>, reported: seq<string>)
    ensures attempts < 1 ==> err == Some("startup retry attempts must be positive") && calls == 0 && delays == []
    ensures attempts >= 1 ==> 1 <= calls <= attempts
    // the first success ends the loop, and nothing else yields success
    ensures forall k :: 0 <= k < calls - 1 ==> operation(k).Some? && wait(k).None?
    ensures err.None? <==> calls > 0 && operation(calls - 1).None?
    // one more call than completed waits, with the delays of the schedule
    ensures calls > 0 ==> |delays| == calls - 1 || (|delays| == calls && err.Some? && wait(calls - 1) == err)
    ensures forall k :: 0 <= k < |delays| ==> delays[k] == Delay(k)
    ensures |reported| == |delays| && forall k :: 0 <= k < |reported| ==> operation(k) == Some(reported[k])
    // an exhausted run returns the error of the last call
    ensures calls > 0 && err.Some? && |delays| == calls - 1 ==> calls == attempts && err == operation(attempts - 1)
  {
    calls, delays, reported := 0, [], [];
    if attempts < 1 {
      return Some("startup retry attempts must be positive"), 0, [], [];
    }
    var lastErr: Option<string> := None;
    var attempt := 0;
    while attempt < attempts
      invariant 0 <= attempt < attempts && calls == attempt == |delays| == |reported|
      invariant forall k :: 0 <= k < attempt ==> operation(k).Some? && wait(k).None?
      invariant forall k :: 0 <= k < attempt ==> delays[k] == Delay(k) && operation(k) == Some(reported[k])
      decreases attempts - attempt
    {
      calls := calls + 1;
      lastErr := operation(attempt);
      if lastErr.None? {
        return None, calls, delays, reported;
      }
      if attempt == attempts - 1 {
        break;
      }
      reported := reported + [lastErr.value];
      delays := delays + [Delay(attempt)];
      if wait(attempt).Some? {
        return wait(attempt), calls, delays, reported;
      }
      attempt := attempt + 1;
    }
    err := lastErr;
  }

  /******* The schedule *******/

  lemma {:induction false} Pow2Monotone(j: nat, k: nat)
    requires j <= k
    ensures Pow2(j) <= Pow2(k)
    decreases k
  {
    if j < k {
      Pow2Monotone(j, k - 1);
    }
  }

  lemma {:induction false} Pow2Sum(j: nat, k: nat)
    ensures Pow2(j + k) == Pow2(j) * Pow2(k)
    decreases k
  {
    if k > 0 {
      Pow2Sum(j, k - 1);
    }
  }

  lemma Pow2Values()
    ensures Pow2(5) == 32 && Pow2(7) == 128 && Pow2(35) == 0x8_0000_0000
    ensures Pow2(63) == 0x8000_0000_0000_0000 && Pow2(64) == 0x1_0000_0000_0000_0000
  {
    assert Pow2(5) == 32 && Pow2(7) == 128;
    Pow2Sum(7, 7);
    assert Pow2(14) == 0x4000;
    Pow2Sum(14, 14);
    assert Pow2(28) == 0x1000_0000;
    Pow2Sum(28, 7);
    Pow2Sum(28, 28);
    assert Pow2(56) == 0x100_0000_0000_0000;
    Pow2Sum(56, 7);
  }

  lemma SmallShifts(k: nat)
    requires k <= 35
    ensures Delay(k) == Backoff(k)
  {
    Pow2Monotone(k, 35);
    Pow2Values();
  }

  /******* Past the overflow *******/

  // The initial delay is an odd number of times 2^7.
  const ODD_PART := 1953125

  lemma ModUnique(n: int, m: int, q: int, r: int)
    requires m > 0 && n == q * m + r && 0 <= r < m
    ensures n % m == r
  {
    var d := n / m - q;
    assert d * m == r - n % m by {
      assert n == n / m * m + n % m;
    }
    if d >= 1 {
      MulAtLeast(d, m);
    } else if d <= -1 {
      MulAtLeast(-d, m);
    }
  }

  lemma MulAtLeast(d: int, m: int)
    requires d >= 1 && m > 0
    ensures d * m >= m
  {
  }

  lemma ModScale(a: nat, b: nat, c: nat)
    requires b > 0 && c > 0
    ensures b * c > 0 && (a * c) % (b * c) == (a % b) * c
  {
    var q, r := a / b, a % b;
    assert a * c == q * (b * c) + r * c by {
      assert a == q * b + r;
    }
    assert r * c < b * c;
    ModUnique(a * c, b * c, q, r * c);
  }

  lemma WrapUnsigned(n: nat)
    ensures var u := n % 0x1_0000_0000_0000_0000;
            Wrap64(n) == if u < 0x8000_0000_0000_0000 then u else u - 0x1_0000_0000_0000_0000
  {
  }

  // Shifted by 36 to 56, what 64 bits keep of the delay is the low end of its odd part.
  lemma KeptBits(k: nat)
    requires 36 <= k <= 56
    ensures INITIAL * Pow2(k) % 0x1_0000_0000_0000_0000 == (ODD_PART % Pow2(57 - k)) * Pow2(k + 7)
    ensures Pow2(56 - k) * Pow2(k + 7) == 0x8000_0000_0000_0000
  {
    Pow2Values();
    Pow2Sum(k, 7);
    Pow2Sum(57 - k, k + 7);
    Pow2Sum(56 - k, k + 7);
    assert INITIAL * Pow2(k) == ODD_PART * Pow2(k + 7);
    ModScale(ODD_PART, Pow2(57 - k), Pow2(k + 7));
  }

  // The bit of the odd part that lands on the sign bit.
  predicate SignClear(k: nat)
    requires k <= 56
  {
    ODD_PART % Pow2(57 - k) < Pow2(56 - k)
  }

  lemma ScaleCompare(kept: nat, half: nat, scale: nat)
    requires scale > 0 && kept >= 1
    ensures kept < half ==> kept * scale <= half * scale - scale
    ensures kept >= half ==> kept * scale >= half * scale
    ensures kept * scale >= scale
  {
    MulAtLeast(kept, scale);
    if kept < half {
      MulAtLeast(half - kept, scale);
      assert (half - kept) * scale == half * scale - kept * scale;
    } else if kept > half {
      MulAtLeast(kept - half, scale);
      assert (kept - half) * scale == kept * scale - half * scale;
    }
  }

  lemma OddRemainder(m: nat)
    requires m >= 1
    ensures ODD_PART % Pow2(m) >= 1
  {
    var q, p := ODD_PART / Pow2(m), Pow2(m - 1);
    assert ODD_PART == q * (2 * p) + ODD_PART % Pow2(m);
    assert q * (2 * p) == 2 * (q * p);
  }

  lemma ScaleIsLarge(k: nat)
    requires k >= 36
    ensures Pow2(k + 7) > MAXIMUM
  {
    Pow2Monotone(35, k + 7);
    Pow2Values();
  }

  lemma MiddleShifts(k: nat)
    requires 36 <= k <= 56
    ensures if SignClear(k) then Delay(k) == MAXIMUM else Delay(k) < 0
  {
    KeptBits(k);
    WrapUnsigned(INITIAL * Pow2(k));
    OddRemainder(57 - k);
    ScaleCompare(ODD_PART % Pow2(57 - k), Pow2(56 - k), Pow2(k + 7));
    ScaleIsLarge(k);
  }

  // From shift 57 on all the bits are shifted out.
  lemma ShiftedOut(k: nat)
    requires k >= 57
    ensures Delay(k) == 0
  {
    Pow2Values();
    Pow2Sum(k, 7);
    Pow2Sum(k - 57, 64);
    var p := Pow2(k - 57);
    assert INITIAL * Pow2(k) == ODD_PART * p * 0x1_0000_0000_0000_0000;
    ModUnique(INITIAL * Pow2(k), 0x1_0000_0000_0000_0000, ODD_PART * p, 0);
    WrapUnsigned(INITIAL * Pow2(k));
  }

  // The delay of the code is the intended one up to shift 35, and after that only when the bit that
  // lands on the sign happens to be clear.
  lemma DelayRightIff(k: nat)
    ensures Delay(k) == Backoff(k) <==> k <= 35 || (k <= 56 && SignClear(k))
  {
    if k <= 35 {
      SmallShifts(k);
    } else {
      Pow2Monotone(5, k);
      Pow2Values();
      if k <= 56 {
        MiddleShifts(k);
      } else {
        ShiftedOut(k);
      }
    }
  }

  // All the delays of a run are right exactly when it may make at most 37 attempts.
  lemma ScheduleRightIff(attempts: nat)
    ensures (forall k :: 0 <= k < attempts - 1 ==> Delay(k) == Backoff(k)) <==> attempts <= 37
  {
    if attempts <= 37 {
      forall k | 0 <= k < attempts - 1 ensures Delay(k) == Backoff(k) {
        SmallShifts(k);
      }
    } else {
      DelayRightIff(36);
      Pow2Sum(10, 10);
      assert Pow2(10) == 1024 by {
        Pow2Sum(5, 5);
        Pow2Values();
      }
      assert Pow2(57 - 36) == 2 * Pow2(56 - 36) == 2097152;
      assert Delay(36) != Backoff(36);
    }
  }

  // The first delay that is wrong.
  lemma FirstWrongDelay()
    ensures Delay(36) != Backoff(36) && forall k :: 0 <= k < 36 ==> Delay(k) == Backoff(k)
  {
    ScheduleRightIff(37);
    ScheduleRightIff(38);
  }

  // In figures: a quarter of a second, doubled each time, up to five seconds.
  lemma BackoffIs(k: nat)
    ensures Backoff(k) == if 250_000_000 * Pow2(k) < 5_000_000_000 then 250_000_000 * Pow2(k) else 5_000_000_000
    ensures Pow2(0) == 1 && Pow2(k + 1) == 2 * Pow2(k)
  {
  }

  lemma BackoffNondecreasing(j: nat, k: nat)
    requires j <= k
    ensures INITIAL <= Backoff(j) <= Backoff(k) <= MAXIMUM
  {
    Pow2Monotone(j, k);
  }

  lemma {:induction false} TotalWaitIs(attempts: nat)
    requires 6 <= attempts <= 37
    ensures TotalWait(attempts) == 7_750_000_000 + 5_000_000_000 * (attempts - 6)
  {
    if attempts == 6 {
      assert TotalWait(6) == Delay(0) + Delay(1) + Delay(2) + Delay(3) + Delay(4);
    } else {
      TotalWaitIs(attempts - 1);
      SmallShifts(attempts - 2);
      Pow2Monotone(5, attempts - 2);
      Pow2Values();
    }
  }

  // The waits of a run add up to the schedule, all of it if the run is exhausted.
  lemma {:induction false} WaitsAddUp(delays: seq<int>)
    requires forall k :: 0 <= k < |delays| ==> delays[k] == Delay(k)
    ensures Sum(delays) == TotalWait(|delays| + 1)
  {
    if |delays| > 0 {
      WaitsAddUp(delays[..|delays| - 1]);
    }
  }

  // The projection sync gives up after 37.75 seconds.
  lemma ProjectionSyncWait()
    ensures TotalWait(ATTEMPTS) == 37_750_000_000
  {
    TotalWaitIs(ATTEMPTS);
  }

  // A projection sync that fails gives up with the last error after waiting 37.75 seconds, unless a
  // wait is interrupted.
  method SyncVideoProjection(operation: nat -> Option<string>, wait: nat -> Option<string>)
      returns (err: Option<string>, calls: nat, delays: seq<int>)
    ensures 1 <= calls <= ATTEMPTS && (err.None? <==> operation(calls - 1).None?)
    ensures err.Some? && |delays| == calls - 1 ==>
              calls == ATTEMPTS && err == operation(ATTEMPTS - 1) && Sum(delays) == 37_750_000_000
    ensures err.Some? && |delays| != calls - 1 ==> |delays| == calls && wait(calls - 1) == err
  {
    var reported;
    err, calls, delays, reported := Retry(ATTEMPTS, operation, wait);
    WaitsAddUp(delays);
    ProjectionSyncWait();
  }
}
