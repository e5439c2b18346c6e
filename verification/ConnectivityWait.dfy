/** Polling for a complete connectivity comparison (diffs_connectivity.go, operations.go). Durations are nanoseconds in
    a signed 64-bit integer. */
module ConnectivityWait {

  const TWO63 := 0x8000_0000_0000_0000

  predicate IsDuration(d: int) {
    -TWO63 <= d < TWO63
  }

  /** Addition of durations wraps around. */
  function AddDurations(a: int, b: int): int
    requires IsDuration(a) && IsDuration(b)
  {
    if a + b >= TWO63 then a + b - 2 * TWO63
    else if a + b < -TWO63 then a + b + 2 * TWO63
    else a + b
  }

  /** `time.Since` stops at the largest duration. */
  function Since(elapsed: nat): int {
    if elapsed < TWO63 then elapsed else TWO63 - 1
  }

  const DEFAULT_TIMEOUT := 300_000_000_000
  const DEFAULT_INTERVAL := 2_000_000_000

  function Effective(option: int, default: int): int {
    if option <= 0 then default else option
  }

  /** What one round meets: the answer to the read, the time passed when it is checked, and whether the context ends
      during the wait. */
  datatype Turn<T> = Turn(read: Read<T>, elapsed: nat, cancelled: bool)

  datatype Read<T> = Failed | Got(result: T, partial: bool)

  datatype Outcome<T> = ReadFailed | Complete(result: T) | StillPartial(last: T) | Cancelled | Unfinished

  /** The test made before a wait. */
  predicate TooLate(elapsed: nat, interval: int, timeout: int)
    requires 0 < interval < TWO63
  {
    AddDurations(Since(elapsed), interval) > timeout
  }

  predicate Continues<T>(turn: Turn<T>, interval: int, timeout: int)
    requires 0 < interval < TWO63
  {
    turn.read.Got? && turn.read.partial && !TooLate(turn.elapsed, interval, timeout) && !turn.cancelled
  }

  /** How a round that does not continue ends the call. */
  function End<T>(turn: Turn<T>, interval: int, timeout: int): Outcome<T>
    requires 0 < interval < TWO63
  {
    if turn.read.Failed? then ReadFailed
    else if !turn.read.partial then Complete(turn.read.result)
    else if TooLate(turn.elapsed, interval, timeout) then StillPartial(turn.read.result)
    else Cancelled
  }

  /** `WaitForSubnetConnectivity` against the rounds it meets; it is `Unfinished` when there are no more of them. The
      first round that does not continue decides, and a success is never a partial result. */
  method Wait<T>(timeoutOption: int, intervalOption: int, turns: seq<Turn<T>>) returns (r: Outcome<T>, made: nat)
    requires IsDuration(timeoutOption) && IsDuration(intervalOption)
    ensures var (timeout, interval) :=
              (Effective(timeoutOption, DEFAULT_TIMEOUT), Effective(intervalOption, DEFAULT_INTERVAL));
            && made <= |turns|
            && (r.Unfinished? ==> made == |turns| && forall i | 0 <= i < made :: Continues(turns[i], interval, timeout))
            && (!r.Unfinished? ==>
                  && 0 < made && !Continues(turns[made - 1], interval, timeout)
                  && r == End(turns[made - 1], interval, timeout)
                  && forall i | 0 <= i < made - 1 :: Continues(turns[i], interval, timeout))
    ensures r.Complete? ==> made > 0 && turns[made - 1].read == Got(r.result, false)
  {
    var timeout := timeoutOption;
    if timeout <= 0 {
      timeout := DEFAULT_TIMEOUT;
    }
    var interval := intervalOption;
    if interval <= 0 {
      interval := DEFAULT_INTERVAL;
    }
    made := 0;
    while made < |turns|
      invariant made <= |turns| && forall i | 0 <= i < made :: Continues(turns[i], interval, timeout)
    {
      var turn := turns[made];
      made := made + 1;
      if turn.read.Failed? {
        return ReadFailed, made;
      }
      if !turn.read.partial {
        return Complete(turn.read.result), made;
      }
      if TooLate(turn.elapsed, interval, timeout) {
        return StillPartial(turn.read.result), made;
      }
      if turn.cancelled {
        return Cancelled, made;
      }
    }
    r := Unfinished;
  }

  /** A sum is the one duration that is equal to it modulo 2^64; the time passed stops at the largest duration. */
  lemma SumsExactly(a: int, b: int, sum: int, elapsed: nat)
    requires IsDuration(a) && IsDuration(b)
    ensures IsDuration(sum) <==> -9_223_372_036_854_775_808 <= sum <= 9_223_372_036_854_775_807
    ensures sum == AddDurations(a, b) <==>
              -9_223_372_036_854_775_808 <= sum <= 9_223_372_036_854_775_807 &&
                (a + b - sum) % 18_446_744_073_709_551_616 == 0
    ensures Since(elapsed) <= 9_223_372_036_854_775_807 && Since(elapsed) <= elapsed
    ensures Since(elapsed) < elapsed ==> Since(elapsed) == 9_223_372_036_854_775_807
  {
  }

  /** An option that is not positive stands for five minutes, or two seconds, in nanoseconds. */
  lemma DefaultsExactly(option: int)
    ensures option <= 0 ==> Effective(option, DEFAULT_TIMEOUT) == 5 * 60 * 1_000_000_000
    ensures option <= 0 ==> Effective(option, DEFAULT_INTERVAL) == 2 * 1_000_000_000
    ensures option > 0 ==> Effective(option, DEFAULT_TIMEOUT) == Effective(option, DEFAULT_INTERVAL) == option
  {
  }

  /** One round: a failed read ends the call with its error and a whole result with that result; a partial one ends it
      when the time passed and the interval exceed the timeout, and else the wait decides. */
  lemma RoundExactly<T>(turn: Turn<T>, interval: int, timeout: int)
    requires 0 < interval < TWO63 && 0 < timeout < TWO63 && turn.elapsed + interval < TWO63
    ensures var (r, ends) := (End(turn, interval, timeout), !Continues(turn, interval, timeout));
            match turn.read
            case Failed => ends && r == ReadFailed
            case Got(result, false) => ends && r == Complete(result)
            case Got(result, true) =>
              if turn.elapsed + interval > timeout then ends && r == StillPartial(result)
              else ends == turn.cancelled && (ends ==> r == Cancelled)
  {
  }

  // ----- The deadline -----

  /** The test says whether the wait would end past the timeout exactly when the sum of the two durations fits 64 bits.
      */
  lemma TestExactly(elapsed: nat, interval: int, timeout: int)
    requires 0 < interval < TWO63 && 0 < timeout < TWO63
    ensures (TooLate(elapsed, interval, timeout) <==> elapsed + interval > timeout) <==> elapsed + interval < TWO63
  {
  }

  /** A wait of the longest duration is started although the timeout is over. */
  lemma WrappedTest()
    ensures var (elapsed, interval, timeout) := (2_000_000_000, TWO63 - 1, 1_000_000_000);
            elapsed > timeout && elapsed + interval > timeout && !TooLate(elapsed, interval, timeout)
  {
  }

  /** The first round that a wait would carry past the timeout, |turns| when there is none. */
  function FirstPast<T>(turns: seq<Turn<T>>, interval: int, timeout: int): (k: nat)
    ensures k <= |turns| && forall i | 0 <= i < k :: turns[i].elapsed + interval <= timeout
    ensures k < |turns| ==> turns[k].elapsed + interval > timeout
  {
    if turns == [] || turns[0].elapsed + interval > timeout then 0 else 1 + FirstPast(turns[1..], interval, timeout)
  }

  /** When the comparison stays partial and nobody cancels, the deadline ends the call at the first round past it
      exactly when the sum of that round fits 64 bits; when it does not fit, no later round ends the call either. */
  lemma DeadlineEndsExactly<T>(turns: seq<Turn<T>>, interval: int, timeout: int)
    requires 0 < interval < TWO63 && 0 < timeout < TWO63
    requires forall i | 0 <= i < |turns| :: turns[i].read.Got? && turns[i].read.partial && !turns[i].cancelled
    requires forall i, j | 0 <= i <= j < |turns| :: turns[i].elapsed <= turns[j].elapsed
    ensures var k := FirstPast(turns, interval, timeout);
            && (forall i | 0 <= i < k :: Continues(turns[i], interval, timeout))
            && (k < |turns| && turns[k].elapsed + interval < TWO63 ==> !Continues(turns[k], interval, timeout))
            && (k < |turns| && turns[k].elapsed + interval >= TWO63 ==>
                  forall i | 0 <= i < |turns| :: Continues(turns[i], interval, timeout))
  {
    var k := FirstPast(turns, interval, timeout);
    forall i | 0 <= i < k ensures Continues(turns[i], interval, timeout) {
      TestExactly(turns[i].elapsed, interval, timeout);
    }
    if k < |turns| && turns[k].elapsed + interval >= TWO63 {
      forall i | k <= i < |turns| ensures Continues(turns[i], interval, timeout) {
        assert turns[k].elapsed <= turns[i].elapsed;
      }
    }
  }

  /** A completed wait lasts at least the interval, as a timer promises. */
  predicate TimersKept<T>(turns: seq<Turn<T>>, interval: int, timeout: int)
    requires 0 < interval < TWO63
  {
    forall i | 0 <= i < |turns| - 1 && Continues(turns[i], interval, timeout) ::
      turns[i + 1].elapsed >= turns[i].elapsed + interval
  }

  predicate NoOverflow<T>(turns: seq<Turn<T>>, interval: int) {
    forall i | 0 <= i < |turns| :: turns[i].elapsed + interval < TWO63
  }

  lemma {:induction false} TimePasses<T>(turns: seq<Turn<T>>, n: nat, interval: int, timeout: int)
    requires 0 < interval < TWO63 && n < |turns| && TimersKept(turns, interval, timeout)
    requires forall i | 0 <= i < n :: Continues(turns[i], interval, timeout)
    ensures turns[n].elapsed >= n * interval
  {
    if n == 0 {
    } else {
      TimePasses(turns, n - 1, interval, timeout);
    }
  }

  /** No wait is started that would end past the timeout, and at most timeout/interval of them are started. */
  lemma WaitsAreBounded<T>(turns: seq<Turn<T>>, n: nat, interval: int, timeout: int)
    requires 0 < interval < TWO63 && 0 < timeout < TWO63 && n <= |turns|
    requires TimersKept(turns, interval, timeout) && NoOverflow(turns, interval)
    requires forall i | 0 <= i < n :: Continues(turns[i], interval, timeout)
    ensures forall i | 0 <= i < n :: turns[i].elapsed + interval <= timeout
    ensures n <= timeout / interval
  {
    forall i | 0 <= i < n ensures turns[i].elapsed + interval <= timeout {
      TestExactly(turns[i].elapsed, interval, timeout);
    }
    if n > 0 {
      TimePasses(turns, n - 1, interval, timeout);
      NextMultiple(n - 1, interval);
      QuotientBounds(timeout, interval);
      QuotientIsLargest(n, timeout / interval, interval, timeout);
    }
  }

  /** The call ends: with timers that keep their promise and no sum that wraps, it makes at most timeout/interval + 1
      reads, and given that many rounds it has returned. */
  method BoundedWait<T>(timeoutOption: int, intervalOption: int, turns: seq<Turn<T>>) returns (r: Outcome<T>, made: nat)
    requires IsDuration(timeoutOption) && IsDuration(intervalOption)
    requires TimersKept(turns, Effective(intervalOption, DEFAULT_INTERVAL), Effective(timeoutOption, DEFAULT_TIMEOUT))
    requires NoOverflow(turns, Effective(intervalOption, DEFAULT_INTERVAL))
    ensures var limit := Effective(timeoutOption, DEFAULT_TIMEOUT) / Effective(intervalOption, DEFAULT_INTERVAL);
            made <= limit + 1 && made <= |turns| && (|turns| > limit ==> !r.Unfinished?)
    ensures r.Complete? ==> made > 0 && turns[made - 1].read == Got(r.result, false)
    ensures r.StillPartial? ==>
              && made > 0
              && Effective(timeoutOption, DEFAULT_TIMEOUT)
                   < turns[made - 1].elapsed + Effective(intervalOption, DEFAULT_INTERVAL)
  {
    r, made := Wait(timeoutOption, intervalOption, turns);
    ghost var timeout, interval :=
        Effective(timeoutOption, DEFAULT_TIMEOUT), Effective(intervalOption, DEFAULT_INTERVAL);
    WaitsAreBounded(turns, if r.Unfinished? then made else made - 1, interval, timeout);
    if r.StillPartial? {
      TestExactly(turns[made - 1].elapsed, interval, timeout);
    }
  }

  lemma NextMultiple(i: nat, d: nat)
    ensures (i + 1) * d == i * d + d
  {
  }

  lemma {:induction false} MultiplesGrow(i: nat, j: nat, d: nat)
    requires i <= j
    ensures i * d <= j * d
  {
    if i == j {
    } else {
      MultiplesGrow(i, j - 1, d);
      NextMultiple(j - 1, d);
    }
  }

  lemma QuotientIsLargest(n: nat, q: nat, d: nat, x: nat)
    requires n * d <= x < q * d + d
    ensures n <= q
  {
    if n > q {
      MultiplesGrow(q + 1, n, d);
      NextMultiple(q, d);
    }
  }

  lemma QuotientBounds(x: nat, d: nat)
    requires d > 0
    ensures (x / d) * d <= x < (x / d) * d + d
  {
  }

  /** The bound is met: with instant reads and exact timers every one of these waits is made. */
  lemma BoundIsMet(result: int, interval: int, timeout: int)
    requires 0 < interval < TWO63 && 0 < timeout < TWO63
    ensures var turns := OnTime(result, timeout / interval + 1, interval);
            && TimersKept(turns, interval, timeout)
            && (forall i | 0 <= i < timeout / interval :: Continues(turns[i], interval, timeout))
  {
    QuotientBounds(timeout, interval);
    AllWaitsMade(result, timeout / interval, interval, timeout);
  }

  lemma AllWaitsMade(result: int, n: nat, interval: int, timeout: int)
    requires 0 < interval < TWO63 && 0 < timeout < TWO63 && n * interval <= timeout
    ensures var turns := OnTime(result, n + 1, interval);
            && TimersKept(turns, interval, timeout)
            && (forall i | 0 <= i < n :: Continues(turns[i], interval, timeout))
  {
    var turns := OnTime(result, n + 1, interval);
    forall i | 0 <= i < n ensures Continues(turns[i], interval, timeout) {
      NextMultiple(i, interval);
      MultiplesGrow(i + 1, n, interval);
      TestExactly(turns[i].elapsed, interval, timeout);
    }
    forall i | 0 <= i < n ensures turns[i + 1].elapsed >= turns[i].elapsed + interval {
      NextMultiple(i, interval);
    }
  }

  function OnTime(result: int, n: nat, interval: int): seq<Turn<int>>
    requires interval > 0
  {
    seq(n, i requires 0 <= i < n => Turn(Got(result, true), i * interval, false))
  }
}
