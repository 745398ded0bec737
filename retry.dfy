/**
 * The bounded retry loop of Http::perform (the while(true) around the
 * $doRequest closure). The transport is a function from the attempt number
 * to what that attempt yielded; sleep() becomes a recorded list of waits.
 */
module Retry {
  import opened Wrappers
  import opened PhpStrings
  import opened Assoc
  import opened Headers

  /**
   * One file_get_contents call: the body it returned (None for false) and
   * the response header lines PHP put in $http_response_header.
   */
  datatype Attempt = Attempt(body: Option<string>, responseLines: seq<string>)

  /** `$result` is truthy: a string other than "" and "0". */
  predicate Delivered(a: Attempt) {
    a.body.Some? && a.body.value != "" && a.body.value != "0"
  }

  /** `!empty($h['Retry-After'])` and the value sleep() is given: exact-case key, "" and "0" count as absent. */
  function RetryAfter(h: HeaderArray): Option<string>
  {
    match Lookup(h, Str("Retry-After"))
    case Some(v) => if v != "" && v != "0" then Some(v) else None
    case None => None
  }

  /**
   * Whether `sleep($w)` accepts the Retry-After value w. Under PHP 8 an int
   * parameter coerces a string of decimal digits within PHP_INT_MAX; a
   * non-numeric string, such as the HTTP-date form of RFC 7231 section 7.1.3,
   * throws TypeError, and a negative value throws ValueError.
   */
  predicate SleepAccepts(w: string) {
    w != [] && AllDigits(w) && DigitsValue(w) <= IntMax
  }

  /**
   * What the loop makes of one attempt: a body it returns, or a failure with
   * the parsed response headers and the wait they ask for, if any.
   */
  datatype Verdict =
    | Deliver(body: string, lines: seq<string>)
    | Refuse(headers: HeaderArray, wait: Option<string>)

  /** The closure's test of `$result`, and on failure parseHeaders and the Retry-After test. */
  function Classify(a: Attempt): (v: Verdict)
    ensures v.Deliver? <==> Delivered(a)
  {
    if Delivered(a) then Deliver(a.body.value, a.responseLines)
    else
      var h := HeadersOf(a.responseLines);
      Refuse(h, RetryAfter(h))
  }

  /** The verdicts of a transport's attempts, by attempt number. */
  function Verdicts(t: nat -> Attempt): nat -> Verdict
  {
    (j: nat) => Classify(t(j))
  }

  /** A failed attempt whose response asks the client to come back later: `!empty($h['Retry-After'])`. */
  predicate AsksWait(v: Verdict) {
    v.Refuse? && v.wait.Some?
  }

  /** A failed attempt the loop sleeps for and retries while the counter lasts. */
  predicate Throttle(v: Verdict) {
    AsksWait(v) && SleepAccepts(v.wait.value)
  }

  /** AsksWait on the attempt itself. */
  predicate AsksForWait(a: Attempt) {
    !Delivered(a) && RetryAfter(HeadersOf(a.responseLines)).Some?
  }

  /** Throttle on the attempt itself. */
  predicate Throttled(a: Attempt) {
    AsksForWait(a) && SleepAccepts(RetryAfter(HeadersOf(a.responseLines)).value)
  }

  lemma ThrottledVerdict(a: Attempt)
    ensures AsksWait(Classify(a)) <==> AsksForWait(a)
    ensures Throttle(Classify(a)) <==> Throttled(a)
    ensures AsksForWait(a) ==> Classify(a).wait == RetryAfter(HeadersOf(a.responseLines))
  {
  }

  /** The same for every attempt of a transport. */
  lemma ThrottledVerdicts(t: nat -> Attempt)
    ensures forall j: nat :: AsksWait(Verdicts(t)(j)) <==> AsksForWait(t(j))
    ensures forall j: nat :: Throttle(Verdicts(t)(j)) <==> Throttled(t(j))
    ensures forall j: nat :: AsksForWait(t(j)) ==>
      AsksWait(Verdicts(t)(j)) && Verdicts(t)(j).wait == RetryAfter(HeadersOf(t(j).responseLines))
  {
    forall j: nat {
      ThrottledVerdict(t(j));
    }
  }

  /**
   * How the loop ends: a body to decode, the rethrown REQUEST_FAILED,
   * QUOTA_EXCEEDED, or the error sleep() throws for a wait it rejects.
   */
  datatype Outcome =
    | Received(body: string, responseLines: seq<string>)
    | Failed(headers: HeaderArray)
    | OverQuota(headers: HeaderArray)
    | SleepRejected(wait: string)

  /** The loop's end, the waits it slept, in order, and how many attempts it made. */
  datatype Run = Run(outcome: Outcome, waits: seq<string>, attempts: nat)

  /**
   * The loop from attempt number i on, with the counter at `counter`: one
   * attempt more than waits, and no more waits than the counter allows.
   */
  function RunFrom(v: nat -> Verdict, i: nat, counter: int): (r: Run)
    ensures r.attempts == |r.waits| + 1
    ensures |r.waits| <= if counter > 0 then counter else 0
    decreases if counter > 0 then counter else 0
  {
    match v(i)
    case Deliver(b, lines) => Run(Received(b, lines), [], 1)
    case Refuse(h, None) => Run(Failed(h), [], 1)
    case Refuse(h, Some(w)) =>
      if counter <= 0 then Run(OverQuota(h), [], 1)
      else if !SleepAccepts(w) then Run(SleepRejected(w), [], 1)
      else
        var rest := RunFrom(v, i + 1, counter - 1);
        Run(rest.outcome, [w] + rest.waits, rest.attempts + 1)
  }

  /** How a run ends, judged by its last verdict and the number of waits before it. */
  predicate EndsWith(o: Outcome, last: Verdict, waited: nat, counter: int) {
    match o
    case Received(b, lines) => last == Deliver(b, lines)
    case Failed(h) => last == Refuse(h, None)
    case OverQuota(h) => AsksWait(last) && last.headers == h && waited == if counter > 0 then counter else 0
    case SleepRejected(w) =>
      AsksWait(last) && last.wait == Some(w) && !SleepAccepts(w) && waited < if counter > 0 then counter else 0
  }

  /** The waits of the k throttled attempts starting at number i. */
  function Waits(v: nat -> Verdict, i: nat, k: nat): (ws: seq<string>)
    requires forall j :: i <= j < i + k ==> Throttle(v(j))
    ensures |ws| == k
    decreases k
  {
    if k == 0 then []
    else
      assert Throttle(v(i));
      [v(i).wait.value] + Waits(v, i + 1, k - 1)
  }

  /**
   * Every attempt before the last was throttled, and the waits are their
   * Retry-After values, in order.
   */
  lemma {:induction false} RunWaits(v: nat -> Verdict, i: nat, counter: int)
    ensures var r := RunFrom(v, i, counter);
      && (forall j :: i <= j < i + |r.waits| ==> Throttle(v(j)))
      && r.waits == Waits(v, i, |r.waits|)
    decreases if counter > 0 then counter else 0
  {
    var r := RunFrom(v, i, counter);
    if Throttle(v(i)) && counter > 0 {
      RunWaits(v, i + 1, counter - 1);
      RunStep(v, i, counter);
      WaitsStep(v, i, |r.waits|);
    }
  }

  /** The same on the attempts: each wait is a throttled attempt's Retry-After value. */
  lemma WaitsOfAttempts(t: nat -> Attempt, limit: int)
    ensures var r := RunFrom(Verdicts(t), 0, limit);
      forall n :: 0 <= n < |r.waits| ==>
        Throttled(t(n)) && r.waits[n] == RetryAfter(HeadersOf(t(n).responseLines)).value
  {
    var v := Verdicts(t);
    var r := RunFrom(v, 0, limit);
    RunWaits(v, 0, limit);
    forall n | 0 <= n < |r.waits|
      ensures Throttled(t(n)) && r.waits[n] == RetryAfter(HeadersOf(t(n).responseLines)).value
    {
      WaitsAt(v, 0, |r.waits|, n);
      ThrottledVerdict(t(n));
    }
  }

  /** The attempt after the waits decides the outcome. */
  lemma {:induction false} RunEnd(v: nat -> Verdict, i: nat, counter: int)
    ensures var r := RunFrom(v, i, counter);
      EndsWith(r.outcome, v(i + |r.waits|), |r.waits|, counter)
    decreases if counter > 0 then counter else 0
  {
    if Throttle(v(i)) && counter > 0 {
      RunEnd(v, i + 1, counter - 1);
      RunStep(v, i, counter);
      assert i + |RunFrom(v, i, counter).waits| == (i + 1) + |RunFrom(v, i + 1, counter - 1).waits|;
    }
  }

  /**
   * k throttled attempts in a row, within the budget, are k waits and k
   * attempts, after which the loop goes on with the counter k lower.
   */
  lemma {:induction false} ThrottledPrefix(v: nat -> Verdict, i: nat, counter: int, k: nat)
    requires k <= (if counter > 0 then counter else 0)
    requires forall j :: i <= j < i + k ==> Throttle(v(j))
    ensures var rest := RunFrom(v, i + k, counter - k);
      RunFrom(v, i, counter) == Run(rest.outcome, Waits(v, i, k) + rest.waits, k + rest.attempts)
    decreases k
  {
    if k == 0 {
      assert [] + RunFrom(v, i, counter).waits == RunFrom(v, i, counter).waits;
    } else {
      ThrottledPrefix(v, i + 1, counter - 1, k - 1);
      RunStep(v, i, counter);
      WaitsStep(v, i, k);
      var rest := RunFrom(v, i + k, counter - k);
      Associative([v(i).wait.value], Waits(v, i + 1, k - 1), rest.waits);
    }
  }

  /** A throttled attempt with budget left is one wait, then the loop from the next attempt. */
  lemma RunStep(v: nat -> Verdict, i: nat, counter: int)
    requires Throttle(v(i)) && counter > 0
    ensures var next := RunFrom(v, i + 1, counter - 1);
      RunFrom(v, i, counter) == Run(next.outcome, [v(i).wait.value] + next.waits, next.attempts + 1)
  {
  }

  lemma WaitsStep(v: nat -> Verdict, i: nat, k: nat)
    requires k > 0 && forall j :: i <= j < i + k ==> Throttle(v(j))
    ensures Throttle(v(i)) && Waits(v, i, k) == [v(i).wait.value] + Waits(v, i + 1, k - 1)
  {
    assert Throttle(v(i));
  }

  /** The n-th wait is the Retry-After value of attempt i + n. */
  lemma {:induction false} WaitsAt(v: nat -> Verdict, i: nat, k: nat, n: nat)
    requires n < k && forall j :: i <= j < i + k ==> Throttle(v(j))
    ensures Throttle(v(i + n)) && Waits(v, i, k)[n] == v(i + n).wait.value
    decreases k
  {
    WaitsStep(v, i, k);
    if n > 0 {
      WaitsAt(v, i + 1, k - 1, n - 1);
      assert (i + 1) + (n - 1) == i + n;
    }
  }

  lemma Associative<T>(a: seq<T>, b: seq<T>, c: seq<T>)
    ensures a + (b + c) == (a + b) + c
  {
  }

  /**
   * With retry limit N, N throttled attempts and then one more asking for a
   * wait, the loop gives up with QUOTA_EXCEEDED on attempt N + 1 after
   * exactly N waits (none for N <= 0).
   */
  lemma QuotaAfterExactlyLimit(v: nat -> Verdict, limit: int)
    requires forall j :: 0 <= j < (if limit > 0 then limit else 0) ==> Throttle(v(j))
    requires AsksWait(v(if limit > 0 then limit else 0))
    ensures var n: nat := if limit > 0 then limit else 0;
      var r := RunFrom(v, 0, limit);
      && r.outcome == OverQuota(v(n).headers)
      && r.attempts == n + 1
      && r.waits == Waits(v, 0, n)
  {
    var n: nat := if limit > 0 then limit else 0;
    ThrottledPrefix(v, 0, limit, n);
  }

  /**
   * The loop ends in QUOTA_EXCEEDED exactly when the first N attempts are
   * throttled and attempt N + 1 asks for a wait too (for N <= 0: when the
   * first attempt asks for one).
   */
  lemma QuotaIff(v: nat -> Verdict, limit: int)
    ensures var n: nat := if limit > 0 then limit else 0;
      RunFrom(v, 0, limit).outcome.OverQuota? <==> (forall j :: 0 <= j < n ==> Throttle(v(j))) && AsksWait(v(n))
  {
    var n: nat := if limit > 0 then limit else 0;
    var r := RunFrom(v, 0, limit);
    if r.outcome.OverQuota? {
      RunWaits(v, 0, limit);
      RunEnd(v, 0, limit);
      assert |r.waits| == n;
    } else if (forall j :: 0 <= j < n ==> Throttle(v(j))) && AsksWait(v(n)) {
      QuotaAfterExactlyLimit(v, limit);
    }
  }

  /** The same on the attempts, with the headers QUOTA_EXCEEDED carries. */
  lemma QuotaOfAttempts(t: nat -> Attempt, limit: int)
    ensures var r := RunFrom(Verdicts(t), 0, limit);
      var n: nat := if limit > 0 then limit else 0;
      && (r.outcome.OverQuota? <==> (forall j :: 0 <= j < n ==> Throttled(t(j))) && AsksForWait(t(n)))
      && (r.outcome.OverQuota? ==>
            r.outcome.headers == HeadersOf(t(n).responseLines) && |r.waits| == n && r.attempts == n + 1)
  {
    var v := Verdicts(t);
    var n: nat := if limit > 0 then limit else 0;
    ThrottledVerdicts(t);
    QuotaIff(v, limit);
    if (forall j :: 0 <= j < n ==> Throttled(t(j))) && AsksForWait(t(n)) {
      QuotaAfterExactlyLimit(v, limit);
    }
  }

  /**
   * The attempt after the waits decides how the loop ends: the body it
   * delivers; REQUEST_FAILED with its headers when it asks for no wait;
   * otherwise QUOTA_EXCEEDED with its headers when the budget is spent,
   * and sleep's error for its Retry-After value when it is not.
   */
  lemma LastAttemptDecides(t: nat -> Attempt, limit: int)
    ensures var r := RunFrom(Verdicts(t), 0, limit);
      var last := t(|r.waits|);
      var n: nat := if limit > 0 then limit else 0;
      && (r.outcome.Received? <==> Delivered(last))
      && (r.outcome.Received? ==> r.outcome == Received(last.body.value, last.responseLines))
      && (r.outcome.Failed? <==> !Delivered(last) && !AsksForWait(last))
      && (r.outcome.OverQuota? <==> AsksForWait(last) && |r.waits| == n)
      && (r.outcome.SleepRejected? <==> AsksForWait(last) && |r.waits| < n)
      && (r.outcome.SleepRejected? ==>
            r.outcome.wait == RetryAfter(HeadersOf(last.responseLines)).value && !SleepAccepts(r.outcome.wait))
      && (r.outcome.Failed? || r.outcome.OverQuota? ==> r.outcome.headers == HeadersOf(last.responseLines))
  {
    var v := Verdicts(t);
    var r := RunFrom(v, 0, limit);
    RunEnd(v, 0, limit);
    assert v(|r.waits|) == Classify(t(|r.waits|));
    ThrottledVerdict(t(|r.waits|));
  }

  /**
   * A wait sleep() rejects, asked for by attempt k + 1 after k throttled
   * attempts with budget left, ends the loop with sleep's error: k waits
   * and k + 1 attempts.
   */
  lemma SleepRejectedAfterThrottles(v: nat -> Verdict, limit: int, k: nat)
    requires k < (if limit > 0 then limit else 0)
    requires forall j :: 0 <= j < k ==> Throttle(v(j))
    requires AsksWait(v(k)) && !SleepAccepts(v(k).wait.value)
    ensures RunFrom(v, 0, limit) == Run(SleepRejected(v(k).wait.value), Waits(v, 0, k), k + 1)
  {
    ThrottledPrefix(v, 0, limit, k);
  }

  /** The same on the attempts. */
  lemma SleepRejectedOfAttempts(t: nat -> Attempt, limit: int, k: nat)
    requires k < (if limit > 0 then limit else 0)
    requires forall j :: 0 <= j < k ==> Throttled(t(j))
    requires AsksForWait(t(k)) && !SleepAccepts(RetryAfter(HeadersOf(t(k).responseLines)).value)
    ensures var r := RunFrom(Verdicts(t), 0, limit);
      r.outcome == SleepRejected(RetryAfter(HeadersOf(t(k).responseLines)).value) && |r.waits| == k && r.attempts == k + 1
  {
    var v := Verdicts(t);
    ThrottledVerdicts(t);
    SleepRejectedAfterThrottles(v, limit, k);
  }

  /**
   * If attempt k + 1 (number k) delivers a body after k throttled attempts,
   * with k within the limit, the loop returns that body and those k waits.
   */
  lemma DeliveredAfterThrottles(v: nat -> Verdict, limit: int, k: nat)
    requires k <= (if limit > 0 then limit else 0)
    requires forall j :: 0 <= j < k ==> Throttle(v(j))
    requires v(k).Deliver?
    ensures RunFrom(v, 0, limit) == Run(Received(v(k).body, v(k).lines), Waits(v, 0, k), k + 1)
  {
    ThrottledPrefix(v, 0, limit, k);
  }

  /** The same on the attempts: the body delivered, after the k throttled attempts' Retry-After values. */
  lemma DeliveredAfterThrottledAttempts(t: nat -> Attempt, limit: int, k: nat)
    requires k <= (if limit > 0 then limit else 0)
    requires forall j :: 0 <= j < k ==> Throttled(t(j))
    requires Delivered(t(k))
    ensures var r := RunFrom(Verdicts(t), 0, limit);
      && r.outcome == Received(t(k).body.value, t(k).responseLines) && |r.waits| == k && r.attempts == k + 1
      && forall n :: 0 <= n < k ==> Throttled(t(n)) && r.waits[n] == RetryAfter(HeadersOf(t(n).responseLines)).value
  {
    var v := Verdicts(t);
    ThrottledVerdicts(t);
    DeliveredAfterThrottles(v, limit, k);
    WaitsOfAttempts(t, limit);
  }

  /**
   * A failed attempt without a usable Retry-After, after k throttled ones
   * within the limit, is rethrown at once: no wait for it, no further attempt.
   */
  lemma FailureWithoutRetryAfter(v: nat -> Verdict, limit: int, k: nat)
    requires k <= (if limit > 0 then limit else 0)
    requires forall j :: 0 <= j < k ==> Throttle(v(j))
    requires v(k).Refuse? && v(k).wait.None?
    ensures RunFrom(v, 0, limit) == Run(Failed(v(k).headers), Waits(v, 0, k), k + 1)
  {
    ThrottledPrefix(v, 0, limit, k);
  }

  lemma RetryAfterIsPlain()
    ensures ':' !in "Retry-After" && Trim("Retry-After") == "Retry-After"
    ensures IntegerKey("Retry-After").None?
  {
    NoLetterNoIntegerKey("Retry-After", 0);
    TrimOfTrimmed("Retry-After");
  }

  /** A response whose one header line is `Retry-After: v` asks for a wait of v, unless v is "" or "0". */
  lemma RetryAfterLine(v: string)
    requires Trim(v) == v
    ensures RetryAfter(HeadersOf([HeaderLine(("Retry-After", v))])) == if v != "" && v != "0" then Some(v) else None
  {
    RetryAfterHeaders(v);
    RetryAfterSingle("Retry-After", v);
  }

  lemma RetryAfterHeaders(v: string)
    requires Trim(v) == v
    ensures HeadersOf([HeaderLine(("Retry-After", v))]) == [(Str("Retry-After"), v)]
  {
    RetryAfterIsPlain();
    SingleNamed("Retry-After", v);
  }

  /** A status line and a Retry-After header: the wait asked for is the header's value, unless "" or "0". */
  lemma StatusAndRetryAfter(status: string, v: string)
    requires ':' !in status && Trim(v) == v
    ensures RetryAfter(HeadersOf([status, HeaderLine(("Retry-After", v))]))
         == if v != "" && v != "0" then Some(v) else None
  {
    RetryAfterIsPlain();
    StatusThenNamed(status, "Retry-After", v);
    var h := [(Idx(0), status), (Str("Retry-After"), v)];
    assert h[1..] == [(Str("Retry-After"), v)];
    RetryAfterSingle("Retry-After", v);
    assert Lookup(h, Str("Retry-After")) == Lookup(h[1..], Str("Retry-After"));
  }

  /** A response asking for a one-second wait, as a throttling server sends it, whatever its status line. */
  lemma OneSecondWait(status: string)
    requires ':' !in status
    ensures var lines := [status, HeaderLine(("Retry-After", "1"))];
      Throttled(Attempt(None, lines)) && RetryAfter(HeadersOf(lines)) == Some("1")
  {
    var lines := [status, HeaderLine(("Retry-After", "1"))];
    TrimOfTrimmed("1");
    StatusAndRetryAfter(status, "1");
    var w := RetryAfter(HeadersOf(lines));
    assert w == Some("1");
    OneAccepted();
    assert SleepAccepts(w.value);
  }

  lemma OneAccepted()
    ensures SleepAccepts("1")
  {
    assert "1"[..0] == [];
    assert DigitsValue("1") == 1;
  }

  /** Three one-second throttles, then a body: three waits of "1", four attempts, that body. */
  lemma ThreeWaitsThenDeliver(t: nat -> Attempt, limit: int, status: string, b: string, lines: seq<string>)
    requires limit >= 3 && ':' !in status
    requires forall j: nat :: j < 3 ==> t(j) == Attempt(None, [status, HeaderLine(("Retry-After", "1"))])
    requires t(3) == Attempt(Some(b), lines) && b != "" && b != "0"
    ensures RunFrom(Verdicts(t), 0, limit) == Run(Received(b, lines), ["1", "1", "1"], 4)
  {
    var v := Verdicts(t);
    OneSecondVerdicts(t, status);
    assert v(3) == Deliver(b, lines);
    DeliveredAfterThrottles(v, limit, 3);
    OneSecondEach(v);
  }

  lemma OneSecondVerdicts(t: nat -> Attempt, status: string)
    requires ':' !in status
    requires forall j: nat :: j < 3 ==> t(j) == Attempt(None, [status, HeaderLine(("Retry-After", "1"))])
    ensures forall j :: 0 <= j < 3 ==> Throttle(Verdicts(t)(j)) && Verdicts(t)(j).wait == Some("1")
  {
    var a := Attempt(None, [status, HeaderLine(("Retry-After", "1"))]);
    OneSecondWait(status);
    ThrottledVerdict(a);
  }

  lemma OneSecondEach(v: nat -> Verdict)
    requires forall j :: 0 <= j < 3 ==> Throttle(v(j)) && v(j).wait == Some("1")
    ensures Waits(v, 0, 3) == ["1", "1", "1"]
  {
    WaitsAt(v, 0, 3, 0);
    WaitsAt(v, 0, 3, 1);
    WaitsAt(v, 0, 3, 2);
    ThreeOf(Waits(v, 0, 3), "1");
  }

  lemma ThreeOf<T>(s: seq<T>, x: T)
    requires |s| == 3 && s[0] == x && s[1] == x && s[2] == x
    ensures s == [x, x, x]
  {
  }

  /** `Retry-After: 0` is empty() in PHP: no wait, the failure is rethrown. */
  lemma ZeroRetryAfterIgnored()
    ensures RetryAfter(HeadersOf([HeaderLine(("Retry-After", "0"))])) == None
  {
    TrimOfTrimmed("0");
    RetryAfterLine("0");
  }

  lemma LowerCaseIsPlain()
    ensures ':' !in "retry-after" && Trim("retry-after") == "retry-after"
    ensures IntegerKey("retry-after").None?
    ensures Str("retry-after") != Str("Retry-After")
  {
    NoLetterNoIntegerKey("retry-after", 0);
    TrimOfTrimmed("retry-after");
    assert "retry-after"[0] != "Retry-After"[0];
  }

  /** The key is looked up with its exact case: a lower-case retry-after header asks for no wait. */
  lemma LowerCaseRetryAfterIgnored(v: string)
    requires Trim(v) == v
    ensures RetryAfter(HeadersOf([HeaderLine(("retry-after", v))])) == None
  {
    LowerCaseHeaders(v);
    LowerCaseIsPlain();
    RetryAfterSingle("retry-after", v);
  }

  lemma LowerCaseHeaders(v: string)
    requires Trim(v) == v
    ensures HeadersOf([HeaderLine(("retry-after", v))]) == [(Str("retry-after"), v)]
  {
    LowerCaseIsPlain();
    SingleNamed("retry-after", v);
  }

  lemma RetryAfterSingle(k: string, v: string)
    ensures RetryAfter([(Str(k), v)]) == if k == "Retry-After" && v != "" && v != "0" then Some(v) else None
  {
    var h := [(Str(k), v)];
    assert h[0].0 == Str(k) && h[1..] == [];
    assert Lookup(h[1..], Str("Retry-After")) == None;
    assert Lookup(h, Str("Retry-After")) == if k == "Retry-After" then Some(v) else None;
  }

  // ---- the REQUEST_FAILED message as written ----

  /** An HttpException message: the var_export text of a header array, or "" (from null). */
  datatype Message = NoMessage | Exported(headers: HeaderArray)

  /**
   * `var_export($h, $return)`: the message it makes and what it prints. With
   * $return the export is the call's value and nothing is printed; without
   * it the export is printed and the call gives null, which becomes "".
   */
  function VarExport(h: HeaderArray, ret: bool): (Message, seq<HeaderArray>)
  {
    if ret then (Exported(h), []) else (NoMessage, [h])
  }

  /** The closure's REQUEST_FAILED as written: `var_export($lastRequestHeaders)` without `true`. */
  function ThrownAsWritten(a: Attempt): (Message, seq<HeaderArray>)
    requires !Delivered(a)
  {
    VarExport(HeadersOf(a.responseLines), false)
  }

  /** The closure's REQUEST_FAILED as intended, exported with `true` as QUOTA_EXCEEDED is. */
  function Thrown(a: Attempt): (Message, seq<HeaderArray>)
    requires !Delivered(a)
  {
    VarExport(HeadersOf(a.responseLines), true)
  }

  /**
   * As written, a failed attempt's exception has an empty message and its
   * headers are printed instead.
   */
  lemma MessageLostAsWritten(a: Attempt)
    requires !Delivered(a)
    ensures ThrownAsWritten(a) == (NoMessage, [Classify(a).headers])
  {
  }

  /** As intended, the message holds exactly the headers the loop judges by, and nothing is printed. */
  lemma MessageExported(a: Attempt)
    requires !Delivered(a)
    ensures Thrown(a) == (Exported(Classify(a).headers), [])
  {
  }

  /**
   * What a run prints as written: every failed attempt's export, in order,
   * the retried ones included.
   */
  function EchoedAsWritten(v: nat -> Verdict, i: nat, counter: int): seq<HeaderArray>
    decreases if counter > 0 then counter else 0
  {
    match v(i)
    case Deliver(_, _) => []
    case Refuse(h, None) => [h]
    case Refuse(h, Some(w)) =>
      if counter <= 0 || !SleepAccepts(w) then [h] else [h] + EchoedAsWritten(v, i + 1, counter - 1)
  }

  /**
   * One export per attempt that did not deliver: all of a run's attempts
   * but a delivering last one, each the headers of its own attempt.
   */
  lemma {:induction false} EchoesEveryFailure(v: nat -> Verdict, i: nat, counter: int)
    ensures var r := RunFrom(v, i, counter);
      var e := EchoedAsWritten(v, i, counter);
      && |e| == (if r.outcome.Received? then r.attempts - 1 else r.attempts)
      && forall j :: i <= j < i + |e| ==> v(j).Refuse? && e[j - i] == v(j).headers
    decreases if counter > 0 then counter else 0
  {
    if Throttle(v(i)) && counter > 0 {
      EchoesEveryFailure(v, i + 1, counter - 1);
      RunStep(v, i, counter);
      var e, rest := EchoedAsWritten(v, i, counter), EchoedAsWritten(v, i + 1, counter - 1);
      assert e == [v(i).headers] + rest;
      forall j | i < j < i + |e| ensures v(j).Refuse? && e[j - i] == v(j).headers {
        assert e[j - i] == rest[j - (i + 1)];
      }
    } else {
      EchoesAtEnd(v, i, counter);
    }
  }

  /** An attempt that is not retried is echoed unless it delivers. */
  lemma EchoesAtEnd(v: nat -> Verdict, i: nat, counter: int)
    requires !(Throttle(v(i)) && counter > 0)
    ensures var r := RunFrom(v, i, counter);
      var e := EchoedAsWritten(v, i, counter);
      && |e| == (if r.outcome.Received? then r.attempts - 1 else r.attempts)
      && forall j :: i <= j < i + |e| ==> v(j).Refuse? && e[j - i] == v(j).headers
  {
    var r, e := RunFrom(v, i, counter), EchoedAsWritten(v, i, counter);
    if v(i).Deliver? {
      assert e == [] && r.outcome.Received?;
    } else {
      assert e == [v(i).headers] && r.attempts == 1 && !r.outcome.Received?;
    }
  }

  /**
   * One call of the $doRequest closure and the catch block's test: a truthy
   * body is returned; otherwise the response headers are parsed and their
   * Retry-After value, if usable, is the wait.
   */
  method Judge(a: Attempt) returns (verdict: Verdict)
    ensures verdict == Classify(a)
  {
    if Delivered(a) {
      return Deliver(a.body.value, a.responseLines);
    }
    var lastRequestHeaders := ParseHeaders(a.responseLines);
    verdict := Refuse(lastRequestHeaders, RetryAfter(lastRequestHeaders));
  }

  /** The loop's invariant: the run so far, then the run from attempt number `attempts` on. */
  predicate Pending(v: nat -> Verdict, limit: int, waits: seq<string>, attempts: nat, counter: int) {
    var rest := RunFrom(v, attempts, counter);
    RunFrom(v, 0, limit) == Run(rest.outcome, waits + rest.waits, attempts + rest.attempts)
  }

  /** One more wait keeps the invariant. */
  lemma LoopStep(v: nat -> Verdict, limit: int, waits: seq<string>, attempts: nat, counter: int)
    requires Pending(v, limit, waits, attempts, counter)
    requires Throttle(v(attempts)) && counter > 0
    ensures Pending(v, limit, waits + [v(attempts).wait.value], attempts + 1, counter - 1)
  {
    var next := RunFrom(v, attempts + 1, counter - 1);
    RunStep(v, attempts, counter);
    Associative(waits, [v(attempts).wait.value], next.waits);
  }

  /** The attempt that is not retried ends the run, one attempt later. */
  lemma LoopEnd(v: nat -> Verdict, limit: int, waits: seq<string>, attempts: nat, counter: int)
    requires Pending(v, limit, waits, attempts, counter)
    requires !(Throttle(v(attempts)) && counter > 0)
    ensures v(attempts).Deliver? ==>
      RunFrom(v, 0, limit) == Run(Received(v(attempts).body, v(attempts).lines), waits, attempts + 1)
    ensures v(attempts).Refuse? && v(attempts).wait.None? ==>
      RunFrom(v, 0, limit) == Run(Failed(v(attempts).headers), waits, attempts + 1)
    ensures AsksWait(v(attempts)) && counter <= 0 ==>
      RunFrom(v, 0, limit) == Run(OverQuota(v(attempts).headers), waits, attempts + 1)
    ensures AsksWait(v(attempts)) && counter > 0 ==>
      RunFrom(v, 0, limit) == Run(SleepRejected(v(attempts).wait.value), waits, attempts + 1)
  {
    assert RunFrom(v, attempts, counter).waits == [];
    assert waits + [] == waits;
  }

  /**
   * The retry loop: attempt, and on a failure asking for a wait either give
   * up when the counter is exhausted or sleep for Retry-After and retry with
   * the counter one lower, unless sleep rejects the value and throws; any
   * other failure is rethrown.
   */
  method RetryLoop(t: nat -> Attempt, retryLimit: int) returns (outcome: Outcome, waits: seq<string>, attempts: nat)
    ensures Run(outcome, waits, attempts) == RunFrom(Verdicts(t), 0, retryLimit)
    ensures retryLimit >= 0 ==> |waits| <= retryLimit
  {
    outcome, waits, attempts := RetryLoopOn(t, Verdicts(t), retryLimit);
  }

  /**
   * The same loop, with the verdicts of the attempts named v: v(j) is what
   * judging attempt j gives, which the loop learns one attempt at a time.
   */
  method RetryLoopOn(t: nat -> Attempt, ghost v: nat -> Verdict, retryLimit: int)
    returns (outcome: Outcome, waits: seq<string>, attempts: nat)
    requires forall j: nat {:trigger Classify(t(j))} :: v(j) == Classify(t(j))
    ensures Run(outcome, waits, attempts) == RunFrom(v, 0, retryLimit)
    ensures retryLimit >= 0 ==> |waits| <= retryLimit
  {
    var counter := retryLimit;
    waits, attempts := [], 0;
    while true
      invariant attempts == |waits| && counter == retryLimit - |waits|
      invariant retryLimit >= 0 ==> counter >= 0
      invariant Pending(v, retryLimit, waits, attempts, counter)
      decreases if counter > 0 then counter else 0
    {
      var verdict := Judge(t(attempts));
      assert v(attempts) == verdict;
      if !(Throttle(verdict) && counter > 0) {
        LoopEnd(v, retryLimit, waits, attempts, counter);
      }
      if verdict.Deliver? {
        outcome := Received(verdict.body, verdict.lines);
        attempts := attempts + 1;
        return;
      }
      if verdict.wait.None? {
        outcome := Failed(verdict.headers);
        attempts := attempts + 1;
        return;
      }
      if counter <= 0 {
        outcome := OverQuota(verdict.headers);
        attempts := attempts + 1;
        return;
      }
      if !SleepAccepts(verdict.wait.value) {
        outcome := SleepRejected(verdict.wait.value);
        attempts := attempts + 1;
        return;
      }
      LoopStep(v, retryLimit, waits, attempts, counter);
      waits := waits + [verdict.wait.value];
      attempts := attempts + 1;
      counter := counter - 1;
    }
  }
}
