/** Retrying a request: each try gets an equal share of the time that is
    left, and a `basic_try` decides after a failure whether another try
    follows, closing the failed connection and telling the `on_retry`
    callback on the way. */
module Retries {
  import opened Wrappers
  import opened Errors
  import opened Deadlines
  import opened Arith

  /** C++ integer division truncates toward zero. */
  function TruncDiv(a: int, n: int): (q: int)
    requires n > 0
    ensures a >= 0 ==> 0 <= q <= a
    ensures a < 0 ==> a <= q <= 0
  {
    if a >= 0 then DivAtMost(a, n); a / n else DivAtMost(-a, n); -((-a) / n)
  }

  lemma DivAtMost(m: int, n: int)
    requires m >= 0 && n > 0
    ensures 0 <= m / n <= m
  {
    var q, r := m / n, m % n;
    assert m == n * q + r;
    MulLe(1, n, q);
  }

  /** Truncation rounds toward zero: the quotient times n lies between zero
      and a, less than n away from a. */
  lemma TruncDivBounds(a: int, n: int)
    requires n > 0
    ensures var q := TruncDiv(a, n);
      (a >= 0 ==> q * n <= a < q * n + n) && (a < 0 ==> q * n - n < a <= q * n)
  {
    var m := if a >= 0 then a else -a;
    var q, r := m / n, m % n;
    assert m == q * n + r;
    assert (-q) * n == -(q * n);
  }

  /** Unlike floor division, truncation is symmetric about zero. */
  lemma TruncDivOdd(a: int, n: int)
    requires n > 0
    ensures TruncDiv(-a, n) == -TruncDiv(a, n)
  {
  }

  /** `get_try_time_constraint(constraint, n)` at clock reading `now`: no
      constraint stays none; a duration or the time left before a deadline
      is split evenly over the n tries, and is zero when there are no tries. */
  function GetTryTimeConstraint(c: TimeConstraint, n: int, now: TimePoint): (r: TimeConstraint)
    ensures r.NoConstraint? <==> c.NoConstraint?
    ensures !c.NoConstraint? ==> r.Within?
    ensures !c.NoConstraint? && n <= 0 ==> r == Within(0)
    ensures c.Within? && n > 0 ==> r == Within(TruncDiv(c.d, n))
    ensures c.Until? && n > 0 ==> r == Within(TimeLeft(c.tp, now) / n)
  {
    match c
    case NoConstraint => NoConstraint
    case Within(d) => if n > 0 then Within(TruncDiv(d, n)) else Within(0)
    case Until(tp) => if n > 0 then Within(TimeLeft(tp, now) / n) else Within(0)
  }

  /** The n shares of a deadline's time left fit in it, and less than one
      more tick per try is lost to rounding. */
  lemma SharesFitTheDeadline(deadline: TimePoint, now: TimePoint, n: int)
    requires n > 0
    ensures var share := GetTryTimeConstraint(Until(deadline), n, now).d;
      0 <= share && share * n <= TimeLeft(deadline, now) < (share + 1) * n
  {
    var left := TimeLeft(deadline, now);
    assert left / n == TruncDiv(left, n);
  }

  /** If a try ends within its share of the time left, the next try's share
      of what then remains is at least as large: keeping to the budget never
      shrinks the budget of the tries that follow. */
  lemma {:induction false} ShareNeverShrinks(deadline: TimePoint, start: TimePoint, end: TimePoint, n: int)
    requires n > 1 && start <= end
    requires end - start <= GetTryTimeConstraint(Until(deadline), n, start).d
    ensures GetTryTimeConstraint(Until(deadline), n - 1, end).d >= GetTryTimeConstraint(Until(deadline), n, start).d
  {
    var left := TimeLeft(deadline, start);
    var share := left / n;
    SharesFitTheDeadline(deadline, start, n);
    var rest := TimeLeft(deadline, end);
    assert rest >= left - (end - start);
    assert rest >= (n - 1) * share by {
      assert left - share >= n * share - share;
    }
    DivLowerBound(rest, n - 1, share);
  }

  lemma DivLowerBound(x: int, m: int, b: int)
    requires m > 0 && b >= 0 && x >= m * b
    ensures x / m >= b
  {
    var q, r := x / m, x % m;
    assert x == m * q + r;
    if q < b {
      MulLe(q + 1, b, m);
    }
  }

  /** A retry condition: an error condition, which takes every code that
      belongs to it, or one particular code. */
  datatype RetryCondition = OnCondition(c: Condition) | OnCode(e: ErrorCode)

  predicate ConditionMatches(rc: RetryCondition, ec: ErrorCode)
  {
    match rc
    case OnCondition(c) => Matches(c, ec)
    case OnCode(e) => e == ec
  }

  /** Some condition of the list takes the error. */
  predicate AnyMatches(conditions: seq<RetryCondition>, ec: ErrorCode)
  {
    exists i :: 0 <= i < |conditions| && ConditionMatches(conditions[i], ec)
  }

  /** Whether a try with `tries` tries left retries after `ec`: there must
      be a try beyond this one, and the error must be one of the conditions,
      any error at all (even success) when no condition is given. */
  predicate WillRetry(tries: int, conditions: seq<RetryCondition>, ec: ErrorCode): (r: bool)
    ensures r ==> tries > 1
    ensures r && conditions != [] ==> exists i :: 0 <= i < |conditions| && ConditionMatches(conditions[i], ec)
    ensures tries > 1 && conditions == [] ==> r
  {
    tries > 1 && (conditions == [] || AnyMatches(conditions, ec))
  }

  /** A connection; closing it is counted. */
  class Connection {
    var closeCount: nat

    constructor ()
      ensures closeCount == 0
    {
      closeCount := 0;
    }
  }

  /** The context of a try: the connection provider, the time constraint and
      any further arguments, handed on unchanged. */
  datatype BasicContext<P, A> = BasicContext(provider: P, timeConstraint: TimeConstraint, args: seq<A>)

  /** A call of the `on_retry` callback, with what it was given. */
  datatype OnRetryCall = OnRetryCall(ec: ErrorCode, conn: Connection?)

  class BasicTry<P, A> {
    const tries: int
    const conditions: seq<RetryCondition>
    /** The `close_connection` option; true when omitted. */
    const closeConnection: bool
    /** Whether an `on_retry` callback is given. */
    const hasOnRetry: bool
    const context: BasicContext<P, A>

    constructor (tries: int, conditions: seq<RetryCondition>, closeConnection: bool, hasOnRetry: bool, context: BasicContext<P, A>)
      ensures this.tries == tries && this.conditions == conditions
      ensures this.closeConnection == closeConnection && this.hasOnRetry == hasOnRetry
      ensures this.context == context
    {
      this.tries := tries;
      this.conditions := conditions;
      this.closeConnection := closeConnection;
      this.hasOnRetry := hasOnRetry;
      this.context := context;
    }

    /** `get_context` at clock reading `now`: the provider and the further
        arguments as given, and this try's share of the time constraint. */
    function GetContext(now: TimePoint): (c: BasicContext<P, A>)
      reads this
      ensures c.provider == context.provider && c.args == context.args
      ensures c.timeConstraint == GetTryTimeConstraint(context.timeConstraint, tries, now)
    {
      BasicContext(context.provider, GetTryTimeConstraint(context.timeConstraint, tries, now), context.args)
    }

    /** `get_next_try`: after an error, a next try with one try fewer when
        `WillRetry` holds, and none otherwise. The connection is closed on
        both paths unless the option says not to, and a null connection is
        never closed; `on_retry` is called, with the error and the
        connection, only when there is a next try. */
    method GetNextTry(ec: ErrorCode, conn: Connection?) returns (next: BasicTry?<P, A>, onRetry: Option<OnRetryCall>)
      modifies conn
      ensures next != null <==> WillRetry(tries, conditions, ec)
      ensures next != null ==> (fresh(next) && next.tries == tries - 1 &&
        next.conditions == conditions && next.closeConnection == closeConnection &&
        next.hasOnRetry == hasOnRetry && next.context == context)
      ensures onRetry == if next != null && hasOnRetry then Some(OnRetryCall(ec, conn)) else None
      ensures conn != null ==> conn.closeCount == old(conn.closeCount) + if closeConnection then 1 else 0
    {
      if closeConnection && conn != null {
        conn.closeCount := conn.closeCount + 1;
      }
      next, onRetry := null, None;
      if WillRetry(tries, conditions, ec) {
        next := new BasicTry(tries - 1, conditions, closeConnection, hasOnRetry, context);
        if hasOnRetry {
          onRetry := Some(OnRetryCall(ec, conn));
        }
      }
    }
  }

  /** How many retries a chain of tries makes when its tries fail with the
      given errors one after another. */
  function RetriesMade(tries: int, conditions: seq<RetryCondition>, errors: seq<ErrorCode>): (k: nat)
    ensures k <= |errors|
  {
    if errors == [] || !WillRetry(tries, conditions, errors[0]) then 0
    else 1 + RetriesMade(tries - 1, conditions, errors[1..])
  }

  /** A chain started with n tries makes at most n - 1 retries, so at most
      n tries in all, whatever the errors. */
  lemma {:induction false} RetriesBounded(tries: int, conditions: seq<RetryCondition>, errors: seq<ErrorCode>)
    ensures RetriesMade(tries, conditions, errors) <= if tries > 1 then tries - 1 else 0
  {
    if errors != [] && WillRetry(tries, conditions, errors[0]) {
      RetriesBounded(tries - 1, conditions, errors[1..]);
    }
  }

  /** Without conditions every error is retried until the tries run out. */
  lemma {:induction false} UnconditionalRetriesUseAllTries(tries: int, errors: seq<ErrorCode>)
    requires tries >= 1 && |errors| >= tries - 1
    ensures RetriesMade(tries, [], errors) == tries - 1
  {
    if tries > 1 {
      UnconditionalRetriesUseAllTries(tries - 1, errors[1..]);
    }
  }

  /** The library's cases: an even split of three seconds over three tries,
      of a deadline three seconds away, and a zero share for no tries. */
  lemma PinnedShares(s: Duration)
    requires 0 < s && 3 * s <= MaxTick
    ensures GetTryTimeConstraint(NoConstraint, 1, 0) == NoConstraint
    ensures GetTryTimeConstraint(NoConstraint, -1, 0) == NoConstraint
    ensures GetTryTimeConstraint(Within(3 * s), 3, 0) == Within(s)
    ensures GetTryTimeConstraint(Within(3 * s), 0, 0) == Within(0)
    ensures GetTryTimeConstraint(Within(3 * s), -1, 0) == Within(0)
    ensures GetTryTimeConstraint(Until(3 * s), 3, 0) == Within(s)
    ensures GetTryTimeConstraint(Until(3 * s), 0, 0) == Within(0)
    ensures GetTryTimeConstraint(Until(3 * s), -1, 0) == Within(0)
  {
  }

  /** Two tries without conditions: the first retries, the second does not;
      each closes the connection; `on_retry` is told once, with the error
      and the connection. */
  method TwoTriesScenario(ec: ErrorCode) returns (first: bool, second: bool, closed: nat, told: Option<OnRetryCall>)
    ensures first && !second
    ensures closed == 2
    ensures told.Some? && told.value.ec == ec
  {
    var conn := new Connection();
    var t := new BasicTry<nat, nat>(2, [], true, true, BasicContext(0, NoConstraint, []));
    var next, call := t.GetNextTry(ec, conn);
    first := next != null;
    told := call;
    var last, _ := next.GetNextTry(ec, conn);
    second := last != null;
    closed := conn.closeCount;
  }

  /** With a condition, a code of that condition is retried and success is
      not; with no tries nothing is retried and `on_retry` is not told. */
  method ConditionScenario() returns (matching: bool, success: bool, noTries: bool, told: Option<OnRetryCall>)
    ensures matching && !success && !noTries && told.None?
  {
    var t := new BasicTry<nat, nat>(3, [OnCondition(ConnectionError)], true, false, BasicContext(0, NoConstraint, []));
    assert ConditionMatches(t.conditions[0], IoError);
    var a, _ := t.GetNextTry(IoError, null);
    matching := a != null;
    assert !AnyMatches(t.conditions, Success) by {
      SuccessMatchesNothing(ConnectionError);
    }
    var b, _ := t.GetNextTry(Success, null);
    success := b != null;
    var z := new BasicTry<nat, nat>(0, [], true, true, BasicContext(0, NoConstraint, []));
    var c, call := z.GetNextTry(IoError, null);
    noTries := c != null;
    told := call;
  }
}
