/**
 `waitForElement` (content.js): a promise that polls the page every 50 ms for an element and
 settles with the first one found, or rejects once the elapsed time reaches the timeout.
 */
module Polling {
  import opened Wrappers
  import opened Js

  /** The polling interval, in milliseconds. */
  const Interval: nat := 50

  /** The timeout when the caller gives none, in milliseconds. */
  const DefaultTimeout: int := 5000

  /** The state of a promise. */
  datatype Settled<T> = Pending | Resolved(element: T) | Rejected(message: string)

  /** Settling a promise: only the first `resolve` or `reject` has an effect. */
  function Settle<T>(p: Settled<T>, v: Settled<T>): (r: Settled<T>)
    ensures p.Pending? ==> r == v
    ensures !p.Pending? ==> r == p
  {
    if p.Pending? then v else p
  }

  /** The message of the rejection. */
  function TimeoutMessage(selector: string, timeout: int): string {
    "Element " + selector + " not found within " + NumberToString(timeout) + "ms"
  }

  /** How many times the page is queried before the timeout fires: the least `n >= 1` with
      `Interval * n >= timeout`, since the first query happens before any time is counted. */
  function Checks(timeout: int): (n: nat)
    ensures n >= 1 && Interval * n >= timeout
    ensures forall m :: 1 <= m < n ==> Interval * m < timeout
  {
    if timeout <= Interval then 1
    else
      var n := (timeout + Interval - 1) / Interval;
      assert Interval * n >= timeout;
      n
  }

  /** With the default timeout, the page is queried 100 times. */
  lemma DefaultTimeoutChecks()
    ensures Checks(DefaultTimeout) == 100
  {
    assert Interval * 100 >= DefaultTimeout;
    assert Interval * 99 < DefaultTimeout;
  }

  /** The index of the first of the first `n` queries that finds an element, where `probe(k)` is what
      `document.querySelector` returns on the query at time `Interval * (k + 1)`. */
  function FirstFound<T>(probe: nat -> Option<T>, n: nat): (r: Option<nat>)
    ensures r.Some? ==> r.value < n && probe(r.value).Some?
    ensures r.Some? ==> forall j :: 0 <= j < r.value ==> probe(j).None?
    ensures r.None? ==> forall j :: 0 <= j < n ==> probe(j).None?
  {
    if n == 0 then None
    else match FirstFound(probe, n - 1)
      case Some(k) => Some(k)
      case None => if probe(n - 1).Some? then Some(n - 1) else None
  }

  /** Once a query has found an element, later queries do not change the first one found. */
  lemma {:induction false} FirstFoundStable<T>(probe: nat -> Option<T>, m: nat, n: nat)
    requires m <= n && FirstFound(probe, m).Some?
    ensures FirstFound(probe, n) == FirstFound(probe, m)
    decreases n - m
  {
    if m < n {
      FirstFoundStable(probe, m, n - 1);
    }
  }

  /** How the promise settles: with the element of the first query that finds one among the
      `Checks(timeout)` queries, and with the timeout error when none does. */
  function WaitOutcome<T>(selector: string, probe: nat -> Option<T>, timeout: int): Settled<T> {
    match FirstFound(probe, Checks(timeout))
    case Some(k) => Resolved(probe(k).value)
    case None => Rejected(TimeoutMessage(selector, timeout))
  }

  /** The promise resolves with the element of the first successful query, among those made before
      the timeout, and rejects with the timeout message exactly when every one of them finds
      nothing. */
  lemma WaitOutcomeMeaning<T>(selector: string, probe: nat -> Option<T>, timeout: int)
    ensures var w := WaitOutcome(selector, probe, timeout);
      w.Resolved? <==> exists k :: 0 <= k < Checks(timeout) && probe(k).Some?
    ensures var w := WaitOutcome(selector, probe, timeout);
      w.Resolved? ==> exists k :: 0 <= k < Checks(timeout) && probe(k) == Some(w.element)
                         && forall j :: 0 <= j < k ==> probe(j).None?
    ensures var w := WaitOutcome(selector, probe, timeout);
      w.Rejected? ==> w.message == TimeoutMessage(selector, timeout)
  {
    var found := FirstFound(probe, Checks(timeout));
    if found.Some? {
      var k := found.value;
      assert 0 <= k < Checks(timeout) && probe(k) == Some(probe(k).value);
    }
  }

  /** `waitForElement`: each tick of the interval timer queries the page, resolves and stops the timer
      when an element is found, then counts another `Interval` milliseconds and rejects and stops the
      timer once the count reaches the timeout. `checks` is the number of ticks that ran. */
  method WaitForElement<T>(selector: string, probe: nat -> Option<T>, timeout: int)
    returns (outcome: Settled<T>, checks: nat)
    ensures outcome == WaitOutcome(selector, probe, timeout)
    ensures 1 <= checks <= Checks(timeout)
    ensures outcome.Resolved? ==> FirstFound(probe, Checks(timeout)) == Some(checks - 1)
    ensures outcome.Rejected? ==> checks == Checks(timeout)
  {
    outcome := Pending;
    var elapsed := 0;
    var running := true;
    checks := 0;
    while running
      invariant elapsed == Interval * checks
      invariant checks <= Checks(timeout)
      invariant running ==> outcome.Pending? && checks < Checks(timeout) && FirstFound(probe, checks).None?
      invariant !running ==> 1 <= checks && outcome == WaitOutcome(selector, probe, timeout)
      invariant !running && outcome.Resolved? ==> FirstFound(probe, Checks(timeout)) == Some(checks - 1)
      invariant !running && outcome.Rejected? ==> checks == Checks(timeout)
      decreases Checks(timeout) - checks + (if running then 1 else 0)
    {
      var element := probe(checks);
      if element.Some? {
        running := false;
        outcome := Settle(outcome, Resolved(element.value));
        FirstFoundStable(probe, checks + 1, Checks(timeout));
      }
      elapsed := elapsed + Interval;
      checks := checks + 1;
      if elapsed >= timeout {
        running := false;
        outcome := Settle(outcome, Rejected(TimeoutMessage(selector, timeout)));
      }
    }
  }
}
