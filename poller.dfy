/**
 * The job poller of `main` in src/main.rs: ask for the export job's state
 * once per iteration until it reads "complete" or the counter reaches the
 * configured timeout, then decide whether the run timed out.
 */
module Poller {
  import opened Base
  import Json
  import Api

  /**
   * The state an info response reports: the string at `data.state`. None
   * when the response could not be read or holds no string there; the
   * program unwraps it and panics.
   */
  function ReadState(response: Option<Json.Json>): Option<string>
  {
    if response.Some? then Json.AsStr(Json.Get(Json.Get(response.value, "data"), "state")) else None
  }

  /** The states the responses report, poll by poll. */
  function States(polls: seq<Option<Json.Json>>): (states: seq<Option<string>>)
    ensures |states| == |polls|
    ensures forall i | 0 <= i < |polls| :: states[i] == ReadState(polls[i])
  {
    seq(|polls|, i requires 0 <= i < |polls| => ReadState(polls[i]))
  }

  /** The state of poll number `i` (from 0); a poll past the responses given is unreadable. */
  function StateAt(states: seq<Option<string>>, i: nat): Option<string>
  {
    if i < |states| then states[i] else None
  }

  /** Poll `i` was read and did not report completion. */
  predicate Pending(states: seq<Option<string>>, i: nat)
  {
    StateAt(states, i).Some? && StateAt(states, i).value != "complete"
  }

  /** Poll `i` is the first to report "complete", every earlier one having been read. */
  predicate FirstComplete(states: seq<Option<string>>, i: nat)
  {
    StateAt(states, i) == Some("complete") && forall j :: 0 <= j < i ==> Pending(states, j)
  }

  /**
   * How the loop ends: with the final values of `timer` and `status`, or with
   * a panic on the poll at index `at`.
   */
  datatype PollResult = Stopped(timer: nat, status: string) | Unreadable(at: nat)
  {
    /** How many info requests were sent. */
    function Sent(): nat
    {
      match this
      case Stopped(timer, _) => timer
      case Unreadable(at) => at + 1
    }
  }

  /** The loop continued from a given `timer` and `status`. */
  function PollFrom(states: seq<Option<string>>, timeout: nat, timer: nat, status: string): PollResult
    decreases timeout - timer
  {
    if status == "complete" || timer >= timeout then Stopped(timer, status)
    else match StateAt(states, timer)
      case None => Unreadable(timer)
      case Some(s) => PollFrom(states, timeout, timer + 1, s)
  }

  /** The loop from its start: `status` empty, `timer` zero. */
  function PollSpec(states: seq<Option<string>>, timeout: nat): PollResult
  {
    PollFrom(states, timeout, 0, "")
  }

  /** `timer >= config.timeout`: the check after the loop that ends the run with "Timeout exceeded". */
  predicate TimedOut(r: PollResult, timeout: nat)
  {
    r.Stopped? && r.timer >= timeout
  }

  /**
   * The poll loop. `info` is the prepared `fileOperations.info` request with
   * the job id body; `polls` holds the responses the server gives, in order.
   * Every iteration sends `info` once; the one-second pause is not modelled.
   */
  method PollJob(info: Api.Request, polls: seq<Option<Json.Json>>, timeout: nat)
    returns (r: PollResult, sent: seq<Api.Request>)
    ensures r == PollSpec(States(polls), timeout)
    ensures sent == seq(r.Sent(), _ => info)
  {
    var status := "";
    var timer: nat := 0;
    sent := [];
    while status != "complete" && timer < timeout
      invariant timer <= timeout
      invariant PollFrom(States(polls), timeout, timer, status) == PollSpec(States(polls), timeout)
      invariant sent == seq(timer, _ => info)
      decreases timeout - timer
    {
      sent := sent + [info];
      var response := if timer < |polls| then polls[timer] else None;
      match ReadState(response)
      case None =>
        return Unreadable(timer), sent;
      case Some(s) =>
        status := s;
      timer := timer + 1;
    }
    r := Stopped(timer, status);
  }

  /** Everything before index `n` was read and pending. */
  predicate PendingBefore(states: seq<Option<string>>, n: int)
  {
    forall j :: 0 <= j < n ==> Pending(states, j)
  }

  /** What the loop has seen when it is at `timer` with `status`, and what it sees by the end. */
  lemma {:induction false} PollFromSound(states: seq<Option<string>>, timeout: nat, timer: nat, status: string)
    requires timer <= timeout
    requires PendingBefore(states, timer - 1)
    requires timer == 0 ==> status == ""
    requires timer > 0 ==> StateAt(states, timer - 1) == Some(status)
    ensures match PollFrom(states, timeout, timer, status)
      case Stopped(t, s) =>
        && timer <= t <= timeout
        && (s == "complete" || t == timeout)
        && PendingBefore(states, t - 1)
        && (t == 0 ==> s == "")
        && (t > 0 ==> StateAt(states, t - 1) == Some(s))
      case Unreadable(k) =>
        timer <= k < timeout && PendingBefore(states, k) && StateAt(states, k).None?
    decreases timeout - timer
  {
    if status != "complete" && timer < timeout {
      assert PendingBefore(states, timer);
      if StateAt(states, timer).Some? {
        PollFromSound(states, timeout, timer + 1, StateAt(states, timer).value);
      }
    }
  }

  /**
   * The loop sends at most `timeout` requests. It stops at the first poll
   * that reads "complete", all earlier polls having been read and pending;
   * `timer` is then the number of polls made. It stops short of `timeout`
   * only on "complete", and panics only on the first unreadable poll.
   */
  lemma PollSpecSound(states: seq<Option<string>>, timeout: nat)
    ensures PollSpec(states, timeout).Sent() <= timeout
    ensures match PollSpec(states, timeout)
      case Stopped(t, s) =>
        && (t < timeout ==> t > 0 && s == "complete" && FirstComplete(states, t - 1))
        && (t == timeout ==> PendingBefore(states, t - 1) && (t > 0 ==> StateAt(states, t - 1) == Some(s)))
        && t <= timeout
      case Unreadable(k) =>
        k < timeout && PendingBefore(states, k) && StateAt(states, k).None?
  {
    PollFromSound(states, timeout, 0, "");
  }

  /**
   * The run gets past the timeout check exactly when the first "complete"
   * arrives at a poll index `i` with `i + 1 < timeout`; `timer` is then `i + 1`.
   * So a "complete" on poll number `timeout` still counts as a timeout, and
   * a timeout of 0 or 1 never lets the run proceed.
   */
  lemma ProceedsIffEarlyComplete(states: seq<Option<string>>, timeout: nat, i: nat)
    requires FirstComplete(states, i)
    ensures i + 1 < timeout ==> PollSpec(states, timeout) == Stopped(i + 1, "complete")
    ensures i + 1 >= timeout ==> TimedOut(PollSpec(states, timeout), timeout)
  {
    PollSpecSound(states, timeout);
    // poll i completes, so it is not pending; the poll the loop stopped at decides the rest
    var r := PollSpec(states, timeout);
    assert !Pending(states, i);
    assert r.Unreadable? ==> !Pending(states, r.at);
    assert r.Stopped? && r.timer > 0 ==> (Pending(states, r.timer - 1) <==> r.status != "complete");
  }

  /** Without any "complete" among the first `timeout` polls, the run times out. */
  lemma NeverCompleteTimesOut(states: seq<Option<string>>, timeout: nat)
    requires PendingBefore(states, timeout)
    ensures PollSpec(states, timeout).Stopped?
    ensures TimedOut(PollSpec(states, timeout), timeout)
  {
    PollSpecSound(states, timeout);
    // the poll the loop stopped at was pending, so it was read and did not complete
    var r := PollSpec(states, timeout);
    assert r.Unreadable? ==> Pending(states, r.at);
    assert r.Stopped? && r.timer > 0 ==> Pending(states, r.timer - 1);
  }
}
