/** The polling watcher (watch.py): it asks the upstream client for the
    latest reading over and over and reports a reading only when it is newer
    than the last timestamp that passed. Login, sleeping and printing are outside the
    model; a poll either delivers a timestamp, or raises before or after the
    guard has taken the reading, and after an exception the watcher logs in
    again and carries on with a new client. */
module Watch {
  import opened Glucose

  /** What one iteration of the loop sees. `Got`: a reading arrived and,
      when it passes the guard, is printed. `ReportFailed`: a reading arrived,
      but once the guard had stored its timestamp the report raised (the
      mg/dL rounding, the trend name or the print itself), so nothing is
      printed and `relogin` is the fresh client. `Failed`: the poll raised
      before the guard, and `relogin` is the fresh client. A `ReportFailed`
      whose reading does not pass the guard never reaches the report, so it
      acts as a `Got` that is not printed. */
  datatype Poll<C> = Got(timestamp: int) | ReportFailed(timestamp: int, relogin: C) | Failed(relogin: C)

  /** The guard of the loop: nothing seen yet, or strictly newer. */
  predicate IsNewer(last: Option<int>, ts: int)
  {
    last.None? || ts > last.value
  }

  /** Whether `p` carries a reading that passes the guard against `last`. */
  predicate Passes<C>(last: Option<int>, p: Poll<C>)
  {
    !p.Failed? && IsNewer(last, p.timestamp)
  }

  /** `last_ts` after one iteration. */
  function Step<C>(last: Option<int>, p: Poll<C>): (r: Option<int>)
    ensures NoEarlier(last, r)
    ensures p.Failed? ==> r == last
    ensures !p.Failed? ==> r.Some? && p.timestamp <= r.value
  {
    if Passes(last, p) then Some(p.timestamp) else last
  }

  /** `last_ts` after a run of iterations; it never goes back. */
  function Run<C>(last: Option<int>, polls: seq<Poll<C>>): (r: Option<int>)
    ensures NoEarlier(last, r)
    decreases |polls|
  {
    if polls == [] then last
    else Step(Run(last, polls[..|polls| - 1]), polls[|polls| - 1])
  }

  /** The timestamps that pass the guard and become `last_ts`, in order. */
  function Accepted<C>(last: Option<int>, polls: seq<Poll<C>>): (r: seq<int>)
    ensures |r| <= |polls|
    ensures forall t :: t in r ==> t in Received(polls)
    decreases |polls|
  {
    if polls == [] then []
    else
      var before := Run(last, polls[..|polls| - 1]);
      var p := polls[|polls| - 1];
      Accepted(last, polls[..|polls| - 1]) + (if Passes(before, p) then [p.timestamp] else [])
  }

  /** The timestamps the watcher prints: the accepted ones whose report
      did not raise. */
  function Printed<C>(last: Option<int>, polls: seq<Poll<C>>): (r: seq<int>)
    ensures |r| <= |polls|
    ensures forall t :: t in r ==> t in Accepted(last, polls)
    decreases |polls|
  {
    if polls == [] then []
    else
      var before := Run(last, polls[..|polls| - 1]);
      var p := polls[|polls| - 1];
      Printed(last, polls[..|polls| - 1]) +
        (if p.Got? && Passes(before, p) then [p.timestamp] else [])
  }

  /** The timestamps of all readings received, in order. */
  function Received<C>(polls: seq<Poll<C>>): seq<int>
    decreases |polls|
  {
    if polls == [] then []
    else
      var p := polls[|polls| - 1];
      Received(polls[..|polls| - 1]) + (if !p.Failed? then [p.timestamp] else [])
  }

  /** One more iteration, seen from the prefix of polls already run. */
  lemma RunSnoc<C>(last: Option<int>, polls: seq<Poll<C>>, i: int)
    requires 0 <= i < |polls|
    ensures var before := Run(last, polls[..i]);
      var p := polls[i];
      Run(last, polls[..i + 1]) == Step(before, p) &&
      Accepted(last, polls[..i + 1]) == Accepted(last, polls[..i]) +
        (if Passes(before, p) then [p.timestamp] else []) &&
      Printed(last, polls[..i + 1]) == Printed(last, polls[..i]) +
        (if p.Got? && Passes(before, p) then [p.timestamp] else [])
  {
    assert polls[..i + 1][..i] == polls[..i];
  }

  /** `later` is no earlier than `earlier`; None is earlier than anything. */
  predicate NoEarlier(earlier: Option<int>, later: Option<int>)
  {
    earlier.None? || (later.Some? && earlier.value <= later.value)
  }

  /** With nothing seen yet, the first reading received passes the guard,
      whatever its time and however many polls failed before it. */
  lemma {:induction false} FirstReadingAccepted<C>(polls: seq<Poll<C>>)
    requires Received(polls) != []
    ensures Accepted(None, polls) != [] && Accepted(None, polls)[0] == Received(polls)[0]
    decreases |polls|
  {
    var init, p := polls[..|polls| - 1], polls[|polls| - 1];
    if Received(init) != [] {
      FirstReadingAccepted(init);
    } else {
      RunIsLatestReceived(init);
      AcceptedSubsequence(None, init);
      assert Accepted(None, init) == [];
    }
  }

  /** `last_ts` is the last timestamp accepted, or the starting value when
      none was. */
  lemma {:induction false} RunIsLastAccepted<C>(last: Option<int>, polls: seq<Poll<C>>)
    ensures var acc := Accepted(last, polls);
      Run(last, polls) == (if acc == [] then last else Some(acc[|acc| - 1]))
    decreases |polls|
  {
    if polls != [] {
      RunIsLastAccepted(last, polls[..|polls| - 1]);
    }
  }

  /** Every accepted timestamp is newer than the starting `last_ts`. */
  lemma {:induction false} AcceptedNewerThanStart<C>(last: Option<int>, polls: seq<Poll<C>>)
    ensures forall t :: t in Accepted(last, polls) ==> IsNewer(last, t)
    decreases |polls|
  {
    if polls != [] {
      var init, p := polls[..|polls| - 1], polls[|polls| - 1];
      AcceptedNewerThanStart(last, init);
      var before, acc := Run(last, init), Accepted(last, init);
      if Passes(before, p) {
        var ext := acc + [p.timestamp];
        assert Accepted(last, polls) == ext;
        assert IsNewer(last, p.timestamp);
      } else {
        assert Accepted(last, polls) == acc;
      }
    }
  }

  /** The accepted timestamps are strictly increasing. */
  lemma {:induction false} AcceptedIncreasing<C>(last: Option<int>, polls: seq<Poll<C>>)
    ensures StrictlyIncreasing(Accepted(last, polls))
    decreases |polls|
  {
    if polls != [] {
      var init, p := polls[..|polls| - 1], polls[|polls| - 1];
      AcceptedIncreasing(last, init);
      RunIsLastAccepted(last, init);
      var acc := Accepted(last, init);
      if Passes(Run(last, init), p) {
        IncreasingSnoc(acc, p.timestamp);
      }
    }
  }

  /** Starting from nothing, `last_ts` is the largest timestamp received so
      far: a failed poll never loses it and no received reading is newer. */
  lemma {:induction false} RunIsLatestReceived<C>(polls: seq<Poll<C>>)
    ensures var rec := Received(polls);
      var last := Run(None, polls);
      (last.None? <==> rec == []) &&
      (last.Some? ==> last.value in rec && forall i :: 0 <= i < |rec| ==> rec[i] <= last.value)
    decreases |polls|
  {
    if polls != [] {
      RunIsLatestReceived(polls[..|polls| - 1]);
    }
  }

  /** The accepted timestamps are some of the received ones, in order. */
  lemma {:induction false} AcceptedSubsequence<C>(last: Option<int>, polls: seq<Poll<C>>)
    ensures IsSubsequence(Accepted(last, polls), Received(polls))
    decreases |polls|
  {
    if polls != [] {
      var init, p := polls[..|polls| - 1], polls[|polls| - 1];
      AcceptedSubsequence(last, init);
      var acc, rec := Accepted(last, init), Received(init);
      if !p.Failed? {
        if Passes(Run(last, init), p) {
          SubsequenceAppend(acc, rec, [p.timestamp]);
        } else {
          SubsequenceExtend(acc, rec, [p.timestamp]);
          assert Accepted(last, polls) == acc;
        }
      } else {
        assert Accepted(last, polls) == acc && Received(polls) == rec;
      }
    }
  }

  /** The printed timestamps are some of the accepted ones, in order: a
      reading whose report raised is skipped. */
  lemma {:induction false} PrintedSubsequence<C>(last: Option<int>, polls: seq<Poll<C>>)
    ensures IsSubsequence(Printed(last, polls), Accepted(last, polls))
    decreases |polls|
  {
    if polls != [] {
      var init, p := polls[..|polls| - 1], polls[|polls| - 1];
      PrintedSubsequence(last, init);
      var pr, acc := Printed(last, init), Accepted(last, init);
      if Passes(Run(last, init), p) {
        if p.Got? {
          SubsequenceAppend(pr, acc, [p.timestamp]);
        } else {
          SubsequenceExtend(pr, acc, [p.timestamp]);
          assert Printed(last, polls) == pr;
        }
      } else {
        assert Printed(last, polls) == pr && Accepted(last, polls) == acc;
      }
    }
  }

  /** When no report raises, everything accepted is printed. */
  lemma {:induction false} PrintedWhenReportsSucceed<C>(last: Option<int>, polls: seq<Poll<C>>)
    requires forall i :: 0 <= i < |polls| ==> !polls[i].ReportFailed?
    ensures Printed(last, polls) == Accepted(last, polls)
    decreases |polls|
  {
    if polls != [] {
      PrintedWhenReportsSucceed(last, polls[..|polls| - 1]);
    }
  }

  /** Every printed timestamp is at most the current `last_ts`. */
  lemma {:induction false} PrintedUpToRun<C>(last: Option<int>, polls: seq<Poll<C>>)
    ensures var r := Run(last, polls);
      forall t :: t in Printed(last, polls) ==> r.Some? && t <= r.value
    decreases |polls|
  {
    if polls != [] {
      var init, p := polls[..|polls| - 1], polls[|polls| - 1];
      PrintedUpToRun(last, init);
      var before, pr := Run(last, init), Printed(last, init);
      if p.Got? && Passes(before, p) {
        assert Printed(last, polls) == pr + [p.timestamp];
      } else {
        assert Printed(last, polls) == pr;
      }
    }
  }

  /** The printed timestamps are strictly increasing. */
  lemma {:induction false} PrintedIncreasing<C>(last: Option<int>, polls: seq<Poll<C>>)
    ensures StrictlyIncreasing(Printed(last, polls))
    decreases |polls|
  {
    if polls != [] {
      var init, p := polls[..|polls| - 1], polls[|polls| - 1];
      PrintedIncreasing(last, init);
      var before, pr := Run(last, init), Printed(last, init);
      if p.Got? && Passes(before, p) {
        PrintedUpToRun(last, init);
        if pr != [] {
          assert pr[|pr| - 1] in pr;
        }
        IncreasingSnoc(pr, p.timestamp);
      }
    }
  }

  /** The loop's state: the current client and `last_ts`. */
  class Watcher<C> {
    var client: C
    var lastTs: Option<int>
    /** The timestamps that passed the guard so far, in order. */
    ghost var passed: seq<int>

    ghost predicate Valid()
      reads this
    {
      StrictlyIncreasing(passed) &&
      lastTs == (if passed == [] then None else Some(passed[|passed| - 1]))
    }

    /** After a successful login: `last_ts = None`. */
    constructor (client: C)
      ensures Valid()
      ensures this.client == client && lastTs == None && passed == []
    {
      this.client := client;
      lastTs := None;
      passed := [];
    }

    /** A reading arrived: the guard, and `last_ts` takes its time if it is
        newer. Reporting it is up to the caller. */
    method Observe(ts: int) returns (accepted: bool)
      requires Valid()
      modifies this
      ensures Valid()
      ensures accepted <==> IsNewer(old(lastTs), ts)
      ensures lastTs == (if accepted then Some(ts) else old(lastTs))
      ensures passed == (if accepted then old(passed) + [ts] else old(passed))
      ensures client == old(client)
    {
      accepted := lastTs.None? || ts > lastTs.value;
      if accepted {
        lastTs := Some(ts);
        passed := passed + [ts];
      }
    }

    /** Something in the iteration raised: log in again; `last_ts` is kept
        as it stands. */
    method PollFailed(relogin: C)
      requires Valid()
      modifies this
      ensures Valid()
      ensures client == relogin
      ensures lastTs == old(lastTs) && passed == old(passed)
    {
      client := relogin;
    }
  }

  /** The loop of `main` over a finite run of polls, returning the
      timestamps it prints and the final `last_ts`. */
  method PollLoop<C>(client: C, polls: seq<Poll<C>>) returns (printed: seq<int>, last: Option<int>)
    ensures printed == Printed(None, polls)
    ensures last == Run(None, polls)
    ensures StrictlyIncreasing(printed)
  {
    var w := new Watcher(client);
    printed := [];
    for i := 0 to |polls|
      invariant w.Valid()
      invariant w.lastTs == Run(None, polls[..i])
      invariant w.passed == Accepted(None, polls[..i])
      invariant printed == Printed(None, polls[..i])
    {
      RunSnoc(None, polls, i);
      match polls[i]
      case Got(ts) =>
        var accepted := w.Observe(ts);
        if accepted {
          printed := printed + [ts];
        }
      case ReportFailed(ts, relogin) =>
        var accepted := w.Observe(ts);
        if accepted {
          w.PollFailed(relogin);
        }
      case Failed(relogin) =>
        w.PollFailed(relogin);
    }
    assert polls[..|polls|] == polls;
    last := w.lastTs;
    PrintedIncreasing(None, polls);
  }
}
