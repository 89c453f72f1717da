/**
  The periodic idle-host sweep of the cluster API server. The server keeps, for
  each execution host seen idle, the time it was first seen idle; each sweep
  reads the grid engine's host and job reports, updates those timers in place
  and asks the cluster manager to remove every host idle for longer than the
  configured timeout.

  The clock, the two reports and the cluster manager's answers are inputs:
  `timeNow`, `reportedHosts` (the `qhost` names), `queueNames` (the queue names
  of the jobs in the first of the two lists `qstat` returns; the second list is
  discarded) and `failing` (the hosts whose `remove_node` call fails in this
  sweep).
*/
module IdleSweeper {
  import opened Wrappers
  import opened QueueName
  import opened Snapshot
  import opened IdleSpec

  /** One call of the cluster manager's `remove_node(cluster, host)` and whether it succeeded. */
  datatype Attempt = Attempt(cluster: string, host: string, succeeded: bool)

  /** How a sweep ended. */
  datatype Sweep =
    | Swept(removed: seq<string>, attempts: seq<Attempt>)
      // a job's queue name had no `@`: the sweep raised before touching any timer
    | Crashed

  function Elems(s: seq<string>): set<string>
  {
    set i | 0 <= i < |s| :: s[i]
  }

  lemma ElemsAppend(s: seq<string>, x: string)
    ensures Elems(s + [x]) == Elems(s) + {x}
  {
    var t := s + [x];
    assert t[|s|] == x;
    forall y | y in Elems(s) ensures y in Elems(t) {
      var i :| 0 <= i < |s| && s[i] == y;
      assert t[i] == y;
    }
  }

  ghost predicate Distinct(s: seq<string>)
  {
    forall i, j :: 0 <= i < j < |s| ==> s[i] != s[j]
  }

  /** A list without repeats has as many elements as entries. */
  lemma {:induction false} DistinctCard(s: seq<string>)
    requires Distinct(s)
    ensures |Elems(s)| == |s|
    decreases |s|
  {
    if |s| > 0 {
      var init, last := s[..|s| - 1], s[|s| - 1];
      assert s == init + [last];
      DistinctCard(init);
      ElemsAppend(init, last);
      assert last !in Elems(init) by {
        assert forall i :: 0 <= i < |init| ==> init[i] == s[i] != last;
      }
    }
  }

  class Sweeper {
    /** Host name to the time (seconds) it was first seen idle. */
    var idleHosts: Stamps
    const clusterName: string
    /** Minutes a host may stay idle before it is removed. */
    const idleTimeout: int

    constructor (clusterName: string, idleTimeout: int)
      ensures idleHosts == map[]
      ensures this.clusterName == clusterName && this.idleTimeout == idleTimeout
    {
      this.clusterName := clusterName;
      this.idleTimeout := idleTimeout;
      idleHosts := map[];
    }

    /**
      One sweep. Busy hosts lose their timers, newly idle hosts get one, every
      host whose timer has run for more than `idleTimeout` minutes loses it and
      is reported once in `removed`, and each reported host gets exactly one
      removal attempt, in order; a failed attempt neither stops the others nor
      restores the host's timer.
    */
    method CheckIdle(timeNow: int, reportedHosts: seq<string>, queueNames: seq<string>, failing: set<string>)
      returns (sweep: Sweep)
      modifies this
      ensures BusyHosts(queueNames).None? ==> sweep == Crashed && idleHosts == old(idleHosts)
      ensures BusyHosts(queueNames).Some? ==>
        var hostNames, busy := HostNames(reportedHosts), BusyHosts(queueNames).value;
        && sweep.Swept?
        && idleHosts == Next(old(idleHosts), timeNow, hostNames, busy, IdleLimit(idleTimeout))
        && Elems(sweep.removed) == Removed(old(idleHosts), timeNow, hostNames, busy, IdleLimit(idleTimeout))
        && Distinct(sweep.removed)
        && |sweep.attempts| == |sweep.removed|
        && forall i :: 0 <= i < |sweep.attempts| ==>
             sweep.attempts[i] == Attempt(clusterName, sweep.removed[i], sweep.removed[i] !in failing)
    {
      var hostNames := HostNames(reportedHosts);
      var busyHosts := BusyHosts(queueNames);
      if busyHosts.None? {
        return Crashed;
      }
      var busy := busyHosts.value;
      DropBusyTimers(busy);
      StartIdleTimers(hostNames - busy, timeNow);
      var hostsToRemove := TakeOverdue(timeNow);
      var attempts := RemoveNodes(hostsToRemove, failing);
      return Swept(hostsToRemove, attempts);
    }

    /** Remove hosts with jobs from the idle list. */
    method DropBusyTimers(busy: set<string>)
      modifies this
      ensures idleHosts == DropBusy(old(idleHosts), busy)
    {
      var pending := busy;
      while pending != {}
        invariant pending <= busy
        invariant idleHosts == old(idleHosts) - (busy - pending)
        decreases pending
      {
        var h :| h in pending;
        if h in idleHosts {
          idleHosts := idleHosts - {h};
        }
        pending := pending - {h};
      }
    }

    /** Start a timer at `timeNow` for every idle host that has none. */
    method StartIdleTimers(idle: set<string>, timeNow: int)
      modifies this
      ensures idleHosts == StampIdle(old(idleHosts), idle, timeNow)
    {
      var pending := idle;
      while pending != {}
        invariant pending <= idle
        invariant idleHosts == StampIdle(old(idleHosts), idle - pending, timeNow)
        decreases pending
      {
        var h :| h in pending;
        if h !in idleHosts {
          idleHosts := idleHosts[h := timeNow];
        }
        pending := pending - {h};
      }
    }

    /** Take out, each once, the hosts idle for longer than the timeout. */
    method TakeOverdue(timeNow: int) returns (hostsToRemove: seq<string>)
      modifies this
      ensures Elems(hostsToRemove) == Overdue(old(idleHosts), timeNow, IdleLimit(idleTimeout))
      ensures Distinct(hostsToRemove)
      ensures idleHosts == old(idleHosts) - Elems(hostsToRemove)
    {
      var limit := IdleLimit(idleTimeout);
      var snapshot := idleHosts;
      hostsToRemove := [];
      var unvisited := snapshot.Keys;
      while unvisited != {}
        invariant unvisited <= snapshot.Keys
        invariant Elems(hostsToRemove) == Overdue(snapshot, timeNow, limit) - unvisited
        invariant Distinct(hostsToRemove)
        invariant idleHosts == snapshot - Elems(hostsToRemove)
        decreases unvisited
      {
        var h :| h in unvisited;
        if timeNow - snapshot[h] > limit {
          ElemsAppend(hostsToRemove, h);
          hostsToRemove := hostsToRemove + [h];
          idleHosts := idleHosts - {h};
        }
        unvisited := unvisited - {h};
      }
    }

    /**
      Call `remove_node` once per host, in order; a failed call is caught and
      logged, and the remaining hosts are still tried.
    */
    method RemoveNodes(hostsToRemove: seq<string>, failing: set<string>) returns (attempts: seq<Attempt>)
      ensures |attempts| == |hostsToRemove|
      ensures forall k :: 0 <= k < |attempts| ==>
        attempts[k] == Attempt(clusterName, hostsToRemove[k], hostsToRemove[k] !in failing)
    {
      attempts := [];
      var i := 0;
      while i < |hostsToRemove|
        invariant 0 <= i <= |hostsToRemove|
        invariant |attempts| == i
        invariant forall k :: 0 <= k < i ==>
          attempts[k] == Attempt(clusterName, hostsToRemove[k], hostsToRemove[k] !in failing)
      {
        var host := hostsToRemove[i];
        var succeeded := host !in failing;
        attempts := attempts + [Attempt(clusterName, host, succeeded)];
        i := i + 1;
      }
    }
  }

  /**
    Two hosts idle from t=0 with a 30-minute timeout. At t=1801 both are
    reported and both removals are attempted; `node002`'s fails, and neither
    keeps a timer. A sweep at t=1802 that still sees both idle starts a fresh
    streak for each, so `node002`, whose removal failed, is reported and
    attempted again at t=3603, one full timeout later.
  */
  method FailedRemovalScenario() returns (first: Sweep, second: Sweep, afterFailure: Stamps, third: Sweep, fourth: Sweep)
    ensures first == Swept([], [])
    ensures second.Swept? && Elems(second.removed) == {"node001", "node002"} && |second.attempts| == 2
    ensures forall i :: 0 <= i < |second.attempts| ==>
      second.attempts[i] == Attempt("dev", second.removed[i], second.removed[i] == "node001")
    ensures afterFailure == map[]
    ensures third == Swept([], [])
    ensures fourth.Swept? && Elems(fourth.removed) == {"node001", "node002"} && |fourth.attempts| == 2
    ensures forall i :: 0 <= i < |fourth.attempts| ==>
      fourth.attempts[i] == Attempt("dev", fourth.removed[i], true)
  {
    var reported := ["global", "node001", "node002"];
    ReportedNodes();
    TwoIdleHosts();
    var sweeper := new Sweeper("dev", 30);
    first := sweeper.CheckIdle(0, reported, [], {});
    DistinctCard(first.removed);
    second := sweeper.CheckIdle(1801, reported, [], {"node002"});
    DistinctCard(second.removed);
    afterFailure := sweeper.idleHosts;
    third := sweeper.CheckIdle(1802, reported, [], {});
    DistinctCard(third.removed);
    assert sweeper.idleHosts == map["node001" := 1802, "node002" := 1802];
    fourth := RetryOverdue(sweeper);
  }

  /**
    The streak both hosts started at t=1802 is overdue at t=3603: both are
    reported and attempted again, and both attempts succeed.
  */
  method RetryOverdue(sweeper: Sweeper) returns (fourth: Sweep)
    requires sweeper.clusterName == "dev" && sweeper.idleTimeout == 30
    requires sweeper.idleHosts == map["node001" := 1802, "node002" := 1802]
    modifies sweeper
    ensures fourth.Swept? && Elems(fourth.removed) == {"node001", "node002"} && |fourth.attempts| == 2
    ensures forall i :: 0 <= i < |fourth.attempts| ==>
      fourth.attempts[i] == Attempt("dev", fourth.removed[i], true)
    ensures sweeper.idleHosts == map[]
  {
    ReportedNodes();
    FreshStreaksOverdue();
    fourth := sweeper.CheckIdle(3603, ["global", "node001", "node002"], [], {});
    DistinctCard(fourth.removed);
  }

  lemma ReportedNodes()
    ensures HostNames(["global", "node001", "node002"]) == {"node001", "node002"}
  {
  }
}
