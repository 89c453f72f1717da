/**
  What one run of the idle sweep derives from the grid engine's two reports:
  the execution host names from `qhost` and the busy hosts from the queue names
  of the jobs listed by `qstat`.
*/
module Snapshot {
  import opened Wrappers
  import opened QueueName

  /** The pseudo-host under which `qhost` reports cluster-wide totals. */
  const Global: string := "global"

  /** The host names of a `qhost` report, without the pseudo-host. */
  function HostNames(reported: seq<string>): (names: set<string>)
    ensures Global !in names
    ensures forall i :: 0 <= i < |reported| && reported[i] != Global ==> reported[i] in names
    ensures forall n :: n in names ==> n in reported
  {
    set n | n in reported && n != Global
  }

  /**
    The hosts that run a listed job, or None when some queue name has no `@`
    (the source's `split('@')[1]` then raises and the sweep ends there).
  */
  function BusyHosts(queueNames: seq<string>): (busy: Option<set<string>>)
    ensures busy.Some? <==> forall i :: 0 <= i < |queueNames| ==> At in queueNames[i]
    ensures busy.Some? ==> forall i :: 0 <= i < |queueNames| ==> HostOf(queueNames[i]).value in busy.value
    ensures busy.Some? ==> forall h :: h in busy.value ==> exists i :: 0 <= i < |queueNames| && HostOf(queueNames[i]) == Some(h)
    decreases |queueNames|
  {
    if |queueNames| == 0 then Some({})
    else
      var first := HostOf(queueNames[0]);
      var rest := BusyHosts(queueNames[1..]);
      if first.None? || rest.None? then None
      else Some({first.value} + rest.value)
  }
}
