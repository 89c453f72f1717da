/**
  The idle-host bookkeeping of one sweep, as functions of the first-idle
  timestamps before the sweep and of what the sweep observed. The imperative
  sweep in module IdleSweeper is proved to compute exactly these; the lemmas
  here state what the bookkeeping guarantees, for one sweep and over a run of
  sweeps.
*/
module IdleSpec {

  /** Host name to the time (seconds) it was first seen idle in its current streak. */
  type Stamps = map<string, int>

  /** `idle_timeout` is given in minutes and compared against seconds. */
  function IdleLimit(idleTimeout: int): int
  {
    idleTimeout * 60
  }

  /** Step 1: busy hosts lose their timers. */
  function DropBusy(stamps: Stamps, busy: set<string>): Stamps
  {
    stamps - busy
  }

  /** Step 2: idle hosts without a timer get one started at `now`. */
  function StampIdle(stamps: Stamps, idle: set<string>, now: int): Stamps
  {
    map h | h in stamps.Keys + idle :: if h in stamps then stamps[h] else now
  }

  /** The timers that have run for strictly more than `limit` seconds. */
  function Overdue(stamps: Stamps, now: int, limit: int): set<string>
  {
    set h | h in stamps && now - stamps[h] > limit
  }

  /** The timers after steps 1 and 2. */
  function Stamped(stamps: Stamps, now: int, hostNames: set<string>, busy: set<string>): Stamps
  {
    StampIdle(DropBusy(stamps, busy), hostNames - busy, now)
  }

  /** The hosts a sweep reports for removal. */
  function Removed(stamps: Stamps, now: int, hostNames: set<string>, busy: set<string>, limit: int): set<string>
  {
    Overdue(Stamped(stamps, now, hostNames, busy), now, limit)
  }

  /** The timers after a sweep: step 3 deletes every reported host. */
  function Next(stamps: Stamps, now: int, hostNames: set<string>, busy: set<string>, limit: int): Stamps
  {
    var s := Stamped(stamps, now, hostNames, busy);
    s - Overdue(s, now, limit)
  }

  /** After a sweep no busy host has a timer and none is reported, whether or not it is a known host. */
  lemma BusyHostsCleared(stamps: Stamps, now: int, hostNames: set<string>, busy: set<string>, limit: int)
    ensures forall h :: h in busy ==> h !in Next(stamps, now, hostNames, busy, limit)
    ensures Removed(stamps, now, hostNames, busy, limit) !! busy
  {
  }

  /** Newly idle hosts are stamped with `now`; hosts that already had a timer keep their first-idle time. */
  lemma IdleHostsStamped(stamps: Stamps, now: int, hostNames: set<string>, busy: set<string>, h: string)
    requires h !in busy
    ensures h in hostNames || h in stamps <==> h in Stamped(stamps, now, hostNames, busy)
    ensures h in stamps ==> Stamped(stamps, now, hostNames, busy)[h] == stamps[h]
    ensures h in hostNames && h !in stamps ==> Stamped(stamps, now, hostNames, busy)[h] == now
  {
  }

  /**
    A host is reported exactly when its timer (after steps 1 and 2) has run for
    strictly more than `limit`; reported hosts lose their timer, every other
    timer survives unchanged, and no other timer appears.
  */
  lemma RemovedIffOverdue(stamps: Stamps, now: int, hostNames: set<string>, busy: set<string>, limit: int, h: string)
    ensures var s := Stamped(stamps, now, hostNames, busy);
      h in Removed(stamps, now, hostNames, busy, limit) <==> h in s && now - s[h] > limit
    ensures var s := Stamped(stamps, now, hostNames, busy);
      && (h in Removed(stamps, now, hostNames, busy, limit) ==> h !in Next(stamps, now, hostNames, busy, limit))
      && (h in s && h !in Removed(stamps, now, hostNames, busy, limit) ==>
            h in Next(stamps, now, hostNames, busy, limit) && Next(stamps, now, hostNames, busy, limit)[h] == s[h])
      && (h in Next(stamps, now, hostNames, busy, limit) ==> h in s)
  {
  }

  /** What a sweep does to one host's timer, in terms of the timers before the sweep. */
  lemma TickPerHost(stamps: Stamps, now: int, hostNames: set<string>, busy: set<string>, limit: int, h: string)
    ensures var next, removed := Next(stamps, now, hostNames, busy, limit), Removed(stamps, now, hostNames, busy, limit);
      && (h in busy ==> h !in next && h !in removed)
      && (h !in busy && h in stamps ==>
            (h in removed <==> now - stamps[h] > limit) && (h in next <==> h !in removed)
            && (h in next ==> next[h] == stamps[h]))
      && (h !in busy && h !in stamps && h in hostNames ==>
            (h in removed <==> 0 > limit) && (h in next <==> h !in removed)
            && (h in next ==> next[h] == now))
      && (h !in busy && h !in stamps && h !in hostNames ==> h !in next && h !in removed)
  {
  }

  /** With a non-negative timeout, a host first stamped in this sweep is never reported in it. */
  lemma FreshNeverRemoved(stamps: Stamps, now: int, hostNames: set<string>, busy: set<string>, idleTimeout: int, h: string)
    requires idleTimeout >= 0
    requires h in hostNames && h !in busy && h !in stamps
    ensures h !in Removed(stamps, now, hostNames, busy, IdleLimit(idleTimeout))
    ensures h in Next(stamps, now, hostNames, busy, IdleLimit(idleTimeout))
    ensures Next(stamps, now, hostNames, busy, IdleLimit(idleTimeout))[h] == now
  {
    TickPerHost(stamps, now, hostNames, busy, IdleLimit(idleTimeout), h);
  }

  /**
    A timer for a host that left the host list without turning busy is neither
    refreshed nor dropped until it is overdue.
  */
  lemma VanishedHostKept(stamps: Stamps, now: int, hostNames: set<string>, busy: set<string>, limit: int, h: string)
    requires h in stamps && h !in hostNames && h !in busy
    requires now - stamps[h] <= limit
    ensures h in Next(stamps, now, hostNames, busy, limit)
    ensures Next(stamps, now, hostNames, busy, limit)[h] == stamps[h]
  {
    TickPerHost(stamps, now, hostNames, busy, limit, h);
  }

  /** One observation of the cluster: the time, the known hosts and the busy hosts. */
  datatype Observation = Observation(now: int, hostNames: set<string>, busy: set<string>)

  function Step(stamps: Stamps, o: Observation, limit: int): Stamps
  {
    Next(stamps, o.now, o.hostNames, o.busy, limit)
  }

  function Reported(stamps: Stamps, o: Observation, limit: int): set<string>
  {
    Removed(stamps, o.now, o.hostNames, o.busy, limit)
  }

  /** The timers before each sweep of a run and after the last one. */
  function Run(start: Stamps, obs: seq<Observation>, limit: int): (states: seq<Stamps>)
    ensures |states| == |obs| + 1 && states[0] == start
    ensures forall k :: 0 <= k < |obs| ==> states[k + 1] == Step(states[k], obs[k], limit)
    decreases |obs|
  {
    if |obs| == 0 then [start]
    else
      var before := Run(start, obs[..|obs| - 1], limit);
      before + [Step(before[|obs| - 1], obs[|obs| - 1], limit)]
  }

  ghost predicate Chronological(obs: seq<Observation>)
  {
    forall a, b :: 0 <= a <= b < |obs| ==> obs[a].now <= obs[b].now
  }

  /** After a host is reported in sweep `i`, any timer it gets later was started no earlier than sweep `i + 1`. */
  lemma {:induction false} RestampedAfterReport(start: Stamps, obs: seq<Observation>, limit: int, i: nat, k: nat, h: string)
    requires Chronological(obs)
    requires i < |obs| && i + 1 <= k <= |obs|
    requires h in Reported(Run(start, obs, limit)[i], obs[i], limit)
    ensures var states := Run(start, obs, limit);
      h in states[k] ==> i + 1 < |obs| && states[k][h] >= obs[i + 1].now
    decreases k
  {
    var states := Run(start, obs, limit);
    if k == i + 1 {
      RemovedIffOverdue(states[i], obs[i].now, obs[i].hostNames, obs[i].busy, limit, h);
    } else {
      RestampedAfterReport(start, obs, limit, i, k - 1, h);
      var o := obs[k - 1];
      TickPerHost(states[k - 1], o.now, o.hostNames, o.busy, limit, h);
    }
  }

  /**
    A host is reported at most once per idle streak: between two reports of the
    same host more than `limit` seconds pass after the sweep that follows the
    first report. With a non-negative limit, no host is reported in two
    consecutive sweeps.
  */
  lemma {:induction false} ReportsSpaced(start: Stamps, obs: seq<Observation>, limit: int, i: nat, j: nat, h: string)
    requires Chronological(obs)
    requires i < j < |obs|
    requires h in Reported(Run(start, obs, limit)[i], obs[i], limit)
    requires h in Reported(Run(start, obs, limit)[j], obs[j], limit)
    ensures obs[j].now - obs[i + 1].now > limit
  {
    var states := Run(start, obs, limit);
    var o := obs[j];
    RestampedAfterReport(start, obs, limit, i, j, h);
    RemovedIffOverdue(states[j], o.now, o.hostNames, o.busy, limit, h);
    TickPerHost(states[j], o.now, o.hostNames, o.busy, limit, h);
    if h !in states[j] {
      IdleHostsStamped(states[j], o.now, o.hostNames, o.busy, h);
    }
  }

  /**
    A streak that crosses the threshold is reported: a timer that a host holds
    before sweep `a`, while the host stays free of jobs through sweep `b`, and
    that has run for more than `limit` by sweep `b`, is reported in one of the
    sweeps `a` to `b`.
  */
  lemma {:induction false} StreakReported(start: Stamps, obs: seq<Observation>, limit: int, a: nat, b: nat, h: string)
    requires a <= b < |obs|
    requires h in Run(start, obs, limit)[a]
    requires forall m :: a <= m <= b ==> h !in obs[m].busy
    requires obs[b].now - Run(start, obs, limit)[a][h] > limit
    ensures exists m :: a <= m <= b && h in Reported(Run(start, obs, limit)[m], obs[m], limit)
    decreases b - a
  {
    var states := Run(start, obs, limit);
    var o := obs[a];
    TickPerHost(states[a], o.now, o.hostNames, o.busy, limit, h);
    if h !in Reported(states[a], o, limit) {
      StreakReported(start, obs, limit, a + 1, b, h);
    }
  }

  /**
    A host idle at t=0, busy at t=900 and idle again from t=901 on, with a
    30-minute timeout: its streak restarts at t=901, so it is not reported at
    t=2700 (1799 s) and is reported at t=2702 (1801 s).
  */
  lemma FlappingHost()
    ensures var h, limit := "node001", IdleLimit(30);
      var obs := [Observation(0, {h}, {}), Observation(900, {h}, {h}), Observation(901, {h}, {}),
                  Observation(2700, {h}, {}), Observation(2702, {h}, {})];
      var states := Run(map[], obs, limit);
      && h !in Reported(states[3], obs[3], limit)
      && h in Reported(states[4], obs[4], limit)
      && h !in states[5]
  {
    var h, limit := "node001", IdleLimit(30);
    var obs := [Observation(0, {h}, {}), Observation(900, {h}, {h}), Observation(901, {h}, {}),
                Observation(2700, {h}, {}), Observation(2702, {h}, {})];
    var states := Run(map[], obs, limit);
    TickPerHost(states[0], 0, {h}, {}, limit, h);
    TickPerHost(states[1], 900, {h}, {h}, limit, h);
    TickPerHost(states[2], 901, {h}, {}, limit, h);
    TickPerHost(states[3], 2700, {h}, {}, limit, h);
    TickPerHost(states[4], 2702, {h}, {}, limit, h);
  }

  /**
    Two hosts idle from t=0 with a 30-minute timeout: both are reported at
    t=1801 and lose their timers, and at t=1802 each starts a fresh streak.
  */
  lemma TwoIdleHosts()
    ensures var hosts, limit := {"node001", "node002"}, IdleLimit(30);
      var s1 := Next(map[], 0, hosts, {}, limit);
      && Removed(map[], 0, hosts, {}, limit) == {}
      && Removed(s1, 1801, hosts, {}, limit) == hosts
      && Next(s1, 1801, hosts, {}, limit) == map[]
      && Removed(map[], 1802, hosts, {}, limit) == {}
      && Next(map[], 1802, hosts, {}, limit) == map["node001" := 1802, "node002" := 1802]
  {
  }

  /** The streaks the two hosts started at t=1802 are overdue at t=3603: both are reported again. */
  lemma FreshStreaksOverdue()
    ensures var hosts, limit := {"node001", "node002"}, IdleLimit(30);
      var s := map["node001" := 1802, "node002" := 1802];
      && Removed(s, 3603, hosts, {}, limit) == hosts
      && Next(s, 3603, hosts, {}, limit) == map[]
  {
  }
}
