# Idle-host sweep and queue table of starcluster-observatory

This project models two parts of the cluster controller in Dafny.

The first is the idle-host sweep that the API server runs every minute (`check_idle`). The server keeps a dictionary from execution-host name to the time that host was first seen idle. Each sweep does the following:

1. It reads the `qhost` host names and drops the pseudo-host `global`.
2. It takes the host part of every job's queue name (`queue@host`) as the busy hosts.
3. It deletes the timers of busy hosts.
4. It starts a timer for every idle host that has none.
5. It takes out every host whose timer has run for more than `idle_timeout` minutes.
6. It asks the cluster manager to remove each of those hosts. It catches a failed removal and goes on with the next host.

The sweep is the class `IdleSweeper.Sweeper`. Its field `idleHosts` is the dictionary. Its method `CheckIdle` has one helper method per loop of the source. `CheckIdle` and the three helpers that change the timers are proved against pure functions in `IdleSpec`: `Next` gives the timers after a sweep and `Removed` gives the hosts it reports. `RemoveNodes` changes no timer; its contract states each removal attempt directly in terms of its inputs. The lemmas in `IdleSpec` then state what the bookkeeping guarantees, both for one sweep and over a run of sweeps (`Run`). `QueueName` models Python's `str.split('@')`, its inverse `join`, and the host extraction. `Snapshot` derives the host set and the busy-host set.

The outside world enters `CheckIdle` as parameters:
- `timeNow` is the clock, in whole seconds.
- `reportedHosts` is the list of `qhost` names.
- `queueNames` holds the queue names of the jobs in `queued_jobs`. That is the first of the two lists `sge.qstat()` returns; the sweep discards the second list.
- `failing` is the set of hosts whose `remove_node` call raises in this sweep.

Each removal call is recorded as an `Attempt` that holds the cluster, the host and whether the call succeeded.

The second part is the load balancer's static configuration. It is a table of three queue policies, with a name, a default instance type, a map from instance type to capacity weight, and a node limit. It also has a global minimum node age. `Config.WellFormed` states the shape every policy is meant to have, and the lemmas prove that the table has it. The `SGEQueue` class itself is not part of this model, so the predicate describes the table, not any validation code.

In two places the model follows the code rather than what one might expect:
- A queue name without `@` makes `split('@')[1]` raise `IndexError`. Nothing in the code skips such jobs in `queued_jobs`, so the whole sweep ends before any timer changes. This is the `Crashed` outcome. Jobs in the second list that `qstat` returns never reach `split`. `sge` is not part of this model, so the model does not say which jobs each list holds.
- The minimum node age is one global constant, not a field of each policy.

## Model

| member | source | states |
|---|---|---|
| `QueueName.Split` | src/api/api-server.py:110 | `str.split` with an explicit separator always returns at least one piece |
| `QueueName.SplitLength` | src/api/api-server.py:110 | a split has one more piece than the string has separators |
| `QueueName.SplitFreeOf` | src/api/api-server.py:110 | no piece of a split contains the separator |
| `QueueName.JoinSplit` | src/api/api-server.py:110 | joining the pieces with the separator gives back the queue name |
| `QueueName.SplitJoin` | src/api/api-server.py:110 | splitting a join of separator-free pieces gives back the pieces (the other round trip) |
| `QueueName.HostOf` | src/api/api-server.py:110 | `split('@')[1]` yields a host exactly when the name contains `@`, and raises otherwise |
| `QueueName.HostOfIsField` | src/api/api-server.py:110 | the host of a queue name is exactly the text after its first `@`, up to the next `@` or the end (both directions) |
| `Snapshot.HostNames` | src/api/api-server.py:106-107 | every reported name except `global` is a host, `global` never is, and nothing unreported is |
| `Snapshot.BusyHosts` | src/api/api-server.py:108-110 | the busy set exists exactly when every queue name has an `@`, and then it is exactly the hosts of the listed jobs |
| `IdleSpec.IdleLimit` | src/api/api-server.py:123 | the timeout is given in minutes and compared against seconds, as `idle_timeout * 60` |
| `IdleSpec.Removed` | src/api/api-server.py:112-125 | the hosts one sweep reports: the timers left after dropping busy hosts and stamping idle ones, that have run for more than the limit |
| `IdleSpec.Next` | src/api/api-server.py:112-125 | the timers one sweep leaves: the same timers minus every reported host |
| `IdleSpec.BusyHostsCleared` | src/api/api-server.py:112-125 | after a sweep no busy host has a timer or is reported, whether or not `qhost` listed it |
| `IdleSpec.IdleHostsStamped` | src/api/api-server.py:116-119 | an idle host without a timer gets one at `now`, and a host that had one keeps its first-idle time |
| `IdleSpec.RemovedIffOverdue` | src/api/api-server.py:121-125 | a host is reported exactly when its timer has run for strictly more than the limit; a reported host loses its timer, every other timer survives unchanged, and no other timer appears |
| `IdleSpec.TickPerHost` | src/api/api-server.py:112-125 | the whole effect of one sweep on one host, for each case: busy, already timed, newly idle, unknown |
| `IdleSpec.FreshNeverRemoved` | src/api/api-server.py:116-125 | with a non-negative timeout, a host first stamped in a sweep is not reported in that sweep and keeps the new stamp |
| `IdleSpec.VanishedHostKept` | src/api/api-server.py:116-125 | a timer for a host that left the host list without turning busy is neither refreshed nor dropped until it is overdue |
| `IdleSpec.Run` | src/api/api-server.py:101-125 | a run of sweeps starts from the given timers, and each sweep applies to the timers the one before it left |
| `IdleSpec.RestampedAfterReport` | src/api/api-server.py:118-125 | after a host is reported, any later timer it gets was started at or after the next sweep |
| `IdleSpec.ReportsSpaced` | src/api/api-server.py:118-125 | with sweeps in time order, two reports of the same host are separated by more than the limit after the sweep that follows the first one, so each idle streak is reported at most once |
| `IdleSpec.StreakReported` | src/api/api-server.py:112-125 | a timer a host holds while it stays free of jobs is reported, in some sweep up to the first one at which it has run for more than the limit, so every idle streak that crosses the threshold is reported |
| `IdleSpec.FlappingHost` | src/api/api-server.py:112-125 | with a 30-minute timeout, a host idle at t=0, busy at t=900 and idle from t=901 is not reported at t=2700 and is reported at t=2702 |
| `IdleSpec.TwoIdleHosts` | src/api/api-server.py:116-125 | two hosts idle from t=0 are both reported at t=1801 and lose their timers; at t=1802 both get new timers stamped 1802 |
| `IdleSpec.FreshStreaksOverdue` | src/api/api-server.py:121-125 | the two timers stamped at t=1802 are overdue at t=3603: both hosts are reported again and no timer remains |
| `IdleSweeper.Sweeper.constructor` | src/api/api-server.py:101 | the server starts with no idle timers |
| `IdleSweeper.Sweeper.CheckIdle` | src/api/api-server.py:102-130 | a sweep either crashes with the timers untouched, or leaves exactly `Next` and reports exactly `Removed`, without repeats; each reported host gets exactly one removal attempt, in order, whatever the earlier attempts returned |
| `IdleSweeper.Sweeper.DropBusyTimers` | src/api/api-server.py:112-114 | the timers afterwards are those from before, minus the busy hosts |
| `IdleSweeper.Sweeper.StartIdleTimers` | src/api/api-server.py:116-119 | every idle host without a timer gets one at `now`, and all other timers are unchanged |
| `IdleSweeper.Sweeper.TakeOverdue` | src/api/api-server.py:121-125 | returns the overdue hosts, each once, and deletes exactly their timers |
| `IdleSweeper.Sweeper.RemoveNodes` | src/api/api-server.py:126-130 | one `remove_node` attempt per host on the configured cluster, in list order; a failure does not skip the remaining hosts |
| `IdleSweeper.FailedRemovalScenario` | src/api/api-server.py:102-130 | two idle hosts at t=1801: both are attempted and only `node002` fails; no timer remains afterwards (`afterFailure`), so the failed host is not tracked, the sweep at t=1802 reports neither, and at t=3603 both, including `node002`, are reported and attempted again |
| `IdleSweeper.RetryOverdue` | src/api/api-server.py:121-130 | a sweeper holding the two t=1802 timers reports both hosts at t=3603, attempts each once on cluster `dev`, and is left with no timers |
| `Config.Queues` | src/loadbalancer/config.py:5-9 | the three queue policies, with their default types, weight maps and node limits |
| `Config.WellFormed` | src/loadbalancer/config.py:5-9 | a policy has a non-empty weight map that holds its default type, only positive weights, and at least one node |
| `Config.MinAgeMinutes` | src/loadbalancer/config.py:11-12 | the minimum node age, 30 minutes |
| `Config.QueuesWellFormed` | src/loadbalancer/config.py:5-9 | every policy has a non-empty weight map holding its default type, only positive weights, and at least one node |
| `Config.QueueNames` | src/loadbalancer/config.py:5-9 | the table holds exactly `cpu.q`, `gpu.q` and `mem.q`, with distinct names |
| `Config.QueueDefaults` | src/loadbalancer/config.py:6-8 | the default types are `c5.4xlarge`, `p3.2xlarge` and `c5.18xlarge`, they weigh 4, 1 and 1, and the node limits are 8, 4 and 3 |
| `Config.MissingDefaultRefused` | src/loadbalancer/config.py:5-9 | the shape predicate refuses a policy whose default type has no weight |
| `Config.MinAgeNonNegative` | src/loadbalancer/config.py:11-12 | the minimum node age is 30 minutes, which is not negative |

## Left out

- The Flask routes `/status`, `/qhost`, `/qstat`, `/nodes/add` and `/nodes/<alias>/remove` (src/api/api-server.py:25-91) are left out. They only wrap tool calls in JSON replies.
- Argument parsing is left out. `idle_timeout` and `cluster_name` are constants of the `Sweeper` object.
- The scheduler thread, `schedule.every(60)` and `app.run` are left out because they are about concurrency and timing. `IdleSpec.Run` stands for the sequence of sweeps they drive.
- IdleSpec.Run: covers only sweeps that complete. It has no place for a `Crashed` sweep. `run_schedule` does not catch exceptions from `schedule.run_pending()`, so whether sweeps go on after one raises depends on the `schedule` library, which is not part of this model.
- The grid-engine and cluster-manager calls (`sge.qhost`, `sge.qstat`, `starcluster.remove_node`) are not part of this model. Only their results are inputs. An exception raised by `qhost` or `qstat`, or any `remove_node` exception other than a failed subprocess, would end the sweep. That is not modelled.
- `time.time()` returns a float. The model uses whole seconds.
- The `print` logging of each sweep and of each failed removal is left out. A failure is visible only as an `Attempt` with `succeeded` false.
- IdleSweeper.Sweeper.TakeOverdue: the order of the reported hosts is not fixed. Python reports them in the dictionary's insertion order, but the model picks any order. It proves only that the list holds the overdue hosts with no repeats.
- IdleSweeper.Sweeper.CheckIdle: the order in which the busy and idle sets are traversed is not modelled. Those loops are order-independent, and the contract states their exact result.
- The `SGEQueue` class, any validation it performs, and any price cache are not part of this model. The queue table is checked against `Config.WellFormed` instead.
