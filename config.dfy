/**
  The load balancer's static cluster configuration: one scaling policy per
  grid-engine queue, and the minimum age below which a node is not terminated.
*/
module Config {

  /**
    A queue's scaling shape: the instance type launched by default, the capacity
    weight (slots) of each instance type the queue may use, and the most nodes
    it may run.
  */
  datatype QueuePolicy = QueuePolicy(name: string, defaultType: string, slots: map<string, int>, maxNodes: int)

  /** The shape every policy of the table is meant to have. */
  predicate WellFormed(q: QueuePolicy)
  {
    && |q.slots| > 0
    && q.defaultType in q.slots
    && (forall t :: t in q.slots ==> q.slots[t] > 0)
    && q.maxNodes >= 1
  }

  const Queues: seq<QueuePolicy> := [
    QueuePolicy("cpu.q", "c5.4xlarge",
      map["c4.xlarge" := 1, "c5.2xlarge" := 2, "c5.4xlarge" := 4, "c5.9xlarge" := 9], 8),
    QueuePolicy("gpu.q", "p3.2xlarge",
      map["p3.2xlarge" := 1, "p3.8xlarge" := 4, "p2.xlarge" := 1, "p2.8xlarge" := 4], 4),
    QueuePolicy("mem.q", "c5.18xlarge",
      map["m4.16xlarge" := 1, "c5.18xlarge" := 1, "c5.24xlarge" := 1], 3)
  ]

  /** Don't terminate a node younger than this many minutes. */
  const MinAgeMinutes: int := 30

  /** Every policy in the table is well formed. */
  lemma QueuesWellFormed()
    ensures forall i :: 0 <= i < |Queues| ==> WellFormed(Queues[i])
  {
  }

  /** Three queues, `cpu.q`, `gpu.q` and `mem.q`, with distinct names. */
  lemma QueueNames()
    ensures |Queues| == 3
    ensures Queues[0].name == "cpu.q" && Queues[1].name == "gpu.q" && Queues[2].name == "mem.q"
    ensures forall i, j :: 0 <= i < j < |Queues| ==> Queues[i].name != Queues[j].name
  {
  }

  /** The default instance types, their weights, and the node limits. */
  lemma QueueDefaults()
    ensures Queues[0].defaultType == "c5.4xlarge" && Queues[0].slots[Queues[0].defaultType] == 4
    ensures Queues[1].defaultType == "p3.2xlarge" && Queues[1].slots[Queues[1].defaultType] == 1
    ensures Queues[2].defaultType == "c5.18xlarge" && Queues[2].slots[Queues[2].defaultType] == 1
    ensures Queues[0].maxNodes == 8 && Queues[1].maxNodes == 4 && Queues[2].maxNodes == 3
  {
    QueuesWellFormed();
  }

  /** A policy whose default type has no weight is refused. */
  lemma MissingDefaultRefused()
    ensures !WellFormed(QueuePolicy("gpu.q", "p3.2xlarge", map["p2.xlarge" := 1], 4))
  {
  }

  /** The minimum node age is not negative. */
  lemma MinAgeNonNegative()
    ensures MinAgeMinutes == 30 && MinAgeMinutes >= 0
  {
  }
}
