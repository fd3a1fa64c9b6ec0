/** The background job registry: a FIFO pool that runs at most `cap` jobs at once.

    Three critical sections change the registry: accepting a job, pumping the queue, and
    recording a completion.  The pump that follows an acceptance or a completion takes the
    lock again, so other threads may run in between; the step machine in the second half
    of this module lets them. */
module JobRegistry {
  import opened Wrappers

  const MAX_RETAINED_JOBS: nat := 256

  datatype JobState = Queued | Running | Succeeded | Failed

  /** `pending` stands for the boxed closure, present until a worker slot takes it. */
  datatype Job = Job(name: string, state: JobState, output: string, pending: bool)
  {
    predicate Finished() {
      state == Succeeded || state == Failed
    }
  }

  datatype Outcome = Outcome(success: bool, output: string)

  /** The interior the mutex guards.  A job id prints its sequence number, so it is that. */
  datatype Inner = Inner(
    jobs: map<nat, Job>,
    order: seq<nat>,
    queue: seq<nat>,
    running: nat,
    cap: nat,
    sequence: nat)

  // ----- Specification of the critical sections -----

  predicate FinishedIn(jobs: map<nat, Job>, id: nat)
  {
    id in jobs && jobs[id].Finished()
  }

  /** Position of the first finished job in submission order. */
  function FirstFinished(jobs: map<nat, Job>, order: seq<nat>): (i: Option<nat>)
    ensures i.Some? ==> i.value < |order| && FinishedIn(jobs, order[i.value])
    ensures i.Some? ==> forall k :: 0 <= k < i.value ==> !FinishedIn(jobs, order[k])
    ensures i.None? ==> forall k :: 0 <= k < |order| ==> !FinishedIn(jobs, order[k])
  {
    if order == [] then None
    else if FinishedIn(jobs, order[0]) then Some(0)
    else match FirstFinished(jobs, order[1..])
      case None => None
      case Some(i) => Some(i + 1)
  }

  function Evicted(r: Inner): Inner
    decreases |r.order|
  {
    if |r.order| <= MAX_RETAINED_JOBS then r
    else match FirstFinished(r.jobs, r.order)
      case None => r
      case Some(i) => Evicted(WithoutAt(r, i))
  }

  function WithoutAt(r: Inner, i: nat): Inner
    requires i < |r.order|
  {
    r.(order := r.order[..i] + r.order[i + 1..], jobs := r.jobs - {r.order[i]})
  }

  function Accepted(r: Inner, name: string): Inner
  {
    var id := r.sequence + 1;
    Evicted(r.(sequence := id,
               jobs := r.jobs[id := Job(name, Queued, "", true)],
               order := r.order + [id],
               queue := r.queue + [id]))
  }

  /** The registry after a pump, and the jobs handed to worker threads, in order. */
  function Pumped(r: Inner): (Inner, seq<nat>)
    decreases |r.queue|
  {
    if r.running >= r.cap || r.queue == [] then (r, [])
    else
      var id := r.queue[0];
      var rest := r.(queue := r.queue[1..]);
      if id !in r.jobs || !r.jobs[id].pending then Pumped(rest)
      else
        var (after, spawned) := Pumped(Launched(rest, id));
        (after, [id] + spawned)
  }

  function Launched(r: Inner, id: nat): Inner
    requires id in r.jobs
  {
    r.(jobs := r.jobs[id := r.jobs[id].(state := Running, pending := false)],
       running := r.running + 1)
  }

  function Completed(r: Inner, id: nat, outcome: Outcome): Inner
  {
    if id !in r.jobs then r
    else r.(jobs := r.jobs[id := r.jobs[id].(state := if outcome.success then Succeeded else Failed,
                                             output := outcome.output)],
            running := if r.running > 0 then r.running - 1 else 0)
  }

  // ----- The registry -----

  class Registry {
    var jobs: map<nat, Job>
    var order: seq<nat>
    var queue: seq<nat>
    var running: nat
    const maxConcurrent: nat
    var sequence: nat

    function Value(): Inner
      reads this
    {
      Inner(jobs, order, queue, running, maxConcurrent, sequence)
    }

    constructor (maxConcurrent: nat)
      ensures Value() == Inner(map[], [], [], 0, if maxConcurrent >= 1 then maxConcurrent else 1, 0)
    {
      this.maxConcurrent := if maxConcurrent >= 1 then maxConcurrent else 1;
      jobs, order, queue, running, sequence := map[], [], [], 0, 0;
    }

    /** The scan `evict` makes for a victim. */
    method OldestFinished() returns (victim: Option<nat>)
      ensures victim == FirstFinished(jobs, order)
    {
      victim := None;
      var i := 0;
      while i < |order| && victim.None?
        invariant i <= |order|
        invariant victim.None? ==> forall k :: 0 <= k < i ==> !FinishedIn(jobs, order[k])
        invariant victim.Some? ==> victim.value < |order| && FinishedIn(jobs, order[victim.value])
        invariant victim.Some? ==> forall k :: 0 <= k < victim.value ==> !FinishedIn(jobs, order[k])
      {
        if order[i] in jobs && jobs[order[i]].Finished() {
          victim := Some(i);
        }
        i := i + 1;
      }
    }

    method Evict()
      modifies this
      ensures Value() == Evicted(old(Value()))
    {
      while |order| > MAX_RETAINED_JOBS
        invariant Evicted(Value()) == Evicted(old(Value()))
        decreases |order|
      {
        var victim := OldestFinished();
        if victim.None? {
          break;
        }
        var id := order[victim.value];
        order := order[..victim.value] + order[victim.value + 1..];
        jobs := jobs - {id};
      }
    }

    /** The critical section of `start`; the pump that follows is a separate one. */
    method Accept(name: string) returns (id: nat)
      modifies this
      ensures Value() == Accepted(old(Value()), name)
      ensures id == old(sequence) + 1
    {
      sequence := sequence + 1;
      id := sequence;
      jobs := jobs[id := Job(name, Queued, "", true)];
      order := order + [id];
      queue := queue + [id];
      Evict();
    }

    method Pump() returns (spawned: seq<nat>)
      modifies this
      ensures (Value(), spawned) == Pumped(old(Value()))
    {
      spawned := [];
      assert [] + Pumped(Value()).1 == Pumped(Value()).1;
      while running < maxConcurrent && queue != []
        invariant var (after, more) := Pumped(Value()); Pumped(old(Value())) == (after, spawned + more)
        decreases |queue|
      {
        var id := queue[0];
        ghost var before := Value();
        queue := queue[1..];
        if id in jobs && jobs[id].pending {
          jobs := jobs[id := jobs[id].(state := Running, pending := false)];
          running := running + 1;
          ghost var more := Pumped(Value()).1;
          assert Pumped(before).1 == [id] + more;
          assert spawned + ([id] + more) == (spawned + [id]) + more;
          spawned := spawned + [id];
        }
      }
      assert spawned + [] == spawned;
    }

    method Complete(id: nat, outcome: Outcome)
      modifies this
      ensures Value() == Completed(old(Value()), id, outcome)
    {
      if id in jobs {
        jobs := jobs[id := jobs[id].(state := if outcome.success then Succeeded else Failed,
                                     output := outcome.output)];
        running := if running > 0 then running - 1 else 0;
      }
    }

    /** `JOB LIST`: the retained jobs, oldest first. */
    method List() returns (rows: seq<(nat, Job)>)
      ensures rows == Listed(jobs, order)
    {
      rows := [];
      for i := 0 to |order|
        invariant rows == Listed(jobs, order[..i])
      {
        assert order[..i + 1][..i] == order[..i];
        if order[i] in jobs {
          rows := rows + [(order[i], jobs[order[i]])];
        }
      }
      assert order[..|order|] == order;
    }
  }

  function Listed(jobs: map<nat, Job>, order: seq<nat>): seq<(nat, Job)>
  {
    if order == [] then []
    else
      var last := order[|order| - 1];
      Listed(jobs, order[..|order| - 1]) + (if last in jobs then [(last, jobs[last])] else [])
  }

  // ----- All interleavings -----

  /** The registry together with the threads around it. */
  datatype System = System(
    reg: Inner,
    owed: nat,                     // threads between their own critical section and its pump
    live: set<nat>,                // jobs whose worker has not yet recorded an outcome
    submitted: seq<nat>,           // every id handed out, in order
    names: map<nat, string>,       // the name each was submitted under
    started: seq<nat>,             // every id handed to a worker, in order
    outcomes: map<nat, Outcome>)   // what each ended job reported

  datatype Step = Accept(name: string) | Pump | Complete(id: nat, outcome: Outcome)

  function Initial(maxConcurrent: nat): System
  {
    System(Inner(map[], [], [], 0, if maxConcurrent >= 1 then maxConcurrent else 1, 0),
           0, {}, [], map[], [], map[])
  }

  predicate Enabled(s: System, step: Step)
  {
    match step
    case Accept(_) => true
    case Pump => s.owed > 0
    case Complete(id, _) => id in s.live
  }

  function Next(s: System, step: Step): System
    requires Enabled(s, step)
  {
    match step
    case Accept(name) =>
      s.(reg := Accepted(s.reg, name), owed := s.owed + 1, submitted := s.submitted + [s.reg.sequence + 1],
         names := s.names[s.reg.sequence + 1 := name])
    case Pump =>
      AfterPump(s).(owed := s.owed - 1)
    case Complete(id, outcome) =>
      s.(reg := Completed(s.reg, id, outcome), owed := s.owed + 1,
         live := s.live - {id}, outcomes := s.outcomes[id := outcome])
  }

  predicate Schedule(s: System, steps: seq<Step>)
    decreases |steps|
  {
    steps == [] || (Enabled(s, steps[0]) && Schedule(Next(s, steps[0]), steps[1..]))
  }

  function Run(s: System, steps: seq<Step>): System
    requires Schedule(s, steps)
    decreases |steps|
  {
    if steps == [] then s else Run(Next(s, steps[0]), steps[1..])
  }

  // ----- The invariant -----

  ghost predicate Ascending(ids: seq<nat>)
  {
    forall i, j :: 0 <= i < j < |ids| ==> ids[i] < ids[j]
  }

  /** Ids are handed out as 1, 2, 3, …; jobs start in that order, and the rest are queued. */
  ghost predicate HistoryAgrees(s: System)
  {
    && s.started + s.reg.queue == s.submitted
    && |s.submitted| == s.reg.sequence
    && (forall i :: 0 <= i < |s.submitted| ==> s.submitted[i] == i + 1)
  }

  ghost predicate CountsAgree(s: System)
  {
    1 <= s.reg.cap && s.reg.running == |s.live| <= s.reg.cap
  }

  /** Where the record of a job can be missing: only after it ended. */
  ghost predicate PopulationAgrees(s: System)
  {
    && (forall id :: id in s.reg.jobs ==> id in s.submitted)
    && (forall id :: id in s.submitted ==> id in s.reg.jobs || id in s.outcomes)
    && (forall id :: id in s.reg.queue ==> id in s.reg.jobs)
    && (forall id :: id in s.live ==> id in s.reg.jobs && id in s.started)
    && (forall id :: id in s.outcomes ==> id in s.started && id !in s.live)
  }

  /** A record says what happened to its job. */
  ghost predicate RecordAgrees(s: System, id: nat)
    requires id in s.reg.jobs
  {
    var job := s.reg.jobs[id];
    && (job.state == Queued <==> id in s.reg.queue)
    && (job.pending <==> id in s.reg.queue)
    && (job.state == Running <==> id in s.live)
    && (job.Finished() <==> id in s.outcomes)
    && (id in s.outcomes ==>
          job.state == (if s.outcomes[id].success then Succeeded else Failed)
          && job.output == s.outcomes[id].output)
    && (id !in s.outcomes ==> job.output == "")
    && id in s.names && job.name == s.names[id]
  }

  ghost predicate RecordsAgree(s: System)
  {
    forall id :: id in s.reg.jobs ==> RecordAgrees(s, id)
  }

  ghost predicate OrderAgrees(s: System)
  {
    Ascending(s.reg.order) && forall id :: id in s.reg.order <==> id in s.reg.jobs
  }

  ghost predicate Core(s: System)
  {
    HistoryAgrees(s) && CountsAgree(s) && PopulationAgrees(s) && RecordsAgree(s) && OrderAgrees(s)
  }

  /** A free slot and a waiting job mean some thread still has a pump to run. */
  ghost predicate NoLostWakeup(s: System)
  {
    s.reg.queue != [] && s.reg.running < s.reg.cap ==> s.owed > 0
  }

  lemma HeadIsNew(s: System)
    requires HistoryAgrees(s) && s.reg.queue != []
    ensures s.reg.queue[0] !in s.started && s.reg.queue[0] !in s.reg.queue[1..]
  {
    var n := |s.started|;
    assert forall i :: 0 <= i < |s.started| ==> s.started[i] == s.submitted[i] == i + 1;
    assert forall i :: 0 <= i < |s.reg.queue| ==> s.reg.queue[i] == s.submitted[n + i] == n + i + 1;
  }

  /** Moving the head of the queue to a worker. */
  function LaunchHead(s: System): System
    requires s.reg.queue != [] && s.reg.queue[0] in s.reg.jobs
  {
    var id := s.reg.queue[0];
    s.(reg := Launched(s.reg.(queue := s.reg.queue[1..]), id),
       live := s.live + {id}, started := s.started + [id])
  }

  lemma HeadIsWaiting(s: System)
    requires Core(s) && s.reg.queue != []
    ensures var id := s.reg.queue[0];
            && id in s.reg.jobs && s.reg.jobs[id].pending
            && id !in s.live && id !in s.outcomes
            && id !in s.started && id !in s.reg.queue[1..]
  {
    HeadIsNew(s);
    var id := s.reg.queue[0];
    assert id in s.reg.queue;
    assert RecordAgrees(s, id);
  }

  lemma LaunchHeadKeepsHistory(s: System)
    requires Core(s) && s.reg.queue != [] && s.reg.running < s.reg.cap
    requires s.reg.queue[0] in s.reg.jobs && s.reg.queue[0] !in s.live
    ensures HistoryAgrees(LaunchHead(s)) && CountsAgree(LaunchHead(s))
  {
    assert LaunchHead(s).started + LaunchHead(s).reg.queue == s.submitted;
  }

  lemma LaunchHeadKeepsPopulation(s: System)
    requires Core(s) && s.reg.queue != [] && s.reg.queue[0] in s.reg.jobs
    requires s.reg.queue[0] !in s.outcomes
    ensures PopulationAgrees(LaunchHead(s)) && OrderAgrees(LaunchHead(s))
  {
    var id, t := s.reg.queue[0], LaunchHead(s);
    assert t.reg.jobs.Keys == s.reg.jobs.Keys;
    assert id in t.started by { assert t.started[|s.started|] == id; }
    assert forall k :: k in s.started ==> k in t.started;
    assert forall k :: k in t.reg.queue ==> k in s.reg.queue;
  }

  lemma LaunchHeadKeepsRecord(s: System, k: nat)
    requires s.reg.queue != [] && s.reg.queue[0] in s.reg.jobs && k in s.reg.jobs && RecordAgrees(s, k)
    requires var id := s.reg.queue[0]; id !in s.outcomes && id !in s.reg.queue[1..]
    ensures RecordAgrees(LaunchHead(s), k)
  {
    var id, t := s.reg.queue[0], LaunchHead(s);
    assert s.reg.queue == [id] + t.reg.queue;
    assert k != id ==> (k in s.reg.queue <==> k in t.reg.queue);
  }

  lemma LaunchHeadKeepsRecords(s: System)
    requires RecordsAgree(s) && s.reg.queue != [] && s.reg.queue[0] in s.reg.jobs
    requires var id := s.reg.queue[0]; id !in s.outcomes && id !in s.reg.queue[1..]
    ensures RecordsAgree(LaunchHead(s))
  {
    hide RecordAgrees;
    forall k | k in LaunchHead(s).reg.jobs ensures RecordAgrees(LaunchHead(s), k) {
      LaunchHeadKeepsRecord(s, k);
    }
  }

  lemma LaunchHeadKeepsCore(s: System)
    requires Core(s) && s.reg.queue != [] && s.reg.running < s.reg.cap
    ensures s.reg.queue[0] in s.reg.jobs && s.reg.jobs[s.reg.queue[0]].pending
    ensures Core(LaunchHead(s))
  {
    HeadIsWaiting(s);
    LaunchHeadKeepsHistory(s);
    LaunchHeadKeepsPopulation(s);
    LaunchHeadKeepsRecords(s);
  }

  /** The effect of a pump on the system. */
  function AfterPump(s: System): System
  {
    var (reg, spawned) := Pumped(s.reg);
    s.(reg := reg, live := s.live + Elements(spawned), started := s.started + spawned)
  }

  lemma PumpStepwise(s: System)
    requires s.reg.queue != [] && s.reg.running < s.reg.cap
    requires s.reg.queue[0] in s.reg.jobs && s.reg.jobs[s.reg.queue[0]].pending
    ensures Pumped(s.reg).1 == [s.reg.queue[0]] + Pumped(LaunchHead(s).reg).1
    ensures AfterPump(s) == AfterPump(LaunchHead(s))
  {
    var t := LaunchHead(s);
    var (reg, more) := Pumped(t.reg);
    var spawned := [s.reg.queue[0]] + more;
    assert Pumped(s.reg) == (reg, spawned);
    assert t.live + Elements(more) == s.live + Elements(spawned);
    assert t.started + more == s.started + spawned;
  }

  lemma {:induction false} PumpKeepsCore(s: System)
    requires Core(s)
    ensures Core(AfterPump(s))
    decreases |s.reg.queue|
  {
    if s.reg.running >= s.reg.cap || s.reg.queue == [] {
      assert s.live + Elements([]) == s.live;
      assert s.started + [] == s.started;
    } else {
      LaunchHeadKeepsCore(s);
      PumpStepwise(s);
      PumpKeepsCore(LaunchHead(s));
    }
  }

  /** The oldest waiting jobs went to workers, one for each free slot. */
  predicate TookOldest(r: Inner, after: Inner, spawned: seq<nat>)
    requires r.running <= r.cap
  {
    var n := Min(|r.queue|, r.cap - r.running);
    && spawned == r.queue[..n]
    && after.queue == r.queue[n..]
    && after.running == r.running + n
    && after.order == r.order && after.sequence == r.sequence && after.cap == r.cap
  }

  lemma TookOneMore(r: Inner, t: Inner, after: Inner, more: seq<nat>)
    requires r.running < r.cap && r.queue != []
    requires t.queue == r.queue[1..] && t.running == r.running + 1
    requires t.order == r.order && t.sequence == r.sequence && t.cap == r.cap
    requires TookOldest(t, after, more)
    ensures TookOldest(r, after, [r.queue[0]] + more)
  {
    var n := Min(|t.queue|, t.cap - t.running);
    assert r.queue[..n + 1] == [r.queue[0]] + t.queue[..n];
    assert r.queue[n + 1..] == t.queue[n..];
  }

  /** The branches of a pump for a missing record or a taken closure never run: it hands
      over as many of the oldest waiting jobs as there are free slots. */
  lemma {:induction false} PumpTakesOldest(s: System)
    requires Core(s)
    ensures TookOldest(s.reg, Pumped(s.reg).0, Pumped(s.reg).1)
    decreases |s.reg.queue|
  {
    if s.reg.running < s.reg.cap && s.reg.queue != [] {
      LaunchHeadKeepsCore(s);
      PumpStepwise(s);
      var t := LaunchHead(s);
      PumpTakesOldest(t);
      TookOneMore(s.reg, t.reg, Pumped(s.reg).0, Pumped(t.reg).1);
    }
  }

  // ----- Eviction -----

  /** The finished jobs among `order`, oldest first. */
  function FinishedOf(jobs: map<nat, Job>, order: seq<nat>): seq<nat>
  {
    if order == [] then []
    else (if FinishedIn(jobs, order[0]) then [order[0]] else []) + FinishedOf(jobs, order[1..])
  }

  function Without(order: seq<nat>, gone: set<nat>): seq<nat>
  {
    if order == [] then []
    else (if order[0] in gone then [] else [order[0]]) + Without(order[1..], gone)
  }

  lemma {:induction false} FinishedOfSplit(jobs: map<nat, Job>, a: seq<nat>, b: seq<nat>)
    ensures FinishedOf(jobs, a + b) == FinishedOf(jobs, a) + FinishedOf(jobs, b)
  {
    if a == [] {
      assert a + b == b;
    } else {
      assert (a + b)[1..] == a[1..] + b;
      FinishedOfSplit(jobs, a[1..], b);
    }
  }

  lemma {:induction false} NoneFinished(jobs: map<nat, Job>, order: seq<nat>)
    requires forall k :: 0 <= k < |order| ==> !FinishedIn(jobs, order[k])
    ensures FinishedOf(jobs, order) == []
  {
    if order != [] {
      NoneFinished(jobs, order[1..]);
    }
  }

  lemma {:induction false} FinishedElsewhere(jobs: map<nat, Job>, order: seq<nat>, id: nat)
    requires id !in order
    ensures FinishedOf(jobs - {id}, order) == FinishedOf(jobs, order)
  {
    if order != [] {
      assert order[0] in order;
      FinishedElsewhere(jobs, order[1..], id);
    }
  }

  lemma {:induction false} WithoutSplit(a: seq<nat>, b: seq<nat>, gone: set<nat>)
    ensures Without(a + b, gone) == Without(a, gone) + Without(b, gone)
  {
    if a == [] {
      assert a + b == b;
    } else {
      assert (a + b)[1..] == a[1..] + b;
      WithoutSplit(a[1..], b, gone);
    }
  }

  /** Removing `id` first changes nothing where it does not occur. */
  lemma {:induction false} WithoutElsewhere(order: seq<nat>, id: nat, gone: set<nat>)
    requires id !in order
    ensures Without(order, gone) == Without(order, gone + {id})
  {
    if order != [] {
      assert order[0] in order;
      WithoutElsewhere(order[1..], id, gone);
    }
  }

  lemma {:induction false} WithoutNothing(order: seq<nat>)
    ensures Without(order, {}) == order
  {
    if order != [] {
      WithoutNothing(order[1..]);
    }
  }

  lemma RemoveAtIsWithout(order: seq<nat>, i: nat, gone: set<nat>)
    requires i < |order| && Distinct(order)
    ensures Without(order[..i] + order[i + 1..], gone) == Without(order, gone + {order[i]})
  {
    var a, id, b := order[..i], order[i], order[i + 1..];
    assert order == a + ([id] + b);
    WithoutSplit(a, [id] + b, gone + {id});
    WithoutSplit([id], b, gone + {id});
    WithoutSplit(a, b, gone);
    WithoutElsewhere(a, id, gone);
    WithoutElsewhere(b, id, gone);
  }

  lemma RemovedHead(jobs: map<nat, Job>, order: seq<nat>, i: nat)
    requires i < |order| && Distinct(order) && FinishedIn(jobs, order[i])
    requires forall k :: 0 <= k < i ==> !FinishedIn(jobs, order[k])
    ensures FinishedOf(jobs, order) == [order[i]] + FinishedOf(jobs - {order[i]}, order[..i] + order[i + 1..])
  {
    var a, id, b := order[..i], order[i], order[i + 1..];
    assert order == a + ([id] + b);
    FinishedOfSplit(jobs, a, [id] + b);
    FinishedOfSplit(jobs, [id], b);
    NoneFinished(jobs, a);
    FinishedOfSplit(jobs - {id}, a, b);
    FinishedElsewhere(jobs, a, id);
    FinishedElsewhere(jobs, b, id);
  }

  /** How many records eviction drops: the excess over the cap, if that many have finished. */
  function EvictionCount(r: Inner): nat
  {
    Min(|FinishedOf(r.jobs, r.order)|,
        if |r.order| > MAX_RETAINED_JOBS then |r.order| - MAX_RETAINED_JOBS else 0)
  }

  function Dropped(r: Inner): set<nat>
  {
    Elements(FinishedOf(r.jobs, r.order)[..EvictionCount(r)])
  }

  lemma DroppedStepwise(r: Inner, i: nat)
    requires Distinct(r.order) && |r.order| > MAX_RETAINED_JOBS
    requires i < |r.order| && FinishedIn(r.jobs, r.order[i])
    requires forall k :: 0 <= k < i ==> !FinishedIn(r.jobs, r.order[k])
    ensures Dropped(r) == Dropped(WithoutAt(r, i)) + {r.order[i]}
  {
    var next := WithoutAt(r, i);
    RemovedHead(r.jobs, r.order, i);
    assert FinishedOf(r.jobs, r.order)[..EvictionCount(r)]
        == [r.order[i]] + FinishedOf(next.jobs, next.order)[..EvictionCount(next)];
  }

  function DropFrom(r: Inner, gone: set<nat>): Inner
  {
    r.(order := Without(r.order, gone), jobs := r.jobs - gone)
  }

  lemma DropOneMore(r: Inner, i: nat, rest: set<nat>)
    requires i < |r.order| && Distinct(r.order)
    ensures DropFrom(WithoutAt(r, i), rest) == DropFrom(r, rest + {r.order[i]})
  {
    RemoveAtIsWithout(r.order, i, rest);
    assert WithoutAt(r, i).jobs - rest == r.jobs - (rest + {r.order[i]});
  }

  lemma DropNone(r: Inner)
    requires |r.order| <= MAX_RETAINED_JOBS || FirstFinished(r.jobs, r.order).None?
    ensures Evicted(r) == r == DropFrom(r, Dropped(r))
  {
    if |r.order| > MAX_RETAINED_JOBS {
      NoneFinished(r.jobs, r.order);
    }
    assert Dropped(r) == {};
    WithoutNothing(r.order);
  }

  /** Eviction drops the oldest finished jobs, no other record, and no more than needed. */
  lemma {:induction false} EvictionDropsOldestFinished(r: Inner)
    requires Distinct(r.order)
    ensures Evicted(r) == DropFrom(r, Dropped(r))
    decreases |r.order|
  {
    if |r.order| > MAX_RETAINED_JOBS && FirstFinished(r.jobs, r.order).Some? {
      var i := FirstFinished(r.jobs, r.order).value;
      DroppedStepwise(r, i);
      DropOneMore(r, i, Dropped(WithoutAt(r, i)));
      EvictionDropsOldestFinished(WithoutAt(r, i));
    } else {
      DropNone(r);
    }
  }

  // ----- Oldest means submitted first -----

  lemma {:induction false} FinishedOfAscends(jobs: map<nat, Job>, order: seq<nat>)
    requires Ascending(order)
    ensures Ascending(FinishedOf(jobs, order))
    ensures forall id :: id in FinishedOf(jobs, order) <==> id in order && FinishedIn(jobs, id)
  {
    if order != [] {
      assert order == [order[0]] + order[1..];
      FinishedOfAscends(jobs, order[1..]);
      assert forall id :: id in order[1..] ==> order[0] < id;
      var rest := FinishedOf(jobs, order[1..]);
      assert forall k :: 0 <= k < |rest| ==> rest[k] in rest;
    }
  }

  /** What eviction takes ended, and was submitted before every ended job it leaves. */
  lemma EvictionIsByAge(r: Inner, dropped: nat, kept: nat)
    requires Ascending(r.order) && forall id :: id in r.order <==> id in r.jobs
    requires dropped in r.jobs && dropped !in Evicted(r).jobs
    requires FinishedIn(Evicted(r).jobs, kept)
    ensures FinishedIn(r.jobs, dropped) && dropped < kept
  {
    EvictionDropsOldestFinished(r);
    FinishedOfAscends(r.jobs, r.order);
    var ended, n := FinishedOf(r.jobs, r.order), EvictionCount(r);
    hide Evicted, EvictionCount, FinishedOf, Without;
    assert kept in ended && kept !in Elements(ended[..n]);
    assert dropped in ended[..n];
    PrefixIsBefore(ended, n, dropped, kept);
  }

  lemma PrefixIsBefore(ids: seq<nat>, n: nat, a: nat, b: nat)
    requires Ascending(ids) && n <= |ids| && a in ids[..n] && b in ids && b !in ids[..n]
    ensures a < b && a in ids
  {
    var i :| 0 <= i < n && ids[..n][i] == a;
    var j :| 0 <= j < |ids| && ids[j] == b;
    assert forall k :: 0 <= k < n ==> ids[k] in ids[..n];
  }

  lemma {:induction false} ListedInOrder(jobs: map<nat, Job>, order: seq<nat>)
    requires forall id :: id in order ==> id in jobs
    ensures |Listed(jobs, order)| == |order|
    ensures forall k :: 0 <= k < |order| ==> order[k] in jobs && Listed(jobs, order)[k] == (order[k], jobs[order[k]])
  {
    if order != [] {
      var init := order[..|order| - 1];
      assert order == init + [order[|order| - 1]];
      ListedInOrder(jobs, init);
    }
  }

  lemma DropKeepsOrder(s: System, i: nat)
    requires OrderAgrees(s) && i < |s.reg.order|
    ensures OrderAgrees(s.(reg := WithoutAt(s.reg, i)))
  {
    var id, t := s.reg.order[i], s.(reg := WithoutAt(s.reg, i));
    assert s.reg.order == s.reg.order[..i] + [id] + s.reg.order[i + 1..];
    assert id !in t.reg.order;
    assert forall k :: k in s.reg.order <==> k in t.reg.order || k == id;
  }

  lemma DropFinishedKeepsRecords(s: System, i: nat)
    requires PopulationAgrees(s) && RecordsAgree(s)
    requires i < |s.reg.order| && FinishedIn(s.reg.jobs, s.reg.order[i])
    ensures PopulationAgrees(s.(reg := WithoutAt(s.reg, i)))
    ensures RecordsAgree(s.(reg := WithoutAt(s.reg, i)))
  {
    var id, t := s.reg.order[i], s.(reg := WithoutAt(s.reg, i));
    assert RecordAgrees(s, id);
    forall k | k in t.reg.jobs ensures RecordAgrees(t, k) {
      assert RecordAgrees(s, k);
    }
  }

  lemma DropFinishedKeepsCore(s: System, i: nat)
    requires Core(s) && i < |s.reg.order| && FinishedIn(s.reg.jobs, s.reg.order[i])
    ensures Core(s.(reg := WithoutAt(s.reg, i)))
  {
    DropKeepsOrder(s, i);
    DropFinishedKeepsRecords(s, i);
  }

  lemma {:induction false} EvictionKeepsCore(s: System)
    requires Core(s)
    ensures Core(s.(reg := Evicted(s.reg)))
    decreases |s.reg.order|
  {
    hide Core;
    if |s.reg.order| > MAX_RETAINED_JOBS {
      match FirstFinished(s.reg.jobs, s.reg.order)
      case None =>
      case Some(i) =>
        DropFinishedKeepsCore(s, i);
        EvictionKeepsCore(s.(reg := WithoutAt(s.reg, i)));
    }
  }

  // ----- Every step keeps the invariant -----

  /** Recording a submission, before eviction. */
  function Recorded(s: System, name: string): System
  {
    var id := s.reg.sequence + 1;
    s.(reg := s.reg.(sequence := id,
                     jobs := s.reg.jobs[id := Job(name, Queued, "", true)],
                     order := s.reg.order + [id],
                     queue := s.reg.queue + [id]),
       submitted := s.submitted + [id], names := s.names[id := name])
  }

  lemma IdIsNew(s: System)
    requires Core(s)
    ensures var id := s.reg.sequence + 1;
            && id !in s.submitted && id !in s.started && id !in s.reg.queue && id !in s.reg.jobs
            && id !in s.reg.order && id !in s.live && id !in s.outcomes
            && forall k :: k in s.reg.order ==> k < id
  {
    var id := s.reg.sequence + 1;
    assert forall i :: 0 <= i < |s.submitted| ==> s.submitted[i] != id;
    assert forall k :: k in s.started ==> k in s.submitted;
    assert forall k :: k in s.reg.queue ==> k in s.submitted;
  }

  lemma RecordedIsAccepted(s: System, name: string)
    ensures Accepted(s.reg, name) == Evicted(Recorded(s, name).reg)
    ensures Recorded(s, name).outcomes == s.outcomes
    ensures forall id :: id in s.reg.jobs ==> id in Recorded(s, name).reg.jobs
  {
  }

  lemma RecordedKeepsOrder(s: System, name: string)
    requires OrderAgrees(s) && forall k :: k in s.reg.order ==> k < s.reg.sequence + 1
    ensures OrderAgrees(Recorded(s, name))
  {
    var id, t := s.reg.sequence + 1, Recorded(s, name);
    assert forall k :: k in t.reg.order <==> k in s.reg.order || k == id;
    assert forall k :: 0 <= k < |s.reg.order| ==> s.reg.order[k] in s.reg.order;
  }

  lemma RecordedKeepsRecords(s: System, name: string)
    requires Core(s)
    requires var id := s.reg.sequence + 1;
      id !in s.started && id !in s.reg.queue && id !in s.live && id !in s.outcomes
    ensures RecordsAgree(Recorded(s, name))
  {
    var id, t := s.reg.sequence + 1, Recorded(s, name);
    forall k | k in t.reg.jobs ensures RecordAgrees(t, k) {
      if k != id {
        assert RecordAgrees(s, k);
      }
    }
  }

  lemma RecordedKeepsPopulation(s: System, name: string)
    requires PopulationAgrees(s)
    requires var id := s.reg.sequence + 1; id !in s.started && id !in s.live && id !in s.outcomes
    ensures PopulationAgrees(Recorded(s, name))
  {
    var id, t := s.reg.sequence + 1, Recorded(s, name);
    assert forall k :: k in t.submitted <==> k in s.submitted || k == id;
    assert forall k :: k in t.reg.queue <==> k in s.reg.queue || k == id;
  }

  lemma RecordedKeepsCore(s: System, name: string)
    requires Core(s)
    ensures Core(Recorded(s, name))
  {
    IdIsNew(s);
    RecordedKeepsRecords(s, name);
    RecordedKeepsOrder(s, name);
    RecordedKeepsPopulation(s, name);
    hide RecordsAgree, OrderAgrees, PopulationAgrees;
    var t := Recorded(s, name);
    assert t.started + t.reg.queue == t.submitted;
  }

  lemma CompleteKeepsCore(s: System, id: nat, outcome: Outcome)
    requires Core(s) && id in s.live
    ensures Core(Next(s, Complete(id, outcome)))
  {
    var t := Next(s, Complete(id, outcome));
    assert RecordAgrees(s, id);
    assert id !in s.reg.queue;
    forall k | k in t.reg.jobs ensures RecordAgrees(t, k) {
      assert RecordAgrees(s, k);
    }
    assert |t.live| == |s.live| - 1;
  }

  lemma CoreIgnoresOwed(s: System, owed: nat)
    requires Core(s)
    ensures Core(s.(owed := owed))
  {
    var t := s.(owed := owed);
    forall k | k in t.reg.jobs ensures RecordAgrees(t, k) {
      assert RecordAgrees(s, k);
    }
  }

  lemma AcceptKeepsCore(s: System, name: string)
    requires Core(s)
    ensures Core(Next(s, Accept(name)))
  {
    hide Core, Evicted;
    var recorded := Recorded(s, name);
    RecordedKeepsCore(s, name);
    EvictionKeepsCore(recorded);
    CoreIgnoresOwed(recorded.(reg := Evicted(recorded.reg)), s.owed + 1);
  }

  lemma PumpStepKeepsCore(s: System)
    requires Core(s) && s.owed > 0
    ensures Core(Next(s, Pump))
  {
    hide Core, Pumped;
    PumpKeepsCore(s);
    CoreIgnoresOwed(AfterPump(s), s.owed - 1);
  }

  lemma StepKeepsWakeup(s: System, step: Step)
    requires Core(s) && Enabled(s, step)
    ensures NoLostWakeup(Next(s, step))
  {
    if step.Pump? {
      PumpTakesOldest(s);
    }
  }

  lemma StepKeepsInvariant(s: System, step: Step)
    requires Core(s) && NoLostWakeup(s) && Enabled(s, step)
    ensures Core(Next(s, step)) && NoLostWakeup(Next(s, step))
  {
    hide Core, NoLostWakeup;
    StepKeepsWakeup(s, step);
    match step
    case Accept(name) => AcceptKeepsCore(s, name);
    case Pump => PumpStepKeepsCore(s);
    case Complete(id, outcome) => CompleteKeepsCore(s, id, outcome);
  }

  // ----- Main results: every run, under every interleaving -----

  lemma {:induction false} InvariantHolds(s: System, steps: seq<Step>)
    requires Core(s) && NoLostWakeup(s) && Schedule(s, steps)
    ensures Core(Run(s, steps)) && NoLostWakeup(Run(s, steps))
    decreases |steps|
  {
    hide Core, NoLostWakeup, Next;
    if steps != [] {
      StepKeepsInvariant(s, steps[0]);
      InvariantHolds(Next(s, steps[0]), steps[1..]);
    }
  }

  lemma InitialInvariant(maxConcurrent: nat)
    ensures Core(Initial(maxConcurrent)) && NoLostWakeup(Initial(maxConcurrent))
  {
  }

  lemma {:induction false} EvictedKeepsCap(r: Inner)
    ensures Evicted(r).cap == r.cap
    decreases |r.order|
  {
    if |r.order| > MAX_RETAINED_JOBS && FirstFinished(r.jobs, r.order).Some? {
      EvictedKeepsCap(WithoutAt(r, FirstFinished(r.jobs, r.order).value));
    }
  }

  /** No step changes the cap. */
  lemma {:induction false} CapIsFixed(s: System, steps: seq<Step>)
    requires Core(s) && NoLostWakeup(s) && Schedule(s, steps)
    ensures Run(s, steps).reg.cap == s.reg.cap
    decreases |steps|
  {
    if steps != [] {
      StepKeepsInvariant(s, steps[0]);
      StepKeepsCap(s, steps[0]);
      hide Core, NoLostWakeup, Next;
      CapIsFixed(Next(s, steps[0]), steps[1..]);
    }
  }

  lemma StepKeepsCap(s: System, step: Step)
    requires Core(s) && Enabled(s, step)
    ensures Next(s, step).reg.cap == s.reg.cap
  {
    match step
    case Accept(name) => AcceptKeepsCap(s, name);
    case Pump => PumpTakesOldest(s);
    case Complete(_, _) =>
  }

  lemma AcceptKeepsCap(s: System, name: string)
    ensures Accepted(s.reg, name).cap == s.reg.cap
  {
    RecordedIsAccepted(s, name);
    EvictedKeepsCap(Recorded(s, name).reg);
    hide Evicted, Accepted;
  }

  /** Safety of the pool: the running count is the number of jobs in a worker and stays under
      the cap it was made with, the queue is exactly the records marked queued, jobs start in
      submission order, and a free slot never coexists with a waiting job unless a pump is on
      its way. */
  lemma PoolIsSafe(maxConcurrent: nat, steps: seq<Step>)
    requires Schedule(Initial(maxConcurrent), steps)
    ensures var s := Run(Initial(maxConcurrent), steps);
      && s.reg.running == |set id | id in s.reg.jobs && s.reg.jobs[id].state == Running|
      && s.reg.running <= s.reg.cap == (if maxConcurrent >= 1 then maxConcurrent else 1)
      && (forall id :: id in s.reg.queue <==> id in s.reg.jobs && s.reg.jobs[id].state == Queued)
      && s.started + s.reg.queue == s.submitted
      && (s.reg.queue != [] && s.reg.running < s.reg.cap ==> s.owed > 0)
  {
    InitialInvariant(maxConcurrent);
    InvariantHolds(Initial(maxConcurrent), steps);
    CapIsFixed(Initial(maxConcurrent), steps);
    var s := Run(Initial(maxConcurrent), steps);
    assert (set id | id in s.reg.jobs && s.reg.jobs[id].state == Running) == s.live by {
      forall id | id in s.reg.jobs ensures s.reg.jobs[id].state == Running <==> id in s.live {
        assert RecordAgrees(s, id);
      }
    }
    forall id ensures id in s.reg.queue <==> id in s.reg.jobs && s.reg.jobs[id].state == Queued {
      if id in s.reg.jobs {
        assert RecordAgrees(s, id);
      }
    }
  }

  lemma {:induction false} EvictedIsBounded(r: Inner)
    ensures |Evicted(r).order| <= MAX_RETAINED_JOBS || FirstFinished(Evicted(r).jobs, Evicted(r).order).None?
    decreases |r.order|
  {
    if |r.order| > MAX_RETAINED_JOBS && FirstFinished(r.jobs, r.order).Some? {
      EvictedIsBounded(WithoutAt(r, FirstFinished(r.jobs, r.order).value));
    }
  }

  /** On every schedule, after a submission at most 256 jobs are retained, unless none of them has
      ended. */
  lemma RetentionIsBounded(maxConcurrent: nat, steps: seq<Step>, name: string)
    requires Schedule(Initial(maxConcurrent), steps)
    ensures var r := Accepted(Run(Initial(maxConcurrent), steps).reg, name);
      |r.jobs| <= 256 || forall id :: id in r.jobs ==> !r.jobs[id].Finished()
  {
    var s := Run(Initial(maxConcurrent), steps);
    InitialInvariant(maxConcurrent);
    InvariantHolds(Initial(maxConcurrent), steps);
    AcceptKeepsCore(s, name);
    RecordedIsAccepted(s, name);
    EvictedIsBounded(Recorded(s, name).reg);
    RetainedAreOrdered(Next(s, Accept(name)));
  }

  lemma RetainedAreOrdered(s: System)
    requires OrderAgrees(s)
    ensures |s.reg.jobs| == |s.reg.order|
    ensures FirstFinished(s.reg.jobs, s.reg.order).None? ==>
      forall id :: id in s.reg.jobs ==> !s.reg.jobs[id].Finished()
  {
    assert s.reg.jobs.Keys == Elements(s.reg.order);
    DistinctCount(s.reg.order);
    if FirstFinished(s.reg.jobs, s.reg.order).None? {
      forall id | id in s.reg.jobs ensures !s.reg.jobs[id].Finished() {
        assert id in s.reg.order;
        var k :| 0 <= k < |s.reg.order| && s.reg.order[k] == id;
        assert !FinishedIn(s.reg.jobs, s.reg.order[k]);
      }
    }
  }

  lemma {:induction false} DistinctCount(ids: seq<nat>)
    requires Ascending(ids)
    ensures |Elements(ids)| == |ids|
  {
    if ids != [] {
      var init, last := ids[..|ids| - 1], ids[|ids| - 1];
      DistinctCount(init);
      assert ids == init + [last] && last !in init;
      assert Elements(ids) == Elements(init) + {last};
    }
  }

  /** On every schedule a submission evicts by age: what it drops had ended, and was submitted
      before every ended job that stays. */
  lemma OldestSubmissionsAreEvicted(maxConcurrent: nat, steps: seq<Step>, name: string, dropped: nat, kept: nat)
    requires Schedule(Initial(maxConcurrent), steps)
    requires var s := Run(Initial(maxConcurrent), steps);
      && dropped in s.reg.jobs && dropped !in Accepted(s.reg, name).jobs
      && FinishedIn(Accepted(s.reg, name).jobs, kept)
    ensures var s := Run(Initial(maxConcurrent), steps);
      dropped in s.outcomes && dropped < kept
  {
    InitialInvariant(maxConcurrent);
    InvariantHolds(Initial(maxConcurrent), steps);
    SubmissionEvictsByAge(Run(Initial(maxConcurrent), steps), name, dropped, kept);
  }

  lemma SubmissionEvictsByAge(s: System, name: string, dropped: nat, kept: nat)
    requires Core(s) && dropped in s.reg.jobs && dropped !in Accepted(s.reg, name).jobs
    requires FinishedIn(Accepted(s.reg, name).jobs, kept)
    ensures dropped in s.outcomes && dropped < kept
  {
    RecordedKeepsCore(s, name);
    RecordedIsAccepted(s, name);
    hide Core, Evicted, Accepted, Recorded;
    EvictionOfRecorded(Recorded(s, name), dropped, kept);
  }

  lemma EvictionOfRecorded(s: System, dropped: nat, kept: nat)
    requires Core(s) && dropped in s.reg.jobs && dropped !in Evicted(s.reg).jobs &&
        FinishedIn(Evicted(s.reg).jobs, kept)
    ensures dropped in s.outcomes && dropped < kept
  {
    hide Evicted;
    EvictionIsByAge(s.reg, dropped, kept);
    assert RecordAgrees(s, dropped);
  }

  /** On every schedule `JOB LIST` shows exactly the retained jobs, in submission order, under
      the names they were submitted with. */
  lemma ListShowsRetained(maxConcurrent: nat, steps: seq<Step>)
    requires Schedule(Initial(maxConcurrent), steps)
    ensures var r := Run(Initial(maxConcurrent), steps).reg;
      var rows := Listed(r.jobs, r.order);
      && (forall i, j :: 0 <= i < j < |rows| ==> rows[i].0 < rows[j].0)
      && (forall row :: row in rows ==> row.0 in r.jobs && row.1 == r.jobs[row.0])
      && (forall row :: row in rows ==>
            row.0 in Run(Initial(maxConcurrent), steps).names
            && row.1.name == Run(Initial(maxConcurrent), steps).names[row.0])
      && (forall id :: id in r.jobs ==> (id, r.jobs[id]) in rows)
  {
    InitialInvariant(maxConcurrent);
    InvariantHolds(Initial(maxConcurrent), steps);
    var r := Run(Initial(maxConcurrent), steps).reg;
    forall id | id in r.jobs ensures RecordAgrees(Run(Initial(maxConcurrent), steps), id) {
    }
    ListedInOrder(r.jobs, r.order);
    var rows := Listed(r.jobs, r.order);
    forall id | id in r.jobs ensures (id, r.jobs[id]) in rows {
      assert id in r.order;
      var k :| 0 <= k < |r.order| && r.order[k] == id;
      assert rows[k] == (id, r.jobs[id]);
    }
  }

  /** An ended job keeps its outcome for ever, and its record never changes while retained. */
  lemma {:induction false} TerminalIsFinal(s: System, steps: seq<Step>, id: nat)
    requires Core(s) && NoLostWakeup(s) && Schedule(s, steps) && id in s.outcomes
    ensures var t := Run(s, steps);
      && id in t.outcomes && t.outcomes[id] == s.outcomes[id]
      && (id in t.reg.jobs ==> id in s.reg.jobs && t.reg.jobs[id] == s.reg.jobs[id])
    decreases |steps|
  {
    if steps != [] {
      var n := Next(s, steps[0]);
      StepKeepsInvariant(s, steps[0]);
      StepKeepsRecord(s, steps[0], id);
      TerminalIsFinal(n, steps[1..], id);
    }
  }

  lemma {:induction false} EvictedKeepsRecord(r: Inner, id: nat)
    ensures id in Evicted(r).jobs ==> id in r.jobs && Evicted(r).jobs[id] == r.jobs[id]
    decreases |r.order|
  {
    if |r.order| > MAX_RETAINED_JOBS {
      match FirstFinished(r.jobs, r.order)
      case None =>
      case Some(i) => EvictedKeepsRecord(WithoutAt(r, i), id);
    }
  }

  lemma {:induction false} PumpedKeepsRecord(r: Inner, id: nat)
    requires id in r.jobs ==> !r.jobs[id].pending
    ensures id in Pumped(r).0.jobs <==> id in r.jobs
    ensures id in r.jobs ==> Pumped(r).0.jobs[id] == r.jobs[id]
    decreases |r.queue|
  {
    if r.running < r.cap && r.queue != [] {
      var head, rest := r.queue[0], r.(queue := r.queue[1..]);
      if head in r.jobs && r.jobs[head].pending {
        PumpedKeepsRecord(Launched(rest, head), id);
      } else {
        PumpedKeepsRecord(rest, id);
      }
    }
  }

  predicate RecordKept(before: Inner, after: Inner, id: nat)
  {
    id in after.jobs ==> id in before.jobs && after.jobs[id] == before.jobs[id]
  }

  lemma AcceptKeepsRecord(s: System, name: string, id: nat)
    requires Core(s) && id in s.outcomes
    ensures RecordKept(s.reg, Accepted(s.reg, name), id)
  {
    hide Core, Evicted;
    IdIsNew(s);
    var r := Recorded(s, name).reg;
    assert Accepted(s.reg, name) == Evicted(r);
    EvictedKeepsRecord(r, id);
  }

  lemma PumpKeepsRecord(s: System, id: nat)
    requires Core(s) && id in s.outcomes
    ensures RecordKept(s.reg, Pumped(s.reg).0, id)
  {
    if id in s.reg.jobs {
      assert RecordAgrees(s, id);
    }
    PumpedKeepsRecord(s.reg, id);
  }

  lemma StepKeepsRecord(s: System, step: Step, id: nat)
    requires Core(s) && Enabled(s, step) && id in s.outcomes
    ensures var n := Next(s, step);
      && id in n.outcomes && n.outcomes[id] == s.outcomes[id]
      && RecordKept(s.reg, n.reg, id)
  {
    match step
    case Accept(name) => AcceptKeepsRecord(s, name, id);
    case Pump => PumpKeepsRecord(s, id);
    case Complete(_, _) =>
  }

  // ----- Progress -----

  function Work(s: System): nat
  {
    s.owed + 2 * (|s.reg.queue| + s.reg.running)
  }

  predicate NoSubmissions(steps: seq<Step>)
  {
    forall step :: step in steps ==> !step.Accept?
  }

  /** Without submissions every step does one unit of the remaining work, whatever the
      interleaving; so a run has at most that many steps. */
  lemma {:induction false} EveryStepWorks(s: System, steps: seq<Step>)
    requires Core(s) && NoLostWakeup(s) && Schedule(s, steps) && NoSubmissions(steps)
    ensures Work(Run(s, steps)) + |steps| == Work(s)
    decreases |steps|
  {
    if steps != [] {
      var n := Next(s, steps[0]);
      assert !steps[0].Accept?;
      assert NoSubmissions(steps[1..]);
      StepKeepsInvariant(s, steps[0]);
      StepDoesOneUnit(s, steps[0]);
      EveryStepWorks(n, steps[1..]);
    }
  }

  lemma StepDoesOneUnit(s: System, step: Step)
    requires Core(s) && Enabled(s, step) && !step.Accept?
    ensures Work(Next(s, step)) + 1 == Work(s)
  {
    match step
    case Pump => PumpTakesOldest(s);
    case Complete(id, _) =>
      assert s.live != {};
  }

  /** The pool cannot get stuck: while work remains some pump or completion can run, and once
      none does every job ever submitted has ended. */
  lemma NeverStuck(maxConcurrent: nat, steps: seq<Step>)
    requires Schedule(Initial(maxConcurrent), steps)
    ensures var s := Run(Initial(maxConcurrent), steps);
      && (Work(s) > 0 <==> s.owed > 0 || s.live != {})
      && (Work(s) == 0 ==> forall id :: id in s.submitted ==> id in s.outcomes)
  {
    InitialInvariant(maxConcurrent);
    InvariantHolds(Initial(maxConcurrent), steps);
    var s := Run(Initial(maxConcurrent), steps);
    if Work(s) == 0 {
      forall id | id in s.submitted ensures id in s.outcomes {
        if id in s.reg.jobs {
          assert RecordAgrees(s, id);
        }
      }
    }
  }

  // ----- Waiting -----

  datatype Answer = Unknown | Known(job: Job)

  /** What a waiter does each time it holds the lock: answer, or go back to sleep. */
  function WaitLook(r: Inner, id: nat, now: nat, deadline: nat): Option<Answer>
  {
    if id !in r.jobs then Some(Unknown)
    else if r.jobs[id].Finished() || now >= deadline then Some(Known(r.jobs[id]))
    else None
  }

  /** A waiter on a submitted job is never misled: "unknown" means the job ended and was
      evicted, a terminal answer is the outcome the job reported, any other answer means the
      deadline passed, and once no work remains it is answered. */
  lemma WaitTellsTheTruth(maxConcurrent: nat, steps: seq<Step>, id: nat, now: nat, deadline: nat)
    requires Schedule(Initial(maxConcurrent), steps)
    requires id in Run(Initial(maxConcurrent), steps).submitted
    ensures var s := Run(Initial(maxConcurrent), steps);
      match WaitLook(s.reg, id, now, deadline)
      case None => Work(s) > 0 && now < deadline && id !in s.outcomes
      case Some(Unknown) => id in s.outcomes && id !in s.reg.jobs
      case Some(Known(job)) =>
        if id in s.outcomes
        then job.state == (if s.outcomes[id].success then Succeeded else Failed) && job.output == s.outcomes[id].output
        else now >= deadline && (job.state == Queued || job.state == Running)
  {
    InitialInvariant(maxConcurrent);
    InvariantHolds(Initial(maxConcurrent), steps);
    NeverStuck(maxConcurrent, steps);
    RecordsTellOutcomes(Run(Initial(maxConcurrent), steps), id);
  }

  lemma RecordsTellOutcomes(s: System, id: nat)
    requires Core(s) && id in s.submitted
    ensures if id !in s.reg.jobs then id in s.outcomes
            else if id in s.outcomes then
              && s.reg.jobs[id].state == (if s.outcomes[id].success then Succeeded else Failed)
              && s.reg.jobs[id].output == s.outcomes[id].output
            else s.reg.jobs[id].state == Queued || s.reg.jobs[id].state == Running
  {
    if id in s.reg.jobs {
      assert RecordAgrees(s, id);
    }
  }
}
