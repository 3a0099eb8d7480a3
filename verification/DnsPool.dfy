/** The bounded two-stage work queue of the DNS resolver pool. A unit of work is
    named by the flight it resolves; flights are numbered in submission order. */
module DnsPool {
  import opened Text

  const MAX_QUEUED_TASKS: nat := 32
  const MAX_PENDING_HOSTS: nat := 128

  datatype Pool = Pool(tasks: seq<nat>, pending: seq<nat>, stopping: bool)

  function Queue(p: Pool): seq<nat> { p.tasks + p.pending }

  /** Work whose flight was seen cancelled is dropped. */
  function Prune(q: seq<nat>, seen: set<nat>): (r: seq<nat>)
    ensures |r| <= |q|
    ensures forall f :: f in r <==> f in q && f !in seen
  {
    if q == [] then [] else (if q[0] in seen then [] else [q[0]]) + Prune(q[1..], seen)
  }

  function Promote(p: Pool): Pool {
    var room := if |p.tasks| < MAX_QUEUED_TASKS then MAX_QUEUED_TASKS - |p.tasks| else 0;
    var k := if room < |p.pending| then room else |p.pending|;
    p.(tasks := p.tasks + p.pending[..k], pending := p.pending[k..])
  }

  function Tidy(p: Pool, seen: set<nat>): Pool {
    Promote(p.(tasks := Prune(p.tasks, seen), pending := Prune(p.pending, seen)))
  }

  datatype Submitted = Submitted(pool: Pool, accepted: bool)

  function Submission(p: Pool, work: nat, seen: set<nat>): Submitted {
    if p.stopping then Submitted(p, false)
    else
      var q := Tidy(p, seen);
      if |q.tasks| < MAX_QUEUED_TASKS then Submitted(q.(tasks := q.tasks + [work]), true)
      else if |q.pending| >= MAX_PENDING_HOSTS then Submitted(q, false)
      else Submitted(q.(pending := q.pending + [work]), true)
  }

  function TakeFirst(p: Pool, seen: set<nat>): Pool
    requires p.tasks != []
  {
    Tidy(p.(tasks := p.tasks[1..]), seen)
  }

  // ---------------------------------------------------------------- invariant

  predicate Increasing(q: seq<nat>) { forall i, j :: 0 <= i < j < |q| ==> q[i] < q[j] }

  /** The overflow stage is used only while the task stage is full; work waits in
      submission order. */
  predicate Inv(p: Pool) {
    && |p.tasks| <= MAX_QUEUED_TASKS && |p.pending| <= MAX_PENDING_HOSTS
    && (p.pending != [] ==> |p.tasks| == MAX_QUEUED_TASKS)
    && Increasing(Queue(p))
  }

  lemma {:induction false} PruneAppend(a: seq<nat>, b: seq<nat>, seen: set<nat>)
    ensures Prune(a + b, seen) == Prune(a, seen) + Prune(b, seen)
  {
    if a == [] {
      assert a + b == b;
    } else {
      assert (a + b)[1..] == a[1..] + b;
      PruneAppend(a[1..], b, seen);
    }
  }

  lemma {:induction false} PruneIncreasing(q: seq<nat>, seen: set<nat>)
    requires Increasing(q)
    ensures Increasing(Prune(q, seen))
  {
    hide Prune;
    if q != [] {
      PruneIncreasing(q[1..], seen);
      PruneStep(q, 0, seen);
      assert q[0..] == q && Increasing(q[1..]);
      var rest := Prune(q[1..], seen);
      forall i | 0 <= i < |rest| ensures q[0] < rest[i] {
        assert rest[i] in q[1..];
      }
      IncreasingCons(q[0], rest);
    } else {
      PruneStep(q, 0, seen);
      assert q[0..] == q;
    }
  }

  lemma PruneStep(q: seq<nat>, i: nat, seen: set<nat>)
    requires i <= |q|
    ensures i == |q| ==> Prune(q[i..], seen) == []
    ensures i < |q| ==>
              Prune(q[i..], seen) == if q[i] in seen then Prune(q[i + 1..], seen) else [q[i]] + Prune(q[i + 1..], seen)
  {
    if i < |q| { assert q[i..][1..] == q[i + 1..]; }
  }

  lemma IncreasingSnoc(q: seq<nat>, f: nat)
    requires Increasing(q) && forall g :: g in q ==> g < f
    ensures Increasing(q + [f])
  {
    forall i | 0 <= i < |q| ensures q[i] < f { assert q[i] in q; }
  }

  lemma IncreasingCons(f: nat, q: seq<nat>)
    requires Increasing(q) && forall i :: 0 <= i < |q| ==> f < q[i]
    ensures Increasing([f] + q)
  {
  }

  lemma PromoteKeepsQueue(p: Pool)
    ensures Queue(Promote(p)) == Queue(p)
  {
  }

  /** Pruning and promoting only removes cancelled work; what stays keeps its order. */
  lemma TidyQueue(p: Pool, seen: set<nat>)
    ensures Queue(Tidy(p, seen)) == Prune(Queue(p), seen)
    ensures Tidy(p, seen).stopping == p.stopping
  {
    PromoteKeepsQueue(p.(tasks := Prune(p.tasks, seen), pending := Prune(p.pending, seen)));
    PruneAppend(p.tasks, p.pending, seen);
  }

  lemma TidyKeeps(p: Pool, seen: set<nat>)
    requires |p.tasks| <= MAX_QUEUED_TASKS && |p.pending| <= MAX_PENDING_HOSTS && Increasing(Queue(p))
    ensures Inv(Tidy(p, seen))
  {
    TidyQueue(p, seen);
    PruneIncreasing(Queue(p), seen);
  }

  /** Submission appends to the pruned queue, or is refused when 32 tasks and 128
      pending hosts already wait or the pool stops. */
  lemma SubmitMeaning(p: Pool, work: nat, seen: set<nat>)
    requires Inv(p) && forall f :: f in Queue(p) ==> f < work
    ensures var r := Submission(p, work, seen);
            && Inv(r.pool)
            && (r.accepted ==> Queue(r.pool) == Prune(Queue(p), seen) + [work])
            && (!r.accepted && !p.stopping ==> Queue(r.pool) == Prune(Queue(p), seen))
            && (p.stopping ==> r.pool == p)
            && (r.accepted <==> !p.stopping && |Prune(Queue(p), seen)| < MAX_QUEUED_TASKS + MAX_PENDING_HOSTS)
            && r.pool.stopping == p.stopping
  {
    hide Tidy, Increasing;
    TidyQueue(p, seen);
    TidyKeeps(p, seen);
    var q := Tidy(p, seen);
    if !p.stopping {
      forall f | f in Queue(q) ensures f < work { }
      IncreasingSnoc(Queue(q), work);
      if |q.tasks| < MAX_QUEUED_TASKS {
        assert q.pending == [];
        assert Queue(q.(tasks := q.tasks + [work])) == Queue(q) + [work];
      } else {
        assert Queue(q.(pending := q.pending + [work])) == Queue(q) + [work];
      }
    }
  }

  /** A worker always takes the oldest work. */
  lemma TakeMeaning(p: Pool, seen: set<nat>)
    requires Inv(p) && p.tasks != []
    ensures var q := TakeFirst(p, seen);
            Inv(q) && p.tasks[0] == Queue(p)[0] && Queue(q) == Prune(Queue(p)[1..], seen) && q.stopping == p.stopping
  {
    hide Tidy;
    var rest := p.(tasks := p.tasks[1..]);
    assert Queue(p)[1..] == Queue(rest);
    TidyQueue(rest, seen);
    TidyKeeps(rest, seen);
  }

  /** A worker that stops leaves nothing behind in either stage. */
  lemma StoppingWorkerLeavesNothing(p: Pool)
    requires Inv(p) && p.stopping && p.tasks == []
    ensures Queue(p) == []
  {
  }

  // ---------------------------------------------------------------- the pool object

  class DnsWorkerPool {
    var tasks: seq<nat>
    var pendingHosts: seq<nat>
    var stopping: bool

    ghost function Abstract(): Pool
      reads this
    {
      Pool(tasks, pendingHosts, stopping)
    }

    constructor ()
      ensures Abstract() == Pool([], [], false) && Inv(Abstract())
    {
      tasks, pendingHosts, stopping := [], [], false;
    }

    static method PruneQueue(q: seq<nat>, cancelled: set<nat>) returns (r: seq<nat>)
      ensures r == Prune(q, cancelled)
    {
      hide Prune;
      r := [];
      assert q[0..] == q;
      for i := 0 to |q|
        invariant Prune(q, cancelled) == r + Prune(q[i..], cancelled)
      {
        PruneStep(q, i, cancelled);
        if q[i] !in cancelled {
          assert r + ([q[i]] + Prune(q[i + 1..], cancelled)) == (r + [q[i]]) + Prune(q[i + 1..], cancelled);
          r := r + [q[i]];
        }
      }
      PruneStep(q, |q|, cancelled);
    }

    method PromotePending()
      modifies this`tasks, this`pendingHosts
      ensures Abstract() == Promote(old(Abstract()))
    {
      ghost var p := Abstract();
      ghost var k := 0;
      while |tasks| < MAX_QUEUED_TASKS && pendingHosts != []
        invariant k <= |p.pending| && tasks == p.tasks + p.pending[..k] && pendingHosts == p.pending[k..]
        invariant k > 0 ==> |tasks| <= MAX_QUEUED_TASKS
        decreases |pendingHosts|
      {
        tasks := tasks + [pendingHosts[0]];
        pendingHosts := pendingHosts[1..];
        k := k + 1;
      }
    }

    /** `cancelled` holds the flights whose flag reads as set during the call. */
    method Submit(work: nat, cancelled: set<nat>) returns (accepted: bool)
      modifies this`tasks, this`pendingHosts
      ensures Submitted(Abstract(), accepted) == Submission(old(Abstract()), work, cancelled)
    {
      if stopping { return false; }
      tasks := PruneQueue(tasks, cancelled);
      pendingHosts := PruneQueue(pendingHosts, cancelled);
      PromotePending();
      if |tasks| < MAX_QUEUED_TASKS {
        tasks := tasks + [work];
      } else {
        if |pendingHosts| >= MAX_PENDING_HOSTS { return false; }
        pendingHosts := pendingHosts + [work];
      }
      return true;
    }

    method PruneCancelled(cancelled: set<nat>)
      modifies this`tasks, this`pendingHosts
      ensures Abstract() == Tidy(old(Abstract()), cancelled)
    {
      tasks := PruneQueue(tasks, cancelled);
      pendingHosts := PruneQueue(pendingHosts, cancelled);
      PromotePending();
    }

    /** What a woken worker does: leave when stopping with no tasks, else take one. */
    method Wake(cancelled: set<nat>) returns (work: Option<nat>)
      requires stopping || tasks != []
      modifies this`tasks, this`pendingHosts
      ensures work.None? <==> stopping && old(tasks) == []
      ensures work.None? ==> Abstract() == old(Abstract())
      ensures work.Some? ==> work.value == old(tasks)[0] && Abstract() == TakeFirst(old(Abstract()), cancelled)
    {
      if stopping && tasks == [] { return None; }
      work := Some(tasks[0]);
      tasks := tasks[1..];
      tasks := PruneQueue(tasks, cancelled);
      pendingHosts := PruneQueue(pendingHosts, cancelled);
      PromotePending();
    }
  }
}
