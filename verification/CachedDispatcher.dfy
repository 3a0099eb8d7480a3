/** The bounded queue of jobs that are answered from the cache. */
module CachedDispatcher {
  import opened Text

  datatype CachedJob = CachedJob(id: int, bytes: nat)

  const MAX_QUEUED_JOBS: nat := 128

  function QueuedBytes(jobs: seq<CachedJob>): nat {
    if jobs == [] then 0 else jobs[0].bytes + QueuedBytes(jobs[1..])
  }

  lemma {:induction false} QueuedBytesAppend(a: seq<CachedJob>, b: seq<CachedJob>)
    ensures QueuedBytes(a + b) == QueuedBytes(a) + QueuedBytes(b)
  {
    if a == [] {
      assert a + b == b;
    } else {
      assert (a + b)[1..] == a[1..] + b;
      QueuedBytesAppend(a[1..], b);
    }
  }

  lemma QueuedBytesAt(jobs: seq<CachedJob>, k: nat)
    requires k < |jobs|
    ensures QueuedBytes(jobs) == jobs[k].bytes + QueuedBytes(jobs[..k] + jobs[k + 1..])
  {
    assert jobs == jobs[..k] + ([jobs[k]] + jobs[k + 1..]);
    QueuedBytesAppend(jobs[..k], [jobs[k]] + jobs[k + 1..]);
    QueuedBytesAppend(jobs[..k], jobs[k + 1..]);
  }

  /** First position of the job `id`, or the length when it is not queued. */
  function Position(jobs: seq<CachedJob>, id: int): (k: nat)
    ensures k <= |jobs| && (k < |jobs| ==> jobs[k].id == id)
    ensures forall i :: 0 <= i < k ==> jobs[i].id != id
  {
    if jobs == [] || jobs[0].id == id then 0 else 1 + Position(jobs[1..], id)
  }

  class Dispatcher {
    const maxBytes: nat
    var jobs: seq<CachedJob>
    var queuedBytes: nat
    var stopped: bool

    /** The byte count is exact and within its bound, so the subtraction in `Queue`
        never underflows. */
    ghost predicate Valid()
      reads this
    {
      && queuedBytes == QueuedBytes(jobs) && queuedBytes <= maxBytes && |jobs| <= MAX_QUEUED_JOBS
      && (stopped ==> jobs == [])
    }

    constructor (maxBytes: nat)
      ensures Valid() && jobs == [] && !stopped && this.maxBytes == maxBytes
    {
      this.maxBytes := maxBytes;
      jobs, queuedBytes, stopped := [], 0, false;
    }

    method Queue(job: CachedJob) returns (admitted: bool)
      requires Valid()
      modifies this`jobs, this`queuedBytes
      ensures Valid()
      ensures admitted <==> !stopped && |old(jobs)| < MAX_QUEUED_JOBS && QueuedBytes(old(jobs)) + job.bytes <= maxBytes
      ensures jobs == if admitted then old(jobs) + [job] else old(jobs)
    {
      if stopped || |jobs| >= MAX_QUEUED_JOBS || job.bytes > maxBytes - queuedBytes { return false; }
      QueuedBytesAppend(jobs, [job]);
      jobs := jobs + [job];
      queuedBytes := queuedBytes + job.bytes;
      return true;
    }

    method Remove(id: int)
      requires Valid()
      modifies this`jobs, this`queuedBytes
      ensures Valid()
      ensures var k := Position(old(jobs), id);
              jobs == if k < |old(jobs)| then old(jobs)[..k] + old(jobs)[k + 1..] else old(jobs)
    {
      var k := 0;
      while k < |jobs| && jobs[k].id != id
        invariant 0 <= k <= |jobs|
        invariant forall i :: 0 <= i < k ==> jobs[i].id != id
      {
        k := k + 1;
      }
      if k == |jobs| { return; }
      QueuedBytesAt(jobs, k);
      queuedBytes := queuedBytes - jobs[k].bytes;
      jobs := jobs[..k] + jobs[k + 1..];
    }

    /** The dispatcher thread's wake-up: nothing after a stop, else the oldest job. */
    method Take() returns (job: Option<CachedJob>)
      requires Valid() && (stopped || jobs != [])
      modifies this`jobs, this`queuedBytes
      ensures Valid()
      ensures job.None? <==> stopped
      ensures job.Some? ==> old(jobs) == [job.value] + jobs
    {
      if stopped { return None; }
      QueuedBytesAt(jobs, 0);
      assert jobs[..0] + jobs[1..] == jobs[1..];
      queuedBytes := queuedBytes - jobs[0].bytes;
      job := Some(jobs[0]);
      jobs := jobs[1..];
    }

    method Stop()
      requires Valid()
      modifies this`jobs, this`queuedBytes, this`stopped
      ensures Valid() && stopped && jobs == []
    {
      stopped := true;
      jobs := [];
      queuedBytes := 0;
    }
  }
}
