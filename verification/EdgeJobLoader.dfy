/** Registering the stored edge jobs with the tunnel service (api/internal/edge/edgejob.go). */
module EdgeJobLoader {
  import opened Wrappers
  import opened Seqs
  import opened TunnelSteps
  import opened TunnelService

  function AddToAll(s: State, ids: set<int>, job: Job): State {
    map id | id in s.Keys + ids ::
      if id in ids then Lookup(s, id).(jobs := Upsert(Lookup(s, id).jobs, job)) else s[id]
  }

  function Loaded(s: State, jobs: seq<Job>): State {
    if jobs == [] then s
    else
      var last := jobs[|jobs| - 1];
      AddToAll(Loaded(s, jobs[..|jobs| - 1]), last.endpoints, last)
  }

  method LoadEdgeJobs(stored: Option<seq<Job>>, service: Service) returns (ok: bool)
    requires service.Valid()
    modifies service, service.Details()
    ensures service.Valid() && ok == stored.Some?
    ensures service.View() == if stored.Some? then Loaded(old(service.View()), stored.value) else old(service.View())
  {
    if stored.None? {
      return false;
    }
    var jobs := stored.value;
    ghost var before := service.View();
    for i := 0 to |jobs|
      invariant service.Valid() && fresh(service.Details() - old(service.Details()))
      invariant service.View() == Loaded(before, jobs[..i])
    {
      assert jobs[..i + 1][..i] == jobs[..i];
      LoadEdgeJob(jobs[i], service);
    }
    assert jobs[..|jobs|] == jobs;
    return true;
  }

  method LoadEdgeJob(job: Job, service: Service)
    requires service.Valid()
    modifies service, service.Details()
    ensures service.Valid() && fresh(service.Details() - old(service.Details()))
    ensures service.View() == AddToAll(old(service.View()), job.endpoints, job)
  {
    var endpoints := job.endpoints;
    ghost var before := service.View();
    assert AddToAll(before, {}, job) == before;
    while endpoints != {}
      invariant endpoints <= job.endpoints
      invariant service.Valid() && fresh(service.Details() - old(service.Details()))
      invariant service.View() == AddToAll(before, job.endpoints - endpoints, job)
      decreases endpoints
    {
      var id := Pick(endpoints);
      AddNext(before, job.endpoints - endpoints, id, job);
      assert job.endpoints - (endpoints - {id}) == (job.endpoints - endpoints) + {id};
      service.AddEdgeJob(id, job);
      endpoints := endpoints - {id};
    }
    assert job.endpoints - endpoints == job.endpoints;
  }

  lemma AddNext(s: State, ids: set<int>, id: int, job: Job)
    requires id !in ids
    ensures AddToAll(s, ids + {id}, job) == AddJob(AddToAll(s, ids, job), id, job)
  {
    hide Upsert;
  }

  /** The jobs meant for an endpoint, in stored order. */
  function JobsFor(jobs: seq<Job>, id: int): seq<Job> {
    if jobs == [] then []
    else
      var last := jobs[|jobs| - 1];
      JobsFor(jobs[..|jobs| - 1], id) + if id in last.endpoints then [last] else []
  }

  lemma {:induction false} UpsertNew(jobs: seq<Job>, job: Job)
    requires forall j :: j in jobs ==> j.id != job.id
    ensures Upsert(jobs, job) == jobs + [job]
  {
    if jobs != [] {
      UpsertNew(jobs[1..], job);
      assert jobs == [jobs[0]] + jobs[1..];
    }
  }

  lemma {:induction false} JobsForAreStored(jobs: seq<Job>, id: int)
    ensures forall j :: j in JobsFor(jobs, id) <==> j in jobs && id in j.endpoints
  {
    if jobs != [] {
      JobsForAreStored(jobs[..|jobs| - 1], id);
      assert jobs == jobs[..|jobs| - 1] + [jobs[|jobs| - 1]];
    }
  }

  /** Loading into a fresh service registers each job with exactly its own endpoints, in stored
      order, and nothing else. */
  lemma {:induction false} LoadedJobs(jobs: seq<Job>, id: int)
    requires forall i, j | 0 <= i < j < |jobs| :: jobs[i].id != jobs[j].id
    ensures Lookup(Loaded(map[], jobs), id) == NEW_TUNNEL.(jobs := JobsFor(jobs, id))
    ensures id in Loaded(map[], jobs) <==> JobsFor(jobs, id) != []
  {
    if jobs != [] {
      var front, last := jobs[..|jobs| - 1], jobs[|jobs| - 1];
      LoadedJobs(front, id);
      JobsForAreStored(front, id);
      if id in last.endpoints {
        UpsertNew(JobsFor(front, id), last);
      }
    }
  }

  /** The jobs meant for an endpoint are selected in stored order. */
  lemma {:induction false} JobsForIsFilter(jobs: seq<Job>, id: int)
    ensures JobsFor(jobs, id) == Filter((j: Job) => id in j.endpoints, jobs)
  {
    if jobs != [] {
      JobsForIsFilter(jobs[..|jobs| - 1], id);
    }
  }

  function UpsertAll(own: seq<Job>, jobs: seq<Job>): seq<Job> {
    if jobs == [] then own else Upsert(UpsertAll(own, jobs[..|jobs| - 1]), jobs[|jobs| - 1])
  }

  /** Into a service that is in use: each endpoint's own jobs are registered one after the other, and
      nothing else of its tunnel changes. */
  lemma {:induction false} LoadedKeepsRest(s: State, jobs: seq<Job>, id: int)
    ensures Lookup(Loaded(s, jobs), id) == Lookup(s, id).(jobs := UpsertAll(Lookup(s, id).jobs, JobsFor(jobs, id)))
    ensures id in Loaded(s, jobs) <==> id in s || JobsFor(jobs, id) != []
  {
    if jobs != [] {
      hide Upsert, AddToAll, JobsFor, UpsertAll;
      var front, last := jobs[..|jobs| - 1], jobs[|jobs| - 1];
      assert jobs == front + [last];
      LoadedKeepsRest(s, front, id);
      AddToAllAt(Loaded(s, front), last.endpoints, last, id);
      JobsForSnoc(front, last, id);
      UpsertAllSnoc(Lookup(s, id).jobs, JobsFor(front, id), last);
    } else {
      NoJobs(Lookup(s, id).jobs, id);
    }
  }

  lemma AddToAllAt(s: State, ids: set<int>, job: Job, id: int)
    ensures id in AddToAll(s, ids, job) <==> id in s || id in ids
    ensures Lookup(AddToAll(s, ids, job), id) ==
            if id in ids then Lookup(s, id).(jobs := Upsert(Lookup(s, id).jobs, job)) else Lookup(s, id)
  {
    hide Upsert;
  }

  lemma JobsForSnoc(jobs: seq<Job>, job: Job, id: int)
    ensures JobsFor(jobs + [job], id) == if id in job.endpoints then JobsFor(jobs, id) + [job] else JobsFor(jobs, id)
  {
    assert (jobs + [job])[..|jobs|] == jobs;
  }

  lemma UpsertAllSnoc(own: seq<Job>, jobs: seq<Job>, job: Job)
    ensures UpsertAll(own, jobs + [job]) == Upsert(UpsertAll(own, jobs), job)
  {
    assert (jobs + [job])[..|jobs|] == jobs;
  }

  lemma NoJobs(own: seq<Job>, id: int)
    ensures UpsertAll(own, []) == own && JobsFor([], id) == []
  {
  }
}
