/** The tunnel service: tunnel details are objects, shared between the map and whoever asked for
    them (api/chisel/tunnel.go, schedules.go, service.go, api/internal/edge/edgejob.go). */
module TunnelService {
  import opened Wrappers
  import opened Seqs
  import opened TunnelSteps

  class TunnelDetails {
    var status: Status
    var lastActivity: Option<int>
    var port: int
    var jobs: seq<Job>
    var credentials: string

    constructor ()
      ensures Value() == NEW_TUNNEL
    {
      status, lastActivity, port, jobs, credentials := Idle, None, 0, [], "";
    }

    function Value(): Tunnel
      reads this
    {
      Tunnel(status, lastActivity, port, jobs, credentials)
    }
  }

  class Service {
    var tunnels: map<int, TunnelDetails>

    /** No two endpoints share their details. */
    ghost predicate Valid()
      reads this
    {
      forall a, b | a in tunnels && b in tunnels && a != b :: tunnels[a] != tunnels[b]
    }

    ghost function Details(): set<TunnelDetails>
      reads this
    {
      set id | id in tunnels :: tunnels[id]
    }

    ghost function View(): State
      reads this, Details()
    {
      map id | id in tunnels :: tunnels[id].Value()
    }

    constructor ()
      ensures Valid() && View() == map[]
    {
      tunnels := map[];
      new;
      assert View().Keys == {};
    }

    /** Only the details of one endpoint changed, and they are in the map now. */
    twostate lemma Stored(id: int, new tunnel: TunnelDetails)
      requires old(Valid()) && tunnels == old(tunnels)[id := tunnel]
      requires forall k | k in old(tunnels) :: (k == id <==> old(tunnels)[k] == tunnel)
      requires forall k | k in old(tunnels) && k != id :: unchanged(old(tunnels)[k])
      ensures Valid() && View() == old(View())[id := tunnel.Value()]
    {
      DifferAt(old(View()), View(), id, tunnel.Value());
    }

    static lemma DifferAt(before: State, after: State, id: int, t: Tunnel)
      requires after.Keys == before.Keys + {id} && after[id] == t
      requires forall k :: k in before && k != id ==> after[k] == before[k]
      ensures after == before[id := t]
    {
    }

    /** A new tunnel that never reached the map leaves the state as it was. */
    twostate lemma NotStored()
      requires tunnels == old(tunnels) && forall k | k in old(tunnels) :: unchanged(old(tunnels)[k])
      ensures View() == old(View())
    {
      forall k | k in tunnels
        ensures View()[k] == old(View())[k]
      {
        assert unchanged(old(tunnels)[k]);
      }
    }

    /** The objects in the map stay where they are; at most one is added, for the given endpoint. */
    twostate predicate KeepsObjects(id: int)
      reads this
    {
      if id in old(tunnels) then tunnels == old(tunnels)
      else tunnels == old(tunnels) || (id in tunnels && tunnels == old(tunnels)[id := tunnels[id]] && fresh(tunnels[id]))
    }

    /** The details of the endpoint, as a pointer into the map if there are any. */
    method GetTunnelDetails(id: int) returns (t: TunnelDetails)
      ensures t.Value() == Lookup(View(), id)
      ensures if id in tunnels then t == tunnels[id] && t in Details() else fresh(t)
    {
      if id in tunnels {
        t := tunnels[id];
      } else {
        t := new TunnelDetails();
      }
    }

    method GetUnusedPort(draws: seq<nat>, ghost state: State) returns (port: int)
      requires state == View() && FirstUnused(state, draws).Some?
      ensures port == FirstUnused(state, draws).value
      decreases |draws|
    {
      port := MIN_AVAILABLE_PORT + draws[0];
      var items := tunnels.Keys;
      while items != {}
        invariant items <= tunnels.Keys
        invariant forall id :: id in tunnels && id !in items ==> tunnels[id].port != port
        decreases items
      {
        var id := Pick(items);
        if tunnels[id].port == port {
          assert state[id].port == port;
          port := GetUnusedPort(draws[1..], state);
          return;
        }
        items := items - {id};
      }
      assert !InUse(state, port);
    }

    method SetTunnelStatusToActive(id: int, now: int)
      requires Valid()
      modifies this, Details()
      ensures Valid() && View() == ToActive(old(View()), id, now)
      ensures KeepsObjects(id)
    {
      var tunnel := GetTunnelDetails(id);
      tunnel.status := Active;
      tunnel.credentials := "";
      tunnel.lastActivity := Some(now);
      tunnels := tunnels[id := tunnel];
      Stored(id, tunnel);
    }

    method SetTunnelStatusToIdle(id: int, now: int)
      requires Valid()
      modifies this, Details()
      ensures Valid() && View() == ToIdle(old(View()), id, now)
      ensures KeepsObjects(id)
    {
      var tunnel := GetTunnelDetails(id);
      tunnel.status := Idle;
      tunnel.port := 0;
      tunnel.lastActivity := Some(now);
      if tunnel.credentials != "" {
        tunnel.credentials := "";
      }
      tunnels := tunnels[id := tunnel];
      Stored(id, tunnel);
    }

    method SetTunnelStatusToRequired(id: int, now: int, a: Answers) returns (ok: bool)
      requires Valid()
      requires Lookup(View(), id).port == 0 && a.endpointRead ==> FirstUnused(View(), a.draws).Some?
      modifies this, Details()
      ensures Valid()
      ensures Outcome(View(), ok) == ToRequired(old(View()), id, now, a)
      ensures KeepsObjects(id)
    {
      hide FirstUnused;
      var tunnel := GetTunnelDetails(id);
      if tunnel.port == 0 {
        if !a.endpointRead {
          return false;
        }
        var port := GetUnusedPort(a.draws, View());
        tunnel.status := Required;
        tunnel.port := port;
        tunnel.lastActivity := Some(now);
        if !a.userAdded || a.encrypted.None? {
          if id in tunnels {
            Stored(id, tunnel);
          } else {
            NotStored();
          }
          return false;
        }
        tunnel.credentials := a.encrypted.value;
        tunnels := tunnels[id := tunnel];
        Stored(id, tunnel);
      }
      return true;
    }

    method AddEdgeJob(id: int, job: Job)
      requires Valid()
      modifies this, Details()
      ensures Valid() && View() == AddJob(old(View()), id, job)
      ensures KeepsObjects(id)
    {
      var tunnel := GetTunnelDetails(id);
      var existingJobIndex: int := -1;
      var idx := 0;
      while idx < |tunnel.jobs|
        invariant 0 <= idx <= |tunnel.jobs|
        invariant forall i :: 0 <= i < idx ==> tunnel.jobs[i].id != job.id
      {
        if tunnel.jobs[idx].id == job.id {
          existingJobIndex := idx;
          break;
        }
        idx := idx + 1;
      }
      UpsertAt(tunnel.jobs, job, idx);
      if existingJobIndex == -1 {
        tunnel.jobs := tunnel.jobs + [job];
      } else {
        tunnel.jobs := tunnel.jobs[existingJobIndex := job];
      }
      tunnels := tunnels[id := tunnel];
      Stored(id, tunnel);
    }

    static method JobsWithout(jobs: seq<Job>, jobId: int) returns (updatedJobs: seq<Job>)
      ensures updatedJobs == Without(jobs, jobId)
    {
      updatedJobs := [];
      for i := 0 to |jobs|
        invariant updatedJobs == Without(jobs[..i], jobId)
      {
        assert jobs[..i + 1][..i] == jobs[..i];
        if jobs[i].id != jobId {
          updatedJobs := updatedJobs + [jobs[i]];
        }
      }
      assert jobs[..|jobs|] == jobs;
    }

    method RemoveEdgeJob(jobId: int)
      requires Valid()
      modifies this, Details()
      ensures Valid() && View() == RemoveJob(old(View()), jobId)
      ensures tunnels == old(tunnels)
    {
      var items := tunnels.Keys;
      ghost var before := View();
      while items != {}
        invariant items <= tunnels.Keys && tunnels == old(tunnels)
        invariant View() == RemovedUpTo(before, before.Keys - items, jobId)
        decreases items
      {
        var id := Pick(items);
        RemoveFrom(id, jobId);
        RemoveNext(before, items, id, jobId);
        items := items - {id};
      }
      assert before.Keys - items == before.Keys;
      assert RemovedUpTo(before, before.Keys, jobId) == RemoveJob(before, jobId);
    }

    method RemoveFrom(id: int, jobId: int)
      requires Valid() && id in tunnels
      modifies this, Details()
      ensures tunnels == old(tunnels)
      ensures View() == old(View())[id := old(View())[id].(jobs := Without(old(View())[id].jobs, jobId))]
    {
      var details := tunnels[id];
      var updatedJobs := JobsWithout(details.jobs, jobId);
      details.jobs := updatedJobs;
      tunnels := tunnels[id := details];
      Stored(id, details);
    }

    static lemma RemoveNext(s: State, items: set<int>, id: int, jobId: int)
      requires items <= s.Keys && id in items
      ensures var s' := RemovedUpTo(s, s.Keys - items, jobId);
              && id in s'
              && RemovedUpTo(s, s.Keys - (items - {id}), jobId) ==
                 s'[id := s'[id].(jobs := Without(s'[id].jobs, jobId))]
    {
      hide Without;
    }

    /** One tunnel of a checkTunnels pass; an expired one is idled if it has jobs and dropped if not. */
    method CheckTunnel(id: int, now: int)
      requires Valid() && id in tunnels
      modifies this, Details()
      ensures Valid()
      ensures View() == CheckedOne(old(View()), id, now)
      ensures tunnels == old(tunnels) || tunnels == old(tunnels) - {id}
    {
      var tunnel := tunnels[id];
      assert View()[id] == tunnel.Value();
      if tunnel.lastActivity.None? || tunnel.status == Idle {
        return;
      }
      var elapsed := now - tunnel.lastActivity.value;
      if tunnel.status == Required && elapsed < REQUIRED_TIMEOUT {
        return;
      }
      if tunnel.status == Active && elapsed < ACTIVE_TIMEOUT {
        return;
      }
      if |tunnel.jobs| > 0 {
        SetTunnelStatusToIdle(id, now);
      } else {
        tunnels := tunnels - {id};
        assert View() == old(View()) - {id};
      }
    }

    method CheckTunnels(now: int)
      requires Valid()
      modifies this, Details()
      ensures Valid() && View() == Check(old(View()), now)
      ensures forall id :: id in tunnels ==> id in old(tunnels) && tunnels[id] == old(tunnels)[id]
    {
      var items := tunnels.Keys;
      ghost var before := View();
      while items != {}
        invariant items <= tunnels.Keys
        invariant items <= before.Keys
        invariant forall id :: id in tunnels ==> id in old(tunnels) && tunnels[id] == old(tunnels)[id]
        invariant Valid() && View() == CheckedUpTo(before, before.Keys - items, now)
        decreases items
      {
        var id := Pick(items);
        assert Details() <= old(Details());
        CheckNext(before, items, id, now);
        CheckTunnel(id, now);
        items := items - {id};
      }
      assert before.Keys - items == before.Keys;
    }

    static lemma CheckNext(s: State, items: set<int>, id: int, now: int)
      requires items <= s.Keys && id in items
      ensures var s' := CheckedUpTo(s, s.Keys - items, now);
              id in s' && CheckedUpTo(s, s.Keys - (items - {id}), now) == CheckedOne(s', id, now)
    {
    }
  }
}
