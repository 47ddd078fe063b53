/** What every run of the tunnel service keeps. */
module TunnelProperties {
  import opened Wrappers
  import opened Seqs
  import opened TunnelSteps

  predicate DynamicPort(port: int) {
    49152 <= port < 65535
  }

  predicate UniqueIds(jobs: seq<Job>) {
    forall i, j | 0 <= i < j < |jobs| :: jobs[i].id != jobs[j].id
  }

  predicate Sound(t: Tunnel) {
    && (t.port == 0 || DynamicPort(t.port))
    && (t.status == Idle ==> t.port == 0 && t.credentials == "")
    && (t.status == Required ==> t.port != 0)
    && (t.status != Idle ==> t.lastActivity.Some?)
    && (t.credentials != "" ==> t.status == Required)
    && UniqueIds(t.jobs)
  }

  ghost predicate Inv(s: State) {
    && (forall id | id in s :: Sound(s[id]))
    && (forall a, b | a in s && b in s && a != b :: s[a].port != s[b].port || s[a].port == 0)
  }

  // ---- Ports

  lemma {:induction false} FirstUnusedIsUnused(s: State, draws: seq<nat>)
    requires (forall i | 0 <= i < |draws| :: draws[i] < PORT_COUNT) && FirstUnused(s, draws).Some?
    ensures DynamicPort(FirstUnused(s, draws).value)
    ensures forall id | id in s :: s[id].port != FirstUnused(s, draws).value
  {
    if InUse(s, MIN_AVAILABLE_PORT + draws[0]) {
      FirstUnusedIsUnused(s, draws[1..]);
    }
  }

  /** Some tunnel has this port. */
  ghost predicate Held(s: State, port: int) {
    exists id :: id in s && s[id].port == port
  }

  /** It is the first of the draws that no tunnel holds. */
  lemma {:induction false} FirstUnusedIsFirst(s: State, draws: seq<nat>, k: nat)
    requires k < |draws|
    requires !Held(s, MIN_AVAILABLE_PORT + draws[k])
    requires forall i | 0 <= i < k :: Held(s, MIN_AVAILABLE_PORT + draws[i])
    ensures FirstUnused(s, draws) == Some(MIN_AVAILABLE_PORT + draws[k])
  {
    HeldIsInUse(s, MIN_AVAILABLE_PORT + draws[0]);
    if k > 0 {
      assert Held(s, MIN_AVAILABLE_PORT + draws[0]);
      assert forall i | 0 <= i < k - 1 :: draws[1..][i] == draws[i + 1];
      FirstUnusedIsFirst(s, draws[1..], k - 1);
    }
  }

  lemma HeldIsInUse(s: State, port: int)
    ensures Held(s, port) <==> InUse(s, port)
  {
  }

  function PortsBelow(n: nat): set<int> {
    if n == 0 then {} else PortsBelow(n - 1) + {MIN_AVAILABLE_PORT + n - 1}
  }

  lemma {:induction false} PortsBelowCount(n: nat)
    ensures forall p :: p in PortsBelow(n) <==> MIN_AVAILABLE_PORT <= p < MIN_AVAILABLE_PORT + n
    ensures |PortsBelow(n)| == n
  {
    if n > 0 {
      PortsBelowCount(n - 1);
    }
  }

  function PortsOf(s: State, ids: set<int>): set<int>
    requires ids <= s.Keys
  {
    set id | id in ids :: s[id].port
  }

  lemma {:induction false} PortsOfCount(s: State, ids: set<int>)
    requires ids <= s.Keys
    ensures |PortsOf(s, ids)| <= |ids|
    decreases ids
  {
    if ids == {} {
      assert PortsOf(s, ids) == {};
    } else {
      var id := Choose(ids);
      PortsOfCount(s, ids - {id});
      assert PortsOf(s, ids) == PortsOf(s, ids - {id}) + {s[id].port};
    }
  }

  lemma SubsetCount(a: set<int>, b: set<int>)
    requires a <= b
    ensures |a| <= |b|
  {
    assert b == a + (b - a);
  }

  /** With fewer than 16383 tunnels some dynamic port is free, so drawing can always be continued to
      a result. */
  lemma PortAvailable(s: State, draws: seq<nat>) returns (d: nat)
    requires |s| < 16383
    ensures d < 16383 && FirstUnused(s, draws + [d]).Some?
  {
    PortsBelowCount(PORT_COUNT);
    PortsOfCount(s, s.Keys);
    if PortsBelow(PORT_COUNT) <= PortsOf(s, s.Keys) {
      SubsetCount(PortsBelow(PORT_COUNT), PortsOf(s, s.Keys));
    }
    var p := Choose(PortsBelow(PORT_COUNT) - PortsOf(s, s.Keys));
    d := p - MIN_AVAILABLE_PORT;
    FreeDrawEnds(s, draws, d);
  }

  lemma {:induction false} FreeDrawEnds(s: State, draws: seq<nat>, d: nat)
    requires !InUse(s, MIN_AVAILABLE_PORT + d)
    ensures FirstUnused(s, draws + [d]).Some?
  {
    if draws != [] {
      FreeDrawEnds(s, draws[1..], d);
      assert (draws + [d])[1..] == draws[1..] + [d];
    }
  }

  /** And the other way round: once every dynamic port is taken no draw ends the search. */
  lemma {:induction false} PortsExhausted(s: State, draws: seq<nat>)
    requires forall i | 0 <= i < |draws| :: InUse(s, MIN_AVAILABLE_PORT + draws[i])
    ensures FirstUnused(s, draws).None?
  {
    if draws != [] {
      PortsExhausted(s, draws[1..]);
    }
  }

  // ---- Jobs

  lemma {:induction false} UpsertKeepsIds(jobs: seq<Job>, job: Job)
    requires UniqueIds(jobs)
    ensures UniqueIds(Upsert(jobs, job))
    ensures forall j :: j in Upsert(jobs, job) ==> j == job || (j in jobs && j.id != job.id)
    ensures job in Upsert(jobs, job)
    ensures forall j :: j in jobs && j.id != job.id ==> j in Upsert(jobs, job)
  {
    if jobs != [] {
      assert jobs == [jobs[0]] + jobs[1..];
      if jobs[0].id != job.id {
        UpsertKeepsIds(jobs[1..], job);
      }
    }
  }

  lemma {:induction false} WithoutIs(jobs: seq<Job>, jobId: int)
    ensures forall j :: j in Without(jobs, jobId) <==> j in jobs && j.id != jobId
    ensures UniqueIds(jobs) ==> UniqueIds(Without(jobs, jobId))
  {
    if jobs != [] {
      WithoutIs(jobs[..|jobs| - 1], jobId);
      assert jobs == jobs[..|jobs| - 1] + [jobs[|jobs| - 1]];
    }
  }

  // ---- The invariant

  lemma PutKeepsInv(s: State, id: int, t: Tunnel)
    requires Inv(s) && Sound(t)
    requires t.port == 0 || forall k | k in s && k != id :: s[k].port != t.port
    ensures Inv(s[id := t])
  {
    hide Sound;
  }

  lemma RequiredKeepsInv(s: State, id: int, now: int, a: Answers)
    requires Inv(s) && (Lookup(s, id).port == 0 && a.endpointRead ==> a.Suffice(s))
    ensures Inv(ToRequired(s, id, now, a).state)
  {
    var t := Lookup(s, id);
    if t.port == 0 && a.endpointRead {
      FirstUnusedIsUnused(s, a.draws);
      var t' := t.(status := Required, port := FirstUnused(s, a.draws).value, lastActivity := Some(now));
      assert Sound(t);
      PutKeepsInv(s, id, t'.(credentials := ""));
      if a.encrypted.Some? {
        PutKeepsInv(s, id, t'.(credentials := a.encrypted.value));
      }
      assert t.status != Required;
      assert t.credentials == "";
    }
  }

  /** Every call keeps the invariant, whichever of its calls out fail. */
  lemma StepKeepsInv(s: State, e: Event)
    requires Inv(s) && Enabled(s, e)
    ensures Inv(Apply(s, e))
  {
    match e
    case SetActive(id, now) =>
      PutKeepsInv(s, id, Lookup(s, id).(status := Active, credentials := "", lastActivity := Some(now)));
    case SetIdle(id, now) =>
      PutKeepsInv(s, id, Idled(Lookup(s, id), now));
    case SetRequired(id, now, a) =>
      RequiredKeepsInv(s, id, now, a);
    case AddEdgeJob(id, job) =>
      UpsertKeepsIds(Lookup(s, id).jobs, job);
      PutKeepsInv(s, id, Lookup(s, id).(jobs := Upsert(Lookup(s, id).jobs, job)));
    case RemoveEdgeJob(jobId) =>
      forall id | id in s
        ensures UniqueIds(Without(s[id].jobs, jobId))
      {
        WithoutIs(s[id].jobs, jobId);
      }
    case CheckTunnels(now) =>
  }

  /** In every state of every run from the empty service: nonzero ports are pairwise distinct
      dynamic ports, idle tunnels have neither port nor credentials, required ones have a port,
      only required ones have credentials, and job ids are unique. */
  lemma {:induction false} ReachableInv(states: seq<State>, events: seq<Event>, n: nat)
    requires IsRun(states, events) && n < |states|
    ensures Inv(states[n])
  {
    if n > 0 {
      ReachableInv(states, events, n - 1);
      StepKeepsInv(states[n - 1], events[n - 1]);
    }
  }

  // ---- The job table

  function JobsOf(s: State, id: int): seq<Job> {
    Lookup(s, id).jobs
  }

  /** What an event does to the jobs of one endpoint. */
  function JobsAfter(jobs: seq<Job>, e: Event, id: int): seq<Job> {
    match e
    case AddEdgeJob(eid, job) => if eid == id then Upsert(jobs, job) else jobs
    case RemoveEdgeJob(jobId) => Without(jobs, jobId)
    case _ => jobs
  }

  function History(events: seq<Event>, id: int): seq<Job> {
    if events == [] then []
    else JobsAfter(History(events[..|events| - 1], id), events[|events| - 1], id)
  }

  /** Each step is a step of the job table; status changes and expiry leave it as it is. */
  lemma StepRefinesJobs(s: State, e: Event, id: int)
    requires Enabled(s, e)
    ensures JobsOf(Apply(s, e), id) == JobsAfter(JobsOf(s, id), e, id)
  {
  }

  /** Over a whole run, the jobs of an endpoint are those the registrations and removals alone leave. */
  lemma {:induction false} RunRefinesJobs(states: seq<State>, events: seq<Event>, id: int, n: nat)
    requires IsRun(states, events) && n < |states|
    ensures JobsOf(states[n], id) == History(events[..n], id)
  {
    if n > 0 {
      RunRefinesJobs(states, events, id, n - 1);
      StepRefinesJobs(states[n - 1], events[n - 1], id);
      assert events[..n][..n - 1] == events[..n - 1];
    }
  }

  // ---- Timeouts

  /** Fifteen seconds, or four minutes and a half. */
  function Timeout(status: Status): int {
    if status == Required then 15_000_000_000 else 270_000_000_000
  }

  /** After a checkTunnels pass at time now every tunnel that is not idle is younger than its
      timeout; a tunnel that was young is as before, an expired one is idle if it had jobs and gone
      if it had none. */
  lemma CheckExpires(s: State, now: int, id: int)
    requires Inv(s) && id in s
    ensures var r, t := Check(s, now), s[id];
            if t.status == Idle || now - t.lastActivity.value < Timeout(t.status) then id in r && r[id] == t
            else if t.jobs == [] then id !in r
            else id in r && r[id] == Tunnel(Idle, Some(now), 0, t.jobs, "")
    ensures id in Check(s, now) && Check(s, now)[id].status != Idle ==>
              now - Check(s, now)[id].lastActivity.value < Timeout(Check(s, now)[id].status)
  {
    assert Sound(s[id]);
  }

  // ---- What each call leaves, field by field

  /** Nothing happens to the tunnels of other endpoints. */
  ghost predicate OthersKept(s: State, r: State, id: int) {
    && (forall k | k in s && k != id :: k in r && r[k] == s[k])
    && (forall k | k in r && k != id :: k in s)
  }

  lemma ActiveTunnel(s: State, id: int, now: int)
    ensures var r := ToActive(s, id, now);
            && id in r && OthersKept(s, r, id)
            && r[id].status == Active && r[id].credentials == "" && r[id].lastActivity == Some(now)
            && r[id].port == (if id in s then s[id].port else 0)
            && r[id].jobs == if id in s then s[id].jobs else []
  {
  }

  lemma IdleTunnel(s: State, id: int, now: int)
    ensures var r := ToIdle(s, id, now);
            && id in r && OthersKept(s, r, id)
            && r[id].status == Idle && r[id].credentials == "" && r[id].lastActivity == Some(now) && r[id].port == 0
            && r[id].jobs == if id in s then s[id].jobs else []
  {
  }

  /** A call that succeeds on a tunnel without a port makes it REQUIRED on the first drawn port that is
      free, with the encrypted credentials. */
  lemma RequiredTunnel(s: State, id: int, now: int, a: Answers, k: nat)
    requires (id in s ==> s[id].port == 0) && a.endpointRead && a.userAdded && a.encrypted.Some?
    requires k < |a.draws| && !Held(s, MIN_AVAILABLE_PORT + a.draws[k])
    requires forall i | 0 <= i < k :: Held(s, MIN_AVAILABLE_PORT + a.draws[i])
    ensures FirstUnused(s, a.draws).Some?
    ensures var o := ToRequired(s, id, now, a); var r := o.state;
            && o.ok && id in r && OthersKept(s, r, id)
            && r[id].status == Required && r[id].port == MIN_AVAILABLE_PORT + a.draws[k]
            && r[id].lastActivity == Some(now) && r[id].credentials == a.encrypted.value
            && r[id].jobs == if id in s then s[id].jobs else []
  {
    FirstUnusedIsFirst(s, a.draws, k);
  }

  /** The same call, failing after the port is taken: the tunnel of the map is changed all the same,
      but for its credentials. */
  lemma RequiredTunnelOnFailure(s: State, id: int, now: int, a: Answers, k: nat)
    requires id in s && s[id].port == 0 && a.endpointRead && !(a.userAdded && a.encrypted.Some?)
    requires k < |a.draws| && !Held(s, MIN_AVAILABLE_PORT + a.draws[k])
    requires forall i | 0 <= i < k :: Held(s, MIN_AVAILABLE_PORT + a.draws[i])
    ensures FirstUnused(s, a.draws).Some?
    ensures var o := ToRequired(s, id, now, a); var r := o.state;
            && !o.ok && id in r && OthersKept(s, r, id)
            && r[id].status == Required && r[id].port == MIN_AVAILABLE_PORT + a.draws[k]
            && r[id].lastActivity == Some(now) && r[id].credentials == s[id].credentials && r[id].jobs == s[id].jobs
  {
    FirstUnusedIsFirst(s, a.draws, k);
  }

  /** Registering a job: an equal id is replaced where it stands, a new one goes to the end. */
  lemma RegisteredJob(s: State, id: int, job: Job)
    ensures var r := AddJob(s, id, job); var before := if id in s then s[id].jobs else [];
            && id in r && OthersKept(s, r, id)
            && ((forall i | 0 <= i < |before| :: before[i].id != job.id) ==> r[id].jobs == before + [job])
            && (forall k | 0 <= k < |before| && before[k].id == job.id && (forall i | 0 <= i < k :: before[i].id != job.id) ::
                  r[id].jobs == before[k := job])
            && r[id].(jobs := []) == if id in s then s[id].(jobs := []) else Tunnel(Idle, None, 0, [], "")
  {
    hide Upsert;
    var before := if id in s then s[id].jobs else [];
    if forall i | 0 <= i < |before| :: before[i].id != job.id {
      UpsertAt(before, job, |before|);
    }
    forall k | 0 <= k < |before| && before[k].id == job.id && (forall i | 0 <= i < k :: before[i].id != job.id)
      ensures Upsert(before, job) == before[k := job]
    {
      UpsertAt(before, job, k);
    }
  }

  /** Removing a job takes it out of every tunnel; the other jobs stay as they are, in order. */
  lemma RemovedJob(s: State, jobId: int, id: int)
    requires id in s
    ensures id in RemoveJob(s, jobId) && RemoveJob(s, jobId).Keys == s.Keys
    ensures RemoveJob(s, jobId)[id] == s[id].(jobs := Filter((j: Job) => j.id != jobId, s[id].jobs))
  {
    WithoutIsFilter(s[id].jobs, jobId);
  }

  lemma {:induction false} WithoutIsFilter(jobs: seq<Job>, jobId: int)
    ensures Without(jobs, jobId) == Filter((j: Job) => j.id != jobId, jobs)
  {
    if jobs != [] {
      WithoutIsFilter(jobs[..|jobs| - 1], jobId);
    }
  }

  /** For every run and every ACTIVE tunnel of a state it reaches: the last event that set its status is
      a call to SetTunnelStatusToActive, and it still has the port it had then and the time of that
      call. */
  lemma {:induction false} ActiveSince(states: seq<State>, events: seq<Event>, id: int, n: nat) returns (k: nat)
    requires IsRun(states, events) && n < |states| && id in states[n] && states[n][id].status == Active
    ensures k < n && events[k].SetActive? && events[k].id == id
    ensures forall j | k < j < n :: !SetsStatus(states[j], events[j], id)
    ensures states[n][id].port == if id in states[k] then states[k][id].port else 0
    ensures states[n][id].lastActivity == Some(events[k].now)
    ensures forall j | k < j <= n :: id in states[j] && states[j][id].(jobs := []) == states[n][id].(jobs := [])
  {
    hide SetsStatus, Enabled, Apply;
    assert n > 0;
    var s, e := states[n - 1], events[n - 1];
    assert Enabled(s, e) && states[n] == Apply(s, e);
    ReachableInv(states, events, n - 1);
    if SetsStatus(s, e, id) {
      k := n - 1;
      StepToActive(s, e, id);
    } else {
      StepKeepsStatus(s, e, id);
      NotIdleIsStored(s, id);
      k := ActiveSince(states, events, id, n - 1);
    }
  }

  lemma StepToActive(s: State, e: Event, id: int)
    requires Inv(s) && Enabled(s, e) && SetsStatus(s, e, id)
    requires id in Apply(s, e) && Apply(s, e)[id].status == Active
    ensures e.SetActive? && e.id == id
    ensures Apply(s, e)[id].port == if id in s then s[id].port else 0
    ensures Apply(s, e)[id].lastActivity == Some(e.now)
  {
    hide InUse, FirstUnused, Upsert, Without, UniqueIds;
  }

  lemma NotIdleIsStored(s: State, id: int)
    ensures Lookup(s, id).status != Idle ==> id in s
  {
  }

  // ---- Failing calls

  /** A call to SetTunnelStatusToRequired on a tunnel without a port fails exactly if one of its calls
      out does; it then leaves the state as it was exactly if the endpoint has no tunnel in the map, or
      could not be read. */
  lemma FailedRequiredUnchangedIff(s: State, id: int, now: int, a: Answers)
    requires Inv(s) && (Lookup(s, id).port == 0 && a.endpointRead ==> a.Suffice(s))
    ensures var r := ToRequired(s, id, now, a);
            && (!r.ok <==> Lookup(s, id).port == 0 && (!a.endpointRead || !a.userAdded || a.encrypted.None?))
            && (!r.ok ==> (r.state == s <==> id !in s || !a.endpointRead))
  {
    if id in s && Lookup(s, id).port == 0 && a.endpointRead {
      FirstUnusedIsUnused(s, a.draws);
      assert ToRequired(s, id, now, a).state[id].port != 0;
    }
  }

  /** The event sets the status of this tunnel, be it to the status it has or by dropping the tunnel;
      a failed call for an endpoint that has no tunnel in the map sets nothing. */
  ghost predicate SetsStatus(s: State, e: Event, id: int)
    requires Enabled(s, e)
  {
    match e
    case SetActive(eid, _) => eid == id
    case SetIdle(eid, _) => eid == id
    case SetRequired(eid, now, a) =>
      eid == id && Lookup(s, id).port == 0 && a.endpointRead && (id in s || ToRequired(s, id, now, a).ok)
    case CheckTunnels(now) => id in s && !Young(s[id], now)
    case _ => false
  }

  lemma StepKeepsStatus(s: State, e: Event, id: int)
    requires Enabled(s, e) && !SetsStatus(s, e, id)
    ensures Lookup(Apply(s, e), id).(jobs := []) == Lookup(s, id).(jobs := [])
  {
    hide InUse, FirstUnused, Upsert, Without;
  }

  /** The credentials a call that makes a tunnel REQUIRED leaves: those encrypted, or none if it fails. */
  function CredentialsFrom(a: Answers): string {
    if a.userAdded && a.encrypted.Some? then a.encrypted.value else ""
  }

  lemma StepToRequired(s: State, e: Event, id: int)
    requires Inv(s) && Enabled(s, e) && SetsStatus(s, e, id) && Lookup(Apply(s, e), id).status == Required
    ensures e.SetRequired? && e.id == id
    ensures Lookup(Apply(s, e), id).credentials == CredentialsFrom(e.answers)
    ensures ToRequired(s, id, e.now, e.answers).ok <==> e.answers.userAdded && e.answers.encrypted.Some?
  {
    hide InUse, FirstUnused, Upsert, Without, UniqueIds;
    if id in s {
      assert Sound(s[id]);
    }
  }

  /** The call does nothing here and succeeds. */
  ghost predicate IgnoresRequired(s: State, id: int) {
    Lookup(s, id).port != 0 && forall now, a :: ToRequired(s, id, now, a) == Outcome(s, true)
  }

  lemma RequiredIsIgnored(s: State, id: int)
    requires Inv(s) && Lookup(s, id).status == Required
    ensures IgnoresRequired(s, id)
  {
    assert id in s && Sound(s[id]);
  }

  /** For every run and every REQUIRED tunnel of a state it reaches: the last event that set its status
      is a call to SetTunnelStatusToRequired that found it without a port; the credentials are those
      of that call, and none if that call failed, although in the meantime further calls do nothing
      and report success. */
  lemma {:induction false} RequiredSince(states: seq<State>, events: seq<Event>, id: int, n: nat) returns (k: nat)
    requires IsRun(states, events) && n < |states| && Lookup(states[n], id).status == Required
    ensures k < n && events[k].SetRequired? && events[k].id == id && SetsStatus(states[k], events[k], id)
    ensures forall j | k < j < n :: !SetsStatus(states[j], events[j], id)
    ensures Lookup(states[n], id).credentials == CredentialsFrom(events[k].answers)
    ensures ToRequired(states[k], id, events[k].now, events[k].answers).ok <==>
            events[k].answers.userAdded && events[k].answers.encrypted.Some?
    ensures forall j | k < j <= n :: Lookup(states[j], id).(jobs := []) == Lookup(states[n], id).(jobs := [])
    ensures forall j | k < j <= n :: IgnoresRequired(states[j], id)
  {
    hide SetsStatus, Enabled, Apply, CredentialsFrom, ToRequired, IgnoresRequired;
    assert n > 0;
    var s, e := states[n - 1], events[n - 1];
    assert Enabled(s, e) && states[n] == Apply(s, e);
    ReachableInv(states, events, n - 1);
    ReachableInv(states, events, n);
    RequiredIsIgnored(states[n], id);
    if SetsStatus(s, e, id) {
      k := n - 1;
      StepToRequired(s, e, id);
    } else {
      StepKeepsStatus(s, e, id);
      k := RequiredSince(states, events, id, n - 1);
    }
  }

  /** A REQUIRED tunnel of a reachable state has no credentials exactly if the last event that set its
      status was a failing call, or one whose encrypted credentials were empty. */
  lemma NoCredentialsIffFailed(states: seq<State>, events: seq<Event>, id: int, n: nat, k: nat)
    requires IsRun(states, events) && n < |states| && Lookup(states[n], id).status == Required
    requires k < n && SetsStatus(states[k], events[k], id) && forall j | k < j < n :: !SetsStatus(states[j], events[j], id)
    ensures events[k].SetRequired? && events[k].id == id
    ensures Lookup(states[n], id).credentials == "" <==>
              || !ToRequired(states[k], id, events[k].now, events[k].answers).ok
              || events[k].answers.encrypted == Some("")
  {
    hide SetsStatus, Enabled, Apply, ToRequired;
    var m := RequiredSince(states, events, id, n);
    assert m == k;
  }

  /** A call to SetTunnelStatusToRequired that fails after the port was taken leaves a tunnel of the
      map REQUIRED with a port and without credentials; the next call then succeeds without doing
      anything. */
  lemma FailedRequiredSticks(s: State, id: int, now: int, a: Answers, later: int, b: Answers)
    requires Inv(s) && id in s && s[id].port == 0 && a.endpointRead && a.Suffice(s)
    requires !a.userAdded || a.encrypted.None?
    ensures var r := ToRequired(s, id, now, a);
            && !r.ok && id in r.state
            && r.state[id].status == Required && r.state[id].port != 0 && r.state[id].credentials == ""
            && ToRequired(r.state, id, later, b) == Outcome(r.state, true)
  {
    FirstUnusedIsUnused(s, a.draws);
    assert Sound(s[id]);
  }
}
