/** The state of the reverse tunnels and what each call does to it (api/chisel). */
module TunnelSteps {
  import opened Wrappers

  const MIN_AVAILABLE_PORT := 49152
  const MAX_AVAILABLE_PORT := 65535
  const PORT_COUNT := MAX_AVAILABLE_PORT - MIN_AVAILABLE_PORT

  // Durations in nanoseconds.
  const REQUIRED_TIMEOUT := 15_000_000_000
  const ACTIVE_TIMEOUT := 270_000_000_000

  datatype Status = Idle | Required | Active

  /** A registered edge job; script stands for the fields the tunnels do not look at. */
  datatype Job = Job(id: int, endpoints: set<int>, script: string)

  /** None is Go's zero time. */
  datatype Tunnel = Tunnel(status: Status, lastActivity: Option<int>, port: int, jobs: seq<Job>, credentials: string)

  /** The tunnels by endpoint. */
  type State = map<int, Tunnel>

  const NEW_TUNNEL := Tunnel(Idle, None, 0, [], "")

  function Lookup(s: State, id: int): Tunnel {
    if id in s then s[id] else NEW_TUNNEL
  }

  predicate InUse(s: State, port: int) {
    exists id | id in s :: s[id].port == port
  }

  /** The first of the drawn ports that no tunnel holds. */
  function FirstUnused(s: State, draws: seq<nat>): Option<int> {
    if draws == [] then None
    else if InUse(s, MIN_AVAILABLE_PORT + draws[0]) then FirstUnused(s, draws[1..])
    else Some(MIN_AVAILABLE_PORT + draws[0])
  }

  /** What the calls out of SetTunnelStatusToRequired answer: whether the endpoint is read, the
      random draws, whether the tunnel server takes the user, and the encrypted credentials. */
  datatype Answers = Answers(endpointRead: bool, draws: seq<nat>, userAdded: bool, encrypted: Option<string>)
  {
    /** Draws come from rand.Intn, and getUnusedPort draws until a port is unused. */
    ghost predicate Suffice(s: State) {
      && (forall i | 0 <= i < |draws| :: draws[i] < PORT_COUNT)
      && FirstUnused(s, draws).Some?
    }
  }

  function ToActive(s: State, id: int, now: int): State {
    s[id := Lookup(s, id).(status := Active, credentials := "", lastActivity := Some(now))]
  }

  function Idled(t: Tunnel, now: int): Tunnel {
    t.(status := Idle, port := 0, lastActivity := Some(now), credentials := "")
  }

  function ToIdle(s: State, id: int, now: int): State {
    s[id := Idled(Lookup(s, id), now)]
  }

  datatype Outcome = Outcome(state: State, ok: bool)

  /** A tunnel already in the map is changed through the pointer even if a later call fails. */
  function ToRequired(s: State, id: int, now: int, a: Answers): Outcome
    requires Lookup(s, id).port == 0 && a.endpointRead ==> FirstUnused(s, a.draws).Some?
  {
    var t := Lookup(s, id);
    if t.port != 0 then Outcome(s, true)
    else if !a.endpointRead then Outcome(s, false)
    else
      var t' := t.(status := Required, port := FirstUnused(s, a.draws).value, lastActivity := Some(now));
      if a.userAdded && a.encrypted.Some? then Outcome(s[id := t'.(credentials := a.encrypted.value)], true)
      else Outcome(if id in s then s[id := t'] else s, false)
  }

  function Upsert(jobs: seq<Job>, job: Job): seq<Job> {
    if jobs == [] then [job]
    else if jobs[0].id == job.id then [job] + jobs[1..]
    else [jobs[0]] + Upsert(jobs[1..], job)
  }

  /** Upsert, position by position. */
  lemma {:induction false} UpsertAt(jobs: seq<Job>, job: Job, idx: nat)
    requires idx <= |jobs| && forall i :: 0 <= i < idx ==> jobs[i].id != job.id
    requires idx < |jobs| ==> jobs[idx].id == job.id
    ensures Upsert(jobs, job) == if idx < |jobs| then jobs[idx := job] else jobs + [job]
  {
    if jobs == [] || idx == 0 {
      assert jobs != [] ==> [job] + jobs[1..] == jobs[0 := job];
    } else {
      UpsertAt(jobs[1..], job, idx - 1);
      assert jobs == [jobs[0]] + jobs[1..];
    }
  }

  function Without(jobs: seq<Job>, jobId: int): seq<Job> {
    if jobs == [] then []
    else
      var last := jobs[|jobs| - 1];
      Without(jobs[..|jobs| - 1], jobId) + if last.id == jobId then [] else [last]
  }

  function AddJob(s: State, id: int, job: Job): State {
    s[id := Lookup(s, id).(jobs := Upsert(Lookup(s, id).jobs, job))]
  }

  function RemovedUpTo(s: State, done: set<int>, jobId: int): State {
    map id | id in s :: if id in done then s[id].(jobs := Without(s[id].jobs, jobId)) else s[id]
  }

  function RemoveJob(s: State, jobId: int): State {
    map id | id in s :: s[id].(jobs := Without(s[id].jobs, jobId))
  }

  /** checkTunnels leaves a tunnel alone that is idle or young enough. */
  predicate Young(t: Tunnel, now: int) {
    || t.lastActivity.None?
    || t.status == Idle
    || (t.status == Required && now - t.lastActivity.value < REQUIRED_TIMEOUT)
    || (t.status == Active && now - t.lastActivity.value < ACTIVE_TIMEOUT)
  }

  /** The state after the tunnels in done were checked: of the expired ones, those with jobs are
      idled and the others are dropped. */
  function CheckedUpTo(s: State, done: set<int>, now: int): State {
    map id | id in s && (id !in done || Young(s[id], now) || s[id].jobs != []) ::
      if id in done && !Young(s[id], now) then Idled(s[id], now) else s[id]
  }

  function CheckedOne(s: State, id: int, now: int): State
    requires id in s
  {
    if Young(s[id], now) then s
    else if s[id].jobs != [] then s[id := Idled(s[id], now)]
    else s - {id}
  }

  function Check(s: State, now: int): State {
    CheckedUpTo(s, s.Keys, now)
  }

  // ---- Runs

  datatype Event =
    | SetActive(id: int, now: int)
    | SetIdle(id: int, now: int)
    | SetRequired(id: int, now: int, answers: Answers)
    | AddEdgeJob(id: int, job: Job)
    | RemoveEdgeJob(jobId: int)
    | CheckTunnels(now: int)

  ghost predicate Enabled(s: State, e: Event) {
    e.SetRequired? && Lookup(s, e.id).port == 0 && e.answers.endpointRead ==> e.answers.Suffice(s)
  }

  ghost function Apply(s: State, e: Event): State
    requires Enabled(s, e)
  {
    match e
    case SetActive(id, now) => ToActive(s, id, now)
    case SetIdle(id, now) => ToIdle(s, id, now)
    case SetRequired(id, now, a) => ToRequired(s, id, now, a).state
    case AddEdgeJob(id, job) => AddJob(s, id, job)
    case RemoveEdgeJob(jobId) => RemoveJob(s, jobId)
    case CheckTunnels(now) => Check(s, now)
  }

  /** A run from the empty service: each state follows from the one before by the event between. */
  ghost predicate IsRun(states: seq<State>, events: seq<Event>) {
    && |states| == |events| + 1
    && states[0] == map[]
    && forall i | 0 <= i < |events| :: Enabled(states[i], events[i]) && states[i + 1] == Apply(states[i], events[i])
  }
}
