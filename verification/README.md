# Portainer: models and proofs

This project models ten stateful or algorithmic parts of Portainer and proves properties of them that
hold for every input, every state or every run. The members of a class or a loop in the source are methods
here, each proved equal to a specification function; the properties are lemmas about these functions.

| part | files | what is proved about it |
|---|---|---|
| Port bindings | `PortSpecs` `PortRows` `PortGroups` `PortSupply` `PortCombiner` `PortRuns` `PortReadBack` `PortRoundTrip` `PortConservation` `PortOrder` | what every row of numbers stands for; combining a container's bindings into rows and expanding the rows again is the identity on exactly the canonical maps; no drained list is read; nothing is lost or invented, and when addresses are kept; rows are merged as far as they can be |
| Reverse tunnels | `TunnelSteps` `TunnelService` `TunnelProperties` `EdgeJobLoader` | an invariant of every run, whichever calls out of the service fail; the job table as an abstraction of the run; expiry; when a free port exists |
| Kubernetes access | `ClusterNames` `NamespaceAccess` `NamespaceAccessProperties` | after a pass the subjects of role bindings match the policies, but for lost races and namesakes, with the exact conditions; passes are idempotent and commute for different users |
| Authorizations | `EndpointAccess` `AuthorizationTable` `AuthorizationAgreement` `PolicyCleanup` | when the precomputed table has an entry for exactly the endpoints the request filter keeps, whatever the roles are; what the cleanup of namespace policies removes |
| Edge relations | `TagSets` `EdgeRelations` `EdgeDuality` | the two directions between edge stacks and endpoints are one relation, with the exact condition |
| Database version 23 | `TagMigration` | the migrated tag index is consistent in both directions |
| Endpoint bucket | `BoltKeys` `EndpointStore` `EndpointIds` | key order and identifier order; identifiers are handed out once and creations overwrite nothing for exactly the runs in which each creation uses the identifier last handed out |
| Log lines | `LogFormat` `LogLines` | the streaming formatter is a split of the stripped text, with the colours in force |
| Service text | `ServiceText` | durations and placement constraints read back what was printed, with the exact conditions |
| Owner labels | `OwnerLabel` | every owner becomes a label value; label values are the fixed points |
| Shared | `Wrappers` `Seqs` `Text` `Arithmetic` | options, sequences, decimal numerals and splitting, division |

Where the code and its comments or its apparent intention part, the code is modelled as it is:

- The round trip of port bindings needs more than host addresses without `:`. An address with a `[` is lost as
  well (`PortRoundTrip.BracketIsLost`), and a key with several addresses comes back only if its bindings follow
  the order in which its protocol meets the addresses, because each turn of the inner loop takes the first binding
  left whatever its address. `PortRoundTrip.RoundTripIff` gives the exact condition.
- For the same reason the combined rows may publish a host port under another address of its key: they keep the
  addresses exactly if regrouping the addresses of each key leaves the same bindings over all
  (`PortConservation.CombineKeepsAddressesIff`, `PortConservation.AddressesMixedUp`).
- The comment on `getUnusedPort` names ports 49152 to 65535, the dynamic range of section 6 of RFC 6335; the draw
  never yields 65535.
- A failed call of `SetTunnelStatusToRequired` changes nothing exactly if the endpoint has no tunnel yet or cannot be
  read (`TunnelProperties.FailedRequiredUnchangedIff`). Otherwise it leaves the tunnel REQUIRED without credentials, and
  until another event sets the status all further calls report success without doing anything
  (`TunnelProperties.RequiredSince`, `TunnelProperties.NoCredentialsIffFailed`).
- `ensureNamespaceAccessForServiceAccount` may lose a race for creating the role binding; `setupNamespaceAccesses`
  takes the error for success although the account was not added (`NamespaceAccessProperties.AccessIffGranted`). A second
  pass makes up for it (`NamespaceAccessProperties.SecondPassRepairs`).
- Subjects of a role binding are compared by name only, whatever their kind and namespace. An account that is granted
  access is left out exactly if a subject of its name, but not the account itself, is there already
  (`NamespaceAccessProperties.AccountIsSubjectIff`), and other subjects are removed exactly if they bear the name of an
  account without access (`NamespaceAccessProperties.OtherSubjectsStayIff`).
- The table of authorizations has no entry for some endpoints that the request filter keeps: exactly those for which
  none of the four levels grants anything (`AuthorizationAgreement.TableAgreesWithFilterIff`). A level grants something
  exactly if the first of its highest ranking policies names a role that exists, has a positive priority and is not
  empty (`AuthorizationAgreement.FromRolesIff`). So a policy naming a missing role does no harm when another level
  grants something, while an empty role of higher priority masks a role of the same level that would grant something
  (`AuthorizationAgreement.EmptyRoleMasks`).
- The comment on `tag.Contains` says that set A contains set B; the code decides that A is a subset of B
  (`TagSets.Contains`), which is what its caller needs.
- For endpoints that are not edge endpoints the two directions of the stack relation differ exactly when the stack
  reaches the endpoint through dynamic groups only (`EdgeDuality.StackEndpointDuality`).
- `CreateEndpoint` resets the sequence of the bucket to the identifier it is given, and the handlers hold an identifier
  for as long as a connection to the endpoint takes. The next identifiers are neither stored nor held by another
  request exactly if the one created under is at least every stored and every held one
  (`EndpointIds.CreateKeepsCoverIff`), and were never handed out before exactly if it is the one handed out last
  (`EndpointIds.StepKeepsInvIff`; by handing out alone, `EndpointIds.NeverAgainIff`). This fails without any creation out of
  order: of three requests that finish in the order in which they began, the first finishes while the second waits, the
  third is handed the identifier of the second, and overwrites its record (`EndpointIds.InOrderCreatesOverwrite`).

## Model

| member | source | states |
|---|---|---|
| PortSpecs.PortPatternMeaning | app/docker/helpers/containerHelper.js:4-12 | the regular expression accepts all numerals of two to four digits, leading zeros included, and otherwise exactly the numerals of 1..9 and 10000..65535; nothing above 65535 is ever accepted |
| PortSpecs.ParsePortOfDecimal | app/docker/helpers/containerHelper.js:6-12 | parsing the usual numeral of a number gives the number up to 65535, and 0 beyond |
| PortSpecs.PreparePortBindings | app/docker/helpers/containerHelper.js:124-190 | the nested loops give the naive expansion of all specifications collected by key, or the error of the first bad specification |
| PortSpecs.AddBindings | app/docker/helpers/containerHelper.js:172-187 | the inner loop files one binding per container port of a range under its key |
| PortSpecs.HostTextAt | app/docker/helpers/containerHelper.js:172-179 | the host port written for the i-th container port: none, one port, or the whole host range behind a single container port |
| PortSpecs.AcceptedShape | app/docker/helpers/containerHelper.js:124-190 | an accepted specification yields one binding per container port in ascending order, and all port numbers written lie in 1..65535 |
| PortSpecs.PrepareRefinesExpansion | app/docker/helpers/containerHelper.js:124-190 | acceptance iff every specification is accepted; the number of bindings is the sum of the range widths; each key holds its bindings in specification order |
| PortSpecs.CollectSelects | app/docker/helpers/containerHelper.js:181-186 | a key is present iff it was bound, with its bindings in the order of binding |
| PortRows.NumericRow | app/docker/helpers/containerHelper.js:124-190 | a row of numbers, with its host address absent, plain or in brackets, is accepted iff both ranges ascend within 1..65535 and have one width or the container port is single; it binds exactly these ports at this address, or quotes the side at fault |
| PortRows.HostInFront | app/docker/helpers/containerHelper.js:142-158 | an address in front of a host port, bracketed or not, changes nothing but the address of the bindings |
| PortRows.SplitBracketed | app/docker/helpers/containerHelper.js:143-151 | the text between the brackets is the address, colons included, and the text behind them the port |
| PortRows.RowWithoutHost | app/docker/helpers/containerHelper.js:131-142 | without a host port the container ports are bound with an empty host port and no address |
| PortRows.EmptyRow | app/docker/helpers/containerHelper.js:127-129 | a row without a container port binds nothing |
| PortRows.UnclosedBracket | app/docker/helpers/containerHelper.js:143-148 | a bracket not closed in front of a colon is an error that quotes the container port |
| PortRows.RestIsIgnored | app/docker/helpers/containerHelper.js:153-157 | what follows a second colon is ignored |
| PortRows.BracketRestIsIgnored | app/docker/helpers/containerHelper.js:144-151 | what follows a second closing bracket is ignored |
| PortRows.FirstErrorWins | app/docker/helpers/containerHelper.js:126-188 | the error of the call is that of the first row that is not accepted |
| PortGroups.SortByPortPermutes | app/docker/helpers/containerHelper.js:213-215 | sorting loses and repeats no key |
| PortGroups.SortByPortSorts | app/docker/helpers/containerHelper.js:213-215 | the keys are sorted by container port |
| PortOrder.SortIsStable | app/docker/helpers/containerHelper.js:213-215 | keys of one port number keep their order |
| PortOrder.ProtocolsInOrder | app/docker/helpers/containerHelper.js:197-201 | the protocols are those of the keys, in order of first appearance |
| PortOrder.IpsInOrder | app/docker/helpers/containerHelper.js:203-209 | the addresses are those of the bindings, in order of first appearance |
| PortOrder.VisitsInOrder | app/docker/helpers/containerHelper.js:201-223 | bindings are visited protocol by protocol, address by address in order of first appearance, and by ascending container port |
| PortSupply.VisitsMatchBindings | app/docker/helpers/containerHelper.js:201-223 | every key is visited once per binding, in the groups of its own addresses |
| PortSupply.RegroupPermutes | app/docker/helpers/containerHelper.js:203-209 | the groups a key is visited in are a permutation of its addresses |
| PortCombiner.NeverReadsDrained | app/docker/helpers/containerHelper.js:219-223 | over the whole run no list is read after it is drained |
| PortCombiner.PortMap.GroupByHostIp | app/docker/helpers/containerHelper.js:202-209 | each address lists each key as often as the key has bindings on it, in order of first appearance |
| PortCombiner.PortMap.Emit | app/docker/helpers/containerHelper.js:224-254 | one turn either widens the last row or appends a row, exactly as the greedy segmentation into runs does |
| PortCombiner.PortMap.CombineGroup | app/docker/helpers/containerHelper.js:211-256 | the loop over one address drains the lists it visits and appends the rows of the runs it meets |
| PortCombiner.PortMap.CombineProtocol | app/docker/helpers/containerHelper.js:201-257 | the loop over the addresses of one protocol, against the same specification |
| PortCombiner.PortMap.SortAndCombinePorts | app/docker/helpers/containerHelper.js:192-260 | the whole call returns the rows of the runs of all visits, and leaves every list of its argument empty |
| PortRuns.SegmentsAreMaximalRuns | app/docker/helpers/containerHelper.js:217-242 | the segments are runs of consecutive ports, make up the visits in order, and no two neighbours could be joined |
| PortRuns.ExtendRange | app/docker/helpers/containerHelper.js:39-61 | extending a range of valid ports behind a colon-free address moves its upper end |
| PortRuns.RangeWidened | app/docker/helpers/containerHelper.js:39-61 | a range and any port give the least range that holds both |
| PortRuns.RowContainer | app/docker/helpers/containerHelper.js:229-252 | a merged row carries the container range from the first to the last port of its run |
| PortRuns.RowHost | app/docker/helpers/containerHelper.js:39-61 | a merged row carries the host range of its run behind the part of the address before its first colon |
| PortReadBack.ReadBackRun | app/docker/helpers/containerHelper.js:124-260 | the row of a canonical run expands to exactly the bindings of the run |
| PortReadBack.ReadBackAny | app/docker/helpers/containerHelper.js:124-260 | whatever row expands at all, its keys are right and no address comes back longer; one of full length only if it is canonical |
| PortRoundTrip.RoundTripIff | app/docker/helpers/containerHelper.js:124-260 | for every map of bindings, expanding the combined rows gives the map back iff keys, host ports and addresses are canonical and each key's bindings follow the order of the address groups |
| PortRoundTrip.OneBindingEach | app/docker/helpers/containerHelper.js:124-260 | with one binding per key the round trip is the identity iff the map is canonical |
| PortRoundTrip.CanonicalRounds | app/docker/helpers/containerHelper.js:124-260 | sufficiency: canonical maps in group order come back, an empty address as undefined |
| PortRoundTrip.RestoredIsCanonical | app/docker/helpers/containerHelper.js:124-260 | necessity for keys, host ports and empty lists |
| PortRoundTrip.RestoredAddresses | app/docker/helpers/containerHelper.js:124-260 | necessity for addresses and for the order of a key's bindings |
| PortRoundTrip.BracketIsLost | app/docker/helpers/containerHelper.js:143-151 | the address "[a" has no colon and still does not survive the round trip |
| PortConservation.CombineConserves | app/docker/helpers/containerHelper.js:192-260 | the rows, read as text, publish the same multiset of protocol, container port and host port as the map, for any number of bindings and addresses per key |
| PortConservation.CombineKeepsAddressesIff | app/docker/helpers/containerHelper.js:192-260 | with addresses, the rows publish the bindings under the addresses of the groups they are read in; that is the given multiset iff regrouping each key's addresses leaves it the same over all keys |
| PortConservation.GroupOrderKeepsAddresses | app/docker/helpers/containerHelper.js:192-260 | in particular if each key's bindings follow the order of the address groups |
| PortConservation.AddressesMixedUp | app/docker/helpers/containerHelper.js:219-223 | an instance where they do not: a host port of one address is read under the other |
| PortConservation.CombineIsMaximal | app/docker/helpers/containerHelper.js:224-236 | no two neighbouring rows of one protocol and address could still be merged |
| PortConservation.RowSaysRun | app/docker/helpers/containerHelper.js:39-61 | the text of a merged row says what the visits of its run said, in order |
| TunnelService.Service.GetTunnelDetails | api/chisel/tunnel.go:42-57 | a pointer into the map if the endpoint is there, and a fresh idle tunnel outside of the map otherwise |
| TunnelService.Service.GetUnusedPort | api/chisel/tunnel.go:24-39 | the first drawn port that no tunnel holds |
| TunnelService.Service.SetTunnelStatusToActive | api/chisel/tunnel.go:61-69 | the new state of all tunnels, through the shared object; objects already in the map stay |
| TunnelService.Service.SetTunnelStatusToIdle | api/chisel/tunnel.go:74-89 | the new state of all tunnels |
| TunnelService.Service.SetTunnelStatusToRequired | api/chisel/tunnel.go:96-127 | the new state and the outcome, with the partial update a failed call leaves on a tunnel of the map and no change for a new one |
| TunnelService.Service.AddEdgeJob | api/chisel/schedules.go:10-29 | a job with the same id is replaced in place, any other is appended; no other tunnel changes |
| TunnelService.Service.RemoveEdgeJob | api/chisel/schedules.go:32-47 | the job disappears from every tunnel and nothing else changes, in whatever order the tunnels are visited |
| TunnelService.Service.CheckTunnel | api/chisel/service.go:135-181 | one turn of the pass: an expired tunnel is idled if it has jobs and dropped otherwise |
| TunnelService.Service.CheckTunnels | api/chisel/service.go:135-181 | the whole pass, in whatever order the tunnels are visited |
| TunnelSteps.UpsertAt | api/chisel/schedules.go:13-24 | replacing at the first match or appending is the list function the job table is specified with |
| TunnelProperties.FirstUnusedIsUnused | api/chisel/tunnel.go:24-39 | a returned port lies in 49152..65534 and no tunnel holds it |
| TunnelProperties.FirstUnusedIsFirst | api/chisel/tunnel.go:24-39 | the port is that of the first draw no tunnel holds |
| TunnelProperties.PortAvailable | api/chisel/tunnel.go:17-39 | with fewer than 16383 tunnels some draw ends the search, whatever was drawn before |
| TunnelProperties.PortsExhausted | api/chisel/tunnel.go:24-35 | draws of held ports never end the search |
| TunnelProperties.StepKeepsInv | api/chisel/tunnel.go:24-127 | every call keeps the invariant, whichever of its calls out fail |
| TunnelProperties.ReachableInv | api/chisel/tunnel.go:24-127 | in every reachable state nonzero ports are distinct dynamic ports, IDLE means no port and no credentials, REQUIRED means a port, non-IDLE tunnels have an activity time, credentials imply REQUIRED, job ids are unique |
| TunnelProperties.ActiveTunnel | api/chisel/tunnel.go:61-69 | the tunnel is ACTIVE without credentials, active now, with the port and the jobs it had, and no other tunnel changes |
| TunnelProperties.IdleTunnel | api/chisel/tunnel.go:74-89 | the tunnel is IDLE without port and credentials, active now, with the jobs it had, and no other tunnel changes |
| TunnelProperties.RequiredTunnel | api/chisel/tunnel.go:96-127 | a successful call makes the tunnel REQUIRED on the first free drawn port, active now, with the encrypted credentials and the jobs it had, and no other tunnel changes |
| TunnelProperties.RequiredTunnelOnFailure | api/chisel/tunnel.go:96-127 | a call failing after the port is taken does the same to a tunnel of the map, but for its credentials |
| TunnelProperties.RegisteredJob | api/chisel/schedules.go:10-29 | the first job of the same id is replaced where it stands, else the job is appended; nothing else of any tunnel changes |
| TunnelProperties.RemovedJob | api/chisel/schedules.go:32-47 | in every tunnel exactly the jobs of that id are gone, the others stay in order, and nothing else changes |
| TunnelProperties.ActiveSince | api/chisel/tunnel.go:61-127 | in every run, an ACTIVE tunnel got its status from the last call to SetTunnelStatusToActive, and has had the port it had then ever since |
| TunnelProperties.StepRefinesJobs | api/chisel/schedules.go:10-47 | the jobs of an endpoint change only by registering and removing jobs; status changes and expiry are stutter steps |
| TunnelProperties.RunRefinesJobs | api/chisel/schedules.go:10-47 | over a whole run the jobs are what the registrations and removals alone leave |
| TunnelProperties.CheckExpires | api/chisel/service.go:135-181 | after a pass every non-IDLE tunnel is younger than its timeout; young tunnels are untouched, expired ones keep their jobs or are gone |
| TunnelProperties.FailedRequiredUnchangedIff | api/chisel/tunnel.go:96-127 | a call fails iff the tunnel has no port and one of the calls out fails; it then leaves the state as it was iff the endpoint has no tunnel in the map or could not be read |
| TunnelProperties.FailedRequiredSticks | api/chisel/tunnel.go:96-127 | a call failing after the port was taken leaves REQUIRED without credentials, and the next call succeeds without effect |
| TunnelProperties.RequiredSince | api/chisel/tunnel.go:61-127 | in every run, a REQUIRED tunnel got its status from a call that found it without a port, has had that call's credentials ever since, and all calls since were without effect |
| TunnelProperties.NoCredentialsIffFailed | api/chisel/tunnel.go:61-127 | in every run, a REQUIRED tunnel has no credentials iff the last event that set its status was a failing call, or one with empty encrypted credentials |
| TunnelProperties.StepKeepsStatus | api/chisel/tunnel.go:61-127 | every other event keeps status, port, credentials and activity time of the tunnel |
| TunnelProperties.UpsertKeepsIds | api/chisel/schedules.go:10-29 | registering keeps job ids unique, adds the job and loses no other |
| EdgeJobLoader.LoadEdgeJobs | api/internal/edge/edgejob.go:6-19 | all stored jobs are registered with all their endpoints, or nothing happens when they cannot be read |
| EdgeJobLoader.LoadedJobs | api/internal/edge/edgejob.go:6-19 | a fresh service then has, for each endpoint, exactly its own jobs in stored order |
| EdgeJobLoader.LoadedKeepsRest | api/internal/edge/edgejob.go:6-19 | in a service that is in use, each endpoint's own jobs are registered one by one and nothing else of its tunnel changes |
| EdgeJobLoader.JobsForIsFilter | api/internal/edge/edgejob.go:12-16 | an endpoint's own jobs are those stored with it, in stored order |
| ClusterNames.NamesInjective | api/kubernetes/cli/naming.go:16-26 | within an instance different users and different namespaces have different names |
| ClusterNames.AccountNamesInjective | api/kubernetes/cli/naming.go:16-18 | an account name tells both the instance and the (never negative) user id |
| ClusterNames.NamesInjectiveAcrossInstances | api/kubernetes/cli/naming.go:16-26 | names are injective across instances, too, as instance ids are UUIDs of one length: a name tells the instance and the namespace, or the instance and the user |
| ClusterNames.RoleBindingNamesCollideIff | api/kubernetes/cli/naming.go:24-26 | for ids of different lengths, role binding names collide iff the longer id continues the shorter one, after a dash, with the front of the namespace |
| ClusterNames.AccountNamesCollideIff | api/kubernetes/cli/naming.go:16-18 | for ids of different lengths, account names collide iff the longer id is the shorter one and a dash, and the user ids are a negative number and its opposite |
| NamespaceAccess.Cluster.Compact | api/kubernetes/cli/service_account.go:126-134 | the in-place compaction leaves the subjects of other names, in order, at the front of the same array |
| NamespaceAccess.Cluster.RemoveNamespaceAccess | api/kubernetes/cli/service_account.go:116-138 | all subjects of the account's name are removed from the role binding, with the outcome of every failure |
| NamespaceAccess.Cluster.EnsureNamespaceAccess | api/kubernetes/cli/service_account.go:140-182 | the account is appended unless a subject bears its name, a missing role binding is created, with the outcome of every failure and of a lost race |
| NamespaceAccess.Cluster.HasUserAccessToNamespace | api/kubernetes/cli/access.go:103-117 | access iff the user has an entry or one of the listed teams has one |
| NamespaceAccess.Cluster.SetupNamespaceAccesses | api/kubernetes/cli/access.go:51-101 | the namespaces in turn up to the first error, default left out, "already exists" taken for success |
| NamespaceAccessProperties.PassEffect | api/kubernetes/cli/access.go:72-98 | a successful pass visits each listed namespace once and touches no other role binding |
| NamespaceAccessProperties.AccountIsSubjectIff | api/kubernetes/cli/access.go:51-117 | after a successful pass the account is a subject in a listed namespace iff a policy grants it and it was there before or its name was free; after a lost race iff the rival listed it |
| NamespaceAccessProperties.AccountIffGranted | api/kubernetes/cli/access.go:51-117 | the same over the config map and the cluster's names: the service account is a subject of the namespace's role binding iff an entry names the user or one of the teams and the name was free or the account's own, or the rival listed it |
| NamespaceAccessProperties.BindingAfterPass | api/kubernetes/cli/access.go:51-117 | the whole role binding after a successful pass: created with the account or by the rival, unchanged, with the account at the end, or without the subjects of its name, in order |
| NamespaceAccessProperties.OthersStayIffGranted | api/kubernetes/cli/service_account.go:116-182 | likewise, all other subjects stay in order iff such an entry exists or none of them bears the account's name |
| NamespaceAccessProperties.OthersIsFilter | api/kubernetes/cli/service_account.go:126-134 | without access exactly the subjects of the account's name are removed, the others stay in order |
| NamespaceAccessProperties.PassSucceedsIff | api/kubernetes/cli/access.go:72-98 | a pass succeeds iff no read fails and no write that is called for |
| NamespaceAccessProperties.PassFailsAt | api/kubernetes/cli/access.go:72-98 | the first visit that fails ends the pass with its error, and the role bindings are as the visits before it left them |
| NamespaceAccessProperties.AccountIsSubjectAfterTwoIff | api/kubernetes/cli/access.go:51-117 | after two successful passes the account is a subject iff a policy grants it and, among the subjects the first pass met or lost to, it was there or its name was free |
| NamespaceAccessProperties.OtherSubjectsStayIff | api/kubernetes/cli/service_account.go:116-182 | all subjects but the account stay, in order, iff access is granted or none of them bears the account's name |
| NamespaceAccessProperties.NamesakesConfused | api/kubernetes/cli/service_account.go:128-172 | an instance of each: a user of the account's name keeps it out, a service account of that name in another namespace is removed with it |
| NamespaceAccessProperties.AccessIffGranted | api/kubernetes/cli/access.go:51-117 | by name: afterwards a subject of the account's name is there iff a policy grants access, except after a lost race |
| NamespaceAccessProperties.OthersUntouched | api/kubernetes/cli/service_account.go:116-182 | by name: subjects of other names stay in order, and unmanaged role bindings are unchanged |
| NamespaceAccessProperties.SecondPassIsIdle | api/kubernetes/cli/access.go:51-101 | after a pass without lost races a second pass changes nothing, whatever the server answers to it |
| NamespaceAccessProperties.SecondPassRepairs | api/kubernetes/cli/access.go:51-101 | after any successful pass, a successful second one adds the account exactly where a race was lost to a rival that left its name out, and changes nothing else in the listed namespaces |
| NamespaceAccessProperties.SecondPassGivesAccess | api/kubernetes/cli/access.go:51-117 | by name: after two successful passes a subject of the account's name is there iff a policy grants access, lost races or not |
| NamespaceAccessProperties.EffectsCommute | api/kubernetes/cli/service_account.go:116-182 | the effects for two accounts on one role binding commute up to the order of subjects |
| NamespaceAccessProperties.UsersCommute | api/kubernetes/cli/access.go:51-101 | whole passes for two users commute up to the order of subjects |
| EndpointAccess.GetAssociatedGroup | api/http/security/filter.go:121-128 | the first group with the endpoint's group id, if any |
| EndpointAccess.FilterEndpoints | api/http/security/filter.go:85-101 | administrators keep everything; others the endpoints they may use, in order |
| EndpointAccess.KeptIff | api/http/security/authorization.go:109-152 | an endpoint is kept iff its policies or its group's policies name the user or one of the teams |
| EndpointAccess.KeptIsFilter | api/http/security/filter.go:85-101 | the endpoints kept are those whose policies, or whose group's, name the user or one of the teams - each as often as listed, in order |
| EndpointAccess.AuthorizedIff | api/http/security/authorization.go:109-152 | the check lets the user in iff one of the four policy maps names the user or one of the teams |
| EndpointAccess.FindGroupFirst | api/http/security/filter.go:121-128 | the group is the first listed with the id |
| AuthorizationTable.GetAuthorizationsFromRoles | api/internal/authorization/authorizations.go:582-604 | the authorizations of the winning role among the first role of each id |
| AuthorizationTable.FromUserPolicy | api/internal/authorization/authorizations.go:534-554 | the level of the user's own policy, of an endpoint or of its group |
| AuthorizationTable.FromTeamPolicies | api/internal/authorization/authorizations.go:556-580 | the level of the teams' policies, of an endpoint or of its group |
| AuthorizationTable.GetUserEndpointAuthorizations | api/internal/authorization/authorizations.go:496-532 | per endpoint the first level with any authorizations; endpoints without any have no entry |
| AuthorizationTable.LevelsInTurn | api/internal/authorization/authorizations.go:508-529 | the cascade in order: user on endpoint, user on group, teams on endpoint, teams on group |
| AuthorizationAgreement.BestIsHighest | api/internal/authorization/authorizations.go:594-603 | the winning role has the highest positive priority and is the first of its equals; without one nothing is granted |
| AuthorizationAgreement.SingleRole | api/internal/authorization/authorizations.go:582-604 | one role grants something iff it exists, has a positive priority and is not empty |
| AuthorizationAgreement.FromRolesIff | api/internal/authorization/authorizations.go:582-604 | a level yields authorizations iff the first of its highest ranking ids names a role that exists, has a positive priority and is not empty |
| AuthorizationAgreement.EntryIffGranted | api/internal/authorization/authorizations.go:496-604 | an endpoint has an entry iff one of the four levels grants something, whatever the roles are |
| AuthorizationAgreement.EntryAgreesIff | api/internal/authorization/authorizations.go:496-604 | entry and request check agree iff a user who is let in has a level that grants something |
| AuthorizationAgreement.EntryIffAuthorized | api/internal/authorization/authorizations.go:496-604 | in particular, if all roles of its policies exist, rank and grant something, an endpoint has an entry iff the request check lets the user in |
| AuthorizationAgreement.EntryImpliesAuthorized | api/internal/authorization/authorizations.go:496-604 | whatever the roles, no entry is given to a user the request check turns away |
| AuthorizationAgreement.LonePolicy | api/internal/authorization/authorizations.go:534-543 | an instance: a user with one policy is let in, and has an entry iff its role exists, ranks and grants something |
| AuthorizationAgreement.EmptyRoleMasks | api/internal/authorization/authorizations.go:594-603 | an instance: an empty role of higher priority masks a role of the same level that grants something |
| AuthorizationAgreement.TableAgreesWithFilterIff | api/http/security/filter.go:85-101 | for any roles, the table has no id the filter does not keep, and they agree on an id iff a kept id has an endpoint with a level that grants something |
| AuthorizationAgreement.TableAgreesWithFilter | api/http/security/filter.go:85-101 | in particular, if all roles exist, rank and grant something, an endpoint id is in the table iff the filter keeps an endpoint with that id |
| AuthorizationAgreement.TableValue | api/internal/authorization/authorizations.go:496-532 | with unique ids no entry is overwritten by that of another endpoint |
| AuthorizationAgreement.TableHolds | api/internal/authorization/authorizations.go:496-604 | the stored authorizations are those of the leading role of the first level that grants something, in the order user on endpoint, user on group, teams on endpoint, teams on group |
| AuthorizationAgreement.TableLacks | api/internal/authorization/authorizations.go:496-532 | an id has no entry if no level of an endpoint with it grants anything |
| AuthorizationAgreement.LevelValue | api/internal/authorization/authorizations.go:582-604 | a level yields the authorizations of its leading role |
| AuthorizationAgreement.RoleOfIs | api/internal/authorization/authorizations.go:585-592 | the role of an id is the first listed with it |
| AuthorizationAgreement.OfTeamsIs | api/internal/authorization/authorizations.go:556-580 | the teams' level lists the roles of the user's teams that have one, in the order of the memberships |
| PolicyCleanup.GetUserEndpointAccess | api/internal/authorization/endpint_role_with_override.go:56-102 | the user check, or an error when memberships or group cannot be read |
| PolicyCleanup.GetTeamEndpointAccess | api/internal/authorization/endpint_role_with_override.go:104-133 | the team check, or an error when the group cannot be read |
| PolicyCleanup.CleanTeams | api/internal/authorization/endpint_role_with_override.go:23-32 | exactly the teams with access stay, deleted while iterating in any order; an unreadable check is an error |
| PolicyCleanup.CleanUsers | api/internal/authorization/endpint_role_with_override.go:34-43 | exactly the users with access stay, deleted while iterating in any order; an unreadable check is an error |
| PolicyCleanup.CleanNAPWithOverridePolicies | api/internal/authorization/endpint_role_with_override.go:6-54 | the cleaned policies are written once iff something was removed; on any error nothing is written |
| PolicyCleanup.UserCheckIsRequestCheck | api/internal/authorization/endpint_role_with_override.go:56-102 | the user check coincides with the check made on every request |
| PolicyCleanup.CleanedKeeps | api/internal/authorization/endpint_role_with_override.go:22-44 | an entry stays iff it passes the endpoint-or-group check, and keeps its role |
| PolicyCleanup.CleanedKeepsEntries | api/internal/authorization/endpint_role_with_override.go:22-133 | an entry stays iff the policies of the endpoint, or of the group given or stored, name the user or one of the user's teams, or the team |
| PolicyCleanup.ReadableIff | api/internal/authorization/endpint_role_with_override.go:56-126 | the cleanup can be carried out iff the group is known, as soon as there is an entry, and so are the memberships of every user with one |
| PolicyCleanup.CleanedTwice | api/internal/authorization/endpint_role_with_override.go:6-54 | a second run finds nothing to remove |
| TagSets.Set | api/internal/tag/tag.go:8-14 | the set of the listed tags |
| TagSets.Intersection | api/internal/tag/tag.go:17-38 | the tags that are in all sets |
| TagSets.Union | api/internal/tag/tag.go:41-49 | the tags that are in some set, for any number of sets |
| TagSets.Contains | api/internal/tag/tag.go:52-60 | counting decides that the first set is a subset of the second |
| TagSets.CountingIsSubset | api/internal/tag/tag.go:52-60 | as many common tags as the first set has tags means subset |
| EdgeRelations.EdgeGroupRelatedToEndpoint | api/internal/edge/edgegroup.go:37-59 | static groups list the endpoint; dynamic groups ask for some, or all, of their tags among those of the endpoint and its group |
| EdgeRelations.RelatedIff | api/internal/edge/edgegroup.go:37-59 | listed; or sharing a tag; or having all tags asked for |
| EdgeRelations.EdgeGroupRelatedEndpoints | api/internal/edge/edgegroup.go:9-34 | the listed endpoints of a static group, the related edge endpoints of a dynamic one |
| EdgeRelations.EdgeStackRelatedEndpoints | api/internal/edge/edgestack.go:9-30 | the endpoints of all edge groups of the stack, or an error for a missing group |
| EdgeRelations.EndpointRelatedEdgeStacks | api/internal/edge/endpoint.go:6-27 | each stack once that refers to a related edge group |
| EdgeDuality.StackEndpointsIff | api/internal/edge/edgestack.go:9-30 | an endpoint is listed iff one of the stack's groups lists it |
| EdgeDuality.EndpointStacksIff | api/internal/edge/endpoint.go:6-27 | a stack is listed iff one of its groups is related to the endpoint |
| EdgeDuality.StackEndpointDuality | api/internal/edge/edgegroup.go:9-59 | the endpoint is listed for the stack iff the stack is listed for the endpoint - for all edge endpoints, and for others unless only dynamic groups relate them |
| EdgeDuality.GroupHasEndpointIff | api/internal/edge/edgegroup.go:9-59 | an endpoint is among those of an edge group iff it is listed, shares a tag, or has all tags asked for - and is an edge endpoint if the group is dynamic |
| EdgeDuality.StackHasEndpointIff | api/internal/edge/edgestack.go:9-30 | from the stack, over ids and tags: iff this holds for one of its groups |
| EdgeDuality.EndpointHasStackIff | api/internal/edge/endpoint.go:6-27 | from the endpoint, over ids and tags: iff one of the stack's groups asks for it, whatever kind of endpoint it is |
| EdgeDuality.MissingGroup | api/internal/edge/edgestack.go:11-22 | a stack that refers to a group that does not exist is an error |
| EdgeDuality.GroupOfIs | api/internal/edge/edgegroup.go:19-26 | the endpoint's group is the first listed with its group id, or an empty one |
| EdgeDuality.MatchingIsFilter | api/internal/edge/edgegroup.go:14-33 | a dynamic group lists its endpoints once each, in order |
| EdgeDuality.ReachingIsFilter | api/internal/edge/endpoint.go:15-26 | the stacks are listed once each, in order |
| EdgeDuality.StackEndpointsInTurn | api/internal/edge/edgestack.go:9-30 | a stack lists the endpoints of its groups group by group |
| TagMigration.Database.UpdateTags | api/bolt/migrator/migrate_dbversion22.go:5-20 | every tag keeps its name and starts with empty sets |
| TagMigration.Database.TagsByName | api/bolt/migrator/migrate_dbversion22.go:23-32 | the last tag of each name, with sets of its own |
| TagMigration.TagItem | api/bolt/migrator/migrate_dbversion22.go:40-50 | the ids of an item's known tag names, and the item noted in exactly those tags through the shared maps |
| TagMigration.Database.MigrateEndpoints | api/bolt/migrator/migrate_dbversion22.go:34-63 | every endpoint gets its tag ids and an empty relation record; every tag in memory gains its endpoints |
| TagMigration.Database.MigrateGroups | api/bolt/migrator/migrate_dbversion22.go:65-84 | every endpoint group gets its tag ids; every tag in memory gains its groups |
| TagMigration.Database.SaveTags | api/bolt/migrator/migrate_dbversion22.go:86-91 | the tags in memory are written over their records and no other record changes |
| TagMigration.Database.UpdateEndpointsAndEndpointGroups | api/bolt/migrator/migrate_dbversion22.go:22-92 | the second step as a whole |
| TagMigration.Database.MigrateToDBVersion23 | api/bolt/migrator/migrate_dbversion22.go:5-92 | after both steps names are kept, items list the ids of their names, the index is consistent in both directions and names stored records only, and every endpoint has an empty relation record |
| TagMigration.MigratedIsConsistent | api/bolt/migrator/migrate_dbversion22.go:22-92 | tags that started empty end up consistent with endpoints and groups and list stored ones only, however many tags share a name |
| TagMigration.ListedIff | api/bolt/migrator/migrate_dbversion22.go:22-92 | an item lists a tag id iff the tag answers to one of the item's names |
| TagMigration.ListedIffLast | api/bolt/migrator/migrate_dbversion22.go:22-92 | an item lists a tag id iff the tag is the last listed of its name and the item has that name |
| TagMigration.IdsOfIs | api/bolt/migrator/migrate_dbversion22.go:40-50 | the ids stand in the order of the names, one for each name some tag has |
| BoltKeys.Itob | api/bolt/internal/db.go:17-21 | the eight bytes of the two's complement, most significant first |
| BoltKeys.IdOfKey | api/bolt/internal/db.go:14-21 | an identifier can be read back from its key, so keys are injective |
| BoltKeys.KeyOfId | api/bolt/internal/db.go:14-21 | every eight-byte key is the key of one identifier |
| BoltKeys.KeyOrder | api/bolt/internal/db.go:14-21 | byte order is identifier order among identifiers of the same sign; negative ones come last |
| BoltKeys.KeySpellsId | api/bolt/internal/db.go:14-21 | the eight bytes spell the identifier, modulo 2 to the 64, in base 256, most significant first |
| EndpointStore.Service.GetNextIdentifier | api/bolt/internal/db.go:84-100 | the sequence is advanced, wrapping around, and handed out |
| EndpointStore.Service.GetEndpoint | api/bolt/endpoint/endpoint.go:32-42 | the record under the identifier's key, if any |
| EndpointStore.Service.CreateEndpoint | api/bolt/endpoint/endpoint.go:80-97 | the record is put and the sequence set to its identifier, or nothing changes |
| EndpointStore.Service.UpdateEndpoint | api/bolt/endpoint/endpoint.go:45-48 | the record is put under the identifier, existing or not |
| EndpointStore.Service.DeleteEndpoint | api/bolt/endpoint/endpoint.go:51-54 | the record is gone and the sequence stays |
| EndpointStore.Service.Endpoints | api/bolt/endpoint/endpoint.go:57-77 | the records under all keys, each once, in the byte order of the keys |
| EndpointStore.Service.Synchronize | api/bolt/endpoint/endpoint.go:105-145 | creates with following identifiers, then updates, then deletes; all of them or nothing |
| EndpointStore.ReadAfterCreate | api/bolt/endpoint/endpoint.go:80-97 | then the new endpoint is read under its identifier and all others as before; the sequence is the identifier |
| EndpointStore.ReadAfterUpdate | api/bolt/endpoint/endpoint.go:45-48 | then the record is read under the identifier and all others as before |
| EndpointStore.ReadAfterDelete | api/bolt/endpoint/endpoint.go:51-54 | then nothing is read under the identifier and all others as before |
| EndpointStore.ReadAfterNext | api/bolt/internal/db.go:84-100 | all are read as before, and the sequence is one further |
| EndpointStore.ReadAfterSynchronize | api/bolt/endpoint/endpoint.go:105-145 | deleted identifiers are gone; otherwise the last update is read, otherwise the endpoint created under the identifier, otherwise what was there |
| EndpointIds.ListedAscending | api/bolt/endpoint/endpoint.go:57-77 | listings are in ascending order of identifiers and hold exactly the stored records |
| EndpointIds.StepKeepsInvIff | api/bolt/endpoint/endpoint.go:45-145 | the sequence stays the largest identifier ever handed out, none is handed out or created under twice and held ones stay unused - at every call but a creation, and at a creation iff it is under the identifier handed out last |
| EndpointIds.RunKeepsInvIff | api/bolt/endpoint/endpoint.go:45-145 | this holds throughout a run, with any number of identifiers held at once, iff every creation is under the identifier handed out last |
| EndpointIds.CreateKeepsCoverIff | api/bolt/endpoint/endpoint.go:80-97 | a creation with any identifier keeps all stored and all held identifiers at or below the sequence iff it is at least every one of them |
| EndpointIds.CoveredNextIsNew | api/bolt/internal/db.go:84-100 | then the next identifier is neither stored nor held |
| EndpointIds.NeverAgainIff | api/bolt/endpoint/endpoint.go:80-102 | after a creation, handing out alone repeats none of any given identifiers iff none of them exceeds the one created under |
| EndpointIds.IdsNeverReused | api/bolt/endpoint/endpoint.go:80-145 | over such a run the identifiers handed out, and those created under, strictly increase, whatever is deleted in between |
| EndpointIds.CreateAdds | api/bolt/endpoint/endpoint.go:80-97 | a creation of such a run overwrites no record and leaves the sequence as it is |
| EndpointIds.CreateKeepsBoundIff | api/bolt/endpoint/endpoint.go:80-97 | a creation with any identifier keeps the stored identifiers at or below the sequence iff the identifier is positive and no stored one exceeds it |
| EndpointIds.StaleCreateHandsOutAgain | api/bolt/endpoint/endpoint.go:84-88 | after a creation below a stored identifier the stored one is handed out again |
| EndpointIds.InOrderCreatesOverwrite | api/http/handler/endpoints/endpoint_create.go:382-485 | requests that finish in the order in which they began, none below a stored identifier, still hold one identifier twice and overwrite a record |
| EndpointIds.InterleavedCreates | api/bolt/endpoint/endpoint.go:80-102 | two requests that finish in the opposite order have a stored identifier handed out again |
| LogFormat.AppendText | app/docker/helpers/logHelper.js:105-121 | one text token closes a line at each line break and adds a stripped span per piece |
| LogFormat.FormatLogs | app/docker/helpers/logHelper.js:80-135 | the loop with its running colours, line and spans gives the lines between the breaks of the whole stream |
| LogLines.EmittedLines | app/docker/helpers/logHelper.js:80-135 | the lines are the concatenated stripped text split on line breaks; only an empty last line is dropped |
| LogLines.StrippedTextIsStrippedTokens | app/docker/helpers/logHelper.js:105-117 | stripping piece by piece amounts to stripping whole tokens if stripping treats lines separately |
| LogLines.EmittedSpans | app/docker/helpers/logHelper.js:98-130 | each line is the text of its spans; the spans emitted are all pieces of all text tokens in order, in the colours of their place, but for text-less ones of an empty last line |
| LogLines.SpansArePainted | app/docker/helpers/logHelper.js:105-121 | no span is lost, repeated or moved between the tokens and the lines |
| LogLines.ForegroundIsLastSet | app/docker/helpers/logHelper.js:86-104 | the foreground of a place is what the last token that sets it says, and none before such a token |
| LogLines.BackgroundIsLastSet | app/docker/helpers/logHelper.js:86-104 | the background of a place is what the last token that sets it says, and none before such a token |
| LogLines.ForegroundStep | app/docker/helpers/logHelper.js:86-104 | what each token does to the foreground: basic, extended and default colours and reset set it, all others leave it |
| LogLines.BackgroundStep | app/docker/helpers/logHelper.js:86-104 | what each token does to the background |
| ServiceText.NanosToHumanDuration | app/docker/helpers/serviceHelper.js:145-161 | the printed unit is the largest that divides the duration; no duration prints as 0s |
| ServiceText.ReadsSpelling | app/docker/helpers/serviceHelper.js:115-136 | any count of any unit is read as that many nanoseconds |
| ServiceText.ReadsDigits | app/docker/helpers/serviceHelper.js:115-136 | digits, leading zeros included, and a unit are the number times 1, 10^3, 10^6, 10^9, 60 * 10^9 or 3600 * 10^9 nanoseconds |
| ServiceText.ReadIffDuration | app/docker/helpers/serviceHelper.js:115-136 | anything but digits followed by a unit, in upper or lower case, is undefined |
| ServiceText.DurationRoundTrip | app/docker/helpers/serviceHelper.js:115-161 | reading a printed duration gives the duration back |
| ServiceText.ZeroRoundTrip | app/docker/helpers/serviceHelper.js:115-161 | 0s is read as zero |
| ServiceText.PrintedIsShortest | app/docker/helpers/serviceHelper.js:138-161 | no other unit spells the duration with a smaller count |
| ServiceText.KeyValueToPlacementConstraints | app/docker/helpers/serviceHelper.js:57-68 | the constraints with a key and a value, printed in order |
| ServiceText.ConstraintsToKeyValue | app/docker/helpers/serviceHelper.js:86-113 | every constraint taken apart, in order |
| ServiceText.ConstraintsRoundTripIff | app/docker/helpers/serviceHelper.js:57-113 | a list of constraints survives being read and printed iff each has an operator between a key and a value |
| ServiceText.PrintOfParse | app/docker/helpers/serviceHelper.js:57-113 | a constraint with an operator is what its parts spell; one without is not |
| ServiceText.ParseOfEqual | app/docker/helpers/serviceHelper.js:86-113 | key == value is read back iff the key has no == and does not end in = |
| ServiceText.ParseOfNotEqual | app/docker/helpers/serviceHelper.js:86-113 | key != value is read back iff the key has neither operator and the value has no == and does not start with = |
| ServiceText.ParseWithoutOperator | app/docker/helpers/serviceHelper.js:86-113 | without an operator the key lacks the last character and the value the first |
| ServiceText.KeptIs | app/docker/helpers/serviceHelper.js:57-68 | the constraints with a key and a value are printed as key, operator, value, in order |
| OwnerLabel.LabelIsInnerStretch | app/kubernetes/helpers/commonHelper.js:12-18 | every owner yields a label value: the stretch of the dotted, truncated name between its outermost alphanumeric characters |
| OwnerLabel.LabelIs | app/kubernetes/helpers/commonHelper.js:12-18 | character by character: a stretch of the first 63 characters, a dot for each that is not allowed, with nothing alphanumeric around it |
| OwnerLabel.UnchangedIffLabel | app/kubernetes/helpers/commonHelper.js:12-18 | an owner is its own label iff it is a label value ("Syntax and character set" of the Kubernetes documentation of labels) |
| OwnerLabel.Idempotent | app/kubernetes/helpers/commonHelper.js:12-18 | labelling a label changes nothing |

## Left out

- Port bindings: line breaks in port strings (the pattern is tested line by line) and numbers that are not exact in floating point.
- Port bindings: an undefined HostIp in a map to combine becomes the text "undefined"; addresses are strings in the model.
- Port bindings: keys, protocols and addresses that look like array indices, which JavaScript objects list first; the model lists keys, protocols and addresses in order of appearance.
- PortCombiner.PortMap.SortAndCombinePorts: keys that do not start with a digit; for them parseInt would skip white space, read a sign or yield NaN, as no key of Docker's does.
- PortRoundTrip.RoundTripIff: the same keys; all other keys are covered, those with text behind the number as well.
- Port bindings: the host text of a specification is never undefined; an absent one is the empty string.
- Tunnels: each call is one atomic step, since the service has no lock across reading and writing; the clock and the random draws are parameters.
- Tunnels: map keys are the endpoint ids themselves, as the decimal texts of the source are injective.
- Tunnels: the chisel server and its users, encryption, logging and the snapshot of an expired active tunnel; they do not change tunnel details. Elapsed times are exact numbers of nanoseconds.
- TunnelService.Service.GetUnusedPort: the recursion ends only if the draws meet an unused port, so the draws are given up front and must contain one; TunnelProperties.PortAvailable says when one exists.
- Kubernetes: conflicting updates by other clients between a read and a write, except for creating a missing role binding; retries, which the code does not make; the token and the cluster role of the account.
- Kubernetes: the encodings of config maps, and updates of a role binding that change anything but its subjects.
- EndpointAccess.FilterEndpoints: requires the group of every endpoint for users who are no administrators, because the source dereferences nil without it.
- AuthorizationAgreement.TableAgreesWithFilterIff: group ids are unique and the group of every endpoint exists, as the store keeps them.
- Authorizations: resource controls, registries, the default tables and the storing of the computed table.
- Edge relations: tag.Difference, which nothing here calls, and the storing of relations.
- TagMigration.Database.UpdateTags: fresh maps are empty sets; records written by later versions with sets already filled are cleared as in the source.
- Tag migration: the version ladder around the two steps; a failed store call ends the migration, and nothing is said of the state it leaves beyond well-formedness.
- Endpoint bucket: the encoding of records (a parameter says which can be encoded), pages and files of the database, and read errors of stored records.
- EndpointStore.Service.Synchronize: the assigned identifiers are not written back into the caller's objects.
- EndpointIds.RunKeepsInvIff: callers create under identifiers they hold and update under identifiers created under before; identifiers are handed out up to the largest signed 64-bit integer; the wrap beyond it is modelled in EndpointStore but ends the runs considered.
- Log lines: the ANSI tokenizer, the removal of Docker's stream headers and the regular expression of escape codes; stripping is a parameter that adds no line break, and the colour table is a parameter.
- Service text: an upper-case unit is read as moment.js reads it, which is a parameter; durations are exact integers; the other translators of the same file copy fields.
- HTTP handlers, user interface, image, registry, LDAP, OAuth and git code: no algorithm of their own, or calls into libraries.
