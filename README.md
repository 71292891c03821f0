# pikube-dns reconciliation core in Dafny

pikube-dns is a small Kubernetes operator. It watches a namespaced custom
resource `DNS` (`spec.dns`, `spec.ip_address`) and mirrors it into the
static DNS table of a router reached over REST at
`https://$ROUTER/rest/ip/dns/static`. Two kopf handlers do the work:

- `on_dns_create` checks its inputs, lists the router's table (GET), scans
  it for the name, and registers `{address: ip_address, name: dns}` (PUT).
- `on_dns_delete` checks its inputs, lists the table, and sends a DELETE
  for the `.id` of every entry carrying the name.

This project models those two handlers with the HTTP layer reduced to the
requests sent and the status codes and entry list received. It covers how
CA_VERIFY becomes the `verify` argument, the guards that raise
PermanentError, and both decision flows, including what the code really
does where it builds an exception object and never raises it.

Modules:

- `Wrappers` (wrappers.dfy): `Option` and `Result`.
- `Config` (config.dfy): Python truthiness of environment and spec values.
  `ParseCaVerify` is the three-way CA_VERIFY branch. `Validate` is the
  guard sequence. A reference reading of the guards (`Checks`,
  `FirstMissing`) is proved equal to it.
- `Records` (records.dfy): router table entries and the selections the
  handlers make over them (`Matches`, `Others`), plus what the router holds
  after DELETEs (`RemoveId`, `Survivors`) or an accepted PUT (`AfterPut`).
- `RouterTable` (router.dfy): class `Router`, the router's table as the
  delete handler changes it. A DELETE answered 204 drops the entry with
  that id.
- `Handlers` (handlers.dfy): the request trace (`Call`), the outcome
  (`Permanent`, `Temporary`, `Returned`, `Crashed`), the specification
  functions `CreateFlow` and `DeleteFlow`, and the two handlers.
  `OnDnsCreate` is a method with the scan loop of lines 102-105 and is
  proved equal to `CreateFlow`. `OnDnsDelete` is a method that loops over
  the listed entries and DELETEs from a `Router`; it is proved to send
  `DeleteFlow`'s requests and to leave the table at `Survivors`.
- `Intended` (intended.dfy): the handlers as evidently meant, used only for
  the findings below.

The code builds several exception objects without raising them. The model
follows what the code does, not what those objects say it should do:

- When the listed table already holds the name, line 105 builds a
  PermanentError "already registered" and drops it, so the PUT at line 113
  still goes out; if the router accepts it, the router holds the name twice.
- When the GET is not answered 200, lines 126 and 171 build a
  TemporaryError with `delay=30` and drop it, so the handler returns
  normally and kopf does not retry.
- When a PUT is not answered 201 (line 123) or a DELETE is not answered 204
  (line 168), the PermanentError is built and dropped; create returns and
  the delete loop goes on to the next entry.
- A CA_VERIFY value other than unset, "", "False" or "false" is passed
  unchanged as the `verify` argument of `requests`, which reads it as the
  path of a CA bundle (`CaBundle(path)`), not as "verification on".
- Create against an empty router list does not reach the "Successfully
  created DNS record" log. The PUT is sent, and then line 118 formats the
  loop variable `address`, which was never bound, and raises
  UnboundLocalError (`Crashed`).

## Model

| member | source | states |
|---|---|---|
| `Config.ParseCaVerify` | pikube-dns.py:73-79 | unset or empty CA_VERIFY gives verification on; exactly "False" or "false" gives it off; any other value is passed through unchanged as a CA-bundle path |
| `Config.CaVerifyRoundTrip` | pikube-dns.py:136-142 | every value the parser can produce is recovered from a CA_VERIFY setting that produces it (parse after setting is the identity) |
| `Config.CaVerifyExactMatch` | pikube-dns.py:75-79 | matching is exact and case-sensitive: "" equals unset, and "FALSE" or "true" become CA-bundle paths |
| `Config.Validate` | pikube-dns.py:81-96 | the guards pass exactly when ROUTER, USER, PASSWD and dns are non-empty and, on create only, ip_address is too; on success the request carries that host, that auth pair and the parsed `verify`; delete never fails for the IP |
| `Config.ValidationOrder` | pikube-dns.py:144-154 | the reason raised is that of the first failing check in the fixed order ROUTER, USER/PASSWD, dns, ip_address (create only) |
| `Config.DeleteValidationIgnoresIp` | pikube-dns.py:132-154 | the delete guards give the same result whatever `spec.ip_address` holds |
| `Config.CreateValidationStricter` | pikube-dns.py:89-96 | create refuses everything delete refuses, with the same reason; the two differ exactly when delete passes and the IP is missing |
| `Records.NameListedIffMatches` | pikube-dns.py:102-103 | the name-clash scan finds a clash exactly when the list of entries carrying the name is non-empty |
| `Records.MatchesMembers` | pikube-dns.py:160-161 | the matches are exactly the listed entries whose name equals `dns` |
| `Records.SurvivorsMembers` | pikube-dns.py:160-168 | after a delete pass the table holds exactly the entries with other names and the matching entries whose DELETE was not answered 204 |
| `Records.AllAcceptedLeavesOthers` | pikube-dns.py:160-165 | when every DELETE is answered 204, the table afterwards is exactly the entries with other names, in their original order, and holds no entry with the name |
| `Records.AfterPutMatches` | pikube-dns.py:108-117 | an accepted PUT of `{address, name}` adds exactly one entry carrying that name |
| `RouterTable.Router.HandleDelete` | pikube-dns.py:162-165 | a DELETE answered 204 removes the entry with that id and nothing else; any other answer leaves the table unchanged; ids stay distinct |
| `Handlers.DeleteEachAt` | pikube-dns.py:160-162 | the k-th DELETE of a pass addresses the id of the k-th matching entry, one DELETE per match |
| `Handlers.OnDnsCreate` | pikube-dns.py:63-126 | the create handler sends exactly `CreateFlow`'s requests and ends with its outcome whatever the PUT status; the "already registered" error is built exactly when a 200 list holds the name, yet the PUT is still sent |
| `Handlers.OnDnsDelete` | pikube-dns.py:129-171 | the delete handler sends exactly `DeleteFlow`'s requests whatever the DELETE statuses; after a 200 list the router table becomes `Survivors` of the listed table, and otherwise it is unchanged |
| `Handlers.CreateRejectsBeforeAnyRequest` | pikube-dns.py:81-96 | create ends with PermanentError exactly when a guard fails; it then sends no request and carries that guard's reason |
| `Handlers.DeleteRejectsBeforeAnyRequest` | pikube-dns.py:144-154 | delete ends with PermanentError exactly when a guard fails; it then sends no request and carries that guard's reason |
| `Handlers.OnlyGuardsRaise` | pikube-dns.py:100-171 | neither handler ever raises TemporaryError, and a failed guard is the only PermanentError that escapes |
| `Handlers.DeleteIgnoresIpAddress` | pikube-dns.py:132-156 | delete behaves the same whatever `ip_address` holds; a resource without an IP that create refuses still gets its GET on delete |
| `Handlers.CreatePutsOnceAfterList` | pikube-dns.py:100-117 | after a 200 GET, create sends exactly one PUT with payload `{address: ip_address, name: dns}`, whether or not the name is already listed |
| `Handlers.CreateListFailureReturns` | pikube-dns.py:124-126 | a non-200 GET is the only request sent, and create returns normally |
| `Handlers.CreateEmptyListCrashes` | pikube-dns.py:102-118 | after a 200 GET, create crashes exactly when the list is empty, with the PUT already sent; otherwise it returns normally |
| `Handlers.CreateRetryDuplicates` | pikube-dns.py:102-117 | after an accepted create, running create again sends a second PUT of the same name; if that is accepted too, the router holds the name at least twice |
| `Handlers.DeleteOnePerMatch` | pikube-dns.py:158-165 | after a 200 GET, delete sends one DELETE per matching entry, in list order, with that entry's id, and returns normally |
| `Handlers.DeleteTouchesOnlyMatches` | pikube-dns.py:158-163 | every DELETE targets the id of a listed entry carrying the name; with no such entry the GET is the only request |
| `Handlers.DeleteAlwaysReturns` | pikube-dns.py:158-171 | once the guards pass, delete returns normally whatever the GET answered; after a non-200 GET it sends nothing more |
| `Handlers.EmptyTableCreateScenario` | pikube-dns.py:98-118 | creating a.example.com at 10.0.0.5 against an empty table sends the GET and the PUT `{10.0.0.5, a.example.com}`, then crashes |
| `Handlers.SingleEntryDeleteScenario` | pikube-dns.py:156-165 | deleting a.example.com from a table holding it as id \*7 (and another name as \*8) sends the GET and one DELETE of \*7 |
| `Intended.IntendedCreateIdempotent` | pikube-dns.py:102-105 | with the guard raised, an accepted create leaves the name on the router once; a retry sends no PUT and, after a 200 GET, fails permanently as already registered |
| `Intended.IntendedCreateNeverCrashes` | pikube-dns.py:118-123 | with lines 118, 120, 122 and 123 formatting `ip_address` instead of the loop variable, create never crashes; an empty table with an accepted PUT returns normally |
| `Intended.IntendedListFailureRetries` | pikube-dns.py:124-126 | with the TemporaryErrors raised, a non-200 GET ends either handler with a temporary failure, a 30-second delay and no further request |
| `Intended.IntendedPutRefusalIsPermanent` | pikube-dns.py:119-123 | with the PermanentError raised, a PUT not answered 201 ends create with a permanent failure carrying the status |
| `Intended.DeleteUntilRefusedIsPrefix` | pikube-dns.py:164-168 | with the raise in the loop, the DELETEs sent are a prefix of the as-written ones ending at the first refused one, which gives a permanent failure with its status; with no refusal they are all of them and the pass returns normally |
| `Intended.IntendedDeleteStopsAtRefusal` | pikube-dns.py:160-168 | the corrected delete's requests are a prefix of the as-written ones; it returns normally exactly when every matching entry's DELETE is accepted, and then it behaves exactly as the code as written |

## Left out

- CRD construction and registration, with its 409 handling (pikube-dns.py:5-56): Kubernetes API calls made at import time.
- kube config loading and the kopf startup settings (pikube-dns.py:44-47, 58-60): framework plumbing.
- The unused `AppsV1Api`/`CoreV1Api` objects (pikube-dns.py:66-67).
- The `requests` transport: URLs, basic auth, TLS and JSON decoding are reduced to a `Call` carrying the host, the auth pair and `verify`, and to status codes plus an entry list.
- Exceptions raised by `requests` itself are not modelled. Examples are a connection error or a CA_VERIFY value that is not a readable CA-bundle path. Each would end the handler as `Crashed` after the requests already sent.
- `KeyError` on an entry without `name`, `.id` or `address`, and non-string spec values: entries always have all three fields, and spec values are strings (the CRD schema declares them so).
- Logging and message text: an exception is represented by an `Error` value, not by its message. The messages at pikube-dns.py:118, 120, 122 and 123 print the last scanned entry instead of the IP; only the crash this causes on an empty list is modelled.
- IP auto-allocation (pikube-dns.py:94): unimplemented in the code; modelled only as the PermanentError it raises.
- kopf's retry and requeue scheduling: the model stops at the outcome.
- The router's own behaviour is assumed, not derived from the code. It keys entries by distinct ids (`Router.Valid`). Its answer to a DELETE is a function of the id. It drops an entry exactly when it answers 204. An accepted PUT appends one entry (`AfterPut`).
- `OnDnsCreate` does not update a router object. The effect of an accepted PUT appears only in the retry lemmas, through `AfterPut`.
- Concurrency between handler invocations and out-of-band changes to the router table: every invocation is a single sequential pass over one listed snapshot.

## Findings

Handlers models the code as written, because that is the behaviour of the
operator. The corrected definitions live in module Intended, beside it.

| source | as written | input that shows it | evidently intended | confidence | as-written member | corrected member |
|---|---|---|---|---|---|---|
| pikube-dns.py:103-105 | the "already registered" PermanentError is built but not raised, so the PUT is still sent | a 200 GET listing an entry named `dns`, e.g. a retry after an accepted create | raise it and send no PUT | high, not executed | `Handlers.CreateRetryDuplicates` | `Intended.IntendedCreateIdempotent` |
| pikube-dns.py:118-123 | the messages at lines 118, 120, 122 and 123 format the loop variable `address`, which is unbound when the list is empty; line 118 is the first to be evaluated | a 200 GET answering `[]` | lines 118, 120, 122 and 123 format `ip_address` | high, not executed | `Handlers.CreateEmptyListCrashes` | `Intended.IntendedCreateNeverCrashes` |
| pikube-dns.py:124-126 | the TemporaryError for a failed list is built but not raised | a GET answering 503 | raise it, so kopf retries in 30 s | high, not executed | `Handlers.CreateListFailureReturns` | `Intended.IntendedListFailureRetries` |
| pikube-dns.py:169-171 | the delete handler's TemporaryError for a failed list is built but not raised | a GET answering 503 | raise it, so kopf retries in 30 s | high, not executed | `Handlers.DeleteAlwaysReturns` | `Intended.IntendedListFailureRetries` |
| pikube-dns.py:121-123 | the PermanentError for a refused PUT is built but not raised | a PUT answering 400 | raise it | high, not executed | `Handlers.OnDnsCreate` | `Intended.IntendedPutRefusalIsPermanent` |
| pikube-dns.py:166-168 | the PermanentError for a refused DELETE is built but not raised, and the loop goes on | a DELETE answering 500 | raise it, which also ends the loop | medium, not executed | `Handlers.OnDnsDelete` | `Intended.DeleteUntilRefusedIsPrefix` |
