/** The handlers of pikube-dns.py as their authors evidently meant them:
    every `kopf.PermanentError(...)` and `kopf.TemporaryError(...)` that the
    code builds is raised, and the messages at lines 118, 120, 122 and 123
    format `ip_address` instead of the loop variable `address`. Module Handlers keeps the behaviour as written; these
    definitions exist to state what the fixes would guarantee. */
module Intended {
  import opened Wrappers
  import opened Config
  import opened Records
  import opened Handlers

  /** The `delay=30` of the TemporaryErrors at lines 126 and 171. */
  const RetryDelay: nat := 30

  function IntendedCreateFlow(env: Env, spec: DnsSpec, getStatus: int, listed: seq<Record>, putStatus: int): Run {
    match Validate(OnCreate, env, spec)
    case Err(reason) => Run([], Permanent(Invalid(reason)))
    case Ok(conn) =>
      var dns, ip := spec.dns.value, spec.ipAddress.value;
      if getStatus != 200 then Run([Get(conn)], Temporary(ListFailed(getStatus), RetryDelay))
      else if NameListed(listed, dns) then Run([Get(conn)], Permanent(AlreadyRegistered(dns)))
      else Run([Get(conn), Put(conn, ip, dns)], if putStatus == 201 then Returned else Permanent(PutFailed(putStatus)))
  }

  /** The delete loop with the raise at line 168: DELETEs go out in order
      until the router refuses one. */
  function DeleteUntilRefused(conn: Conn, ms: seq<Record>, deleteStatus: string -> int): Run {
    if ms == [] then Run([], Returned)
    else if deleteStatus(ms[0].id) != 204 then
      Run([Delete(conn, ms[0].id)], Permanent(DeleteFailed(deleteStatus(ms[0].id))))
    else
      var rest := DeleteUntilRefused(conn, ms[1..], deleteStatus);
      Run([Delete(conn, ms[0].id)] + rest.calls, rest.outcome)
  }

  function IntendedDeleteFlow(env: Env, spec: DnsSpec, getStatus: int, listed: seq<Record>, deleteStatus: string -> int): Run {
    match Validate(OnDelete, env, spec)
    case Err(reason) => Run([], Permanent(Invalid(reason)))
    case Ok(conn) =>
      if getStatus != 200 then Run([Get(conn)], Temporary(ListFailed(getStatus), RetryDelay))
      else
        var pass := DeleteUntilRefused(conn, Matches(listed, spec.dns.value), deleteStatus);
        Run([Get(conn)] + pass.calls, pass.outcome)
  }

  /** With the guard raised, create is idempotent under retry: after an
      accepted create the router holds the name once, and a second create
      sends no PUT and, once it can list the table, fails permanently as
      already registered. */
  lemma IntendedCreateIdempotent(env: Env, spec: DnsSpec, listed: seq<Record>, newId: string, getStatus: int, putStatus: int)
    requires Validate(OnCreate, env, spec).Ok?
    requires IntendedCreateFlow(env, spec, 200, listed, 201).outcome == Returned
    ensures var dns, ip := spec.dns.value, spec.ipAddress.value;
            var after := AfterPut(listed, newId, dns, ip);
            var second := IntendedCreateFlow(env, spec, getStatus, after, putStatus);
            |Matches(after, dns)| == 1 &&
            (forall c :: c in second.calls ==> !c.Put?) &&
            (getStatus == 200 ==> second.outcome == Permanent(AlreadyRegistered(dns)))
  {
    var dns, ip := spec.dns.value, spec.ipAddress.value;
    var after := AfterPut(listed, newId, dns, ip);
    NameListedIffMatches(listed, dns);
    AfterPutMatches(listed, newId, dns, ip);
    assert after[|listed|].name == dns;
  }

  /** Formatting `ip_address` instead of the loop variable at lines 118,
      120, 122 and 123 removes the only crash: an empty table is simply a
      name not yet registered. Changing line 118 alone would not do, since
      line 120 or 122 would then read the unbound `address`. */
  lemma IntendedCreateNeverCrashes(env: Env, spec: DnsSpec, getStatus: int, listed: seq<Record>, putStatus: int)
    ensures IntendedCreateFlow(env, spec, getStatus, listed, putStatus).outcome != Crashed
    ensures Validate(OnCreate, env, spec).Ok? ==>
            var conn := Validate(OnCreate, env, spec).value;
            IntendedCreateFlow(env, spec, 200, [], 201) ==
              Run([Get(conn), Put(conn, spec.ipAddress.value, spec.dns.value)], Returned)
  {
  }

  /** A failed GET asks kopf to retry in 30 seconds, on both paths. */
  lemma IntendedListFailureRetries(env: Env, spec: DnsSpec, getStatus: int, listed: seq<Record>, putStatus: int, deleteStatus: string -> int)
    requires getStatus != 200
    ensures Validate(OnCreate, env, spec).Ok? ==>
            IntendedCreateFlow(env, spec, getStatus, listed, putStatus) ==
              Run([Get(Validate(OnCreate, env, spec).value)], Temporary(ListFailed(getStatus), 30))
    ensures Validate(OnDelete, env, spec).Ok? ==>
            IntendedDeleteFlow(env, spec, getStatus, listed, deleteStatus) ==
              Run([Get(Validate(OnDelete, env, spec).value)], Temporary(ListFailed(getStatus), 30))
  {
  }

  /** A PUT the router refuses ends create with PermanentError. */
  lemma IntendedPutRefusalIsPermanent(env: Env, spec: DnsSpec, listed: seq<Record>, putStatus: int)
    requires Validate(OnCreate, env, spec).Ok? && !NameListed(listed, spec.dns.value)
    ensures IntendedCreateFlow(env, spec, 200, listed, putStatus).outcome ==
            if putStatus == 201 then Returned else Permanent(PutFailed(putStatus))
  {
  }

  /** Entry `j` is the first of `ms` whose DELETE the router refuses. */
  predicate FirstRefused(ms: seq<Record>, deleteStatus: string -> int, j: int) {
    0 <= j < |ms| && deleteStatus(ms[j].id) != 204 &&
    forall k :: 0 <= k < j ==> deleteStatus(ms[k].id) == 204
  }

  /** The DELETEs sent are the as-written ones up to and including the
      first refused one, which ends the pass with PermanentError; with no
      refusal the pass returns normally after sending the same requests as
      the code as written. */
  lemma {:induction false} DeleteUntilRefusedIsPrefix(conn: Conn, ms: seq<Record>, deleteStatus: string -> int)
    ensures var pass := DeleteUntilRefused(conn, ms, deleteStatus);
            |pass.calls| <= |ms| && pass.calls == DeleteEach(conn, ms)[..|pass.calls|]
    ensures var pass := DeleteUntilRefused(conn, ms, deleteStatus);
            pass.outcome == Returned <==> forall k :: 0 <= k < |ms| ==> deleteStatus(ms[k].id) == 204
    ensures var pass := DeleteUntilRefused(conn, ms, deleteStatus);
            pass.outcome == Returned ==> pass.calls == DeleteEach(conn, ms)
    ensures var pass := DeleteUntilRefused(conn, ms, deleteStatus);
            pass.outcome != Returned ==>
              exists j :: FirstRefused(ms, deleteStatus, j) && |pass.calls| == j + 1 &&
                          pass.outcome == Permanent(DeleteFailed(deleteStatus(ms[j].id)))
  {
    if ms != [] {
      DeleteUntilRefusedIsPrefix(conn, ms[1..], deleteStatus);
      var pass := DeleteUntilRefused(conn, ms, deleteStatus);
      var rest := DeleteUntilRefused(conn, ms[1..], deleteStatus);
      assert DeleteEach(conn, ms) == [Delete(conn, ms[0].id)] + DeleteEach(conn, ms[1..]);
      if deleteStatus(ms[0].id) != 204 {
        assert FirstRefused(ms, deleteStatus, 0);
      } else {
        assert pass.calls == [Delete(conn, ms[0].id)] + rest.calls;
        if (forall k :: 0 <= k < |ms[1..]| ==> deleteStatus(ms[1..][k].id) == 204) {
          forall k | 0 <= k < |ms|
            ensures deleteStatus(ms[k].id) == 204
          {
            if k > 0 { assert ms[k] == ms[1..][k - 1]; }
          }
        } else {
          var j :| FirstRefused(ms[1..], deleteStatus, j) && |rest.calls| == j + 1 &&
                   rest.outcome == Permanent(DeleteFailed(deleteStatus(ms[1..][j].id)));
          assert ms[1..][j] == ms[j + 1];
          forall k | 0 <= k < j + 1
            ensures deleteStatus(ms[k].id) == 204
          {
            if k > 0 { assert ms[k] == ms[1..][k - 1]; }
          }
          assert FirstRefused(ms, deleteStatus, j + 1);
        }
      }
    }
  }

  /** The corrected delete stops at the first refused DELETE and fails
      permanently; when the router accepts every DELETE it behaves exactly
      like the code as written. */
  lemma IntendedDeleteStopsAtRefusal(env: Env, spec: DnsSpec, listed: seq<Record>, deleteStatus: string -> int)
    requires Validate(OnDelete, env, spec).Ok?
    ensures var intended, written := IntendedDeleteFlow(env, spec, 200, listed, deleteStatus), DeleteFlow(env, spec, 200, listed);
            |intended.calls| <= |written.calls| && intended.calls == written.calls[..|intended.calls|] &&
            (intended.outcome == Returned <==>
               forall r :: r in listed && r.name == spec.dns.value ==> deleteStatus(r.id) == 204) &&
            (intended.outcome == Returned ==> intended == written) &&
            (intended.outcome != Returned ==> intended.outcome.Permanent? && intended.outcome.error.DeleteFailed?)
  {
    var conn, dns := Validate(OnDelete, env, spec).value, spec.dns.value;
    var ms := Matches(listed, dns);
    DeleteUntilRefusedIsPrefix(conn, ms, deleteStatus);
    MatchesMembers(listed, dns);
    var pass := DeleteUntilRefused(conn, ms, deleteStatus);
    var each := DeleteEach(conn, ms);
    assert ([Get(conn)] + each)[..1 + |pass.calls|] == [Get(conn)] + each[..|pass.calls|];
    if forall j :: 0 <= j < |ms| ==> deleteStatus(ms[j].id) == 204 {
      forall r | r in listed && r.name == dns
        ensures deleteStatus(r.id) == 204
      {
        assert r in ms;
        var j :| 0 <= j < |ms| && ms[j] == r;
      }
    }
    if forall r :: r in listed && r.name == dns ==> deleteStatus(r.id) == 204 {
      forall j | 0 <= j < |ms|
        ensures deleteStatus(ms[j].id) == 204
      {
        assert ms[j] in ms;
      }
    }
  }
}
