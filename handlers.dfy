/** The two kopf handlers of pikube-dns.py, `on_dns_create` and
    `on_dns_delete`, with the router's REST API reduced to the requests the
    handler sends and the status codes and entry list it gets back.

    The handlers are modelled as the code is written: the errors built at
    lines 105, 123, 126, 168 and 171 are never raised, so the only
    PermanentError that escapes is a failed guard, no TemporaryError ever
    escapes, and the create handler dies with UnboundLocalError when the
    listed table is empty (line 118 reads the loop variable `address`). */
module Handlers {
  import opened Wrappers
  import opened Config
  import opened Records
  import opened RouterTable

  /** One request sent to the router. */
  datatype Call =
    | Get(conn: Conn)                                  // GET /rest/ip/dns/static
    | Put(conn: Conn, address: string, name: string)   // PUT /rest/ip/dns/static, JSON {address, name}
    | Delete(conn: Conn, id: string)                   // DELETE /rest/ip/dns/static/{id}

  /** The error carried by a kopf exception. */
  datatype Error =
    | Invalid(reason: Reason)
    | AlreadyRegistered(dns: string)
    | ListFailed(status: int)
    | PutFailed(status: int)
    | DeleteFailed(status: int)

  /** How one handler invocation ends, as kopf sees it. */
  datatype Outcome =
    | Permanent(error: Error)               // kopf.PermanentError raised
    | Temporary(error: Error, delay: nat)   // kopf.TemporaryError raised
    | Returned                              // the handler returned normally
    | Crashed                               // an uncaught Python exception

  /** The requests sent, in order, and how the invocation ended. */
  datatype Run = Run(calls: seq<Call>, outcome: Outcome)

  /** One DELETE per entry of `ms`, in order, addressed by the entry's id. */
  function DeleteEach(conn: Conn, ms: seq<Record>): (calls: seq<Call>)
    ensures |calls| == |ms|
  {
    if ms == [] then [] else [Delete(conn, ms[0].id)] + DeleteEach(conn, ms[1..])
  }

  lemma {:induction false} DeleteEachAt(conn: Conn, ms: seq<Record>)
    ensures forall j :: 0 <= j < |ms| ==> DeleteEach(conn, ms)[j] == Delete(conn, ms[j].id)
  {
    if ms != [] {
      DeleteEachAt(conn, ms[1..]);
    }
  }

  lemma {:induction false} DeleteEachAppend(conn: Conn, ms: seq<Record>, more: seq<Record>)
    ensures DeleteEach(conn, ms + more) == DeleteEach(conn, ms) + DeleteEach(conn, more)
  {
    if ms == [] {
      assert ms + more == more;
    } else {
      assert (ms + more)[1..] == ms[1..] + more;
      DeleteEachAppend(conn, ms[1..], more);
    }
  }

  /** One step of the delete pass: the requests sent once entry `i` has
      been looked at. */
  lemma DeletePassCalls(conn: Conn, listed: seq<Record>, i: int, dns: string, calls: seq<Call>)
    requires 0 <= i < |listed|
    requires calls == [Get(conn)] + DeleteEach(conn, Matches(listed[..i], dns))
    ensures calls + (if listed[i].name == dns then [Delete(conn, listed[i].id)] else []) ==
            [Get(conn)] + DeleteEach(conn, Matches(listed[..i + 1], dns))
  {
    var extra := if listed[i].name == dns then [listed[i]] else [];
    FilterStep(listed, i, NameIs(dns));
    DeleteEachAppend(conn, Matches(listed[..i], dns), extra);
    assert DeleteEach(conn, extra) == if listed[i].name == dns then [Delete(conn, listed[i].id)] else [];
  }

  /** What `on_dns_create` does, given the GET's status and listed entries. */
  function CreateFlow(env: Env, spec: DnsSpec, getStatus: int, listed: seq<Record>): Run {
    match Validate(OnCreate, env, spec)
    case Err(reason) => Run([], Permanent(Invalid(reason)))
    case Ok(conn) =>
      if getStatus != 200 then Run([Get(conn)], Returned)
      else
        var calls := [Get(conn), Put(conn, spec.ipAddress.value, spec.dns.value)];
        Run(calls, if listed == [] then Crashed else Returned)
  }

  /** What `on_dns_delete` does, given the GET's status and listed entries. */
  function DeleteFlow(env: Env, spec: DnsSpec, getStatus: int, listed: seq<Record>): Run {
    match Validate(OnDelete, env, spec)
    case Err(reason) => Run([], Permanent(Invalid(reason)))
    case Ok(conn) =>
      if getStatus != 200 then Run([Get(conn)], Returned)
      else Run([Get(conn)] + DeleteEach(conn, Matches(listed, spec.dns.value)), Returned)
  }

  /** `on_dns_create`. The scan of the listed entries only binds the loop
      variable and, on a name clash, builds an error it then drops
      (`duplicateBuilt`); the PUT goes out either way, and its status is
      logged but changes nothing. */
  method OnDnsCreate(env: Env, spec: DnsSpec, getStatus: int, listed: seq<Record>, putStatus: int)
    returns (run: Run, ghost duplicateBuilt: bool)
    ensures run == CreateFlow(env, spec, getStatus, listed)
    ensures duplicateBuilt <==>
      Validate(OnCreate, env, spec).Ok? && getStatus == 200 && NameListed(listed, spec.dns.value)
  {
    var checked := Validate(OnCreate, env, spec);
    if checked.Err? {
      return Run([], Permanent(Invalid(checked.error))), false;
    }
    var conn, dns, ip := checked.value, spec.dns.value, spec.ipAddress.value;
    var calls := [Get(conn)];
    if getStatus != 200 {
      // the TemporaryError of line 126 is built and dropped
      return Run(calls, Returned), false;
    }
    var address: Option<Record> := None;  // the loop variable, unbound until the loop runs
    duplicateBuilt := false;
    var i := 0;
    while i < |listed|
      invariant 0 <= i <= |listed|
      invariant address == if i == 0 then None else Some(listed[i - 1])
      invariant duplicateBuilt <==> exists j :: 0 <= j < i && listed[j].name == dns
    {
      address := Some(listed[i]);
      if listed[i].name == dns {
        // "already registered": the PermanentError is built and dropped
        duplicateBuilt := true;
      }
      i := i + 1;
    }
    calls := calls + [Put(conn, ip, dns)];
    if address.None? {
      // line 118 formats `address` after the PUT: UnboundLocalError
      return Run(calls, Crashed), duplicateBuilt;
    }
    if putStatus == 201 {
      run := Run(calls, Returned);
    } else {
      // the PermanentError of line 123 is built and dropped
      run := Run(calls, Returned);
    }
  }

  /** `on_dns_delete` against a router whose table the GET lists. Each
      matching entry gets a DELETE whatever the router answered to the
      previous ones; the router drops the entries it answers 204 for. */
  method OnDnsDelete(env: Env, spec: DnsSpec, getStatus: int, router: Router, deleteStatus: string -> int)
    returns (run: Run)
    requires router.Valid()
    modifies router
    ensures router.Valid()
    ensures run == DeleteFlow(env, spec, getStatus, old(router.table))
    ensures router.table ==
      if Validate(OnDelete, env, spec).Ok? && getStatus == 200
      then Survivors(old(router.table), spec.dns.value, deleteStatus)
      else old(router.table)
  {
    var checked := Validate(OnDelete, env, spec);
    if checked.Err? {
      return Run([], Permanent(Invalid(checked.error)));
    }
    var conn, dns := checked.value, spec.dns.value;
    var calls := [Get(conn)];
    if getStatus != 200 {
      // the TemporaryError of line 171 is built and dropped
      return Run(calls, Returned);
    }
    var listed := router.table;
    var i := 0;
    while i < |listed|
      invariant 0 <= i <= |listed|
      invariant router.Valid() && DistinctIds(listed)
      invariant calls == [Get(conn)] + DeleteEach(conn, Matches(listed[..i], dns))
      invariant router.table == Survivors(listed[..i], dns, deleteStatus) + listed[i..]
    {
      var entry := listed[i];
      DeletePassCalls(conn, listed, i, dns, calls);
      PassStep(listed, i, dns, deleteStatus, router.table);
      if entry.name == dns {
        // a non-204 answer builds the PermanentError of line 168, drops it, and the loop goes on
        calls := calls + [Delete(conn, entry.id)];
        router.HandleDelete(entry.id, deleteStatus(entry.id));
      }
      i := i + 1;
    }
    assert listed[..i] == listed;
    run := Run(calls, Returned);
  }

  /** A missing input raises PermanentError before any request is sent, and
      nothing else ends create with PermanentError. */
  lemma CreateRejectsBeforeAnyRequest(env: Env, spec: DnsSpec, getStatus: int, listed: seq<Record>)
    ensures CreateFlow(env, spec, getStatus, listed).outcome.Permanent? <==> Validate(OnCreate, env, spec).Err?
    ensures CreateFlow(env, spec, getStatus, listed).calls == [] <==> Validate(OnCreate, env, spec).Err?
    ensures Validate(OnCreate, env, spec).Err? ==>
            CreateFlow(env, spec, getStatus, listed).outcome == Permanent(Invalid(Validate(OnCreate, env, spec).error))
  {
  }

  lemma DeleteRejectsBeforeAnyRequest(env: Env, spec: DnsSpec, getStatus: int, listed: seq<Record>)
    ensures DeleteFlow(env, spec, getStatus, listed).outcome.Permanent? <==> Validate(OnDelete, env, spec).Err?
    ensures DeleteFlow(env, spec, getStatus, listed).calls == [] <==> Validate(OnDelete, env, spec).Err?
    ensures Validate(OnDelete, env, spec).Err? ==>
            DeleteFlow(env, spec, getStatus, listed).outcome == Permanent(Invalid(Validate(OnDelete, env, spec).error))
  {
  }

  /** No TemporaryError ever leaves either handler, and the only
      PermanentError is a failed guard. */
  lemma OnlyGuardsRaise(env: Env, spec: DnsSpec, getStatus: int, listed: seq<Record>)
    ensures !CreateFlow(env, spec, getStatus, listed).outcome.Temporary?
    ensures !DeleteFlow(env, spec, getStatus, listed).outcome.Temporary?
    ensures CreateFlow(env, spec, getStatus, listed).outcome.Permanent? ==>
            CreateFlow(env, spec, getStatus, listed).outcome.error.Invalid?
    ensures DeleteFlow(env, spec, getStatus, listed).outcome.Permanent? ==>
            DeleteFlow(env, spec, getStatus, listed).outcome.error.Invalid?
  {
  }

  /** The delete handler never reads `spec.ip_address`: a resource without
      one that create refuses is still listed and cleaned up by delete. */
  lemma DeleteIgnoresIpAddress(env: Env, spec: DnsSpec, getStatus: int, listed: seq<Record>, ip: Option<string>)
    ensures DeleteFlow(env, spec, getStatus, listed) == DeleteFlow(env, spec.(ipAddress := ip), getStatus, listed)
    ensures Truthy(env.router) && Truthy(env.user) && Truthy(env.passwd) && Truthy(spec.dns) && !Truthy(spec.ipAddress) ==>
            CreateFlow(env, spec, getStatus, listed) == Run([], Permanent(Invalid(IpAllocationNotImplemented))) &&
            DeleteFlow(env, spec, getStatus, listed).calls[0].Get?
  {
  }

  /** A 200 GET is followed by exactly one PUT with payload
      {address: ip_address, name: dns}, whether or not the name is already
      listed: the duplicate guard raises nothing. */
  lemma CreatePutsOnceAfterList(env: Env, spec: DnsSpec, listed: seq<Record>)
    requires Validate(OnCreate, env, spec).Ok?
    ensures var conn := Validate(OnCreate, env, spec).value;
            CreateFlow(env, spec, 200, listed).calls == [Get(conn), Put(conn, spec.ipAddress.value, spec.dns.value)]
  {
  }

  /** A failed GET sends nothing more and returns normally. */
  lemma CreateListFailureReturns(env: Env, spec: DnsSpec, getStatus: int, listed: seq<Record>)
    requires Validate(OnCreate, env, spec).Ok? && getStatus != 200
    ensures CreateFlow(env, spec, getStatus, listed) == Run([Get(Validate(OnCreate, env, spec).value)], Returned)
  {
  }

  /** After a 200 GET the handler crashes exactly when the list is empty
      (the PUT has been sent by then), and returns normally otherwise. */
  lemma CreateEmptyListCrashes(env: Env, spec: DnsSpec, listed: seq<Record>)
    requires Validate(OnCreate, env, spec).Ok?
    ensures CreateFlow(env, spec, 200, listed).outcome == Crashed <==> listed == []
    ensures CreateFlow(env, spec, 200, listed).outcome != Crashed ==> CreateFlow(env, spec, 200, listed).outcome == Returned
  {
  }

  /** Create is not idempotent under retry: once the router accepted the
      PUT, running create again sends a second PUT of the same name, and if
      the router accepts that too it holds the name twice. */
  lemma CreateRetryDuplicates(env: Env, spec: DnsSpec, listed: seq<Record>, firstId: string, secondId: string)
    requires Validate(OnCreate, env, spec).Ok?
    ensures var conn, dns, ip := Validate(OnCreate, env, spec).value, spec.dns.value, spec.ipAddress.value;
            var once := AfterPut(listed, firstId, dns, ip);
            Put(conn, ip, dns) in CreateFlow(env, spec, 200, once).calls &&
            CreateFlow(env, spec, 200, once).outcome == Returned &&
            |Matches(AfterPut(once, secondId, dns, ip), dns)| >= 2
  {
    var dns, ip := spec.dns.value, spec.ipAddress.value;
    var once := AfterPut(listed, firstId, dns, ip);
    AfterPutMatches(listed, firstId, dns, ip);
    AfterPutMatches(once, secondId, dns, ip);
  }

  /** After a 200 GET, delete sends one DELETE per entry named `dns`, in list
      order, each with that entry's id, and returns normally. */
  lemma DeleteOnePerMatch(env: Env, spec: DnsSpec, listed: seq<Record>)
    requires Validate(OnDelete, env, spec).Ok?
    ensures var conn, ms := Validate(OnDelete, env, spec).value, Matches(listed, spec.dns.value);
            var run := DeleteFlow(env, spec, 200, listed);
            run.outcome == Returned && |run.calls| == 1 + |ms| && run.calls[0] == Get(conn) &&
            forall j :: 0 <= j < |ms| ==> run.calls[j + 1] == Delete(conn, ms[j].id)
  {
    var conn, ms := Validate(OnDelete, env, spec).value, Matches(listed, spec.dns.value);
    DeleteEachAt(conn, ms);
  }

  /** Every DELETE is for the id of a listed entry named `dns`; with no such
      entry, the GET is the only request. */
  lemma DeleteTouchesOnlyMatches(env: Env, spec: DnsSpec, listed: seq<Record>)
    requires Validate(OnDelete, env, spec).Ok?
    ensures var run := DeleteFlow(env, spec, 200, listed);
            forall j :: 1 <= j < |run.calls| ==>
              run.calls[j].Delete? && exists r :: r in listed && r.name == spec.dns.value && r.id == run.calls[j].id
    ensures !NameListed(listed, spec.dns.value) ==>
            DeleteFlow(env, spec, 200, listed) == Run([Get(Validate(OnDelete, env, spec).value)], Returned)
  {
    var conn, dns := Validate(OnDelete, env, spec).value, spec.dns.value;
    var ms := Matches(listed, dns);
    DeleteEachAt(conn, ms);
    MatchesMembers(listed, dns);
    var run := DeleteFlow(env, spec, 200, listed);
    forall j | 1 <= j < |run.calls|
      ensures run.calls[j].Delete? && exists r :: r in listed && r.name == dns && r.id == run.calls[j].id
    {
      assert ms[j - 1] in ms;
    }
    NameListedIffMatches(listed, dns);
  }

  /** Once the guards pass, delete returns normally whatever the GET and the
      DELETEs answered; a failed GET sends nothing more. */
  lemma DeleteAlwaysReturns(env: Env, spec: DnsSpec, getStatus: int, listed: seq<Record>)
    requires Validate(OnDelete, env, spec).Ok?
    ensures DeleteFlow(env, spec, getStatus, listed).outcome == Returned
    ensures getStatus != 200 ==> DeleteFlow(env, spec, getStatus, listed).calls == [Get(Validate(OnDelete, env, spec).value)]
  {
  }

  /** Creating a.example.com at 10.0.0.5 against an empty table sends the
      PUT, then crashes on line 118. */
  lemma EmptyTableCreateScenario()
    ensures var env := Env(Some("router:443"), Some("admin"), Some("secret"), None);
            var spec := DnsSpec(Some("a.example.com"), Some("10.0.0.5"));
            var conn := Conn("router:443", "admin", "secret", VerifyOn);
            CreateFlow(env, spec, 200, []) == Run([Get(conn), Put(conn, "10.0.0.5", "a.example.com")], Crashed)
  {
  }

  /** Deleting a.example.com from a table holding it under id *7 sends
      one DELETE of that id and nothing else. */
  lemma SingleEntryDeleteScenario()
    ensures var env := Env(Some("router:443"), Some("admin"), Some("secret"), Some("false"));
            var spec := DnsSpec(Some("a.example.com"), None);
            var conn := Conn("router:443", "admin", "secret", VerifyOff);
            var table := [Record("*7", "a.example.com", "10.0.0.5"), Record("*8", "b.example.com", "10.0.0.6")];
            DeleteFlow(env, spec, 200, table) == Run([Get(conn), Delete(conn, "*7")], Returned)
  {
  }
}
