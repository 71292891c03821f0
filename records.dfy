/** Entries of the router's static DNS table, as the GET at
    `/rest/ip/dns/static` lists them, and the selections the handlers make
    over such a list. */
module Records {

  /** One static DNS entry: the router-assigned `.id`, the DNS `name` and
      the `address` it resolves to. */
  datatype Record = Record(id: string, name: string, address: string)

  /** The entries of `records` that `keep` accepts, in list order. */
  function Filter(records: seq<Record>, keep: Record -> bool): seq<Record> {
    if records == [] then []
    else (if keep(records[0]) then [records[0]] else []) + Filter(records[1..], keep)
  }

  /** Filter keeps exactly the accepted entries, and never more of them
      than there were. */
  lemma {:induction false} FilterMembers(records: seq<Record>, keep: Record -> bool)
    ensures |Filter(records, keep)| <= |records|
    ensures forall x :: x in Filter(records, keep) <==> x in records && keep(x)
  {
    if records != [] {
      FilterMembers(records[1..], keep);
      assert records == [records[0]] + records[1..];
    }
  }

  lemma {:induction false} FilterAppend(a: seq<Record>, b: seq<Record>, keep: Record -> bool)
    ensures Filter(a + b, keep) == Filter(a, keep) + Filter(b, keep)
  {
    if a == [] {
      assert a + b == b;
    } else {
      assert (a + b)[1..] == a[1..] + b;
      FilterAppend(a[1..], b, keep);
    }
  }

  /** A filter that accepts every entry leaves the list as it is. */
  lemma {:induction false} FilterKeepsAll(records: seq<Record>, keep: Record -> bool)
    requires forall x :: x in records ==> keep(x)
    ensures Filter(records, keep) == records
  {
    if records != [] {
      FilterKeepsAll(records[1..], keep);
    }
  }

  /** A filter that accepts no entry leaves nothing. */
  lemma {:induction false} FilterKeepsNone(records: seq<Record>, keep: Record -> bool)
    requires forall x :: x in records ==> !keep(x)
    ensures Filter(records, keep) == []
  {
    if records != [] {
      FilterKeepsNone(records[1..], keep);
    }
  }

  /** No two entries share an `.id`, as on the router itself. */
  predicate DistinctIds(records: seq<Record>) {
    forall i, j :: 0 <= i < j < |records| ==> records[i].id != records[j].id
  }

  lemma {:induction false} FilterDistinct(records: seq<Record>, keep: Record -> bool)
    requires DistinctIds(records)
    ensures DistinctIds(Filter(records, keep))
  {
    if records != [] {
      var rest := records[1..];
      FilterDistinct(rest, keep);
      FilterMembers(rest, keep);
      var t := Filter(rest, keep);
      forall j | 0 <= j < |t|
        ensures t[j].id != records[0].id
      {
        assert t[j] in rest;
        var k :| 0 <= k < |rest| && rest[k] == t[j];
        assert records[k + 1] == t[j];
      }
    }
  }

  function NameIs(dns: string): Record -> bool {
    (r: Record) => r.name == dns
  }

  function NameIsNot(dns: string): Record -> bool {
    (r: Record) => r.name != dns
  }

  function IdIsNot(id: string): Record -> bool {
    (r: Record) => r.id != id
  }

  /** An entry survives a delete pass for `dns` unless it carries that name
      and the router answered 204 to the DELETE of its id. */
  function NotRemoved(dns: string, deleteStatus: string -> int): Record -> bool {
    (r: Record) => !(r.name == dns && deleteStatus(r.id) == 204)
  }

  /** The entries named `dns`, in list order. */
  function Matches(records: seq<Record>, dns: string): seq<Record>
  {
    Filter(records, NameIs(dns))
  }

  /** The entries with any other name, in list order. */
  function Others(records: seq<Record>, dns: string): seq<Record>
  {
    Filter(records, NameIsNot(dns))
  }

  /** What the router holds after a DELETE of `id` that it accepted. */
  function RemoveId(records: seq<Record>, id: string): seq<Record>
  {
    Filter(records, IdIsNot(id))
  }

  /** What the router holds after a delete pass for `dns`, given its answer
      to each DELETE. */
  function Survivors(records: seq<Record>, dns: string, deleteStatus: string -> int): seq<Record>
  {
    Filter(records, NotRemoved(dns, deleteStatus))
  }

  /** Some entry already carries the name `dns`. */
  predicate NameListed(records: seq<Record>, dns: string) {
    exists j :: 0 <= j < |records| && records[j].name == dns
  }

  lemma NameListedIffMatches(records: seq<Record>, dns: string)
    ensures NameListed(records, dns) <==> Matches(records, dns) != []
  {
    FilterMembers(records, NameIs(dns));
    if NameListed(records, dns) {
      var j :| 0 <= j < |records| && records[j].name == dns;
      assert records[j] in Matches(records, dns);
    }
    var ms := Matches(records, dns);
    if ms != [] {
      assert ms[0] in records;
    }
  }

  /** When every DELETE of a matching entry is accepted, exactly the entries
      with other names are left, in their original order. */
  lemma {:induction false} AllAcceptedLeavesOthers(records: seq<Record>, dns: string, deleteStatus: string -> int)
    requires forall r :: r in records && r.name == dns ==> deleteStatus(r.id) == 204
    ensures Survivors(records, dns, deleteStatus) == Others(records, dns)
    ensures Matches(Survivors(records, dns, deleteStatus), dns) == []
  {
    if records != [] {
      AllAcceptedLeavesOthers(records[1..], dns, deleteStatus);
      assert Survivors(records, dns, deleteStatus) ==
        (if NotRemoved(dns, deleteStatus)(records[0]) then [records[0]] else []) + Survivors(records[1..], dns, deleteStatus);
      assert Others(records, dns) ==
        (if NameIsNot(dns)(records[0]) then [records[0]] else []) + Others(records[1..], dns);
    }
    FilterMembers(records, NotRemoved(dns, deleteStatus));
    FilterKeepsNone(Survivors(records, dns, deleteStatus), NameIs(dns));
  }
  /** Filtering one more entry of a list appends that entry or nothing. */
  lemma FilterStep(records: seq<Record>, i: int, keep: Record -> bool)
    requires 0 <= i < |records|
    ensures Filter(records[..i + 1], keep) ==
            Filter(records[..i], keep) + (if keep(records[i]) then [records[i]] else [])
  {
    assert records[..i + 1] == records[..i] + [records[i]];
    FilterAppend(records[..i], [records[i]], keep);
    assert Filter([records[i]], keep) == (if keep(records[i]) then [records[i]] else []) + Filter([], keep);
  }

  /** Midway through a delete pass over the listed entries, the router holds
      the survivors of the entries already visited followed by the entries not
      yet visited; an accepted DELETE of the next entry keeps it that way. */
  lemma RemoveAcceptedStep(listed: seq<Record>, i: int, dns: string, deleteStatus: string -> int)
    requires DistinctIds(listed) && 0 <= i < |listed|
    requires listed[i].name == dns && deleteStatus(listed[i].id) == 204
    ensures RemoveId(Survivors(listed[..i], dns, deleteStatus) + listed[i..], listed[i].id) ==
            Survivors(listed[..i + 1], dns, deleteStatus) + listed[i + 1..]
  {
    var id := listed[i].id;
    var done := Survivors(listed[..i], dns, deleteStatus);
    FilterAppend(done, listed[i..], IdIsNot(id));
    FilterMembers(listed[..i], NotRemoved(dns, deleteStatus));
    EarlierIdsKept(listed, done, i);
    RemoveOwnId(listed, i);
    assert RemoveId(done + listed[i..], id) == done + listed[i + 1..];
    FilterStep(listed, i, NotRemoved(dns, deleteStatus));
    assert Survivors(listed[..i + 1], dns, deleteStatus) == done + [];
  }

  /** Removing the id of entry `i` from the entries from `i` on drops just
      that entry. */
  lemma RemoveOwnId(listed: seq<Record>, i: int)
    requires DistinctIds(listed) && 0 <= i < |listed|
    ensures RemoveId(listed[i..], listed[i].id) == listed[i + 1..]
  {
    assert listed[i..] == [listed[i]] + listed[i + 1..];
    FilterAppend([listed[i]], listed[i + 1..], IdIsNot(listed[i].id));
    assert Filter([listed[i]], IdIsNot(listed[i].id)) == [];
    LaterIdsKept(listed, i);
  }

  /** With distinct ids, removing the id of entry `i` leaves a selection of
      the entries before it as it is. */
  lemma EarlierIdsKept(listed: seq<Record>, part: seq<Record>, i: int)
    requires DistinctIds(listed) && 0 <= i < |listed|
    requires forall x :: x in part ==> x in listed[..i]
    ensures RemoveId(part, listed[i].id) == part
  {
    forall x | x in part
      ensures IdIsNot(listed[i].id)(x)
    {
      assert x in listed[..i];
      var k :| 0 <= k < i && listed[..i][k] == x;
      assert listed[k] == x;
    }
    FilterKeepsAll(part, IdIsNot(listed[i].id));
  }

  /** ... and the entries after it as they are. */
  lemma LaterIdsKept(listed: seq<Record>, i: int)
    requires DistinctIds(listed) && 0 <= i < |listed|
    ensures RemoveId(listed[i + 1..], listed[i].id) == listed[i + 1..]
  {
    var rest := listed[i + 1..];
    forall x | x in rest
      ensures IdIsNot(listed[i].id)(x)
    {
      var k :| 0 <= k < |rest| && rest[k] == x;
      assert listed[i + 1 + k] == x;
    }
    FilterKeepsAll(rest, IdIsNot(listed[i].id));
  }

  /** An entry the pass leaves in place moves from "not yet visited" to the
      survivors without changing the table. */
  lemma KeepStep(listed: seq<Record>, i: int, dns: string, deleteStatus: string -> int)
    requires 0 <= i < |listed|
    requires listed[i].name != dns || deleteStatus(listed[i].id) != 204
    ensures Survivors(listed[..i], dns, deleteStatus) + listed[i..] ==
            Survivors(listed[..i + 1], dns, deleteStatus) + listed[i + 1..]
  {
    var done := Survivors(listed[..i], dns, deleteStatus);
    FilterStep(listed, i, NotRemoved(dns, deleteStatus));
    assert Survivors(listed[..i + 1], dns, deleteStatus) == done + [listed[i]];
    assert listed[i..] == [listed[i]] + listed[i + 1..];
    assert done + listed[i..] == (done + [listed[i]]) + listed[i + 1..];
  }

  /** One step of the delete pass: what the router holds after it has
      answered (or not been asked about) entry `i`. */
  lemma PassStep(listed: seq<Record>, i: int, dns: string, deleteStatus: string -> int, table: seq<Record>)
    requires DistinctIds(listed) && 0 <= i < |listed|
    requires table == Survivors(listed[..i], dns, deleteStatus) + listed[i..]
    ensures (if listed[i].name == dns && deleteStatus(listed[i].id) == 204 then RemoveId(table, listed[i].id) else table) ==
            Survivors(listed[..i + 1], dns, deleteStatus) + listed[i + 1..]
  {
    if listed[i].name == dns && deleteStatus(listed[i].id) == 204 {
      RemoveAcceptedStep(listed, i, dns, deleteStatus);
    } else {
      KeepStep(listed, i, dns, deleteStatus);
    }
  }

  /** A delete pass leaves every entry with another name, and every entry
      whose DELETE the router refused, and nothing else. */
  lemma SurvivorsMembers(records: seq<Record>, dns: string, deleteStatus: string -> int)
    ensures forall x :: x in Survivors(records, dns, deleteStatus) <==>
                        x in records && (x.name != dns || deleteStatus(x.id) != 204)
  {
    FilterMembers(records, NotRemoved(dns, deleteStatus));
  }

  /** The matches are exactly the entries carrying the name. */
  lemma MatchesMembers(records: seq<Record>, dns: string)
    ensures forall x :: x in Matches(records, dns) <==> x in records && x.name == dns
  {
    FilterMembers(records, NameIs(dns));
  }

  /** The router after it accepted `PUT {address, name}` and gave the new
      entry the id `id`. */
  function AfterPut(records: seq<Record>, id: string, dns: string, ip: string): seq<Record> {
    records + [Record(id, dns, ip)]
  }

  /** Each accepted PUT of a name adds one more match for it. */
  lemma AfterPutMatches(records: seq<Record>, id: string, dns: string, ip: string)
    ensures Matches(AfterPut(records, id, dns, ip), dns) == Matches(records, dns) + [Record(id, dns, ip)]
  {
    FilterAppend(records, [Record(id, dns, ip)], NameIs(dns));
    assert Filter([Record(id, dns, ip)], NameIs(dns)) == [Record(id, dns, ip)] + Filter([], NameIs(dns));
  }
}
