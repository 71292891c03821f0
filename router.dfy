/** The router's static DNS table, as far as the delete handler changes it:
    the handler lists it once, then sends a DELETE per matching entry, and
    the router drops an entry only when it answers 204. */
module RouterTable {
  import opened Records

  class Router {
    var table: seq<Record>

    /** The router keys entries by `.id`. */
    ghost predicate Valid()
      reads this
    {
      DistinctIds(table)
    }

    constructor (records: seq<Record>)
      requires DistinctIds(records)
      ensures Valid() && table == records
    {
      table := records;
    }

    /** Serves `DELETE /rest/ip/dns/static/{id}` answered with `status`. */
    method HandleDelete(id: string, status: int)
      requires Valid()
      modifies this
      ensures Valid()
      ensures table == if status == 204 then RemoveId(old(table), id) else old(table)
    {
      if status == 204 {
        FilterDistinct(table, IdIsNot(id));
        table := RemoveId(table, id);
      }
    }
  }
}
