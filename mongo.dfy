/**
 * An abstract stand-in for the document database handle the backend is given.
 * It keeps only what collection bootstrap observes: the names of the existing
 * collections, and the failures that listing and creating them may report.
 * Connectivity, permission and timeout failures are not computed here; they are
 * fixed in advance as fields (`listFault`, `createFaults`), so every possible
 * outcome of a call can be stated.
 */
module Mongo {
  import opened Base

  /** The errors a database call can return. */
  datatype DbError =
    | NamespaceExists(collection: string)  // creating a collection whose name is taken
    | Unavailable(reason: string)          // connectivity, permission or timeout failure

  /** A failed creation leaves `names` as it was. */
  predicate CreateFails(names: seq<string>, faults: map<string, string>, name: string)
  {
    name in faults || name in names
  }

  /**
   * The outcome of creating collection `name` in a database whose collections
   * are `names`: an infrastructure failure fixed in `faults` comes first, then
   * the rejection of a name that already exists; otherwise the collection is added.
   */
  function Create(names: seq<string>, faults: map<string, string>, name: string): (r: (seq<string>, Option<DbError>))
    ensures r.1.None? <==> !CreateFails(names, faults, name)
    ensures r.0 == if r.1.None? then names + [name] else names
    ensures name in faults ==> r.1 == Some(Unavailable(faults[name]))
    ensures Distinct(names) ==> Distinct(r.0)
  {
    if name in faults then (names, Some(Unavailable(faults[name])))
    else if name in names then (names, Some(NamespaceExists(name)))
    else (names + [name], None)
  }

  class Database {
    /** The existing collections, in the order the store lists them. */
    var names: seq<string>
    /** The failure that listing reports, if any. */
    var listFault: Option<DbError>
    /** Names whose creation fails for an infrastructure reason, with that reason. */
    var createFaults: map<string, string>

    /** Collection names are unique within a database. */
    ghost predicate Valid()
      reads this
    {
      Distinct(names)
    }

    constructor (names: seq<string>, listFault: Option<DbError>, createFaults: map<string, string>)
      requires Distinct(names)
      ensures Valid()
      ensures this.names == names && this.listFault == listFault && this.createFaults == createFaults
    {
      this.names := names;
      this.listFault := listFault;
      this.createFaults := createFaults;
    }

    /** Lists the existing collection names; on failure the list is empty (Go's nil slice). */
    method ListCollectionNames() returns (r: seq<string>, err: Option<DbError>)
      requires Valid()
      ensures err == listFault
      ensures r == if err.None? then names else []
      ensures Distinct(r)
    {
      err := listFault;
      r := if err.None? then names else [];
    }

    /** Creates one collection, as `Create` describes. */
    method CreateCollection(name: string) returns (err: Option<DbError>)
      requires Valid()
      modifies this`names
      ensures Valid()
      ensures (names, err) == Create(old(names), createFaults, name)
    {
      var (n, e) := Create(names, createFaults, name);
      names, err := n, e;
    }
  }
}
