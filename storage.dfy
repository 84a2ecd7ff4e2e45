/**
 * The storage part of the mail-crier backend: the entity records and the
 * bootstrap rule that makes sure the two backing collections exist.
 */
module Backend {
  import opened Base
  import opened Mongo

  // ---------------------------------------------------------------------------
  // Entities, field for field. They carry no behaviour.
  // ---------------------------------------------------------------------------

  /** A UUID: 16 bytes. No operation of the model generates or inspects one. */
  type Uuid = b: seq<bv8> | |b| == 16 witness seq(16, _ => 0 as bv8)

  /** An instant, as nanoseconds since the Unix epoch; Go's location and monotonic reading are not kept. */
  datatype Time = Time(unixNanos: int)

  datatype MailingList = MailingList(displayName: string, topic: string)

  datatype Subscriber = Subscriber(name: string, surname: string, displayName: string, email: string)

  /** The Go record holds pointers to its list and subscriber; `None` is a nil pointer. */
  datatype Subscription = Subscription(
    id: Uuid,
    mailingList: Option<MailingList>,
    subscriber: Option<Subscriber>,
    subscriptionDate: Time)

  // ---------------------------------------------------------------------------
  // containsAll
  // ---------------------------------------------------------------------------

  /** The number of positions of `s` whose element occurs somewhere in `values`. */
  function Matches(s: seq<string>, values: seq<string>): (n: nat)
    ensures n <= |s|
  {
    if s == [] then 0
    else Matches(s[..|s| - 1], values) + (if s[|s| - 1] in values then 1 else 0)
  }

  /** The answer `containsAll(s, values)` gives: `s` is non-empty and has at least as many matching positions as `values` has entries. */
  predicate Covered(s: seq<string>, values: seq<string>)
  {
    |s| > 0 && Matches(s, values) >= |values|
  }

  /** The positions of `s` whose element occurs in `values`. */
  function MatchPositions(s: seq<string>, values: seq<string>): (positions: set<nat>)
  {
    set i: nat | i < |s| && s[i] in values
  }

  /** `Matches` counts exactly the matching positions. */
  lemma {:induction false} MatchesCountsPositions(s: seq<string>, values: seq<string>)
    ensures Matches(s, values) == |MatchPositions(s, values)|
  {
    if s != [] {
      var last := |s| - 1;
      var p := s[..last];
      MatchesCountsPositions(p, values);
      assert s == p + [s[last]];
      MatchPositionsSnoc(p, s[last], values);
    }
  }

  /** Appending `x` to `p` adds position `|p|` to the matching positions exactly when `x` is one of `values`. */
  lemma MatchPositionsSnoc(p: seq<string>, x: string, values: seq<string>)
    ensures MatchPositions(p + [x], values) == MatchPositions(p, values) + (if x in values then {|p|} else {})
    ensures |p| !in MatchPositions(p, values)
  {
  }

  /** Matches of a prefix never exceed the matches of the whole sequence. */
  lemma {:induction false} MatchesPrefix(s: seq<string>, values: seq<string>, k: nat)
    requires k <= |s|
    ensures Matches(s[..k], values) <= Matches(s, values)
  {
    if k < |s| {
      var p := s[..|s| - 1];
      assert s[..k] == p[..k];
      MatchesPrefix(p, values, k);
    } else {
      assert s[..k] == s;
    }
  }

  /** Extending a prefix by one position adds one match exactly when that position's element is one of `values`. */
  lemma MatchesStep(s: seq<string>, values: seq<string>, i: nat)
    requires i < |s|
    ensures Matches(s[..i + 1], values) == Matches(s[..i], values) + (if s[i] in values then 1 else 0)
  {
    assert s[..i + 1][..i] == s[..i];
  }

  /**
   * Go's `containsAll(s, values)`: a counter starts at `len(values)`, every
   * element of `s` found in `values` takes one off it, and the answer is true
   * as soon as it reaches zero after an element of `s`.
   */
  method ContainsAll(s: seq<string>, values: seq<string>) returns (b: bool)
    ensures b <==> Covered(s, values)
    ensures |values| > |s| ==> !b
    ensures |s| == 0 ==> !b
    ensures |values| == 0 && |s| > 0 ==> b
  {
    if |values| > |s| {
      return false;
    }
    var count := |values|;
    for i := 0 to |s|
      invariant count == |values| - Matches(s[..i], values)
      invariant i > 0 ==> count > 0
    {
      var str := s[i];
      ghost var before := count;
      for j := 0 to |values|
        invariant count == before
        invariant forall k :: 0 <= k < j ==> values[k] != str
      {
        if str == values[j] {
          count := count - 1;
          break;
        }
      }
      assert count == before - (if str in values then 1 else 0);
      MatchesStep(s, values, i);
      if count == 0 {
        MatchesPrefix(s, values, i + 1);
        return true;
      }
    }
    assert s[..|s|] == s;
    return false;
  }

  /**
   * With duplicate-free sequences, `Matches` is the number of values that
   * occur in `s`.
   */
  lemma {:induction false} MatchesDistinct(s: seq<string>, values: seq<string>)
    requires Distinct(s)
    ensures Matches(s, values) == |Elements(s) * Elements(values)|
  {
    if s != [] {
      var last := |s| - 1;
      var p := s[..last];
      assert Distinct(p);
      MatchesDistinct(p, values);
      assert s == p + [s[last]];
      ElementsSnoc(p, s[last]);
      IntersectionGrows(Elements(p), Elements(values), s[last]);
    }
  }

  /** The elements of `p + [x]` are those of `p` and `x`, and `x` adds a new one when `p` does not hold it. */
  lemma ElementsSnoc(p: seq<string>, x: string)
    ensures Elements(p + [x]) == Elements(p) + {x}
    ensures x !in p ==> x !in Elements(p)
  {
  }

  /** Adding a new element to `a` grows `a * v` by one exactly when the element is in `v`. */
  lemma IntersectionGrows(a: set<string>, v: set<string>, x: string)
    requires x !in a
    ensures |(a + {x}) * v| == |a * v| + (if x in v then 1 else 0)
  {
    if x in v {
      assert (a + {x}) * v == a * v + {x};
    } else {
      assert (a + {x}) * v == a * v;
    }
  }

  /**
   * When neither sequence repeats an element and `values` is not empty,
   * `containsAll` answers the question its name asks: does `s` contain every
   * element of `values`.
   */
  lemma CoveredDistinct(s: seq<string>, values: seq<string>)
    requires Distinct(s) && Distinct(values) && |values| > 0
    ensures Covered(s, values) <==> forall v :: v in values ==> v in s
  {
    MatchesDistinct(s, values);
    DistinctCardinality(values);
    var all := Elements(values);
    var both := Elements(s) * all;
    SubsetCardinality(both, all);
    if forall v :: v in values ==> v in s {
      assert all - both == {} by {
        forall v | v in all ensures v in both {
          assert v in values;
        }
      }
      assert values[0] in s;
    }
    if Covered(s, values) {
      assert all - both == {};
      forall v | v in values ensures v in s {
        assert v in all;
        assert v in both;
      }
    }
  }

  /** A subset's size plus the size of what it leaves out is the size of the whole. */
  lemma SubsetCardinality(a: set<string>, b: set<string>)
    requires a <= b
    ensures |b| == |a| + |b - a|
  {
  }

  /**
   * Repeated names in `s` can stand in for a missing one: a listing that names
   * "mailing-list" twice and "subscriber" never is taken as covering both.
   */
  lemma DuplicatesCanCover()
    ensures Covered([MailingListCollection, MailingListCollection], CollectionNames())
    ensures SubscriberCollection !in [MailingListCollection, MailingListCollection]
  {
  }

  /**
   * An empty `s` is never covering, not even for an empty `values`: the loop
   * body never runs. A corollary of `ContainsAll`'s postcondition, stated on
   * the specification to record this quirk for readers.
   */
  lemma EmptyNeverCovered(values: seq<string>)
    ensures !Covered([], values)
  {
  }

  // ---------------------------------------------------------------------------
  // collectionNames and InitCollections
  // ---------------------------------------------------------------------------

  const MailingListCollection: string := "mailing-list"
  const SubscriberCollection: string := "subscriber"

  /** The collections the backend needs, in the order they are created. */
  function CollectionNames(): (r: seq<string>)
    ensures r == [MailingListCollection, SubscriberCollection]
    ensures Distinct(r) && |r| == 2
  {
    [MailingListCollection, SubscriberCollection]
  }

  /**
   * Creating every name of `required` in order, stopping at the first failure:
   * the collections afterwards and the error returned.
   */
  function CreateEach(names: seq<string>, faults: map<string, string>, required: seq<string>): (r: (seq<string>, Option<DbError>))
    decreases |required|
  {
    if required == [] then (names, None)
    else
      var (next, err) := Create(names, faults, required[0]);
      if err.Some? then (next, err) else CreateEach(next, faults, required[1..])
  }

  /**
   * The collections and the result of `InitCollections` on a database with
   * collections `names`, listing failure `listFault` and creation failures `faults`.
   */
  function InitOutcome(names: seq<string>, listFault: Option<DbError>, faults: map<string, string>): (r: (seq<string>, Option<DbError>))
  {
    if listFault.Some? then (names, listFault)
    else if Covered(names, CollectionNames()) then (names, None)
    else CreateEach(names, faults, CollectionNames())
  }

  /**
   * Go's `InitCollections`: list the collections; if the required ones are not
   * all there, create every required one in order, returning the first error.
   */
  method InitCollections(db: Database) returns (err: Option<DbError>)
    requires db.Valid()
    modifies db`names
    ensures db.Valid()
    ensures (db.names, err) == InitOutcome(old(db.names), db.listFault, db.createFaults)
  {
    var names, listErr := db.ListCollectionNames();
    if listErr.Some? {
      return listErr;
    }
    var covered := ContainsAll(names, CollectionNames());
    if !covered {
      var required := CollectionNames();
      for i := 0 to |required|
        invariant db.Valid()
        invariant CreateEach(db.names, db.createFaults, required[i..]) == InitOutcome(old(db.names), db.listFault, db.createFaults)
      {
        assert required[i..][1..] == required[i + 1..];
        err := db.CreateCollection(required[i]);
        if err.Some? {
          return err;
        }
      }
    }
    return None;
  }

  /**
   * A failed listing is returned as it is, and nothing is created.
   * This and the next two lemmas restate, one branch each, what
   * `InitCollections`'s postcondition gives through `InitOutcome`.
   */
  lemma InitListFailure(names: seq<string>, listFault: Option<DbError>, faults: map<string, string>)
    requires listFault.Some?
    ensures InitOutcome(names, listFault, faults) == (names, listFault)
  {
  }

  /** When the listing covers the required names, nothing is created and the result is nil. */
  lemma InitCoveredCreatesNothing(names: seq<string>, faults: map<string, string>)
    requires Covered(names, CollectionNames())
    ensures InitOutcome(names, None, faults) == (names, None)
  {
  }

  /** When the listing does not cover the required names, every one of them is attempted. */
  lemma InitUncoveredCreatesEach(names: seq<string>, faults: map<string, string>)
    requires !Covered(names, CollectionNames())
    ensures InitOutcome(names, None, faults) == CreateEach(names, faults, CollectionNames())
  {
  }

  /**
   * If the first `k` creations go through and the next one fails, the result is
   * that failure, the first `k` names have been added, and no later name is tried.
   */
  lemma {:induction false} CreateEachStopsAtFirstFailure(names: seq<string>, faults: map<string, string>, required: seq<string>, k: nat)
    requires k < |required|
    requires forall i :: 0 <= i < k ==> !CreateFails(names + required[..i], faults, required[i])
    requires CreateFails(names + required[..k], faults, required[k])
    ensures CreateEach(names, faults, required) == Create(names + required[..k], faults, required[k])
    ensures CreateEach(names, faults, required).0 == names + required[..k]
    ensures CreateEach(names, faults, required).1.Some?
    decreases k
  {
    if k > 0 {
      var next := names + [required[0]];
      CleanFirstStep(names, faults, required, k);
      assert next + required[1..][..k - 1] == names + required[..k];
      CreateEachStopsAtFirstFailure(next, faults, required[1..], k - 1);
    } else {
      assert names + required[..0] == names;
    }
  }

  /**
   * When the first `k` creations go through, the first of them succeeds and
   * the next `k - 1` go through from the state it leaves.
   */
  lemma CleanFirstStep(names: seq<string>, faults: map<string, string>, required: seq<string>, k: nat)
    requires 0 < k <= |required|
    requires forall i :: 0 <= i < k ==> !CreateFails(names + required[..i], faults, required[i])
    ensures Create(names, faults, required[0]) == (names + [required[0]], None)
    ensures forall i :: 0 <= i < k - 1 ==>
              !CreateFails(names + [required[0]] + required[1..][..i], faults, required[1..][i])
  {
    assert !CreateFails(names + required[..0], faults, required[0]);
    assert names + required[..0] == names;
    forall i | 0 <= i < k - 1
      ensures !CreateFails(names + [required[0]] + required[1..][..i], faults, required[1..][i])
    {
      assert names + [required[0]] + required[1..][..i] == names + required[..i + 1];
      assert !CreateFails(names + required[..i + 1], faults, required[i + 1]);
    }
  }

  /** If no creation fails, every required name is added in order and the result is nil. */
  lemma {:induction false} CreateEachSucceeds(names: seq<string>, faults: map<string, string>, required: seq<string>)
    requires forall i :: 0 <= i < |required| ==> !CreateFails(names + required[..i], faults, required[i])
    ensures CreateEach(names, faults, required) == (names + required, None)
    decreases |required|
  {
    if required != [] {
      var next := names + [required[0]];
      CleanFirstStep(names, faults, required, |required|);
      CreateEachSucceeds(next, faults, required[1..]);
      assert next + required[1..] == names + required;
    } else {
      assert names + required == names;
    }
  }

  /** Creation keeps collection names unique, and a nil result means every required name now exists. */
  lemma {:induction false} CreateEachResult(names: seq<string>, faults: map<string, string>, required: seq<string>)
    requires Distinct(names)
    ensures Distinct(CreateEach(names, faults, required).0)
    ensures CreateEach(names, faults, required).1.None? ==>
              forall c :: c in required ==> c in CreateEach(names, faults, required).0
    ensures forall c :: c in names ==> c in CreateEach(names, faults, required).0
    decreases |required|
  {
    if required != [] {
      var (next, err) := Create(names, faults, required[0]);
      if err.None? {
        CreateEachResult(next, faults, required[1..]);
        forall c | c in required ensures c in CreateEach(names, faults, required).0 || CreateEach(names, faults, required).1.Some? {
          if c != required[0] {
            assert c in required[1..];
          }
        }
      }
    }
  }

  /** A nil result from `InitCollections` means both required collections exist afterwards. */
  lemma InitSuccessEstablishesCollections(names: seq<string>, faults: map<string, string>)
    requires Distinct(names)
    ensures InitOutcome(names, None, faults).1.None? ==>
              MailingListCollection in InitOutcome(names, None, faults).0 &&
              SubscriberCollection in InitOutcome(names, None, faults).0
  {
    if Covered(names, CollectionNames()) {
      CoveredDistinct(names, CollectionNames());
    } else {
      CreateEachResult(names, faults, CollectionNames());
    }
  }

  /**
   * `InitCollections` is safe to run on every start once it has succeeded: run
   * again on what it left behind, it creates nothing and returns nil.
   */
  lemma InitIsIdempotent(names: seq<string>, faults: map<string, string>, laterFaults: map<string, string>)
    requires Distinct(names)
    requires InitOutcome(names, None, faults).1.None?
    ensures var after := InitOutcome(names, None, faults).0;
            InitOutcome(after, None, laterFaults) == (after, None)
  {
    var after := InitOutcome(names, None, faults).0;
    if !Covered(names, CollectionNames()) {
      CreateEachResult(names, faults, CollectionNames());
      InitSuccessEstablishesCollections(names, faults);
      CoveredDistinct(after, CollectionNames());
    }
  }

  /**
   * With "mailing-list" present and "subscriber" missing, the bootstrap is not
   * idempotent: creating "mailing-list" again fails with a name clash and
   * "subscriber" is never created.
   */
  lemma InitRejectsPartialCollections(names: seq<string>, faults: map<string, string>)
    requires Distinct(names)
    requires MailingListCollection in names && SubscriberCollection !in names
    requires MailingListCollection !in faults
    ensures InitOutcome(names, None, faults) == (names, Some(NamespaceExists(MailingListCollection)))
    ensures SubscriberCollection !in InitOutcome(names, None, faults).0
  {
    CoveredDistinct(names, CollectionNames());
  }

  // ---------------------------------------------------------------------------
  // The bootstrap as evidently intended: create only what is missing.
  // ---------------------------------------------------------------------------

  /** Creating, in order, each required name that does not exist yet, stopping at the first failure. */
  function CreateMissing(names: seq<string>, faults: map<string, string>, required: seq<string>): (r: (seq<string>, Option<DbError>))
    decreases |required|
  {
    if required == [] then (names, None)
    else if required[0] in names then CreateMissing(names, faults, required[1..])
    else
      var (next, err) := Create(names, faults, required[0]);
      if err.Some? then (next, err) else CreateMissing(next, faults, required[1..])
  }

  /** Every error `CreateMissing` returns is an infrastructure failure, never a name clash. */
  lemma {:induction false} CreateMissingErrorsAreFaults(names: seq<string>, faults: map<string, string>, required: seq<string>)
    ensures CreateMissing(names, faults, required).1.Some? ==>
              exists c :: c in required && c in faults && CreateMissing(names, faults, required).1 == Some(Unavailable(faults[c]))
    ensures CreateMissing(names, faults, required).1.Some? ==> CreateMissing(names, faults, required).1.value.Unavailable?
    decreases |required|
  {
    if required != [] {
      var c := required[0];
      if c in names {
        CreateMissingErrorsAreFaults(names, faults, required[1..]);
        ExistsInTail(CreateMissing(names, faults, required).1, faults, required);
      } else {
        var (next, err) := Create(names, faults, c);
        if err.None? {
          CreateMissingErrorsAreFaults(next, faults, required[1..]);
          ExistsInTail(CreateMissing(names, faults, required).1, faults, required);
        }
      }
    }
  }

  /** A fault attributed to a name of `required[1..]` is one attributed to a name of `required`. */
  lemma ExistsInTail(e: Option<DbError>, faults: map<string, string>, required: seq<string>)
    requires required != []
    ensures (exists c :: c in required[1..] && c in faults && e == Some(Unavailable(faults[c]))) ==>
            (exists c :: c in required && c in faults && e == Some(Unavailable(faults[c])))
  {
  }

  /** Without infrastructure failures `CreateMissing` succeeds and every required name then exists. */
  lemma {:induction false} CreateMissingSucceeds(names: seq<string>, faults: map<string, string>, required: seq<string>)
    requires forall c :: c in required ==> c !in faults
    ensures CreateMissing(names, faults, required).1 == None
    ensures forall c :: c in names + required ==> c in CreateMissing(names, faults, required).0
    decreases |required|
  {
    if required != [] {
      var c := required[0];
      var next := if c in names then names else names + [c];
      CreateMissingSucceeds(next, faults, required[1..]);
      forall x | x in names + required ensures x in CreateMissing(names, faults, required).0 {
        if x != c && x !in names {
          assert x in required[1..];
        }
      }
    }
  }

  /**
   * The corrected bootstrap: list the collections, then create, in order, each
   * required collection the listing does not name, returning the first error.
   */
  method EnsureCollections(db: Database) returns (err: Option<DbError>)
    requires db.Valid()
    modifies db`names
    ensures db.Valid()
    ensures err == if db.listFault.Some? then db.listFault else CreateMissing(old(db.names), db.createFaults, CollectionNames()).1
    ensures db.names == if db.listFault.Some? then old(db.names) else CreateMissing(old(db.names), db.createFaults, CollectionNames()).0
  {
    var names, listErr := db.ListCollectionNames();
    if listErr.Some? {
      return listErr;
    }
    var required := CollectionNames();
    for i := 0 to |required|
      invariant db.Valid()
      invariant CreateMissing(db.names, db.createFaults, required[i..]) == CreateMissing(names, db.createFaults, required)
      invariant forall x :: x in names ==> x in db.names
      invariant forall x :: x in db.names ==> x in names || x in required[..i]
    {
      assert required[i..][1..] == required[i + 1..];
      assert required[i] !in required[..i];
      if required[i] !in names {
        err := db.CreateCollection(required[i]);
        if err.Some? {
          return err;
        }
      }
      assert required[..i + 1] == required[..i] + [required[i]];
    }
    return None;
  }

  /** From one existing collection the corrected bootstrap creates the other and returns nil. */
  lemma EnsureCompletesPartialCollections()
    ensures CreateMissing([MailingListCollection], map[], CollectionNames()) ==
            ([MailingListCollection, SubscriberCollection], None)
  {
    var required := CollectionNames();
    assert required[1..] == [SubscriberCollection];
    assert required[1..][1..] == [];
    assert SubscriberCollection !in [MailingListCollection];
    assert CreateMissing([MailingListCollection], map[], required) ==
           CreateMissing([MailingListCollection], map[], [SubscriberCollection]);
    var none: map<string, string> := map[];
    assert SubscriberCollection !in none;
    assert [MailingListCollection] + [SubscriberCollection] == [MailingListCollection, SubscriberCollection];
    assert Create([MailingListCollection], none, SubscriberCollection) ==
           ([MailingListCollection, SubscriberCollection], None);
    assert CreateMissing([MailingListCollection, SubscriberCollection], map[], []) ==
           ([MailingListCollection, SubscriberCollection], None);
  }
}
