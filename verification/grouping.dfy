/**
 * `group_components`: the two-level index cataloger ("foundBy") -> location
 * path -> components found there, in the order they occur in the document.
 */
module Grouping {
  import opened BomTypes

  const FoundByProperty := "syft:package:foundBy"
  const LocationPathProperty := "syft:location:0:path"

  /** cataloger -> location path -> components, in document order */
  type Index = map<string, map<string, seq<Component>>>

  /**
   * The bucket a component is filed under: its first foundBy value and its
   * first location path; None when it lacks either property.
   */
  function GroupKey(c: Component): Option<(string, string)> {
    match GetProperty(c, FoundByProperty)
    case None => None
    case Some(foundBy) =>
      match GetProperty(c, LocationPathProperty)
      case None => None
      case Some(path) => Some((foundBy, path))
  }

  /** The components of `cs` filed under (`foundBy`, `path`), in the order of `cs`. */
  function Bucket(cs: seq<Component>, foundBy: string, path: string): seq<Component>
  {
    if cs == [] then []
    else
      var last := cs[|cs| - 1];
      Bucket(cs[..|cs| - 1], foundBy, path) + if GroupKey(last) == Some((foundBy, path)) then [last] else []
  }

  /** The bucket (`foundBy`, `path`) of `g`, empty when `g` has none. */
  function Lookup(g: Index, foundBy: string, path: string): seq<Component> {
    if foundBy in g && path in g[foundBy] then g[foundBy][path] else []
  }

  /**
   * Files `c` under its group key: appends it to that bucket, creating the
   * cataloger's map and the bucket when they are missing. A component without
   * a group key leaves the index as it is.
   */
  function Insert(g: Index, c: Component): Index {
    match GroupKey(c)
    case None => g
    case Some((foundBy, path)) =>
      var inner := if foundBy in g then g[foundBy] else map[];
      g[foundBy := inner[path := Lookup(g, foundBy, path) + [c]]]
  }

  /** The index the grouping loop builds from `cs`. */
  function Grouped(cs: seq<Component>): Index {
    if cs == [] then map[] else Insert(Grouped(cs[..|cs| - 1]), cs[|cs| - 1])
  }

  /** Every cataloger of the index has a path, and every bucket a component. */
  ghost predicate NoEmptyBuckets(g: Index) {
    forall foundBy | foundBy in g ::
      g[foundBy].Keys != {} && forall path | path in g[foundBy] :: g[foundBy][path] != []
  }

  /** Inserting `c` extends its own bucket by `c` and leaves every other bucket alone. */
  lemma InsertLookup(g: Index, c: Component)
    ensures forall f, p :: Lookup(Insert(g, c), f, p) ==
                           Lookup(g, f, p) + if GroupKey(c) == Some((f, p)) then [c] else []
    ensures NoEmptyBuckets(g) ==> NoEmptyBuckets(Insert(g, c))
  {
  }

  /**
   * The index holds exactly the buckets of `cs`: looking up (f, p) yields the
   * components filed under (f, p) in document order, and no bucket is empty.
   */
  lemma {:induction false} GroupedIsBuckets(cs: seq<Component>)
    ensures forall f, p :: Lookup(Grouped(cs), f, p) == Bucket(cs, f, p)
    ensures NoEmptyBuckets(Grouped(cs))
  {
    if cs != [] {
      var init, last := cs[..|cs| - 1], cs[|cs| - 1];
      GroupedIsBuckets(init);
      InsertLookup(Grouped(init), last);
    }
  }

  /**
   * A component lies in bucket (f, p) exactly when it occurs in `cs` and its
   * first foundBy value is f and its first location path is p.
   */
  lemma {:induction false} BucketMembers(cs: seq<Component>, f: string, p: string)
    ensures forall c :: c in Bucket(cs, f, p) <==> c in cs && GroupKey(c) == Some((f, p))
  {
    if cs != [] {
      var init, last := cs[..|cs| - 1], cs[|cs| - 1];
      BucketMembers(init, f, p);
      assert cs == init + [last];
    }
  }

  /** A component without a foundBy or without a location path is in no bucket. */
  lemma UngroupedComponents(cs: seq<Component>, c: Component)
    requires GetProperty(c, FoundByProperty).None? || GetProperty(c, LocationPathProperty).None?
    ensures forall f, p :: c !in Lookup(Grouped(cs), f, p)
  {
    GroupedIsBuckets(cs);
    forall f, p ensures c !in Lookup(Grouped(cs), f, p) {
      BucketMembers(cs, f, p);
    }
  }

  /** Inserting `c`, keyed (f, p), into the empty index makes the bucket (f, p) hold `c` alone. */
  lemma InsertIntoEmpty(c: Component, f: string, p: string)
    requires GroupKey(c) == Some((f, p))
    ensures Insert(map[], c) == map[f := map[p := [c]]]
  {
    var empty: Index := map[];
    assert Lookup(empty, f, p) + [c] == [c];
  }

  /** Inserting `c`, keyed (f, p), into an index holding only the bucket (f, p) extends that bucket. */
  lemma InsertIntoSingle(c: Component, f: string, p: string, s: seq<Component>)
    requires GroupKey(c) == Some((f, p))
    ensures Insert(map[f := map[p := s]], c) == map[f := map[p := s + [c]]]
  {
    var g := map[f := map[p := s]];
    assert Lookup(g, f, p) == s;
    assert g[f][p := s + [c]] == map[p := s + [c]];
  }

  /** Components that all share one group key form a single bucket, in their order. */
  lemma {:induction false} SingleBucket(cs: seq<Component>, f: string, p: string)
    requires cs != []
    requires forall i | 0 <= i < |cs| :: GroupKey(cs[i]) == Some((f, p))
    ensures Grouped(cs) == map[f := map[p := cs]]
  {
    var init, last := cs[..|cs| - 1], cs[|cs| - 1];
    assert Grouped(cs) == Insert(Grouped(init), last);
    if init == [] {
      InsertIntoEmpty(last, f, p);
      assert cs == [last];
    } else {
      SingleBucket(init, f, p);
      InsertIntoSingle(last, f, p, init);
      assert init + [last] == cs;
    }
  }

  /** `group_components`: one pass over the components, pushing each onto its bucket. */
  method GroupComponents(components: seq<Component>) returns (grouped: Index)
    ensures grouped == Grouped(components)
    ensures forall f, p :: Lookup(grouped, f, p) == Bucket(components, f, p)
    ensures NoEmptyBuckets(grouped)
  {
    grouped := map[];
    for i := 0 to |components|
      invariant grouped == Grouped(components[..i])
    {
      var component := components[i];
      var foundBy := GetProperty(component, FoundByProperty);
      if foundBy.Some? {
        var path := GetProperty(component, LocationPathProperty);
        if path.Some? {
          var inner := if foundBy.value in grouped then grouped[foundBy.value] else map[];
          var bucket := if path.value in inner then inner[path.value] else [];
          grouped := grouped[foundBy.value := inner[path.value := bucket + [component]]];
        }
      }
      assert components[..i + 1][..i] == components[..i];
    }
    assert components[..|components|] == components;
    GroupedIsBuckets(components);
  }
}
