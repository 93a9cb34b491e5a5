/**
 * What `process_jar_dependencies` adds: for each location bucket of the
 * java-archive cataloger, one edge from the archive's own entry to the
 * components found inside it.
 */
module JarDependencies {
  import opened BomTypes
  import opened Grouping

  const JavaArchiveCataloger := "java-archive-cataloger"
  const VirtualPathProperty := "syft:metadata:virtualPath"

  /** The buckets of the java-archive cataloger, keyed by archive path. */
  function JarBuckets(g: Index): map<string, seq<Component>> {
    if JavaArchiveCataloger in g then g[JavaArchiveCataloger] else map[]
  }

  /** `c` is the archive's own entry: its virtual path is the bucket's path. */
  predicate IsSelfEntry(c: Component, path: string) {
    GetProperty(c, VirtualPathProperty) == Some(path)
  }

  /** The first half of the `partition`: the self-entries, in bucket order. */
  function Parents(bucket: seq<Component>, path: string): seq<Component> {
    if bucket == [] then []
    else (if IsSelfEntry(bucket[0], path) then [bucket[0]] else []) + Parents(bucket[1..], path)
  }

  /** The second half of the `partition`: everything else, in bucket order. */
  function Children(bucket: seq<Component>, path: string): seq<Component> {
    if bucket == [] then []
    else (if IsSelfEntry(bucket[0], path) then [] else [bucket[0]]) + Children(bucket[1..], path)
  }

  /** The `filter_map`: the references of `cs` that are present, in order. */
  function ChildRefs(cs: seq<Component>): seq<string> {
    if cs == [] then []
    else (if cs[0].bomRef.Some? then [cs[0].bomRef.value] else []) + ChildRefs(cs[1..])
  }

  /**
   * The partition splits the bucket: every component goes to exactly one side
   * (so the sizes add up and nothing is lost or duplicated), parents are the
   * self-entries and children the rest.
   */
  lemma {:induction false} PartitionSplits(bucket: seq<Component>, path: string)
    ensures |Parents(bucket, path)| + |Children(bucket, path)| == |bucket|
    ensures multiset(Parents(bucket, path)) + multiset(Children(bucket, path)) == multiset(bucket)
    ensures forall c :: c in Parents(bucket, path) <==> c in bucket && IsSelfEntry(c, path)
    ensures forall c :: c in Children(bucket, path) <==> c in bucket && !IsSelfEntry(c, path)
  {
    if bucket != [] {
      PartitionSplits(bucket[1..], path);
      assert bucket == [bucket[0]] + bucket[1..];
    }
  }

  /** The first parent is the first self-entry of the bucket. */
  lemma {:induction false} FirstParent(bucket: seq<Component>, path: string)
    ensures Parents(bucket, path) != [] <==> exists i | 0 <= i < |bucket| :: IsSelfEntry(bucket[i], path)
    ensures Parents(bucket, path) != [] ==>
      exists i | 0 <= i < |bucket| ::
        IsSelfEntry(bucket[i], path) && Parents(bucket, path)[0] == bucket[i] &&
        forall j | 0 <= j < i :: !IsSelfEntry(bucket[j], path)
  {
    if bucket != [] && !IsSelfEntry(bucket[0], path) {
      FirstParent(bucket[1..], path);
      assert forall i | 1 <= i < |bucket| :: bucket[i] == bucket[1..][i - 1];
      if Parents(bucket, path) != [] {
        var i :| 0 <= i < |bucket[1..]| &&
          IsSelfEntry(bucket[1..][i], path) && Parents(bucket[1..], path)[0] == bucket[1..][i] &&
          forall j | 0 <= j < i :: !IsSelfEntry(bucket[1..][j], path);
        assert forall j | 0 <= j < i + 1 :: !IsSelfEntry(bucket[j], path) by {
          forall j | 0 <= j < i + 1 ensures !IsSelfEntry(bucket[j], path) {
            if j > 0 { assert bucket[j] == bucket[1..][j - 1]; }
          }
        }
      }
    }
  }

  /**
   * The reference list holds exactly the references the components carry;
   * components without a reference are skipped, so it is no longer than `cs`.
   */
  lemma {:induction false} ChildRefsMembers(cs: seq<Component>)
    ensures |ChildRefs(cs)| <= |cs|
    ensures (forall c | c in cs :: c.bomRef.Some?) ==> |ChildRefs(cs)| == |cs|
    ensures forall x :: x in ChildRefs(cs) <==> exists c | c in cs :: c.bomRef == Some(x)
  {
    if cs != [] {
      ChildRefsMembers(cs[1..]);
      assert cs == [cs[0]] + cs[1..];
    }
  }

  /**
   * Both sides of the partition keep bucket order: the partition of a
   * concatenation is the concatenation of the partitions.
   */
  lemma {:induction false} PartitionAppend(a: seq<Component>, b: seq<Component>, path: string)
    ensures Parents(a + b, path) == Parents(a, path) + Parents(b, path)
    ensures Children(a + b, path) == Children(a, path) + Children(b, path)
  {
    if a != [] {
      PartitionAppend(a[1..], b, path);
      assert (a + b)[0] == a[0] && (a + b)[1..] == a[1..] + b;
    } else {
      assert a + b == b;
    }
  }

  /**
   * The reference list follows the components' order, one entry for each
   * component that has a reference: the list of a concatenation is the
   * concatenation of the lists, and a single component contributes exactly
   * its own reference, if any.
   */
  lemma {:induction false} ChildRefsAppend(a: seq<Component>, b: seq<Component>)
    ensures ChildRefs(a + b) == ChildRefs(a) + ChildRefs(b)
    ensures forall c :: ChildRefs([c]) == if c.bomRef.Some? then [c.bomRef.value] else []
  {
    if a != [] {
      ChildRefsAppend(a[1..], b);
      assert (a + b)[0] == a[0] && (a + b)[1..] == a[1..] + b;
    } else {
      assert a + b == b;
    }
    forall c ensures ChildRefs([c]) == if c.bomRef.Some? then [c.bomRef.value] else [] {
      assert [c][1..] == [];
    }
  }

  /** A bucket yields an edge when it has a self-entry and something else. */
  predicate Qualifies(path: string, bucket: seq<Component>) {
    Parents(bucket, path) != [] && Children(bucket, path) != []
  }

  /** The code unwraps the first parent's reference of every qualifying bucket. */
  predicate EdgeDefined(path: string, bucket: seq<Component>) {
    Qualifies(path, bucket) ==> Parents(bucket, path)[0].bomRef.Some?
  }

  predicate JarPassDefined(jars: map<string, seq<Component>>) {
    forall path | path in jars :: EdgeDefined(path, jars[path])
  }

  /** The edge a bucket contributes: first parent -> references of the children. */
  function JarEdge(path: string, bucket: seq<Component>): Option<Dependency>
    requires EdgeDefined(path, bucket)
  {
    var parents, children := Parents(bucket, path), Children(bucket, path);
    if parents != [] && children != [] then
      Some(Dependency(parents[0].bomRef.value, ChildRefs(children)))
    else
      None
  }

  /** A bucket contributes an edge exactly when it has a self-entry and a non-self-entry. */
  lemma JarEdgePresent(path: string, bucket: seq<Component>)
    requires EdgeDefined(path, bucket)
    ensures JarEdge(path, bucket).Some? <==>
      (exists i | 0 <= i < |bucket| :: IsSelfEntry(bucket[i], path)) &&
      (exists j | 0 <= j < |bucket| :: !IsSelfEntry(bucket[j], path))
  {
    PartitionSplits(bucket, path);
    FirstParent(bucket, path);
    var children := Children(bucket, path);
    if j :| 0 <= j < |bucket| && !IsSelfEntry(bucket[j], path) {
      assert bucket[j] in bucket;
      assert bucket[j] in children;
    }
    if children != [] {
      assert children[0] in children;
      var j :| 0 <= j < |bucket| && bucket[j] == children[0];
    }
  }

  /** The edge's source is the reference of the first self-entry of the bucket. */
  lemma JarEdgeSource(path: string, bucket: seq<Component>)
    requires EdgeDefined(path, bucket)
    ensures JarEdge(path, bucket).Some? ==>
      exists i | 0 <= i < |bucket| ::
        && IsSelfEntry(bucket[i], path)
        && bucket[i].bomRef == Some(JarEdge(path, bucket).value.dependencyRef)
        && forall j | 0 <= j < i :: !IsSelfEntry(bucket[j], path)
  {
    FirstParent(bucket, path);
  }

  /**
   * The edge's targets are precisely the references carried by the
   * non-self-entries of the bucket (those without a reference are skipped).
   */
  lemma JarEdgeTargets(path: string, bucket: seq<Component>)
    requires EdgeDefined(path, bucket)
    ensures JarEdge(path, bucket).Some? ==>
      forall x :: x in JarEdge(path, bucket).value.dependencies <==>
        exists j | 0 <= j < |bucket| :: !IsSelfEntry(bucket[j], path) && bucket[j].bomRef == Some(x)
  {
    var children := Children(bucket, path);
    if JarEdge(path, bucket).Some? {
      PartitionSplits(bucket, path);
      ChildRefsMembers(children);
      var d := JarEdge(path, bucket).value;
      assert d.dependencies == ChildRefs(children);
      forall x | x in d.dependencies
        ensures exists j | 0 <= j < |bucket| :: !IsSelfEntry(bucket[j], path) && bucket[j].bomRef == Some(x)
      {
        var c :| c in children && c.bomRef == Some(x);
        var j :| 0 <= j < |bucket| && bucket[j] == c;
      }
      forall x | exists j | 0 <= j < |bucket| :: !IsSelfEntry(bucket[j], path) && bucket[j].bomRef == Some(x)
        ensures x in d.dependencies
      {
        var j :| 0 <= j < |bucket| && !IsSelfEntry(bucket[j], path) && bucket[j].bomRef == Some(x);
        assert bucket[j] in children;
      }
    }
  }

  function EdgeList(e: Option<Dependency>): seq<Dependency> {
    if e.Some? then [e.value] else []
  }

  /** The edges the jar pass appends when it visits the archive paths in `order`. */
  function JarEdges(jars: map<string, seq<Component>>, order: seq<string>): seq<Dependency>
    requires forall i | 0 <= i < |order| :: order[i] in jars
    requires JarPassDefined(jars)
  {
    if order == [] then []
    else
      var path := order[|order| - 1];
      JarEdges(jars, order[..|order| - 1]) + EdgeList(JarEdge(path, jars[path]))
  }

  /** The qualifying archive paths among `paths`. */
  ghost function QualifyingIn(jars: map<string, seq<Component>>, paths: set<string>): set<string> {
    set path | path in paths && path in jars && Qualifies(path, jars[path])
  }

  /** An edge is appended exactly for the qualifying paths, each being its bucket's edge. */
  lemma {:induction false} JarEdgesFrom(jars: map<string, seq<Component>>, order: seq<string>)
    requires forall i | 0 <= i < |order| :: order[i] in jars
    requires JarPassDefined(jars)
    ensures forall e :: e in JarEdges(jars, order) <==>
      exists i | 0 <= i < |order| :: JarEdge(order[i], jars[order[i]]) == Some(e)
  {
    if order != [] {
      var init, path := order[..|order| - 1], order[|order| - 1];
      JarEdgesFrom(jars, init);
      assert forall i | 0 <= i < |init| :: init[i] == order[i];
    }
  }

  /** With an order free of repeats, one edge is appended per qualifying path. */
  lemma {:induction false} JarEdgesCountIn(jars: map<string, seq<Component>>, order: seq<string>)
    requires forall i | 0 <= i < |order| :: order[i] in jars
    requires forall i, j | 0 <= i < j < |order| :: order[i] != order[j]
    requires JarPassDefined(jars)
    ensures |JarEdges(jars, order)| == |QualifyingIn(jars, set p | p in order)|
  {
    if order != [] {
      var init, path := order[..|order| - 1], order[|order| - 1];
      assert order == init + [path];
      JarEdgesCountIn(jars, init);
      var before := QualifyingIn(jars, set p | p in init);
      var after := QualifyingIn(jars, set p | p in order);
      assert path !in init;
      if Qualifies(path, jars[path]) {
        assert after == before + {path};
        assert |after| == |before| + 1;
      } else {
        assert after == before;
      }
    }
  }

  /**
   * The jar pass over an enumeration of the archive paths appends exactly one
   * edge per bucket that has a self-entry and at least one other component,
   * and every appended edge is such a bucket's edge.
   */
  lemma JarEdgesExact(jars: map<string, seq<Component>>, order: seq<string>)
    requires IsEnumeration(order, jars.Keys)
    requires JarPassDefined(jars)
    ensures |JarEdges(jars, order)| == |QualifyingIn(jars, jars.Keys)|
    ensures forall e :: e in JarEdges(jars, order) <==>
      exists path | path in jars :: JarEdge(path, jars[path]) == Some(e)
  {
    JarEdgesCountIn(jars, order);
    JarEdgesFrom(jars, order);
    assert (set p | p in order) == jars.Keys;
    forall e | exists path | path in jars :: JarEdge(path, jars[path]) == Some(e)
      ensures exists i | 0 <= i < |order| :: JarEdge(order[i], jars[order[i]]) == Some(e)
    {
      var path :| path in jars && JarEdge(path, jars[path]) == Some(e);
      var i :| 0 <= i < |order| && order[i] == path;
    }
  }

  /** Every reference a jar edge mentions is the reference of a component of its bucket. */
  lemma JarEdgeRefs(path: string, bucket: seq<Component>)
    requires EdgeDefined(path, bucket)
    ensures JarEdge(path, bucket).Some? ==>
      && IsRefOf(bucket, JarEdge(path, bucket).value.dependencyRef)
      && forall x | x in JarEdge(path, bucket).value.dependencies :: IsRefOf(bucket, x)
  {
    JarEdgeSource(path, bucket);
    JarEdgeTargets(path, bucket);
  }

  // The containment example: an archive entry A (virtual path "lib.jar") and
  // two entries B and C found at "lib.jar", all found by the java-archive cataloger.
  const ExampleFoundBy := Property(FoundByProperty, JavaArchiveCataloger)
  const ExampleAt := Property(LocationPathProperty, "lib.jar")
  const ExampleA := Component(Some("A"), None, Library, "a",
                              Some([ExampleFoundBy, ExampleAt, Property(VirtualPathProperty, "lib.jar")]))
  const ExampleB := Component(Some("B"), None, Library, "b", Some([ExampleFoundBy, ExampleAt]))
  const ExampleC := Component(Some("C"), None, Library, "c", Some([ExampleFoundBy, ExampleAt]))

  lemma ExampleKeys()
    ensures GroupKey(ExampleA) == Some((JavaArchiveCataloger, "lib.jar"))
    ensures GroupKey(ExampleB) == Some((JavaArchiveCataloger, "lib.jar"))
    ensures GroupKey(ExampleC) == Some((JavaArchiveCataloger, "lib.jar"))
    ensures IsSelfEntry(ExampleA, "lib.jar")
    ensures !IsSelfEntry(ExampleB, "lib.jar") && !IsSelfEntry(ExampleC, "lib.jar")
  {
    assert FoundByProperty[5] != LocationPathProperty[5];
    assert VirtualPathProperty[5] != LocationPathProperty[5];
    assert VirtualPathProperty[5] != FoundByProperty[5];
    var pa := ExampleA.properties.value;
    assert FindProperty(pa[2..], VirtualPathProperty) == Some("lib.jar");
    assert FindProperty(pa[1..], VirtualPathProperty) == Some("lib.jar");
    assert FindProperty(pa[1..], LocationPathProperty) == Some("lib.jar");
    var pb := ExampleB.properties.value;
    assert pb == ExampleC.properties.value;
    assert FindProperty(pb, FoundByProperty) == Some(JavaArchiveCataloger);
    assert FindProperty(pb[1..], LocationPathProperty) == Some("lib.jar");
    assert pb[1..][1..] == [];
    assert FindProperty(pb[1..][1..], VirtualPathProperty) == None;
    assert FindProperty(pb[1..], VirtualPathProperty) == None;
  }

  /** The three example components group into the single bucket "lib.jar". */
  lemma ExampleBuckets()
    ensures JarBuckets(Grouped([ExampleA, ExampleB, ExampleC])) == map["lib.jar" := [ExampleA, ExampleB, ExampleC]]
  {
    ExampleKeys();
    var cs := [ExampleA, ExampleB, ExampleC];
    forall i | 0 <= i < |cs| ensures GroupKey(cs[i]) == Some((JavaArchiveCataloger, "lib.jar")) {
      assert cs[i] == ExampleA || cs[i] == ExampleB || cs[i] == ExampleC;
    }
    SingleBucket(cs, JavaArchiveCataloger, "lib.jar");
    assert Grouped(cs)[JavaArchiveCataloger] == map["lib.jar" := cs];
  }
  lemma ExamplePartition()
    ensures Parents([ExampleA, ExampleB, ExampleC], "lib.jar") == [ExampleA]
    ensures Children([ExampleA, ExampleB, ExampleC], "lib.jar") == [ExampleB, ExampleC]
  {
    ExampleKeys();
    var bucket := [ExampleA, ExampleB, ExampleC];
    assert bucket[1..] == [ExampleB, ExampleC] && bucket[1..][1..] == [ExampleC];
    assert [ExampleC][1..] == [];
    assert Parents([ExampleC], "lib.jar") == [];
    assert Parents([ExampleB, ExampleC], "lib.jar") == [];
    assert Children([ExampleC], "lib.jar") == [ExampleC];
    assert Children([ExampleB, ExampleC], "lib.jar") == [ExampleB, ExampleC];
  }

  lemma ExampleEdge()
    ensures EdgeDefined("lib.jar", [ExampleA, ExampleB, ExampleC])
    ensures JarEdge("lib.jar", [ExampleA, ExampleB, ExampleC]) == Some(Dependency("A", ["B", "C"]))
  {
    ExamplePartition();
    assert [ExampleB, ExampleC][1..] == [ExampleC] && [ExampleC][1..] == [];
    assert ChildRefs([ExampleC]) == ["C"];
    assert ChildRefs([ExampleB, ExampleC]) == ["B"] + ChildRefs([ExampleC]);
    assert ChildRefs([ExampleB, ExampleC]) == ["B", "C"];
  }

  /** The jar pass turns the example into the single edge A -> [B, C]. */
  lemma ContainmentExample()
    ensures var jars := JarBuckets(Grouped([ExampleA, ExampleB, ExampleC]));
      && jars.Keys == {"lib.jar"}
      && JarPassDefined(jars)
      && JarEdges(jars, ["lib.jar"]) == [Dependency("A", ["B", "C"])]
  {
    ExampleBuckets();
    ExampleEdge();
    var bucket := [ExampleA, ExampleB, ExampleC];
    var jars := JarBuckets(Grouped(bucket));
    assert ["lib.jar"][..0] == [];
    assert JarEdges(jars, ["lib.jar"]) == JarEdges(jars, []) + EdgeList(JarEdge("lib.jar", bucket));
  }
}
