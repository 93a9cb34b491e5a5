/**
 * The normalisation pass over a parsed document: group the components,
 * reconstruct the jar containment edges, merge duplicate components, and fix
 * the operating-system names.  The document is a `Bom` object whose component
 * list and dependency list the passes update in place.
 */
module Normalization {
  import opened BomTypes
  import opened Grouping
  import opened References
  import opened JarDependencies
  import opened Merging
  import opened OperatingSystems

  /** The two lists of a document that the pass reads and writes. */
  datatype Document = Document(components: seq<Component>, dependencies: seq<Dependency>)

  /** The canonical map built from the sbom cataloger's buckets visited in `sbomOrder`. */
  function CanonicalOf(g: Index, sbomOrder: seq<string>): map<string, Component>
    requires forall i | 0 <= i < |sbomOrder| :: sbomOrder[i] in SbomBuckets(g)
  {
    CanonicalMap(Flatten(SbomBuckets(g), sbomOrder))
  }

  /**
   * The pass runs without panicking, with `jarOrder` and `sbomOrder` the orders
   * in which the two hash maps happen to be visited.
   */
  ghost predicate NormalizeDefined(cs: seq<Component>, jarOrder: seq<string>, sbomOrder: seq<string>) {
    var g := Grouped(cs);
    && IsEnumeration(jarOrder, JarBuckets(g).Keys)
    && JarPassDefined(JarBuckets(g))
    && IsEnumeration(sbomOrder, SbomBuckets(g).Keys)
    && (SbomCataloger in g ==> MergeDefined(cs, CanonicalOf(g, sbomOrder)))
  }

  /** The document after the whole pass. */
  function Normalized(doc: Document, jarOrder: seq<string>, sbomOrder: seq<string>): Document
    requires NormalizeDefined(doc.components, jarOrder, sbomOrder)
  {
    var cs := doc.components;
    var g := Grouped(cs);
    var withJars := doc.dependencies + JarEdges(JarBuckets(g), jarOrder);
    if SbomCataloger in g then
      var canon := CanonicalOf(g, sbomOrder);
      Document(FixOsNames(Kept(cs, canon)), Merge(cs, canon, withJars).deps)
    else
      Document(FixOsNames(cs), withJars)
  }

  /** Every component of a jar bucket is a component of the list. */
  lemma JarBucketInList(cs: seq<Component>, path: string)
    requires path in JarBuckets(Grouped(cs))
    ensures forall c | c in JarBuckets(Grouped(cs))[path] :: c in cs
  {
    GroupedIsBuckets(cs);
    assert JarBuckets(Grouped(cs))[path] == Lookup(Grouped(cs), JavaArchiveCataloger, path);
    BucketMembers(cs, JavaArchiveCataloger, path);
  }

  /** A reference of a component of `a` is a reference of a component of `b` when `a` lies within `b`. */
  lemma RefOfWithin(a: seq<Component>, b: seq<Component>, x: string)
    requires forall c | c in a :: c in b
    requires IsRefOf(a, x)
    ensures IsRefOf(b, x)
  {
    var i :| 0 <= i < |a| && a[i].bomRef == Some(x);
    assert a[i] in a;
    var j :| 0 <= j < |b| && b[j] == a[i];
  }

  /** The edge of one jar bucket only mentions references of components of the list. */
  lemma JarEdgeClosed(cs: seq<Component>, path: string, e: Dependency, x: string)
    requires path in JarBuckets(Grouped(cs))
    requires JarPassDefined(JarBuckets(Grouped(cs)))
    requires JarEdge(path, JarBuckets(Grouped(cs))[path]) == Some(e)
    requires e.dependencyRef == x || x in e.dependencies
    ensures IsRefOf(cs, x)
  {
    var bucket := JarBuckets(Grouped(cs))[path];
    JarEdgeRefs(path, bucket);
    JarBucketInList(cs, path);
    RefOfWithin(bucket, cs, x);
  }

  /** The jar edges only mention references of components of the list they were built from. */
  lemma JarEdgesClosed(cs: seq<Component>, order: seq<string>)
    requires forall i | 0 <= i < |order| :: order[i] in JarBuckets(Grouped(cs))
    requires JarPassDefined(JarBuckets(Grouped(cs)))
    ensures RefsClosed(JarEdges(JarBuckets(Grouped(cs)), order), cs)
  {
    var jars := JarBuckets(Grouped(cs));
    var edges := JarEdges(jars, order);
    JarEdgesFrom(jars, order);
    forall x | Mentions(edges, x) ensures IsRefOf(cs, x) {
      var e :| 0 <= e < |edges| && (edges[e].dependencyRef == x || x in edges[e].dependencies);
      assert edges[e] in edges;
      var i :| 0 <= i < |order| && JarEdge(order[i], jars[order[i]]) == Some(edges[e]);
      JarEdgeClosed(cs, order[i], edges[e], x);
    }
  }

  /**
   * When the input's edges only mention references of its components, so do
   * the output's, and they only mention components that are still there.
   */
  lemma NormalizeKeepsEdgesClosed(doc: Document, jarOrder: seq<string>, sbomOrder: seq<string>)
    requires NormalizeDefined(doc.components, jarOrder, sbomOrder)
    requires UniqueRefs(doc.components) && RefsClosed(doc.dependencies, doc.components)
    ensures var out := Normalized(doc, jarOrder, sbomOrder);
      RefsClosed(out.dependencies, out.components)
  {
    var cs := doc.components;
    var g := Grouped(cs);
    var jarEdges := JarEdges(JarBuckets(g), jarOrder);
    var withJars := doc.dependencies + jarEdges;
    JarEdgesClosed(cs, jarOrder);
    forall x | Mentions(withJars, x) ensures IsRefOf(cs, x) {
      MentionsAppend(doc.dependencies, jarEdges, x);
    }
    var out := Normalized(doc, jarOrder, sbomOrder);
    if SbomCataloger in g {
      var canon := CanonicalOf(g, sbomOrder);
      CanonicalFromIndex(cs, sbomOrder);
      MergeKeepsEdgesConsistent(cs, canon, withJars);
      FixOsNamesKeepsRefs(Kept(cs, canon));
    } else {
      FixOsNamesKeepsRefs(cs);
    }
  }

  /**
   * With an sbom cataloger group and unique references, no edge of the output
   * mentions a dropped component, and no two output components share an
   * identity key.
   */
  lemma NormalizeMergesDuplicates(doc: Document, jarOrder: seq<string>, sbomOrder: seq<string>)
    requires NormalizeDefined(doc.components, jarOrder, sbomOrder)
    requires UniqueRefs(doc.components) && SbomCataloger in Grouped(doc.components)
    ensures var cs, out := doc.components, Normalized(doc, jarOrder, sbomOrder);
      var canon := CanonicalOf(Grouped(cs), sbomOrder);
      && (forall i | 0 <= i < |cs| && !Survives(cs, canon, i) :: !Mentions(out.dependencies, cs[i].bomRef.value))
      && (forall a, b | 0 <= a < b < |out.components| && KeyOf(out.components[a]).Some? ::
            KeyOf(out.components[a]) != KeyOf(out.components[b]))
  {
    var cs := doc.components;
    var g := Grouped(cs);
    var canon := CanonicalOf(g, sbomOrder);
    var withJars := doc.dependencies + JarEdges(JarBuckets(g), jarOrder);
    CanonicalFromIndex(cs, sbomOrder);
    MergeKeepsEdgesConsistent(cs, canon, withJars);
    KeptKeysDistinct(cs, canon);
    var kept := Kept(cs, canon);
    FixOsNamesKeepsRefs(kept);
    var out := FixOsNames(kept);
    forall a, b | 0 <= a < b < |out| && KeyOf(out[a]).Some? ensures KeyOf(out[a]) != KeyOf(out[b]) {
      assert KeyOf(out[a]) == KeyOf(kept[a]) && KeyOf(out[b]) == KeyOf(kept[b]);
      assert KeyOf(kept[a]) != KeyOf(kept[b]);
    }
  }

  /** A parsed document; an absent component or dependency list is an empty one. */
  class Bom {
    var components: seq<Component>
    var dependencies: seq<Dependency>

    function Contents(): Document
      reads this
    {
      Document(components, dependencies)
    }

    constructor (components: seq<Component>, dependencies: seq<Dependency>)
      ensures Contents() == Document(components, dependencies)
    {
      this.components := components;
      this.dependencies := dependencies;
    }

    /** `update_dependencies`: rewrite `from` to `to` in every edge, in place. */
    method UpdateDependencies(from: string, to: string)
      modifies this
      ensures dependencies == RewriteAll(old(dependencies), from, to)
      ensures components == old(components)
    {
      ghost var before := dependencies;
      var i := 0;
      while i < |dependencies|
        invariant 0 <= i <= |dependencies| == |before|
        invariant components == old(components)
        invariant forall k | 0 <= k < i :: dependencies[k] == RewriteEdge(before[k], from, to)
        invariant forall k | i <= k < |dependencies| :: dependencies[k] == before[k]
      {
        var dependency := dependencies[i];
        if dependency.dependencyRef == from {
          dependency := dependency.(dependencyRef := to);
        }
        var entries := dependency.dependencies;
        var j := 0;
        while j < |entries|
          invariant 0 <= j <= |entries| == |before[i].dependencies|
          invariant forall m | 0 <= m < j :: entries[m] == RewriteRef(before[i].dependencies[m], from, to)
          invariant forall m | j <= m < |entries| :: entries[m] == before[i].dependencies[m]
        {
          if entries[j] == from {
            entries := entries[j := to];
          }
          j := j + 1;
        }
        RewriteRefsAt(before[i].dependencies, from, to);
        dependency := dependency.(dependencies := entries);
        dependencies := dependencies[i := dependency];
        i := i + 1;
      }
      RewriteAllEdges(before, from, to);
    }

    /**
     * `process_jar_dependencies`: visit the java-archive buckets in `order` and
     * append one edge per bucket with a self-entry and something else in it.
     */
    method ProcessJarDependencies(grouped: Index, order: seq<string>)
      requires IsEnumeration(order, JarBuckets(grouped).Keys)
      requires JarPassDefined(JarBuckets(grouped))
      modifies this
      ensures dependencies == old(dependencies) + JarEdges(JarBuckets(grouped), order)
      ensures components == old(components)
    {
      var jars := JarBuckets(grouped);
      for i := 0 to |order|
        invariant dependencies == old(dependencies) + JarEdges(jars, order[..i])
        invariant components == old(components)
      {
        var jarFilePath := order[i];
        var jarComponents := jars[jarFilePath];
        assert EdgeDefined(jarFilePath, jarComponents);
        assert order[..i + 1][..i] == order[..i];
        assert JarEdges(jars, order[..i + 1]) ==
          JarEdges(jars, order[..i]) + EdgeList(JarEdge(jarFilePath, jarComponents));
        var parent, children := Parents(jarComponents, jarFilePath), Children(jarComponents, jarFilePath);
        if parent != [] {
          if children != [] {
            var dependency := Dependency(parent[0].bomRef.value, ChildRefs(children));
            assert EdgeList(JarEdge(jarFilePath, jarComponents)) == [dependency];
            dependencies := dependencies + [dependency];
          } else {
            assert EdgeList(JarEdge(jarFilePath, jarComponents)) == [];
          }
        } else {
          assert EdgeList(JarEdge(jarFilePath, jarComponents)) == [];
        }
      }
      assert order[..|order|] == order;
    }

    /**
     * `merge_duplicate_components`: when the sbom cataloger found anything,
     * build the canonical map from its buckets visited in `sbomOrder`, then
     * filter the component list, rewriting the edges of every dropped
     * component to its survivor.
     */
    method MergeDuplicateComponents(grouped: Index, sbomOrder: seq<string>)
      requires IsEnumeration(sbomOrder, SbomBuckets(grouped).Keys)
      requires SbomCataloger in grouped ==> MergeDefined(components, CanonicalOf(grouped, sbomOrder))
      modifies this
      ensures SbomCataloger !in grouped ==> Contents() == old(Contents())
      ensures SbomCataloger in grouped ==>
        var canon := CanonicalOf(grouped, sbomOrder);
        && components == Kept(old(components), canon)
        && dependencies == Merge(old(components), canon, old(dependencies)).deps
    {
      if SbomCataloger in grouped {
        var sboms := grouped[SbomCataloger];
        var purlMap := BuildCanonicalMap(sboms, sbomOrder);
        var cs := components;
        var kept: seq<Component> := [];
        var mergedNonSbomComponents: map<string, string> := map[];
        for i := 0 to |cs|
          invariant components == cs
          invariant MergeState(kept, mergedNonSbomComponents, dependencies) == MergeUpTo(cs, purlMap, old(dependencies), i)
        {
          var component := cs[i];
          var retain := true;
          if component.purl.Some? {
            var componentPurl := IdentityKey(component.purl.value);
            var componentBomRef := component.bomRef.value;
            if componentPurl in purlMap {
              var sbomComponentBomRef := purlMap[componentPurl].bomRef.value;
              UpdateDependencies(componentBomRef, sbomComponentBomRef);
              retain := componentBomRef == sbomComponentBomRef;
            } else if componentPurl in mergedNonSbomComponents {
              UpdateDependencies(componentBomRef, mergedNonSbomComponents[componentPurl]);
              retain := false;
            } else {
              mergedNonSbomComponents := mergedNonSbomComponents[componentPurl := componentBomRef];
            }
          }
          if retain {
            kept := kept + [component];
          }
        }
        MergeKeepsSurvivors(cs, purlMap, old(dependencies), |cs|);
        components := kept;
      }
    }

    /** The rhel -> redhat loop: rename, in place, every operating-system component named "rhel". */
    method FixOperatingSystemNames()
      modifies this
      ensures components == FixOsNames(old(components))
      ensures dependencies == old(dependencies)
    {
      FixOsNamesAt(components);
      for i := 0 to |components|
        invariant |components| == |old(components)|
        invariant dependencies == old(dependencies)
        invariant forall k | 0 <= k < i :: components[k] == RenameOs(old(components)[k])
        invariant forall k | i <= k < |components| :: components[k] == old(components)[k]
      {
        var component := components[i];
        if component.kind == OperatingSystem && component.name == LegacyRedHatName {
          components := components[i := component.(name := RedHatName)];
        }
      }
    }

    /**
     * The pass after parsing: group, add the jar edges, merge duplicates, fix
     * the operating-system names.  Merging reads the index built before the
     * jar pass.
     */
    method Normalize(jarOrder: seq<string>, sbomOrder: seq<string>)
      requires NormalizeDefined(components, jarOrder, sbomOrder)
      modifies this
      ensures Contents() == Normalized(old(Contents()), jarOrder, sbomOrder)
    {
      var groupedComponents := GroupComponents(components);
      ProcessJarDependencies(groupedComponents, jarOrder);
      MergeDuplicateComponents(groupedComponents, sbomOrder);
      FixOperatingSystemNames();
    }
  }
}
