/**
 * What `merge_duplicate_components` computes.  Components of the
 * sbom-cataloger are the canonical records: every component whose identity
 * key (purl before `?`) names a canonical record is folded into it; other
 * duplicates are folded into the first component seen with that key.  Every
 * fold rewrites the edges from the dropped reference to the survivor's.
 */
module Merging {
  import opened BomTypes
  import opened Grouping
  import opened References

  const SbomCataloger := "sbom-cataloger"

  /** The buckets of the sbom cataloger, keyed by location path. */
  function SbomBuckets(g: Index): map<string, seq<Component>> {
    if SbomCataloger in g then g[SbomCataloger] else map[]
  }

  /** `values().flatten()`: the buckets visited in `order`, concatenated. */
  function Flatten(buckets: map<string, seq<Component>>, order: seq<string>): seq<Component>
    requires forall i | 0 <= i < |order| :: order[i] in buckets
  {
    if order == [] then []
    else Flatten(buckets, order[..|order| - 1]) + buckets[order[|order| - 1]]
  }

  /** The purl map: each purl-carrying component is inserted under its key in turn. */
  function CanonicalMap(flat: seq<Component>): map<string, Component> {
    if flat == [] then map[]
    else
      var m, c := CanonicalMap(flat[..|flat| - 1]), flat[|flat| - 1];
      match KeyOf(c)
      case None => m
      case Some(k) => m[k := c]
  }

  /** Inserting the last component of `flat` into the map of the others. */
  lemma CanonicalMapStep(flat: seq<Component>)
    requires flat != []
    ensures var m, c := CanonicalMap(flat[..|flat| - 1]), flat[|flat| - 1];
      CanonicalMap(flat) == if KeyOf(c).Some? then m[KeyOf(c).value := c] else m
  {
  }

  /** The purl map has an entry for exactly the keys that occur in `flat`. */
  lemma {:induction false} CanonicalMapDomain(flat: seq<Component>)
    ensures forall k :: k in CanonicalMap(flat) <==> exists i | 0 <= i < |flat| :: KeyOf(flat[i]) == Some(k)
  {
    if flat != [] {
      var init, c := flat[..|flat| - 1], flat[|flat| - 1];
      CanonicalMapDomain(init);
      CanonicalMapStep(flat);
      assert forall i | 0 <= i < |init| :: init[i] == flat[i];
      forall k | exists i | 0 <= i < |flat| :: KeyOf(flat[i]) == Some(k)
        ensures k in CanonicalMap(flat)
      {
        var i :| 0 <= i < |flat| && KeyOf(flat[i]) == Some(k);
        if i < |init| {
          assert KeyOf(init[i]) == Some(k);
        }
      }
    }
  }

  /** The last component of `flat` with key `k`, the entry of `k` in the purl map. */
  ghost predicate IsLastWithKey(flat: seq<Component>, i: int, k: string) {
    && 0 <= i < |flat|
    && KeyOf(flat[i]) == Some(k)
    && forall j | i < j < |flat| :: KeyOf(flat[j]) != Some(k)
  }

  lemma {:induction false} CanonicalMapLastWinsAt(flat: seq<Component>, k: string)
    requires k in CanonicalMap(flat)
    ensures exists i :: IsLastWithKey(flat, i, k) && CanonicalMap(flat)[k] == flat[i]
  {
    var init, c := flat[..|flat| - 1], flat[|flat| - 1];
    CanonicalMapStep(flat);
    if KeyOf(c) == Some(k) {
      assert IsLastWithKey(flat, |flat| - 1, k);
    } else {
      CanonicalMapLastWinsAt(init, k);
      var i :| IsLastWithKey(init, i, k) && CanonicalMap(init)[k] == init[i];
      assert forall j | 0 <= j < |init| :: init[j] == flat[j];
      assert IsLastWithKey(flat, i, k);
    }
  }

  /**
   * Each entry of the purl map is the LAST component of `flat` with that key:
   * a later insert overwrites an earlier one.
   */
  lemma CanonicalMapLastWins(flat: seq<Component>)
    ensures forall k | k in CanonicalMap(flat) ::
      exists i :: IsLastWithKey(flat, i, k) && CanonicalMap(flat)[k] == flat[i]
  {
    forall k | k in CanonicalMap(flat)
      ensures exists i :: IsLastWithKey(flat, i, k) && CanonicalMap(flat)[k] == flat[i]
    {
      CanonicalMapLastWinsAt(flat, k);
    }
  }

  /** A component is in the flattened buckets exactly when it is in one of the visited buckets. */
  lemma {:induction false} FlattenMembers(buckets: map<string, seq<Component>>, order: seq<string>)
    requires forall i | 0 <= i < |order| :: order[i] in buckets
    ensures forall c :: c in Flatten(buckets, order) <==> exists i | 0 <= i < |order| :: c in buckets[order[i]]
  {
    if order != [] {
      var init := order[..|order| - 1];
      FlattenMembers(buckets, init);
      assert forall i | 0 <= i < |init| :: init[i] == order[i];
    }
  }

  /**
   * The purl map built from the grouped components holds only components of
   * the list that the sbom cataloger found at some location path, each filed
   * under its own identity key.
   */
  lemma CanonicalFromIndex(cs: seq<Component>, order: seq<string>)
    requires forall i | 0 <= i < |order| :: order[i] in SbomBuckets(Grouped(cs))
    ensures var canon := CanonicalMap(Flatten(SbomBuckets(Grouped(cs)), order));
      && CanonInList(cs, canon)
      && forall k | k in canon ::
           GetProperty(canon[k], FoundByProperty) == Some(SbomCataloger) &&
           GetProperty(canon[k], LocationPathProperty).Some?
  {
    var buckets := SbomBuckets(Grouped(cs));
    var flat := Flatten(buckets, order);
    var canon := CanonicalMap(flat);
    CanonicalMapLastWins(flat);
    FlattenMembers(buckets, order);
    GroupedIsBuckets(cs);
    forall k | k in canon
      ensures canon[k] in cs && KeyOf(canon[k]) == Some(k)
      ensures GetProperty(canon[k], FoundByProperty) == Some(SbomCataloger)
      ensures GetProperty(canon[k], LocationPathProperty).Some?
    {
      var i :| IsLastWithKey(flat, i, k) && canon[k] == flat[i];
      assert flat[i] in flat;
      var j :| 0 <= j < |order| && flat[i] in buckets[order[j]];
      assert buckets[order[j]] == Lookup(Grouped(cs), SbomCataloger, order[j]);
      BucketMembers(cs, SbomCataloger, order[j]);
    }
  }

  /** `purl_map` construction: one insert per purl-carrying canonical component. */
  method BuildCanonicalMap(sboms: map<string, seq<Component>>, order: seq<string>)
    returns (purlMap: map<string, Component>)
    requires forall i | 0 <= i < |order| :: order[i] in sboms
    ensures purlMap == CanonicalMap(Flatten(sboms, order))
    ensures var flat := Flatten(sboms, order);
      forall k :: k in purlMap <==> exists i | 0 <= i < |flat| :: KeyOf(flat[i]) == Some(k)
  {
    var flat := Flatten(sboms, order);
    purlMap := map[];
    for i := 0 to |flat|
      invariant purlMap == CanonicalMap(flat[..i])
    {
      var sbomComponent := flat[i];
      if sbomComponent.purl.Some? {
        var key := IdentityKey(sbomComponent.purl.value);
        purlMap := purlMap[key := sbomComponent];
      }
      assert flat[..i + 1][..i] == flat[..i];
    }
    assert flat[..|flat|] == flat;
    CanonicalMapDomain(flat);
  }

  /**
   * The `unwrap`s of the retain closure succeed: every purl-carrying component
   * has a reference, and so does the canonical component its key names.
   */
  predicate MergeDefined(cs: seq<Component>, canon: map<string, Component>) {
    forall i | 0 <= i < |cs| && cs[i].purl.Some? ::
      && cs[i].bomRef.Some?
      && (IdentityKey(cs[i].purl.value) in canon ==> canon[IdentityKey(cs[i].purl.value)].bomRef.Some?)
  }

  /** Every canonical component is a component of `cs`, filed under its own key. */
  ghost predicate CanonInList(cs: seq<Component>, canon: map<string, Component>) {
    forall k | k in canon :: canon[k] in cs && KeyOf(canon[k]) == Some(k)
  }

  /** The state of the retain pass: the retained components so far, the first-seen map, the edges. */
  datatype MergeState = MergeState(kept: seq<Component>, firstSeen: map<string, string>, deps: seq<Dependency>)

  /** One call of the retain closure, on component `c`. */
  function Step(s: MergeState, canon: map<string, Component>, c: Component): MergeState
    requires c.purl.Some? ==> c.bomRef.Some?
    requires c.purl.Some? && IdentityKey(c.purl.value) in canon ==> canon[IdentityKey(c.purl.value)].bomRef.Some?
  {
    match c.purl
    case None => s.(kept := s.kept + [c])
    case Some(purl) =>
      var key, ref := IdentityKey(purl), c.bomRef.value;
      if key in canon then
        var canonRef := canon[key].bomRef.value;
        var deps := RewriteAll(s.deps, ref, canonRef);
        if ref == canonRef then MergeState(s.kept + [c], s.firstSeen, deps)
        else MergeState(s.kept, s.firstSeen, deps)
      else if key in s.firstSeen then
        MergeState(s.kept, s.firstSeen, RewriteAll(s.deps, ref, s.firstSeen[key]))
      else
        MergeState(s.kept + [c], s.firstSeen[key := ref], s.deps)
  }

  /** The state after the retain closure has seen the first `n` components. */
  function MergeUpTo(cs: seq<Component>, canon: map<string, Component>, deps: seq<Dependency>, n: nat): MergeState
    requires MergeDefined(cs, canon) && n <= |cs|
  {
    if n == 0 then MergeState([], map[], deps)
    else Step(MergeUpTo(cs, canon, deps, n - 1), canon, cs[n - 1])
  }

  /** The whole retain pass. */
  function Merge(cs: seq<Component>, canon: map<string, Component>, deps: seq<Dependency>): MergeState
    requires MergeDefined(cs, canon)
  {
    MergeUpTo(cs, canon, deps, |cs|)
  }

  /** The index of the first component of `cs` with key `k`; |cs| when there is none. */
  function FirstKeyIndex(cs: seq<Component>, k: string): nat {
    if cs == [] then 0
    else if KeyOf(cs[0]) == Some(k) then 0
    else 1 + FirstKeyIndex(cs[1..], k)
  }

  /** FirstKeyIndex finds the first position with the key, or runs off the end when none has it. */
  lemma {:induction false} FirstKeyIndexFirst(cs: seq<Component>, k: string)
    ensures FirstKeyIndex(cs, k) <= |cs|
    ensures FirstKeyIndex(cs, k) < |cs| ==> KeyOf(cs[FirstKeyIndex(cs, k)]) == Some(k)
    ensures forall j | 0 <= j < FirstKeyIndex(cs, k) :: KeyOf(cs[j]) != Some(k)
  {
    if cs != [] && KeyOf(cs[0]) != Some(k) {
      FirstKeyIndexFirst(cs[1..], k);
      assert forall j | 1 <= j < |cs| :: cs[j] == cs[1..][j - 1];
    }
  }

  /**
   * The declarative retain decision for component `i`: kept when it has no
   * purl; when its key names a canonical component, kept exactly when it is
   * that component (same reference); otherwise kept exactly when it is the
   * first component with its key.
   */
  predicate Survives(cs: seq<Component>, canon: map<string, Component>, i: nat)
    requires i < |cs|
  {
    match cs[i].purl
    case None => true
    case Some(purl) =>
      var k := IdentityKey(purl);
      if k in canon then cs[i].bomRef == canon[k].bomRef else FirstKeyIndex(cs, k) == i
  }

  /** The components among the first `n` that survive, in their original order. */
  function KeptUpTo(cs: seq<Component>, canon: map<string, Component>, n: nat): seq<Component>
    requires n <= |cs|
  {
    if n == 0 then []
    else KeptUpTo(cs, canon, n - 1) + if Survives(cs, canon, n - 1) then [cs[n - 1]] else []
  }

  /** The surviving components, in their original order. */
  function Kept(cs: seq<Component>, canon: map<string, Component>): seq<Component> {
    KeptUpTo(cs, canon, |cs|)
  }

  /**
   * The reference a purl-carrying component is merged into: the canonical
   * component's reference when its key names one, else the reference of the
   * first component with its key (its own when it survives).
   */
  function SurvivorRef(cs: seq<Component>, canon: map<string, Component>, i: nat): string
    requires MergeDefined(cs, canon) && i < |cs| && cs[i].purl.Some?
  {
    var k := IdentityKey(cs[i].purl.value);
    if k in canon then canon[k].bomRef.value
    else
      FirstKeyIndexFirst(cs, k);
      FirstKeyIndexAt(cs, i, k);
      var f := FirstKeyIndex(cs, k);
      cs[f].bomRef.value
  }

  /** What reference `x` has become once the first `n` components are processed. */
  ghost function Resolve(cs: seq<Component>, canon: map<string, Component>, n: nat, x: string): string
    requires MergeDefined(cs, canon) && n <= |cs|
  {
    if exists i | 0 <= i < n :: cs[i].purl.Some? && cs[i].bomRef == Some(x) then
      var i :| 0 <= i < n && cs[i].purl.Some? && cs[i].bomRef == Some(x);
      SurvivorRef(cs, canon, i)
    else x
  }

  /** `after` is `before` with every reference `x` replaced by Resolve(.., x). */
  ghost predicate ResolvedEdges(cs: seq<Component>, canon: map<string, Component>, n: nat,
                                before: seq<Dependency>, after: seq<Dependency>)
    requires MergeDefined(cs, canon) && n <= |cs|
  {
    && |after| == |before|
    && forall e | 0 <= e < |before| ::
      && after[e].dependencyRef == Resolve(cs, canon, n, before[e].dependencyRef)
      && |after[e].dependencies| == |before[e].dependencies|
      && forall j | 0 <= j < |before[e].dependencies| ::
           after[e].dependencies[j] == Resolve(cs, canon, n, before[e].dependencies[j])
  }

  /** The first-seen map after `n` components: the first reference of each non-canonical key met. */
  ghost predicate FirstSeenAfter(cs: seq<Component>, canon: map<string, Component>, n: nat, firstSeen: map<string, string>) {
    && (forall k {:trigger k in firstSeen} :: k in firstSeen <==> k !in canon && FirstKeyIndex(cs, k) < n)
    && (forall k | k in firstSeen :: FirstKeyIndex(cs, k) < |cs| && cs[FirstKeyIndex(cs, k)].bomRef == Some(firstSeen[k]))
  }

  /** No key but the component's own has its first occurrence at that component. */
  lemma FirstKeyIndexAt(cs: seq<Component>, i: nat, k: string)
    requires i < |cs|
    ensures FirstKeyIndex(cs, k) == i ==> KeyOf(cs[i]) == Some(k)
    ensures KeyOf(cs[i]) == Some(k) ==> FirstKeyIndex(cs, k) <= i
  {
    FirstKeyIndexFirst(cs, k);
  }

  /** The retain decision of one call of the closure agrees with Survives. */
  lemma StepKept(cs: seq<Component>, canon: map<string, Component>, s: MergeState, n: nat)
    requires MergeDefined(cs, canon) && 0 < n <= |cs|
    requires FirstSeenAfter(cs, canon, n - 1, s.firstSeen)
    ensures Step(s, canon, cs[n - 1]).kept == s.kept + if Survives(cs, canon, n - 1) then [cs[n - 1]] else []
  {
    var c := cs[n - 1];
    if c.purl.Some? {
      var k := IdentityKey(c.purl.value);
      if k !in canon {
        FirstKeyIndexAt(cs, n - 1, k);
        if k in s.firstSeen {
          assert FirstKeyIndex(cs, k) < n - 1;
        } else {
          assert FirstKeyIndex(cs, k) == n - 1;
        }
      }
    }
  }

  /** One call of the closure keeps the first-seen map right for key `k`. */
  lemma StepFirstSeenAt(cs: seq<Component>, canon: map<string, Component>, s: MergeState, n: nat, k: string)
    requires MergeDefined(cs, canon) && 0 < n <= |cs|
    requires FirstSeenAfter(cs, canon, n - 1, s.firstSeen)
    ensures var fs := Step(s, canon, cs[n - 1]).firstSeen;
      && (k in fs <==> k !in canon && FirstKeyIndex(cs, k) < n)
      && (k in fs ==> FirstKeyIndex(cs, k) < |cs| && cs[FirstKeyIndex(cs, k)].bomRef == Some(fs[k]))
  {
    var c := cs[n - 1];
    FirstKeyIndexAt(cs, n - 1, k);
    assert k in s.firstSeen <==> k !in canon && FirstKeyIndex(cs, k) < n - 1;
    if c.purl.Some? && IdentityKey(c.purl.value) == k && k !in canon && k !in s.firstSeen {
      assert FirstKeyIndex(cs, k) == n - 1;
    }
  }

  /** One call of the retain closure keeps the pass in step with the declarative decisions. */
  lemma StepKeepsSurvivors(cs: seq<Component>, canon: map<string, Component>, s: MergeState, n: nat)
    requires MergeDefined(cs, canon) && 0 < n <= |cs|
    requires s.kept == KeptUpTo(cs, canon, n - 1) && FirstSeenAfter(cs, canon, n - 1, s.firstSeen)
    ensures Step(s, canon, cs[n - 1]).kept == KeptUpTo(cs, canon, n)
    ensures FirstSeenAfter(cs, canon, n, Step(s, canon, cs[n - 1]).firstSeen)
  {
    StepKept(cs, canon, s, n);
    forall k ensures var fs := Step(s, canon, cs[n - 1]).firstSeen;
      && (k in fs <==> k !in canon && FirstKeyIndex(cs, k) < n)
      && (k in fs ==> FirstKeyIndex(cs, k) < |cs| && cs[FirstKeyIndex(cs, k)].bomRef == Some(fs[k]))
    {
      StepFirstSeenAt(cs, canon, s, n, k);
    }
  }

  /**
   * The retain pass computes the declarative decisions: the retained list is
   * KeptUpTo, and the first-seen map holds, for every non-canonical key met so
   * far, the reference of the first component with that key.
   */
  lemma {:induction false} MergeKeepsSurvivors(cs: seq<Component>, canon: map<string, Component>,
                                               deps: seq<Dependency>, n: nat)
    requires MergeDefined(cs, canon) && n <= |cs|
    ensures MergeUpTo(cs, canon, deps, n).kept == KeptUpTo(cs, canon, n)
    ensures FirstSeenAfter(cs, canon, n, MergeUpTo(cs, canon, deps, n).firstSeen)
  {
    if n > 0 {
      MergeKeepsSurvivors(cs, canon, deps, n - 1);
      StepKeepsSurvivors(cs, canon, MergeUpTo(cs, canon, deps, n - 1), n);
    }
  }

  /** The reference a component is merged into belongs to a surviving component. */
  lemma SurvivorRefSurvives(cs: seq<Component>, canon: map<string, Component>, i: nat)
    requires MergeDefined(cs, canon) && CanonInList(cs, canon)
    requires i < |cs| && cs[i].purl.Some?
    ensures exists s | 0 <= s < |cs| :: Survives(cs, canon, s) && cs[s].bomRef == Some(SurvivorRef(cs, canon, i))
  {
    var k := IdentityKey(cs[i].purl.value);
    if k in canon {
      var s :| 0 <= s < |cs| && cs[s] == canon[k];
      assert Survives(cs, canon, s);
    } else {
      FirstKeyIndexFirst(cs, k);
      FirstKeyIndexAt(cs, i, k);
      var s := FirstKeyIndex(cs, k);
      assert Survives(cs, canon, s);
    }
  }

  /** A surviving purl-carrying component is merged into itself. */
  lemma SurvivorRefOfSurvivor(cs: seq<Component>, canon: map<string, Component>, i: nat)
    requires MergeDefined(cs, canon)
    requires i < |cs| && cs[i].purl.Some? && Survives(cs, canon, i)
    ensures cs[i].bomRef == Some(SurvivorRef(cs, canon, i))
  {
  }

  /** One more component processed: its rewrite turns Resolve(n - 1, ..) into Resolve(n, ..). */
  lemma ResolveStep(cs: seq<Component>, canon: map<string, Component>, n: nat, x: string)
    requires MergeDefined(cs, canon) && CanonInList(cs, canon) && UniqueRefs(cs)
    requires 0 < n <= |cs|
    ensures cs[n - 1].purl.None? ==> Resolve(cs, canon, n, x) == Resolve(cs, canon, n - 1, x)
    ensures cs[n - 1].purl.Some? ==>
      Resolve(cs, canon, n, x) ==
        RewriteRef(Resolve(cs, canon, n - 1, x), cs[n - 1].bomRef.value, SurvivorRef(cs, canon, n - 1))
  {
    var c := cs[n - 1];
    if c.purl.Some? {
      var r, t := c.bomRef.value, SurvivorRef(cs, canon, n - 1);
      var y := Resolve(cs, canon, n - 1, x);
      if x == r {
        assert !exists i | 0 <= i < n - 1 :: cs[i].purl.Some? && cs[i].bomRef == Some(x);
        assert y == x;
      } else if exists i | 0 <= i < n - 1 :: cs[i].purl.Some? && cs[i].bomRef == Some(x) {
        var i :| 0 <= i < n - 1 && cs[i].purl.Some? && cs[i].bomRef == Some(x);
        assert y == SurvivorRef(cs, canon, i);
        SurvivorRefSurvives(cs, canon, i);
        var s :| 0 <= s < |cs| && Survives(cs, canon, s) && cs[s].bomRef == Some(y);
        if y == r {
          assert s == n - 1;
          SurvivorRefOfSurvivor(cs, canon, n - 1);
        }
      }
    }
  }

  /** The rewrite one call of the closure performs: the component's reference to its survivor's. */
  lemma StepRewrites(cs: seq<Component>, canon: map<string, Component>, s: MergeState, n: nat)
    requires MergeDefined(cs, canon) && 0 < n <= |cs|
    requires FirstSeenAfter(cs, canon, n - 1, s.firstSeen)
    ensures cs[n - 1].purl.None? ==> Step(s, canon, cs[n - 1]).deps == s.deps
    ensures cs[n - 1].purl.Some? ==>
      Step(s, canon, cs[n - 1]).deps == RewriteAll(s.deps, cs[n - 1].bomRef.value, SurvivorRef(cs, canon, n - 1))
  {
    var c := cs[n - 1];
    if c.purl.Some? {
      var k := IdentityKey(c.purl.value);
      if k !in canon {
        FirstKeyIndexAt(cs, n - 1, k);
        if k !in s.firstSeen {
          assert FirstKeyIndex(cs, k) == n - 1;
          RewriteToSelf(s.deps, c.bomRef.value);
        }
      }
    }
  }

  /** Rewriting `r` to `t` in edges resolved up to `n - 1` resolves them up to `n`. */
  lemma ResolvedEdgesStep(cs: seq<Component>, canon: map<string, Component>, n: nat,
                          before: seq<Dependency>, prev: seq<Dependency>, r: string, t: string)
    requires MergeDefined(cs, canon) && 0 < n <= |cs|
    requires ResolvedEdges(cs, canon, n - 1, before, prev)
    requires forall x :: Resolve(cs, canon, n, x) == RewriteRef(Resolve(cs, canon, n - 1, x), r, t)
    ensures ResolvedEdges(cs, canon, n, before, RewriteAll(prev, r, t))
  {
    RewriteAllAt(prev, r, t);
  }

  /**
   * Edges resolved up to `n - 1` are resolved up to `n` when component `n - 1`
   * changes no resolution (as one without a purl does, by ResolveStepNoPurl).
   */
  lemma ResolvedEdgesSkip(cs: seq<Component>, canon: map<string, Component>, n: nat,
                          before: seq<Dependency>, prev: seq<Dependency>)
    requires MergeDefined(cs, canon) && 0 < n <= |cs|
    requires ResolvedEdges(cs, canon, n - 1, before, prev)
    requires forall x :: Resolve(cs, canon, n, x) == Resolve(cs, canon, n - 1, x)
    ensures ResolvedEdges(cs, canon, n, before, prev)
  {
  }

  /** ResolveStep for every reference at once, for a component with a purl. */
  lemma ResolveStepPurl(cs: seq<Component>, canon: map<string, Component>, n: nat)
    requires MergeDefined(cs, canon) && CanonInList(cs, canon) && UniqueRefs(cs)
    requires 0 < n <= |cs| && cs[n - 1].purl.Some?
    ensures forall x ::
      Resolve(cs, canon, n, x) == RewriteRef(Resolve(cs, canon, n - 1, x), cs[n - 1].bomRef.value, SurvivorRef(cs, canon, n - 1))
  {
    forall x ensures Resolve(cs, canon, n, x) ==
      RewriteRef(Resolve(cs, canon, n - 1, x), cs[n - 1].bomRef.value, SurvivorRef(cs, canon, n - 1))
    {
      ResolveStep(cs, canon, n, x);
    }
  }

  /** ResolveStep for every reference at once, for a component without a purl. */
  lemma ResolveStepNoPurl(cs: seq<Component>, canon: map<string, Component>, n: nat)
    requires MergeDefined(cs, canon) && CanonInList(cs, canon) && UniqueRefs(cs)
    requires 0 < n <= |cs| && cs[n - 1].purl.None?
    ensures forall x :: Resolve(cs, canon, n, x) == Resolve(cs, canon, n - 1, x)
  {
    forall x ensures Resolve(cs, canon, n, x) == Resolve(cs, canon, n - 1, x) {
      ResolveStep(cs, canon, n, x);
    }
  }

  /** One call of the closure keeps the edges resolved. */
  lemma StepResolvesEdges(cs: seq<Component>, canon: map<string, Component>, deps: seq<Dependency>,
                          prev: MergeState, n: nat)
    requires MergeDefined(cs, canon) && CanonInList(cs, canon) && UniqueRefs(cs)
    requires 0 < n <= |cs|
    requires ResolvedEdges(cs, canon, n - 1, deps, prev.deps) && FirstSeenAfter(cs, canon, n - 1, prev.firstSeen)
    ensures ResolvedEdges(cs, canon, n, deps, Step(prev, canon, cs[n - 1]).deps)
  {
    StepRewrites(cs, canon, prev, n);
    if cs[n - 1].purl.Some? {
      ResolveStepPurl(cs, canon, n);
      ResolvedEdgesStep(cs, canon, n, deps, prev.deps, cs[n - 1].bomRef.value, SurvivorRef(cs, canon, n - 1));
    } else {
      ResolveStepNoPurl(cs, canon, n);
      ResolvedEdgesSkip(cs, canon, n, deps, prev.deps);
    }
  }

  /**
   * After the first `n` components the edges are the original edges with every
   * reference resolved: the reference of a purl-carrying component that was
   * processed is replaced by the reference it was merged into, and every other
   * reference is untouched.
   */
  lemma {:induction false} MergeResolvesEdges(cs: seq<Component>, canon: map<string, Component>,
                                              deps: seq<Dependency>, n: nat)
    requires MergeDefined(cs, canon) && CanonInList(cs, canon) && UniqueRefs(cs)
    requires n <= |cs|
    ensures ResolvedEdges(cs, canon, n, deps, MergeUpTo(cs, canon, deps, n).deps)
  {
    if n == 0 {
      assert forall x :: Resolve(cs, canon, 0, x) == x;
    } else {
      MergeResolvesEdges(cs, canon, deps, n - 1);
      MergeKeepsSurvivors(cs, canon, deps, n - 1);
      StepResolvesEdges(cs, canon, deps, MergeUpTo(cs, canon, deps, n - 1), n);
    }
  }

  /** A component is retained exactly when some position holding it survives. */
  lemma {:induction false} KeptMembers(cs: seq<Component>, canon: map<string, Component>, n: nat)
    requires n <= |cs|
    ensures forall x :: x in KeptUpTo(cs, canon, n) <==> exists i | 0 <= i < n :: Survives(cs, canon, i) && cs[i] == x
    ensures multiset(KeptUpTo(cs, canon, n)) <= multiset(cs[..n])
  {
    if n > 0 {
      KeptMembers(cs, canon, n - 1);
      assert cs[..n] == cs[..n - 1] + [cs[n - 1]];
    }
  }

  /** The positions among the first `n` whose component survives, ascending. */
  function SurvivorIndices(cs: seq<Component>, canon: map<string, Component>, n: nat): seq<nat>
    requires n <= |cs|
  {
    if n == 0 then []
    else SurvivorIndices(cs, canon, n - 1) + if Survives(cs, canon, n - 1) then [n - 1] else []
  }

  /** The surviving positions are exactly the positions SurvivorIndices lists. */
  lemma {:induction false} SurvivorIndicesExact(cs: seq<Component>, canon: map<string, Component>, n: nat)
    requires n <= |cs|
    ensures forall k | 0 <= k < |SurvivorIndices(cs, canon, n)| ::
      SurvivorIndices(cs, canon, n)[k] < n && Survives(cs, canon, SurvivorIndices(cs, canon, n)[k])
    ensures forall i | 0 <= i < n && Survives(cs, canon, i) :: i in SurvivorIndices(cs, canon, n)
  {
    if n > 0 {
      SurvivorIndicesExact(cs, canon, n - 1);
      var pi := SurvivorIndices(cs, canon, n - 1);
      if Survives(cs, canon, n - 1) {
        assert SurvivorIndices(cs, canon, n) == pi + [n - 1];
      } else {
        assert SurvivorIndices(cs, canon, n) == pi;
      }
    }
  }

  /**
   * The retained list is a subsequence of the input in its original order: the
   * k-th retained component is the component at the k-th surviving position,
   * and the positions strictly increase.
   */
  lemma {:induction false} KeptInOrder(cs: seq<Component>, canon: map<string, Component>, n: nat)
    requires n <= |cs|
    ensures var idx, kept := SurvivorIndices(cs, canon, n), KeptUpTo(cs, canon, n);
      && |idx| == |kept|
      && (forall k | 0 <= k < |idx| :: idx[k] < n && kept[k] == cs[idx[k]])
      && (forall k, l | 0 <= k < l < |idx| :: idx[k] < idx[l])
  {
    if n > 0 {
      KeptInOrder(cs, canon, n - 1);
      var pi, pk := SurvivorIndices(cs, canon, n - 1), KeptUpTo(cs, canon, n - 1);
      if Survives(cs, canon, n - 1) {
        assert SurvivorIndices(cs, canon, n) == pi + [n - 1];
        assert KeptUpTo(cs, canon, n) == pk + [cs[n - 1]];
      } else {
        assert SurvivorIndices(cs, canon, n) == pi;
        assert KeptUpTo(cs, canon, n) == pk;
      }
    }
  }

  /** Components without a purl are always retained. */
  lemma NoPurlRetained(cs: seq<Component>, canon: map<string, Component>, i: nat)
    requires i < |cs| && cs[i].purl.None?
    ensures cs[i] in Kept(cs, canon)
  {
    KeptMembers(cs, canon, |cs|);
  }

  /** Two surviving purl-carrying components never share an identity key. */
  lemma SurvivorKeysDistinct(cs: seq<Component>, canon: map<string, Component>, i: nat, j: nat)
    requires MergeDefined(cs, canon) && UniqueRefs(cs)
    requires i < j < |cs| && Survives(cs, canon, i) && Survives(cs, canon, j) && KeyOf(cs[i]).Some?
    ensures KeyOf(cs[i]) != KeyOf(cs[j])
  {
    var k := KeyOf(cs[i]).value;
    if k in canon {
      assert cs[i].bomRef == canon[k].bomRef && cs[i].bomRef.Some?;
      assert cs[j].bomRef != cs[i].bomRef;
    } else {
      assert FirstKeyIndex(cs, k) == i;
    }
  }

  /**
   * With unique references, no two retained components share an identity key.
   */
  lemma KeptKeysDistinct(cs: seq<Component>, canon: map<string, Component>)
    requires MergeDefined(cs, canon) && UniqueRefs(cs)
    ensures var kept := Kept(cs, canon);
      forall a, b | 0 <= a < b < |kept| && KeyOf(kept[a]).Some? :: KeyOf(kept[a]) != KeyOf(kept[b])
  {
    var kept, idx := Kept(cs, canon), SurvivorIndices(cs, canon, |cs|);
    KeptInOrder(cs, canon, |cs|);
    SurvivorIndicesExact(cs, canon, |cs|);
    forall a, b | 0 <= a < b < |kept| && KeyOf(kept[a]).Some? ensures KeyOf(kept[a]) != KeyOf(kept[b]) {
      SurvivorKeysDistinct(cs, canon, idx[a], idx[b]);
    }
  }

  /**
   * Canonical preference: a canonical component of the list survives, and any
   * retained component whose key names a canonical component carries that
   * component's reference.
   */
  lemma CanonicalPreferred(cs: seq<Component>, canon: map<string, Component>)
    requires CanonInList(cs, canon)
    ensures forall k | k in canon :: canon[k] in Kept(cs, canon)
    ensures forall x, k | x in Kept(cs, canon) && KeyOf(x) == Some(k) && k in canon :: x.bomRef == canon[k].bomRef
  {
    KeptMembers(cs, canon, |cs|);
    forall k | k in canon ensures canon[k] in Kept(cs, canon) {
      var s :| 0 <= s < |cs| && cs[s] == canon[k];
      assert Survives(cs, canon, s);
    }
  }

  /** Without a canonical match only the first component with a key is retained. */
  lemma FirstSeenPreferred(cs: seq<Component>, canon: map<string, Component>, k: string)
    requires k !in canon
    ensures forall i | 0 <= i < |cs| && KeyOf(cs[i]) == Some(k) ::
      Survives(cs, canon, i) <==> forall j | 0 <= j < i :: KeyOf(cs[j]) != Some(k)
  {
    FirstKeyIndexFirst(cs, k);
    forall i | 0 <= i < |cs| && KeyOf(cs[i]) == Some(k)
      ensures FirstKeyIndex(cs, k) == i <==> forall j | 0 <= j < i :: KeyOf(cs[j]) != Some(k)
    {
      FirstKeyIndexAt(cs, i, k);
    }
  }

  /** Every reference the resolved edges mention is the resolution of one the original edges mention. */
  lemma MentionsResolved(cs: seq<Component>, canon: map<string, Component>, n: nat,
                         before: seq<Dependency>, after: seq<Dependency>, y: string)
    requires MergeDefined(cs, canon) && n <= |cs|
    requires ResolvedEdges(cs, canon, n, before, after) && Mentions(after, y)
    ensures exists x :: Mentions(before, x) && y == Resolve(cs, canon, n, x)
  {
    var e :| 0 <= e < |after| && (after[e].dependencyRef == y || y in after[e].dependencies);
    if after[e].dependencyRef != y {
      var j :| 0 <= j < |after[e].dependencies| && after[e].dependencies[j] == y;
      assert before[e].dependencies[j] in before[e].dependencies;
    } else {
      assert Mentions(before, before[e].dependencyRef);
    }
  }

  /** Once every component is processed, no reference resolves to a dropped component's. */
  lemma ResolvedNotDropped(cs: seq<Component>, canon: map<string, Component>, x: string, i: nat)
    requires MergeDefined(cs, canon) && CanonInList(cs, canon) && UniqueRefs(cs)
    requires i < |cs| && !Survives(cs, canon, i)
    ensures Resolve(cs, canon, |cs|, x) != cs[i].bomRef.value
  {
    var n := |cs|;
    if exists j | 0 <= j < n :: cs[j].purl.Some? && cs[j].bomRef == Some(x) {
      var j :| 0 <= j < n && cs[j].purl.Some? && cs[j].bomRef == Some(x);
      assert Resolve(cs, canon, n, x) == SurvivorRef(cs, canon, j);
      SurvivorRefSurvives(cs, canon, j);
      var s :| 0 <= s < |cs| && Survives(cs, canon, s) && cs[s].bomRef == Some(SurvivorRef(cs, canon, j));
      assert s != i;
    } else {
      assert cs[i].purl.Some?;
    }
  }

  /** Once every component is processed, a component's reference resolves to a survivor's. */
  lemma ResolvedSurvivor(cs: seq<Component>, canon: map<string, Component>, x: string)
    requires MergeDefined(cs, canon) && CanonInList(cs, canon) && UniqueRefs(cs)
    requires IsRefOf(cs, x)
    ensures exists s | 0 <= s < |cs| :: Survives(cs, canon, s) && cs[s].bomRef == Some(Resolve(cs, canon, |cs|, x))
  {
    var n := |cs|;
    var j :| 0 <= j < n && cs[j].bomRef == Some(x);
    if exists i | 0 <= i < n :: cs[i].purl.Some? && cs[i].bomRef == Some(x) {
      var i :| 0 <= i < n && cs[i].purl.Some? && cs[i].bomRef == Some(x);
      assert Resolve(cs, canon, n, x) == SurvivorRef(cs, canon, i);
      SurvivorRefSurvives(cs, canon, i);
    } else {
      assert Survives(cs, canon, j);
    }
  }

  /**
   * No edge mentions a dropped component after the merge, and, when every
   * reference the edges mentioned belonged to a component, every reference
   * they mention afterwards belongs to a retained one.
   */
  lemma MergeKeepsEdgesConsistent(cs: seq<Component>, canon: map<string, Component>, deps: seq<Dependency>)
    requires MergeDefined(cs, canon) && CanonInList(cs, canon) && UniqueRefs(cs)
    ensures forall i | 0 <= i < |cs| && !Survives(cs, canon, i) ::
      !Mentions(Merge(cs, canon, deps).deps, cs[i].bomRef.value)
    ensures RefsClosed(deps, cs) ==> RefsClosed(Merge(cs, canon, deps).deps, Kept(cs, canon))
  {
    var after := Merge(cs, canon, deps).deps;
    var n := |cs|;
    MergeResolvesEdges(cs, canon, deps, n);
    forall i | 0 <= i < n && !Survives(cs, canon, i)
      ensures !Mentions(after, cs[i].bomRef.value)
    {
      forall y | Mentions(after, y) ensures y != cs[i].bomRef.value {
        MentionsResolved(cs, canon, n, deps, after, y);
        var x :| Mentions(deps, x) && y == Resolve(cs, canon, n, x);
        ResolvedNotDropped(cs, canon, x, i);
      }
    }
    if RefsClosed(deps, cs) {
      KeptMembers(cs, canon, n);
      forall y | Mentions(after, y) ensures IsRefOf(Kept(cs, canon), y) {
        MentionsResolved(cs, canon, n, deps, after, y);
        var x :| Mentions(deps, x) && y == Resolve(cs, canon, n, x);
        ResolvedSurvivor(cs, canon, x);
        var s :| 0 <= s < |cs| && Survives(cs, canon, s) && cs[s].bomRef == Some(y);
        assert cs[s] in Kept(cs, canon);
        var k :| 0 <= k < |Kept(cs, canon)| && Kept(cs, canon)[k] == cs[s];
      }
    }
  }

  /** Every retained component survives a second pass with the same canonical map. */
  lemma KeptAllSurvive(cs: seq<Component>, canon: map<string, Component>)
    requires MergeDefined(cs, canon) && UniqueRefs(cs)
    ensures forall i | 0 <= i < |Kept(cs, canon)| :: Survives(Kept(cs, canon), canon, i)
  {
    var ks, idx := Kept(cs, canon), SurvivorIndices(cs, canon, |cs|);
    KeptInOrder(cs, canon, |cs|);
    SurvivorIndicesExact(cs, canon, |cs|);
    KeptKeysDistinct(cs, canon);
    forall i | 0 <= i < |ks| ensures Survives(ks, canon, i) {
      assert ks[i] == cs[idx[i]] && Survives(cs, canon, idx[i]);
      if ks[i].purl.Some? {
        var k := IdentityKey(ks[i].purl.value);
        if k !in canon {
          FirstSeenPreferred(ks, canon, k);
          assert forall j | 0 <= j < i :: KeyOf(ks[j]) != Some(k);
        }
      }
    }
  }

  /** A list every component of which survives is retained whole. */
  lemma {:induction false} AllSurviveKept(cs: seq<Component>, canon: map<string, Component>, n: nat)
    requires n <= |cs|
    requires forall i | 0 <= i < |cs| :: Survives(cs, canon, i)
    ensures KeptUpTo(cs, canon, n) == cs[..n]
  {
    if n > 0 {
      AllSurviveKept(cs, canon, n - 1);
      assert cs[..n] == cs[..n - 1] + [cs[n - 1]];
    }
  }

  /** The retained list inherits the pass's preconditions, unique references and canonical entries. */
  lemma KeptKeepsPreconditions(cs: seq<Component>, canon: map<string, Component>)
    requires MergeDefined(cs, canon) && UniqueRefs(cs) && CanonInList(cs, canon)
    ensures var ks := Kept(cs, canon);
      MergeDefined(ks, canon) && UniqueRefs(ks) && CanonInList(ks, canon)
  {
    var ks, idx := Kept(cs, canon), SurvivorIndices(cs, canon, |cs|);
    KeptInOrder(cs, canon, |cs|);
    CanonicalPreferred(cs, canon);
    forall i, j | 0 <= i < |ks| && 0 <= j < |ks| && i != j && ks[i].bomRef.Some?
      ensures ks[i].bomRef != ks[j].bomRef
    {
      assert idx[i] != idx[j];
    }
  }

  /**
   * Merging is idempotent for a fixed canonical map: a second pass over the
   * retained list keeps all of it and leaves any edges unchanged.
   */
  lemma MergeIdempotent(cs: seq<Component>, canon: map<string, Component>, deps: seq<Dependency>)
    requires MergeDefined(cs, canon) && UniqueRefs(cs) && CanonInList(cs, canon)
    ensures MergeDefined(Kept(cs, canon), canon)
    ensures Kept(Kept(cs, canon), canon) == Kept(cs, canon)
    ensures Merge(Kept(cs, canon), canon, deps).deps == deps
  {
    var ks := Kept(cs, canon);
    KeptKeepsPreconditions(cs, canon);
    KeptAllSurvive(cs, canon);
    AllSurviveKept(ks, canon, |ks|);
    assert ks[..|ks|] == ks;
    MergeResolvesEdges(ks, canon, deps, |ks|);
    var after := Merge(ks, canon, deps).deps;
    forall x ensures Resolve(ks, canon, |ks|, x) == x {
      if exists i | 0 <= i < |ks| :: ks[i].purl.Some? && ks[i].bomRef == Some(x) {
        var i :| 0 <= i < |ks| && ks[i].purl.Some? && ks[i].bomRef == Some(x);
        SurvivorRefOfSurvivor(ks, canon, i);
      }
    }
    forall e | 0 <= e < |deps| ensures after[e] == deps[e] {
      assert after[e].dependencies == deps[e].dependencies;
    }
  }
}
