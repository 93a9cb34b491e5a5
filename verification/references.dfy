/**
 * What `update_dependencies` computes: every edge source and every
 * dependency-list entry equal to the old reference becomes the new one.
 */
module References {
  import opened BomTypes

  /** One reference after the rewrite: `from` becomes `to`, any other stays. */
  function RewriteRef(x: string, from: string, to: string): string {
    if x == from then to else x
  }

  /** A dependency list after the rewrite, entry by entry. */
  function RewriteRefs(xs: seq<string>, from: string, to: string): seq<string> {
    if xs == [] then []
    else RewriteRefs(xs[..|xs| - 1], from, to) + [RewriteRef(xs[|xs| - 1], from, to)]
  }

  /** One edge after the rewrite: its source and every entry of its list. */
  function RewriteEdge(e: Dependency, from: string, to: string): Dependency {
    Dependency(RewriteRef(e.dependencyRef, from, to), RewriteRefs(e.dependencies, from, to))
  }

  /** The dependency list after `update_dependencies(from, to)`. */
  function RewriteAll(deps: seq<Dependency>, from: string, to: string): seq<Dependency> {
    if deps == [] then []
    else RewriteAll(deps[..|deps| - 1], from, to) + [RewriteEdge(deps[|deps| - 1], from, to)]
  }

  /** `x` occurs in some edge of `deps`, as its source or in its dependency list. */
  ghost predicate Mentions(deps: seq<Dependency>, x: string) {
    exists i | 0 <= i < |deps| :: deps[i].dependencyRef == x || x in deps[i].dependencies
  }

  /** Every reference any edge of `deps` mentions is the `bom-ref` of a component of `cs`. */
  ghost predicate RefsClosed(deps: seq<Dependency>, cs: seq<Component>) {
    forall x | Mentions(deps, x) :: IsRefOf(cs, x)
  }

  /** Entry by entry: `from` becomes `to`, everything else stays, the length is kept. */
  lemma {:induction false} RewriteRefsAt(xs: seq<string>, from: string, to: string)
    ensures |RewriteRefs(xs, from, to)| == |xs|
    ensures forall j | 0 <= j < |xs| :: RewriteRefs(xs, from, to)[j] == RewriteRef(xs[j], from, to)
  {
    if xs != [] {
      RewriteRefsAt(xs[..|xs| - 1], from, to);
    }
  }

  /**
   * Edge by edge: the number of edges and the length of each dependency list
   * are kept, entries equal to `from` become `to` and all others are unchanged.
   */
  lemma {:induction false} RewriteAllAt(deps: seq<Dependency>, from: string, to: string)
    ensures |RewriteAll(deps, from, to)| == |deps|
    ensures forall i | 0 <= i < |deps| ::
      && RewriteAll(deps, from, to)[i].dependencyRef == RewriteRef(deps[i].dependencyRef, from, to)
      && |RewriteAll(deps, from, to)[i].dependencies| == |deps[i].dependencies|
      && forall j | 0 <= j < |deps[i].dependencies| ::
           RewriteAll(deps, from, to)[i].dependencies[j] == RewriteRef(deps[i].dependencies[j], from, to)
  {
    if deps != [] {
      RewriteAllAt(deps[..|deps| - 1], from, to);
      RewriteRefsAt(deps[|deps| - 1].dependencies, from, to);
    }
  }

  /** The rewrite acts edge by edge: the i-th edge after it is the i-th edge rewritten. */
  lemma {:induction false} RewriteAllEdges(deps: seq<Dependency>, from: string, to: string)
    ensures |RewriteAll(deps, from, to)| == |deps|
    ensures forall i | 0 <= i < |deps| :: RewriteAll(deps, from, to)[i] == RewriteEdge(deps[i], from, to)
  {
    if deps != [] {
      RewriteAllEdges(deps[..|deps| - 1], from, to);
    }
  }

  /** A reference occurs in two edge lists put together exactly when it occurs in one of them. */
  lemma MentionsAppend(a: seq<Dependency>, b: seq<Dependency>, x: string)
    ensures Mentions(a + b, x) <==> Mentions(a, x) || Mentions(b, x)
  {
    if Mentions(a + b, x) {
      var i :| 0 <= i < |a + b| && ((a + b)[i].dependencyRef == x || x in (a + b)[i].dependencies);
      if i >= |a| {
        assert b[i - |a|] == (a + b)[i];
      } else {
        assert a[i] == (a + b)[i];
      }
    }
    if Mentions(b, x) {
      var i :| 0 <= i < |b| && (b[i].dependencyRef == x || x in b[i].dependencies);
      assert (a + b)[|a| + i] == b[i];
    }
    if Mentions(a, x) {
      var i :| 0 <= i < |a| && (a[i].dependencyRef == x || x in a[i].dependencies);
      assert (a + b)[i] == a[i];
    }
  }

  /** Where a reference occurs after the rewrite, something it came from occurred before. */
  lemma RewriteMentionsAfter(deps: seq<Dependency>, from: string, to: string, x: string)
    requires Mentions(RewriteAll(deps, from, to), x)
    ensures (x != from && Mentions(deps, x)) || (x == to && (Mentions(deps, from) || Mentions(deps, to)))
  {
    var r := RewriteAll(deps, from, to);
    RewriteAllAt(deps, from, to);
    var i :| 0 <= i < |r| && (r[i].dependencyRef == x || x in r[i].dependencies);
    var y;
    if r[i].dependencyRef == x {
      y := deps[i].dependencyRef;
    } else {
      var j :| 0 <= j < |r[i].dependencies| && r[i].dependencies[j] == x;
      y := deps[i].dependencies[j];
      assert y in deps[i].dependencies;
    }
    assert Mentions(deps, y) && x == RewriteRef(y, from, to);
  }

  /** Rewriting keeps the position of `y` and puts RewriteRef(y) there. */
  lemma RewriteMentionsBefore(deps: seq<Dependency>, from: string, to: string, y: string)
    requires Mentions(deps, y)
    ensures Mentions(RewriteAll(deps, from, to), RewriteRef(y, from, to))
  {
    var r := RewriteAll(deps, from, to);
    RewriteAllAt(deps, from, to);
    var i :| 0 <= i < |deps| && (deps[i].dependencyRef == y || y in deps[i].dependencies);
    if deps[i].dependencyRef != y {
      var j :| 0 <= j < |deps[i].dependencies| && deps[i].dependencies[j] == y;
      assert r[i].dependencies[j] in r[i].dependencies;
    }
  }

  /**
   * After the rewrite a reference occurs exactly when it is `to` and something
   * was rewritten to it, or it is not `from` and occurred before.  In
   * particular (when `from != to`) `from` no longer occurs.
   */
  lemma RewriteMentions(deps: seq<Dependency>, from: string, to: string, x: string)
    ensures Mentions(RewriteAll(deps, from, to), x) <==>
      (x != from && Mentions(deps, x)) || (x == to && (Mentions(deps, from) || Mentions(deps, to)))
  {
    if Mentions(RewriteAll(deps, from, to), x) {
      RewriteMentionsAfter(deps, from, to, x);
    }
    if x != from && Mentions(deps, x) {
      RewriteMentionsBefore(deps, from, to, x);
    }
    if x == to && Mentions(deps, from) {
      RewriteMentionsBefore(deps, from, to, from);
    }
    if x == to && Mentions(deps, to) {
      RewriteMentionsBefore(deps, from, to, to);
    }
  }

  /** With `from != to`, no edge mentions `from` after the rewrite. */
  lemma RewriteRemoves(deps: seq<Dependency>, from: string, to: string)
    requires from != to
    ensures !Mentions(RewriteAll(deps, from, to), from)
  {
    RewriteMentions(deps, from, to, from);
  }

  /** Rewriting a reference to itself changes nothing. */
  lemma {:induction false} RewriteToSelf(deps: seq<Dependency>, x: string)
    ensures RewriteAll(deps, x, x) == deps
  {
    RewriteAllAt(deps, x, x);
    forall i | 0 <= i < |deps| ensures RewriteAll(deps, x, x)[i] == deps[i] {
      assert RewriteAll(deps, x, x)[i].dependencies == deps[i].dependencies;
    }
  }

  /** A second identical rewrite changes nothing more. */
  lemma RewriteIdempotent(deps: seq<Dependency>, from: string, to: string)
    ensures RewriteAll(RewriteAll(deps, from, to), from, to) == RewriteAll(deps, from, to)
  {
    var once := RewriteAll(deps, from, to);
    RewriteAllAt(deps, from, to);
    RewriteAllAt(once, from, to);
    forall i | 0 <= i < |once| ensures RewriteAll(once, from, to)[i] == once[i] {
      assert RewriteAll(once, from, to)[i].dependencies == once[i].dependencies;
    }
  }
}
