/**
 * The parts of a CycloneDX document that the normalisation pass looks at:
 * components with their properties, and dependency edges between component
 * references.  Also the two small queries every pass uses: the first value of
 * a named property, and the identity key of a package URL.
 */
module BomTypes {

  datatype Option<+T> = None | Some(value: T)

  /** A name/value property attached to a component. */
  datatype Property = Property(name: string, value: string)

  /** The CycloneDX component classification ("type"). */
  datatype Classification =
    | Application | Framework | Library | Container | Platform
    | OperatingSystem | Device | DeviceDriver | Firmware | File
    | MachineLearningModel | Data
    | UnknownClassification(classification: string)

  /**
   * A component: its optional `bom-ref`, its optional package URL, its type,
   * its name, and its optional property list.
   */
  datatype Component = Component(
    bomRef: Option<string>,
    purl: Option<string>,
    kind: Classification,
    name: string,
    properties: Option<seq<Property>>)

  /** A dependency edge: `dependencyRef` depends on every entry of `dependencies`. */
  datatype Dependency = Dependency(dependencyRef: string, dependencies: seq<string>)

  /** The value of the first property in `props` named `name`. */
  function FindProperty(props: seq<Property>, name: string): Option<string> {
    if props == [] then None
    else if props[0].name == name then Some(props[0].value)
    else FindProperty(props[1..], name)
  }

  /**
   * The search finds nothing exactly when no property has the name, and
   * otherwise yields the value of the first property that has it.
   */
  lemma {:induction false} FindPropertyFirst(props: seq<Property>, name: string)
    ensures FindProperty(props, name).None? <==> forall i | 0 <= i < |props| :: props[i].name != name
    ensures FindProperty(props, name).Some? ==>
      exists i | 0 <= i < |props| ::
        props[i].name == name && props[i].value == FindProperty(props, name).value &&
        forall j | 0 <= j < i :: props[j].name != name
  {
    if props != [] && props[0].name != name {
      FindPropertyFirst(props[1..], name);
      assert forall i | 1 <= i < |props| :: props[i] == props[1..][i - 1];
      if FindProperty(props, name).Some? {
        var i :| 0 <= i < |props[1..]| && props[1..][i].name == name &&
                 props[1..][i].value == FindProperty(props, name).value &&
                 forall j | 0 <= j < i :: props[1..][j].name != name;
        assert props[i + 1] == props[1..][i];
      }
    }
  }

  /**
   * `get_property`: the value of the first property of `c` named `name`;
   * None when `c` has no property list or no property of that name.
   */
  function GetProperty(c: Component, name: string): Option<string> {
    match c.properties
    case None => None
    case Some(props) => FindProperty(props, name)
  }

  /**
   * The lookup succeeds exactly when the component has a property list with a
   * property of that name, and then yields the value of the first such property.
   */
  lemma GetPropertyFirst(c: Component, name: string)
    ensures GetProperty(c, name).Some? <==>
      c.properties.Some? &&
      exists i | 0 <= i < |c.properties.value| :: c.properties.value[i].name == name
    ensures GetProperty(c, name).Some? ==>
      exists i | 0 <= i < |c.properties.value| ::
        c.properties.value[i].name == name && c.properties.value[i].value == GetProperty(c, name).value &&
        forall j | 0 <= j < i :: c.properties.value[j].name != name
  {
    if c.properties.Some? {
      FindPropertyFirst(c.properties.value, name);
    }
  }

  /**
   * The identity key of a package URL: everything before the first `?`
   * (`split('?').next()`), so the purl's qualifiers are dropped.
   */
  function IdentityKey(purl: string): string {
    if purl == [] then []
    else if purl[0] == '?' then []
    else [purl[0]] + IdentityKey(purl[1..])
  }

  /**
   * The identity key is the longest prefix of the purl without `?`: it is a
   * prefix, holds no `?`, and is followed by `?` when it is not all of it.
   */
  lemma {:induction false} IdentityKeyIsPrefix(purl: string)
    ensures IdentityKey(purl) <= purl
    ensures '?' !in IdentityKey(purl)
    ensures |IdentityKey(purl)| < |purl| ==> purl[|IdentityKey(purl)|] == '?'
  {
    if purl != [] && purl[0] != '?' {
      IdentityKeyIsPrefix(purl[1..]);
    }
  }

  /** The identity key of a component, None when it has no purl. */
  function KeyOf(c: Component): Option<string> {
    match c.purl
    case None => None
    case Some(p) => Some(IdentityKey(p))
  }

  /** Stripping the qualifiers of a purl leaves its part before `?`. */
  lemma IdentityKeyDropsQualifiers(base: string, qualifiers: string)
    requires '?' !in base
    ensures IdentityKey(base + "?" + qualifiers) == base
  {
    var s := base + "?" + qualifiers;
    IdentityKeyIsPrefix(s);
    assert s[|base|] == '?';
    assert forall i | 0 <= i < |base| :: s[i] == base[i];
  }

  /** A purl without qualifiers is its own identity key, so keys are stable. */
  lemma IdentityKeyIdempotent(purl: string)
    ensures IdentityKey(IdentityKey(purl)) == IdentityKey(purl)
  {
    var k := IdentityKey(purl);
    IdentityKeyIsPrefix(purl);
    IdentityKeyIsPrefix(k);
    assert forall i | 0 <= i < |k| :: k[i] != '?';
  }

  /** `x` is the `bom-ref` of some component of `cs`. */
  ghost predicate IsRefOf(cs: seq<Component>, x: string) {
    exists i | 0 <= i < |cs| :: cs[i].bomRef == Some(x)
  }

  /** No two components of `cs` carry the same `bom-ref`. */
  ghost predicate UniqueRefs(cs: seq<Component>) {
    forall i, j | 0 <= i < |cs| && 0 <= j < |cs| && i != j && cs[i].bomRef.Some? ::
      cs[i].bomRef != cs[j].bomRef
  }

  /**
   * `order` lists every key of `keys` exactly once: the visiting order of a
   * hash map, which the model leaves arbitrary.
   */
  ghost predicate IsEnumeration(order: seq<string>, keys: set<string>) {
    && (forall i, j | 0 <= i < j < |order| :: order[i] != order[j])
    && (forall i | 0 <= i < |order| :: order[i] in keys)
    && (forall k | k in keys :: k in order)
  }
}
