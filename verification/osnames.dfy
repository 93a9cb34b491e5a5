/**
 * The operating-system name fix-up that runs after merging: a component of
 * type operating-system named "rhel" is renamed "redhat", since downstream
 * scanners do not recognise the former.
 */
module OperatingSystems {
  import opened BomTypes

  const LegacyRedHatName := "rhel"
  const RedHatName := "redhat"

  /** The fix-up applies to this component. */
  predicate NeedsRename(c: Component) {
    c.kind == OperatingSystem && c.name == LegacyRedHatName
  }

  /** One component after the fix-up. */
  function RenameOs(c: Component): Component {
    if NeedsRename(c) then c.(name := RedHatName) else c
  }

  /** The component list after the fix-up, component by component. */
  function FixOsNames(cs: seq<Component>): seq<Component> {
    if cs == [] then []
    else FixOsNames(cs[..|cs| - 1]) + [RenameOs(cs[|cs| - 1])]
  }

  /** Position by position, the fix-up is applied to each component. */
  lemma {:induction false} FixOsNamesAt(cs: seq<Component>)
    ensures |FixOsNames(cs)| == |cs|
    ensures forall i | 0 <= i < |cs| :: FixOsNames(cs)[i] == RenameOs(cs[i])
  {
    if cs != [] {
      FixOsNamesAt(cs[..|cs| - 1]);
    }
  }

  /**
   * Only the name changes, and only for operating-system components named
   * exactly "rhel", which become "redhat"; the list keeps its length and order.
   */
  lemma FixOsNamesOnlyRenames(cs: seq<Component>)
    ensures |FixOsNames(cs)| == |cs|
    ensures forall i | 0 <= i < |cs| ::
      && FixOsNames(cs)[i] == cs[i].(name := FixOsNames(cs)[i].name)
      && (FixOsNames(cs)[i].name != cs[i].name <==> NeedsRename(cs[i]))
      && (NeedsRename(cs[i]) ==> FixOsNames(cs)[i].name == RedHatName)
  {
    FixOsNamesAt(cs);
  }

  /** After the fix-up no operating-system component is named "rhel". */
  lemma NoLegacyNameRemains(cs: seq<Component>)
    ensures forall i | 0 <= i < |FixOsNames(cs)| :: !NeedsRename(FixOsNames(cs)[i])
  {
    FixOsNamesAt(cs);
  }

  /** A second fix-up changes nothing. */
  lemma FixOsNamesIdempotent(cs: seq<Component>)
    ensures FixOsNames(FixOsNames(cs)) == FixOsNames(cs)
  {
    FixOsNamesAt(cs);
    FixOsNamesAt(FixOsNames(cs));
  }

  /** The fix-up keeps every reference and every identity key where it was. */
  lemma FixOsNamesKeepsRefs(cs: seq<Component>)
    ensures |FixOsNames(cs)| == |cs|
    ensures forall x :: IsRefOf(FixOsNames(cs), x) <==> IsRefOf(cs, x)
    ensures forall i | 0 <= i < |cs| :: KeyOf(FixOsNames(cs)[i]) == KeyOf(cs[i])
    ensures UniqueRefs(cs) ==> UniqueRefs(FixOsNames(cs))
  {
    FixOsNamesAt(cs);
  }
}
