# mergebom normalisation core in Dafny

`mergebom` reads a CycloneDX software bill of materials produced by syft,
normalises it and writes it back out. This project models the normalisation
pass that runs between parsing and writing, all of it in `src/main.rs`:

- `get_property`: the first property of a component with a given name.
- `group_components`: a two-level index, from the cataloger that found a
  component ("foundBy") to the location path to the components found there.
- `process_jar_dependencies`: for every java-archive bucket that holds the
  archive's own entry and at least one other component, one containment edge
  from the first such entry to the references of the others, in bucket order.
  Entries without a reference are skipped; other buckets add nothing.
- `merge_duplicate_components`: components that share an identity key (the
  purl before its first `?`) are folded into the sbom-cataloger component with
  that key, or into the first component seen with that key. The survivor's
  reference replaces the dropped component's in every edge.
- `update_dependencies`: rewrites one reference to another in every edge.
- The loop in `main` that renames operating-system components called `rhel`
  to `redhat`.

Modules, one per concern:

- `BomTypes` (`bomtypes.dfy`): components, properties, edges, the property
  lookup and the identity key.
- `Grouping` (`grouping.dfy`): the index and the loop that builds it.
- `JarDependencies` (`jars.dfy`): the partition of a jar bucket and the edge
  it yields.
- `References` (`references.dfy`): what `update_dependencies` computes.
- `Merging` (`merging.dfy`): the canonical ("purl") map, and the `retain`
  closure as a step function over a state made of the retained list, the
  first-seen map and the edges. It also gives a declarative account of which
  components survive and what each reference resolves to.
- `OperatingSystems` (`osnames.dfy`): the name fix-up.
- `Normalization` (`normalize.dfy`): the document as a class `Bom`. Its
  methods update the `components` and `dependencies` fields in place and are
  proved against the functions above.

The two hash maps whose iteration order matters are visited in an order given
as a parameter (`jarOrder`, `sbomOrder`). The only constraint on it is that it
lists every key exactly once (`IsEnumeration`). This affects the order in
which jar edges are appended, and which sbom component wins when two of them
share a key: the last one inserted (`CanonicalMapLastWins`).

Two consequences of the code as written:

- Without any `sbom-cataloger` group, `merge_duplicate_components` does
  nothing (src/main.rs:92), so there is no first-seen deduplication then
  (`Bom.MergeDuplicateComponents`, first ensures).
- The canonical map holds only sbom-cataloger components that also have a
  location-path property, because it is built from the grouped index
  (`CanonicalFromIndex`).

## Model

| member | source | states |
|---|---|---|
| BomTypes.FindProperty | src/main.rs:166-172 | defines the search over a property list: the value of the first property with the name, None when there is none |
| BomTypes.GetProperty | src/main.rs:164-174 | defines `get_property`: None without a property list, otherwise the search over that list |
| BomTypes.IdentityKey | src/main.rs:96 | defines the identity key of a purl: its characters up to the first `?` |
| BomTypes.KeyOf | src/main.rs:104-105 | defines a component's identity key: None without a purl, otherwise the key of its purl |
| BomTypes.FindPropertyFirst | src/main.rs:166-172 | the search yields None exactly when no property has the name, otherwise the value of the first property with that name |
| BomTypes.GetPropertyFirst | src/main.rs:164-174 | `get_property` is None exactly when the component has no property list or no property of that name; otherwise it is the value of the first match |
| BomTypes.IdentityKeyIsPrefix | src/main.rs:105 | the identity key is the longest `?`-free prefix of the purl: a prefix, free of `?`, and followed by `?` when shorter than the purl |
| BomTypes.IdentityKeyDropsQualifiers | src/main.rs:96 | the key of `base?qualifiers` is `base` when `base` has no `?` |
| BomTypes.IdentityKeyIdempotent | src/main.rs:105 | the key of a key is itself |
| Grouping.GroupKey | src/main.rs:44-45 | defines the bucket a component is filed under: its first foundBy and first location path, None when either is missing |
| Grouping.Lookup | src/main.rs:46-50 | defines the bucket (f, p) of an index, empty when the index has none |
| Grouping.Insert | src/main.rs:46-51 | defines one loop iteration: the component is appended to its bucket, which is created if missing; a component without a key leaves the index unchanged |
| Grouping.Grouped | src/main.rs:40-57 | defines the index the loop builds, inserting the components in document order |
| Grouping.Bucket | src/main.rs:40-57 | defines the reference bucket: the components of the list filed under (f, p), in document order |
| Grouping.InsertLookup | src/main.rs:46-51 | one insert extends exactly the component's own bucket by that component and keeps buckets non-empty |
| Grouping.GroupedIsBuckets | src/main.rs:40-57 | the built index's bucket (f, p) is the list of components keyed (f, p), in document order; no bucket is empty |
| Grouping.BucketMembers | src/main.rs:44-51 | a component is in bucket (f, p) iff it is in the list, its first foundBy is f and its first location path is p |
| Grouping.UngroupedComponents | src/main.rs:44-45 | a component lacking foundBy or location path is in no bucket |
| Grouping.InsertIntoEmpty | src/main.rs:46-51 | inserting into the empty index creates the one bucket holding that component |
| Grouping.InsertIntoSingle | src/main.rs:46-51 | inserting into a one-bucket index with the same key appends to that bucket |
| Grouping.SingleBucket | src/main.rs:40-57 | components that share one key form a single bucket, in order |
| Grouping.GroupComponents | src/main.rs:40-57 | the loop builds the index `Grouped`, whose buckets are the lists of components keyed (f, p), in order |
| JarDependencies.JarBuckets | src/main.rs:63 | defines the java-archive-cataloger's buckets, none when that cataloger is absent |
| JarDependencies.IsSelfEntry | src/main.rs:66 | defines the partition test: the entry's virtual path is the bucket's path |
| JarDependencies.Parents | src/main.rs:65-67 | defines the first half of the partition: the self-entries, in bucket order |
| JarDependencies.Children | src/main.rs:65-67 | defines the second half of the partition: the other entries, in bucket order |
| JarDependencies.ChildRefs | src/main.rs:73-76 | defines the `filter_map`: the present references of the children, in order |
| JarDependencies.JarEdge | src/main.rs:69-77 | defines a bucket's edge: first parent -> children's references, when there is a parent and a child |
| JarDependencies.JarEdges | src/main.rs:63-85 | defines the edges appended when the buckets are visited in the given order |
| JarDependencies.PartitionSplits | src/main.rs:65-67 | the partition puts every component on exactly one side (sizes and multisets add up): self-entries are parents, the rest children |
| JarDependencies.FirstParent | src/main.rs:69 | there is a parent iff some entry is a self-entry, and the first parent is the first self-entry in bucket order |
| JarDependencies.ChildRefsMembers | src/main.rs:73-76 | the child list has at most one reference per child, exactly one each when all have references, and holds precisely the children's present references |
| JarDependencies.PartitionAppend | src/main.rs:65-67 | both sides of the partition keep bucket order: the partition of a concatenation is the concatenation of the partitions |
| JarDependencies.ChildRefsAppend | src/main.rs:73-76 | the reference list follows the children's order with one entry per child that has a reference: it distributes over concatenation, and one child contributes exactly its own reference, if any |
| JarDependencies.JarEdgePresent | src/main.rs:69-70 | a bucket yields an edge iff it holds a self-entry and a non-self-entry |
| JarDependencies.JarEdgeSource | src/main.rs:71-72 | the edge's source is the reference of the first self-entry in bucket order |
| JarDependencies.JarEdgeTargets | src/main.rs:73-76 | a reference is a target iff it is the reference of a non-self-entry of the bucket |
| JarDependencies.JarEdgeRefs | src/main.rs:71-76 | every reference the edge mentions belongs to a component of the bucket |
| JarDependencies.JarEdgesFrom | src/main.rs:63-85 | an edge is appended iff it is the edge of a visited bucket |
| JarDependencies.JarEdgesCountIn | src/main.rs:64-84 | for a repeat-free order, the number of appended edges is the number of qualifying visited buckets |
| JarDependencies.JarEdgesExact | src/main.rs:63-85 | for any visiting order of the jar buckets: one edge per qualifying bucket, and nothing else |
| JarDependencies.ExampleKeys | src/main.rs:44-45 | in the containment example, A, B and C are all filed under (java-archive-cataloger, lib.jar), and only A is a self-entry |
| JarDependencies.ExampleBuckets | src/main.rs:40-57 | the example groups into the single jar bucket `lib.jar` = [A, B, C] |
| JarDependencies.ExamplePartition | src/main.rs:65-67 | the example partitions into parents [A] and children [B, C] |
| JarDependencies.ExampleEdge | src/main.rs:69-77 | the example bucket yields the edge A -> [B, C] |
| JarDependencies.ContainmentExample | src/main.rs:59-86 | the jar pass on the example appends exactly the edge A -> [B, C] |
| References.RewriteRef | src/main.rs:148-153 | defines the rewrite of one reference: `from` becomes `to`, any other stays |
| References.RewriteRefs | src/main.rs:151-155 | defines the rewrite of a dependency list, entry by entry |
| References.RewriteEdge | src/main.rs:147-156 | defines the rewrite of one edge: its source and every entry of its list |
| References.RewriteAll | src/main.rs:141-158 | defines what `update_dependencies` leaves: every edge rewritten, in order |
| References.RewriteRefsAt | src/main.rs:151-155 | entry by entry, `from` becomes `to`, others stay, length kept |
| References.RewriteAllAt | src/main.rs:146-157 | edge count and list lengths kept; every source and entry equal to `from` becomes `to`, all others unchanged |
| References.RewriteAllEdges | src/main.rs:147-156 | the rewrite acts on each edge separately |
| References.RewriteMentionsAfter | src/main.rs:148-155 | a reference present after the rewrite is the image of one present before |
| References.RewriteMentionsBefore | src/main.rs:148-155 | every reference present before has its image present after |
| References.RewriteMentions | src/main.rs:141-158 | after the rewrite x occurs iff (x != from and x occurred) or (x == to and from or to occurred) |
| References.RewriteRemoves | src/main.rs:141-158 | with from != to, `from` no longer occurs in any edge |
| References.RewriteToSelf | src/main.rs:141-158 | rewriting a reference to itself changes nothing |
| References.RewriteIdempotent | src/main.rs:141-158 | a second identical rewrite changes nothing more |
| Merging.SbomBuckets | src/main.rs:92 | defines the sbom-cataloger's buckets, none when that cataloger is absent |
| Merging.Flatten | src/main.rs:94 | defines `values().flatten()`: the buckets visited in the given order, concatenated |
| Merging.CanonicalMap | src/main.rs:93-99 | defines the purl map: each purl-carrying component inserted under its key in turn, a later insert replacing an earlier one |
| Merging.CanonicalMapDomain | src/main.rs:94-98 | the purl map has an entry exactly for the keys of the flattened sbom components |
| Merging.CanonicalMapLastWinsAt | src/main.rs:97 | the entry for a key is the last flattened component with that key |
| Merging.CanonicalMapLastWins | src/main.rs:94-98 | every entry is the last component inserted under its key (last insert wins) |
| Merging.FlattenMembers | src/main.rs:94 | a component is in `values().flatten()` iff it is in one of the visited buckets |
| Merging.CanonicalFromIndex | src/main.rs:92-94 | every canonical component is a component of the list, filed under its own key, found by sbom-cataloger and carrying a location path |
| Merging.BuildCanonicalMap | src/main.rs:93-99 | the loop builds `CanonicalMap` of the flattened buckets, whose keys are exactly the keys occurring there |
| Merging.Step | src/main.rs:103-136 | defines one call of the `retain` closure on a component: the retained list, the first-seen map and the edges after it |
| Merging.MergeUpTo | src/main.rs:101-136 | defines the state after the closure has seen the first n components |
| Merging.Merge | src/main.rs:101-137 | defines the state after the whole `retain` pass |
| Merging.FirstKeyIndex | src/main.rs:120-131 | defines the position of the first component with a key, or the length |
| Merging.Survives | src/main.rs:103-136 | defines the retain decision declaratively: no purl, or the canonical component itself, or the first holder of a key with no canonical component |
| Merging.KeptUpTo | src/main.rs:103-136 | defines the surviving components among the first n, in order |
| Merging.Kept | src/main.rs:103-136 | defines the surviving components, in order |
| Merging.SurvivorRef | src/main.rs:109-131 | defines the reference a purl-carrying component is merged into: the canonical component's, else the first holder's of its key |
| Merging.Resolve | src/main.rs:111-128 | defines what a reference has become after the first n components: its component's survivor reference, or itself |
| Merging.FirstKeyIndexFirst | src/main.rs:120-131 | FirstKeyIndex is the first position with the key, or the length when none has it |
| Merging.FirstKeyIndexAt | src/main.rs:120-131 | the first occurrence of a key at i means component i has that key; a component's key first occurs at or before it |
| Merging.StepKept | src/main.rs:103-136 | one closure call retains the component iff `Survives` says so |
| Merging.StepFirstSeenAt | src/main.rs:120-132 | one closure call keeps the first-seen map right for each key |
| Merging.StepKeepsSurvivors | src/main.rs:103-136 | one closure call keeps the retained list equal to `KeptUpTo` and the first-seen map right |
| Merging.MergeKeepsSurvivors | src/main.rs:101-136 | after n components, the retained list is the survivors among them in order, and the first-seen map maps each non-canonical key met so far to the reference of the first component with it |
| Merging.SurvivorRefSurvives | src/main.rs:109-131 | the reference a component is merged into belongs to a surviving component |
| Merging.SurvivorRefOfSurvivor | src/main.rs:109-131 | a survivor is merged into itself |
| Merging.ResolveStep | src/main.rs:111-127 | with unique references, processing one more component rewrites its reference to its survivor's in the resolution of every reference |
| Merging.StepRewrites | src/main.rs:104-128 | a closure call on a purl-carrying component rewrites its reference to its survivor's (a no-op for a first sighting); on one without a purl it touches no edge |
| Merging.ResolvedEdgesStep | src/main.rs:111-127 | a rewrite that advances every resolution by one component advances resolved edges by one component |
| Merging.ResolvedEdgesSkip | src/main.rs:104-135 | when no reference's resolution changes from one component to the next, edges resolved before are resolved after; with ResolveStepNoPurl this is the step for a purl-less component |
| Merging.ResolveStepPurl | src/main.rs:111-127 | with unique references, ResolveStep for all references at once, for a component with a purl |
| Merging.ResolveStepNoPurl | src/main.rs:104 | with unique references, processing a component without a purl changes no resolution |
| Merging.StepResolvesEdges | src/main.rs:103-136 | with unique references, one closure call keeps the edges equal to the original edges with every reference resolved |
| Merging.MergeResolvesEdges | src/main.rs:103-136 | with unique references, after n components, every edge reference of a processed purl-carrying component is replaced by its survivor's, all others untouched |
| Merging.KeptMembers | src/main.rs:103-136 | a component is retained iff some position holding it survives; the retained list is a sub-multiset of the input |
| Merging.SurvivorIndicesExact | src/main.rs:103-136 | the listed positions are all surviving, and every surviving position is listed |
| Merging.KeptInOrder | src/main.rs:103 | the retained list is a subsequence of the input in its original order |
| Merging.NoPurlRetained | src/main.rs:104-135 | a component without a purl is always retained |
| Merging.SurvivorKeysDistinct | src/main.rs:109-132 | with unique references, two survivors never share an identity key |
| Merging.KeptKeysDistinct | src/main.rs:105-132 | with unique references, no two retained components share an identity key |
| Merging.CanonicalPreferred | src/main.rs:109-117 | every canonical component of the list is retained, and a retained component with a canonical key carries the canonical reference |
| Merging.FirstSeenPreferred | src/main.rs:119-132 | without a canonical match, a component with the key is retained iff no earlier component has that key |
| Merging.MentionsResolved | src/main.rs:111-127 | every reference in the resolved edges resolves from one in the original edges |
| Merging.ResolvedNotDropped | src/main.rs:111-128 | with unique references, no reference resolves to a dropped component's reference |
| Merging.ResolvedSurvivor | src/main.rs:111-128 | with unique references, a component's reference resolves to a survivor's |
| Merging.MergeKeepsEdgesConsistent | src/main.rs:103-136 | with unique references, after merging no edge mentions a dropped component, and edges that only mentioned components only mention retained ones |
| Merging.KeptAllSurvive | src/main.rs:103-136 | with unique references, every retained component survives a second pass with the same canonical map |
| Merging.AllSurviveKept | src/main.rs:103-136 | a list all of whose components survive is retained whole |
| Merging.KeptKeepsPreconditions | src/main.rs:103-136 | with unique references, the retained list still meets the unwrap preconditions, has unique references, and contains every canonical component |
| Merging.MergeIdempotent | src/main.rs:101-137 | with unique references, a second merge with the same canonical map keeps every retained component and changes no edge |
| OperatingSystems.NeedsRename | src/main.rs:30 | defines the test: an operating-system component named `rhel` |
| OperatingSystems.RenameOs | src/main.rs:30-32 | defines the fix-up of one component: renamed `redhat` when it passes the test, unchanged otherwise |
| OperatingSystems.FixOsNames | src/main.rs:28-34 | defines the fix-up of the component list, component by component |
| OperatingSystems.FixOsNamesAt | src/main.rs:28-34 | the fix-up is applied position by position, and the length is kept |
| OperatingSystems.FixOsNamesOnlyRenames | src/main.rs:29-33 | only the name changes, and it changes exactly for operating-system components named `rhel`, which become `redhat` |
| OperatingSystems.NoLegacyNameRemains | src/main.rs:30-31 | afterwards no operating-system component is named `rhel` |
| OperatingSystems.FixOsNamesIdempotent | src/main.rs:28-34 | a second fix-up changes nothing |
| OperatingSystems.FixOsNamesKeepsRefs | src/main.rs:28-34 | references and identity keys stay where they were, so unique references stay unique |
| Normalization.CanonicalOf | src/main.rs:92-99 | defines the purl map built from the grouped index, visiting the sbom buckets in the given order |
| Normalization.Normalized | src/main.rs:16-34 | defines the document after the whole pass: jar edges appended, merge when an sbom-cataloger group exists, then the name fix-up |
| Normalization.JarBucketInList | src/main.rs:63-64 | every component of a jar bucket is a component of the list |
| Normalization.JarEdgeClosed | src/main.rs:71-76 | a jar edge mentions only references of components of the list |
| Normalization.JarEdgesClosed | src/main.rs:63-85 | every appended jar edge mentions only references of components of the list |
| Normalization.NormalizeKeepsEdgesClosed | src/main.rs:16-34 | with unique references, if the input's edges mention only its components, the output's edges mention only its remaining components |
| Normalization.NormalizeMergesDuplicates | src/main.rs:23-24 | with an sbom-cataloger group and unique references, no output edge mentions a dropped component, and no two output components share an identity key |
| Normalization.Bom.constructor | src/main.rs:14 | the document holds the given components and edges |
| Normalization.Bom.UpdateDependencies | src/main.rs:141-158 | the nested loops leave the edges equal to `RewriteAll(old edges, from, to)` and the components unchanged |
| Normalization.Bom.ProcessJarDependencies | src/main.rs:59-86 | the edges become the old edges followed by `JarEdges` for the visiting order; the components are unchanged |
| Normalization.Bom.MergeDuplicateComponents | src/main.rs:88-139 | without an sbom-cataloger group nothing changes; otherwise the components become `Kept` and the edges those of `Merge` |
| Normalization.Bom.FixOperatingSystemNames | src/main.rs:28-34 | the components become `FixOsNames` of the old ones; edges unchanged |
| Normalization.Bom.Normalize | src/main.rs:16-34 | the document becomes `Normalized` of the old one: group, jar edges, merge on the index built before the jar pass, then the name fix-up |

## Left out

- Argument checking, opening and creating files, JSON parsing and
  `output_as_json_v1_5` (src/main.rs:8-14, 36-37). These are I/O and CLI
  plumbing, and the CycloneDX library does the serialisation.
- The CycloneDX library's own types: components, purls and normalised strings
  become plain datatypes and strings.
- An absent component list or dependency list is modelled as an empty one. The
  passes behave the same on both; only serialisation tells them apart.
  `get_or_insert_with` at line 79 therefore becomes a plain append.
- The concrete `HashMap` hashing and iteration order. Orders are parameters
  that list every key exactly once.
- Panics from `unwrap` (lines 72, 107, 110) are preconditions instead
  (`EdgeDefined`, `MergeDefined`). The model does not describe the crash.
- `retain` filtering in place is modelled as building the retained list in a
  loop and assigning it at the end. The closure's decisions and their order
  are the same.
- Merging reads the index built before the jar pass. This matches the code,
  since `process_jar_dependencies` does not change the index even though it
  takes it mutably.
- Merging.MergeIdempotent: it is proved for a second pass with the same
  canonical map, not for a full re-run that regroups the merged list.
- Merging.KeptKeysDistinct: it requires unique references. The code does not
  check this, and with repeated references two retained components can share
  a key.
- Unique references: the merge lemmas about resolution and edges
  (`ResolveStep`, `ResolveStepPurl`, `ResolveStepNoPurl`, `StepResolvesEdges`,
  `MergeResolvesEdges`, `ResolvedNotDropped`, `ResolvedSurvivor`,
  `MergeKeepsEdgesConsistent`) and those about a second pass (`KeptAllSurvive`,
  `KeptKeepsPreconditions`, `MergeIdempotent`) also require unique references.
  The model says nothing about documents where two components share a
  reference. There a dropped component's reference can be the same as that of
  a retained first-seen component, and a later rewrite to that reference
  brings it back into the edges.
