# Class-tree initializer of revapi-java

This project models how revapi-java builds its tree of public-API classes.
`ClassTreeInitializer` scans the primary archives and then the supplementary
ones. For each class file, a visitor:

- classifies the class as public API or not;
- collects into a *pending set* the descriptors of the types that public or
  protected members mention but that the tree lacks;
- rebuilds a nested class's canonical name from the class file's inner-class
  records;
- inserts the class, and for nested classes the chain of enclosing classes,
  into the tree.

After each pass, pending descriptors that the platform's runtime library
supplies are dropped. Passes repeat until a pass ends with the pending set it
started with, and the run fails when anything is still pending.

Modules:

- `Wrappers`: `Option`, for the Java `null`.
- `Names`: the string work. This is the `/`-to-`.` rewriting of class names;
  the StringBuilder joins that spell nested names (`Join`, `Terminated`);
  `lastIndexOf`; the case-insensitive suffix test on archive names; and
  `containsAt` with its meaning `MatchesAt`.
- `Descriptors`: JVM types after section 4.3.2 (field descriptors) and
  section 4.3.3 (method descriptors) of the Java Virtual Machine
  Specification. It covers the parts of ASM's `Type` the initializer uses:
  sort, descriptor, class name and element type.
- `ClassTree`: the tree, kept as one append-only sequence of nodes. Each node
  names its parent by position. The module specifies `findByType` as `Find`
  and `addConditionally` as `Insert`.
- `ClassScan`: the value-level specification of a scan, which the methods
  of `TreeInit` are proved to follow. `Tracked` is one pending-set update;
  `Resolved` is the inner-class resolver after a class file's records;
  `ChainFrom` and `KnownAncestor` are the two ways `visitEnd` inserts a
  nested class; `EndTree` and `UnitEffect` are the effect of one class file;
  `EntriesEffect`, `ArchiveEffect`, `ArchivesEffect` and `PassEffect` lift
  it to jars, archives, groups and passes; `AfterPasses` iterates passes.
- `TreeInit`: two classes with the source's mutable state. Each method
  states its new state as a `ClassScan` or `ClassTree` function of the old
  one, or by explicit equations for the fields it sets.
  - `ClassTreeInitializer` holds the tree and the pending set, and runs
    `initTree`, the archive scans and `addConditionally`.
  - `UnitVisitor` is the anonymous `ClassVisitor`: `visit`,
    `visitInnerClass`, `visitField`, `visitMethod`, `visitEnd` and
    `addToAdditionalClasses`.

This model follows the source:

- The member guard in `visitField` and `visitMethod` is modelled with Java's
  precedence, `isPublicAPI && PUBLIC || PROTECTED` (`MemberContributes`). A
  protected member therefore feeds the pending set even when its class is not
  public API.
- On a hit, the tracker removes the type's full descriptor. For an array this
  key is not the one the miss branch adds, which is the text after the last
  `[` (`ArrayEntryDiffersFromDescriptor`). `ArrayNeverKnown` shows that an
  array type is never a hit provided no name in the tree contains `[`. The
  model does not keep that condition as an invariant of the tree: it holds
  for trees of JVM class names, whose unqualified names may not contain `[`
  (section 4.2.2 of the Java Virtual Machine Specification).
- An array use looks its type up under its class name with `[]`, so it
  makes the element class pending even when that class is in the tree,
  whereas a use of the class itself clears it (`ArrayUseRependsKnownElement`).
  In one pass, a class that an earlier class file cleared is therefore
  pending again after a later class uses it only as an array element. If
  that order repeats on every pass, the element's descriptor is still
  pending when the passes stop, unless `comesFromRtJar` removes it.
- An array of a primitive type makes the primitive's one-letter descriptor
  pending: `int[]` adds `I` (`TrackedPrimitiveArray`). `I` is no class's
  object descriptor, so `visitEnd` never removes it; only `comesFromRtJar`,
  or the hit branch for a tree node named `int`, can.
- `containsAt` also accepts a candidate that is longer than what is left of
  the name, provided the overlap agrees (`AcceptsOverlongCandidate`).
- The first inner-class record with an outer name seeds the resolver whether
  or not that outer name is a prefix of the visited class's name. With class
  name `p/O$I` and the records `(p/Q$R, p/Q, R)` then `(p/O$I, p/O, I)`, the
  resolver ends with the parts `p/Q`, `I`, and the class is inserted as
  `p.Q$I` (`SeedIsNotChecked`). A nested class therefore ends in a node named
  after the resolver's binary parts, which is its own binary name only when
  the records are those of its own enclosing classes.
- The resolver rebuilds the nesting chain when the records are those of the
  class's own enclosing classes, outermost first: for a class name
  `S0$S1$...$Sk` whose first record has outer name `S0` and whose records
  carry the inner names `S1` to `Sk` in turn, the binary parts are the
  segments and the canonical parts are `S0` dotted followed by `S1` to `Sk`
  (`ResolvedNestingParts`). In primary mode `p/O$I$D` then enters an empty
  tree as `p.O`, `p.O$I` under it and `p.O$I$D` under that, with the
  canonical names `p.O`, `p.O.I` and `p.O.I.D` (`ThreeLevelChain`).
- With the same two records innermost first, the resolver is seeded with
  `p/O$I`, accepts `D`, and then refuses `I` because the canonical name
  already has the class name's length. The parts are `p/O$I`, `D`, so `p.O`
  never enters the tree and the leaf's canonical name is `p.O$I.D`
  (`InnermostFirstChain`).
- In closure mode a nested class whose binary name is nowhere in the tree is
  added as a new root, even when its enclosing classes are in the tree
  (`ClosureNewLeafIsRoot`): the ancestor walk ends with the failed lookup of
  the full name.
- `addConditionally` and `findByType` deduplicate by binary name only
  within the scope they search, so the tree does not keep every binary name
  once. An insertion searched over the whole tree keeps the names unique
  (`InsertAtRootKeepsNamesUnique`). A nested class read again in closure mode
  is not: when the ancestor walk finds the class's own node, the walk's last
  lookup has returned that node, and the insertion searches only below it.
  A second node with the same binary name is then appended as its child
  (`ClosureReaddsKnownLeaf`). With the tree `p.O`, `p.O$I` under it, and
  `Lp/O$I;` pending, `p/O$I` adds a second `p.O$I` under the first
  (`ClosureReaddsInnerClass`). This can happen: a public `O.I[]` member of a
  class read after `O$I` leaves `Lp/O$I;` pending for the next pass
  (`ArrayUseRependsKnownElement`).
- `initTree` stops after the first pass that ends with the pending set it
  started with. The model states exactly that (`PassChanges`); it does not
  claim that a further pass from the final tree would change nothing.

## Model

| member | source | states |
|---|---|---|
| Names.Dotted | revapi-java/src/main/java/org/revapi/java/model/ClassTreeInitializer.java:216 | `Type.getObjectType(n).getClassName()`: the same length as `n`, with each `/` turned into `.` and every other character kept |
| Names.LastIndexOf | revapi-java/src/main/java/org/revapi/java/model/ClassTreeInitializer.java:344 | `lastIndexOf`: -1 or an index holding the character, with no occurrence after it |
| Names.TerminatedThen | revapi-java/src/main/java/org/revapi/java/model/ClassTreeInitializer.java:294-303 | appending a part to a builder that holds the earlier parts, each followed by the separator, spells the joined name of the longer list |
| Names.TerminatedStep | revapi-java/src/main/java/org/revapi/java/model/ClassTreeInitializer.java:294-303 | one round of the builder loop: after appending part `i` the builder spells the first `i + 1` parts joined; after appending the separator it holds what the next round expects |
| Names.TerminatedDropLast | revapi-java/src/main/java/org/revapi/java/model/ClassTreeInitializer.java:321-322 | removing the builder's final separator leaves the parts joined by the separator |
| Names.ContainsAt | revapi-java/src/main/java/org/revapi/java/model/ClassTreeInitializer.java:359-378 | for a start within the name, the result is true exactly when every compared character agrees and the comparison stops at the end of the name or just before a `$`; no character past the end is read |
| Names.MatchesWholeSegment | revapi-java/src/main/java/org/revapi/java/model/ClassTreeInitializer.java:359-378 | a candidate that spells the next `$`-delimited segment of the name is accepted |
| Names.RefusesPrefixOfSegment | revapi-java/src/main/java/org/revapi/java/model/ClassTreeInitializer.java:377 | a candidate that is a proper prefix of the next segment is refused |
| Names.AcceptsOverlongCandidate | revapi-java/src/main/java/org/revapi/java/model/ClassTreeInitializer.java:365-377 | a candidate longer than the rest of the name is accepted when the overlap agrees |
| Names.UpperCaseSuffixAccepted | revapi-java/src/main/java/org/revapi/java/model/ClassTreeInitializer.java:133-135 | the suffix tests ignore case: `LIB.JAR` is a jar name and `A.Class` a class-file name |
| Names.ArchiveKindsExclusive | revapi-java/src/main/java/org/revapi/java/model/ClassTreeInitializer.java:133-136 | no name ends in both `.jar` and `.class`, ignoring case, so the order of the two tests does not matter |
| Descriptors.Element | revapi-java/src/main/java/org/revapi/java/model/ClassTreeInitializer.java:342-345 | an array's element type is not an array, and it keeps the value-type and bracket-free properties |
| Descriptors.DescriptorOfArray | revapi-java/src/main/java/org/revapi/java/model/ClassTreeInitializer.java:343 | an array descriptor is one `[` per dimension followed by the element's descriptor |
| Descriptors.ElementDescriptorBracketFree | revapi-java/src/main/java/org/revapi/java/model/ClassTreeInitializer.java:344 | the descriptor of a bracket-free non-array type holds no `[` |
| Descriptors.ArrayEntryIsElement | revapi-java/src/main/java/org/revapi/java/model/ClassTreeInitializer.java:342-345 | the text after an array descriptor's last `[` is exactly the element type's descriptor |
| Descriptors.ArrayEntryIgnoresDimensions | revapi-java/src/main/java/org/revapi/java/model/ClassTreeInitializer.java:342-345 | arrays with the same element type and different dimensions (`[Ljava/lang/String;`, `[[Ljava/lang/String;`) leave the same entry |
| Descriptors.ArrayEntryDiffersFromDescriptor | revapi-java/src/main/java/org/revapi/java/model/ClassTreeInitializer.java:342-356 | for an array, the entry the miss branch adds differs from the descriptor the hit branch removes |
| Descriptors.ArrayClassNameHasBracket | revapi-java/src/main/java/org/revapi/java/model/ClassTreeInitializer.java:335 | an array's class name contains `[` |
| Descriptors.DescriptorInjective | revapi-java/src/main/java/org/revapi/java/model/ClassTreeInitializer.java:339 | two value types with the same descriptor are the same type, so a descriptor names one type in the pending set |
| Descriptors.ArrayEntry | revapi-java/src/main/java/org/revapi/java/model/ClassTreeInitializer.java:343-344 | the entry is a suffix of the descriptor with no `[` in it, and a descriptor without `[` is its own entry |
| ClassTree.DescendantPrefix | revapi-java/src/main/java/org/revapi/java/model/ClassTreeInitializer.java:426-430 | appending nodes does not change whether an existing node lies below another |
| ClassTree.DescendantAfter | revapi-java/src/main/java/org/revapi/java/model/ClassTreeInitializer.java:426-430 | a node lies after every node it lies below |
| ClassTree.InScopePrefix | revapi-java/src/main/java/org/revapi/java/model/ClassTreeInitializer.java:437-448 | appending nodes does not change whether an existing node is searched under a scope |
| ClassTree.Find | revapi-java/src/main/java/org/revapi/java/model/ClassTreeInitializer.java:436-451 | `findByType`: a result is in scope (the whole tree, or the scope's descendants) and carries the class name; no result exactly when no node in scope carries it |
| ClassTree.Insert | revapi-java/src/main/java/org/revapi/java/model/ClassTreeInitializer.java:414-434 | `addConditionally`: the tree grows by at most one node and stays well formed. The returned node is in scope and named. The tree is unchanged exactly when a node was found. A new node is the last one and carries the name, the canonical name and the scope as parent |
| ClassTree.InsertIdempotent | revapi-java/src/main/java/org/revapi/java/model/ClassTreeInitializer.java:414-434 | a second insertion with the same name and scope returns the same node and leaves the tree unchanged, whatever canonical name it passes |
| ClassTree.InsertAtRootKeepsNamesUnique | revapi-java/src/main/java/org/revapi/java/model/ClassTreeInitializer.java:414-434 | `addConditionally` with no parent node searches the whole tree, so it keeps every binary name unique |
| ClassTree.InsertAttaches | revapi-java/src/main/java/org/revapi/java/model/ClassTreeInitializer.java:424-431 | a new node is appended to the roots when the scope is absent and to the scope's children otherwise; no other list changes |
| ClassScan.ProtectedMemberOfNonApiClassContributes | revapi-java/src/main/java/org/revapi/java/model/ClassTreeInitializer.java:204 | a protected member passes the member guard even when its class is not public API |
| ClassScan.PublicMemberOfNonApiClassIgnored | revapi-java/src/main/java/org/revapi/java/model/ClassTreeInitializer.java:262 | a member that is not protected does not pass the guard when its class is not public API |
| ClassScan.PrimaryModeClassification | revapi-java/src/main/java/org/revapi/java/model/ClassTreeInitializer.java:185 | in primary mode a class is public API exactly when its flags hold PUBLIC or PROTECTED |
| ClassScan.ClosureModeClassification | revapi-java/src/main/java/org/revapi/java/model/ClassTreeInitializer.java:186-194 | in closure mode a class without those flags is public API exactly when its object descriptor is pending |
| ClassScan.Tracked | revapi-java/src/main/java/org/revapi/java/model/ClassTreeInitializer.java:334-357 | the pending set after `addToAdditionalClasses(t)` differs from the one before only at the type's descriptor and at its array entry |
| ClassScan.TrackedKnownType | revapi-java/src/main/java/org/revapi/java/model/ClassTreeInitializer.java:353-356 | a type already in the tree adds nothing and removes its own descriptor |
| ClassScan.TrackedObject | revapi-java/src/main/java/org/revapi/java/model/ClassTreeInitializer.java:338-341 | a missing object type adds its descriptor |
| ClassScan.TrackedArray | revapi-java/src/main/java/org/revapi/java/model/ClassTreeInitializer.java:342-347 | a missing array type adds its element type's descriptor, whatever its dimensions |
| ClassScan.TrackedPrimitive | revapi-java/src/main/java/org/revapi/java/model/ClassTreeInitializer.java:337-351 | a missing primitive type leaves the pending set unchanged |
| ClassScan.ArrayNeverKnown | revapi-java/src/main/java/org/revapi/java/model/ClassTreeInitializer.java:335-356 | when no name in the tree contains `[`, an array type is never found, and the removal key of an array differs from the key it adds |
| ClassScan.TrackedAllIsLocal | revapi-java/src/main/java/org/revapi/java/model/ClassTreeInitializer.java:263-266 | tracking a list of types touches no entry except those types' descriptors and their array entries |
| ClassScan.TrackedAllStep | revapi-java/src/main/java/org/revapi/java/model/ClassTreeInitializer.java:264-266 | tracking the first `i + 1` types is tracking the first `i` and then type `i` |
| ClassScan.ChainNamedExtend | revapi-java/src/main/java/org/revapi/java/model/ClassTreeInitializer.java:294-303 | the naming part of the nesting chain survives appended nodes and extends by the next level |
| ClassScan.ChainLinkedExtend | revapi-java/src/main/java/org/revapi/java/model/ClassTreeInitializer.java:298-299 | the parent part of the nesting chain survives appended nodes and extends by a node below the last level |
| ClassScan.ChainCanonicalExtend | revapi-java/src/main/java/org/revapi/java/model/ClassTreeInitializer.java:296-299 | the canonical-name part of the nesting chain survives appended nodes and extends by the next level |
| ClassScan.ChainExtend | revapi-java/src/main/java/org/revapi/java/model/ClassTreeInitializer.java:294-303 | the nesting chain survives appended nodes and grows by one level |
| ClassScan.ArrayUseRependsKnownElement | revapi-java/src/main/java/org/revapi/java/model/ClassTreeInitializer.java:334-357 | a class in the tree is cleared by a use of the class itself, but made pending again by a use of it as an array element |
| ClassScan.TrackedClearsOnlyOwnDescriptor | revapi-java/src/main/java/org/revapi/java/model/ClassTreeInitializer.java:334-357 | a type use clears no pending descriptor except the type's own |
| ClassScan.TrackedPrimitiveArray | revapi-java/src/main/java/org/revapi/java/model/ClassTreeInitializer.java:342-345 | a missing array of a primitive type adds the primitive's one-letter descriptor, which is no class's object descriptor |
| ClassScan.FieldsTrackedIsLocal | revapi-java/src/main/java/org/revapi/java/model/ClassTreeInitializer.java:202-208 | the fields of a class change no pending entry except the descriptors and array entries of the types of contributing fields |
| ClassScan.MethodsTrackedIsLocal | revapi-java/src/main/java/org/revapi/java/model/ClassTreeInitializer.java:259-270 | the methods of a class change no pending entry except the descriptors and array entries of the return and parameter types of contributing methods |
| ClassScan.Seed | revapi-java/src/main/java/org/revapi/java/model/ClassTreeInitializer.java:214-223 | seeding from an outer name gives a resolver with a canonical builder that keeps the resolver invariant |
| ClassScan.Offer | revapi-java/src/main/java/org/revapi/java/model/ClassTreeInitializer.java:225-247 | offering an inner name keeps the resolver invariant and the builder |
| ClassScan.ResolveStep | revapi-java/src/main/java/org/revapi/java/model/ClassTreeInitializer.java:211-256 | every record keeps the resolver invariant: equal-length part lists, the builder is the joined canonical parts, the position is one past the joined binary parts |
| ClassScan.Resolved | revapi-java/src/main/java/org/revapi/java/model/ClassTreeInitializer.java:211-256 | the resolver after any number of records keeps the resolver invariant |
| ClassScan.OfferFollowsName | revapi-java/src/main/java/org/revapi/java/model/ClassTreeInitializer.java:225-247 | an accepted part agrees with the class name at the offset after the binary parts joined so far, up to a `$` or the name's end, and those parts are shorter than the name |
| ClassScan.ResolveStepFollowsName | revapi-java/src/main/java/org/revapi/java/model/ClassTreeInitializer.java:211-256 | one record keeps every binary part after the first agreeing with the class name at the offset after the earlier parts joined, up to a `$` or the name's end |
| ClassScan.ResolvedFollowsName | revapi-java/src/main/java/org/revapi/java/model/ClassTreeInitializer.java:211-256 | after any prefix of the records, every binary part after the first agrees with the class name at the offset after the earlier parts joined, up to a `$` or the name's end; the seed is not compared |
| ClassScan.SeedIsNotChecked | revapi-java/src/main/java/org/revapi/java/model/ClassTreeInitializer.java:214-226 | with class name `p/O$I` and records `(p/Q$R, p/Q, R)`, `(p/O$I, p/O, I)` the resolver ends with parts `p/Q`, `I`, which spell `p.Q$I`, not the class's own name |
| ClassScan.NextSegmentMatches | revapi-java/src/main/java/org/revapi/java/model/ClassTreeInitializer.java:225-226 | in a name joined from segments with `$`, the next segment passes the length guard and `containsAt` at the position after the earlier segments |
| ClassScan.OfferNextSegment | revapi-java/src/main/java/org/revapi/java/model/ClassTreeInitializer.java:237-246 | a seeded resolver holding the first segments of the class name appends the next segment to its binary parts |
| ClassScan.FirstRecordSeeds | revapi-java/src/main/java/org/revapi/java/model/ClassTreeInitializer.java:214-234 | a first record with the outermost class as outer name and the first inner name leaves the parts of the first two segments |
| ClassScan.LaterRecordExtends | revapi-java/src/main/java/org/revapi/java/model/ClassTreeInitializer.java:237-246 | a later record carrying the next inner name extends the binary parts by that segment |
| ClassScan.ResolvedSegments | revapi-java/src/main/java/org/revapi/java/model/ClassTreeInitializer.java:211-256 | records naming the outermost class first and then each inner name leave, after `n` records, the first `n + 1` segments as binary parts |
| ClassScan.ResolvedNestingParts | revapi-java/src/main/java/org/revapi/java/model/ClassTreeInitializer.java:211-256 | for a class `S0$...$Sk` with its own records outermost first, the binary parts are the segments and the canonical parts are `S0` dotted followed by the inner names |
| ClassScan.ChainFromAppends | revapi-java/src/main/java/org/revapi/java/model/ClassTreeInitializer.java:294-303 | a level whose name is absent under the previous level is appended with its binary and canonical names and the previous level as parent |
| ClassScan.ThreeLevelTree | revapi-java/src/main/java/org/revapi/java/model/ClassTreeInitializer.java:289-303 | the primary-mode chain of `p/O`, `I`, `D` on an empty tree is `p.O`, `p.O$I` under it and `p.O$I$D` under that, with canonical names `p.O`, `p.O.I`, `p.O.I.D` |
| ClassScan.ThreeLevelChain | revapi-java/src/main/java/org/revapi/java/model/ClassTreeInitializer.java:211-303 | `p/O$I$D` with its records outermost first enters an empty tree as that three-node chain |
| ClassScan.ThreeLevelResolved | revapi-java/src/main/java/org/revapi/java/model/ClassTreeInitializer.java:211-256 | the records of `p/O$I$D` outermost first resolve to binary parts `p/O`, `I`, `D` and canonical parts `p.O`, `I`, `D` |
| ClassScan.SwappedSeedAccepts | revapi-java/src/main/java/org/revapi/java/model/ClassTreeInitializer.java:214-246 | with the records innermost first the seed is `p/O$I` and the first offer `D` is accepted, which gives a canonical name as long as the class name |
| ClassScan.InnermostFirstParts | revapi-java/src/main/java/org/revapi/java/model/ClassTreeInitializer.java:214-246 | with the records innermost first the resolver ends with binary parts `p/O$I`, `D` and canonical parts `p.O$I`, `D` |
| ClassScan.InnermostFirstChain | revapi-java/src/main/java/org/revapi/java/model/ClassTreeInitializer.java:211-303 | with the records innermost first `p.O` is never added: the tree is `p.O$I` and `p.O$I$D` under it, with canonical name `p.O$I.D` |
| ClassScan.ChainFrom | revapi-java/src/main/java/org/revapi/java/model/ClassTreeInitializer.java:294-303 | the primary-mode chain keeps the tree well formed, only appends to it, and has one node per nesting level |
| ClassScan.ChainFromUnfold | revapi-java/src/main/java/org/revapi/java/model/ClassTreeInitializer.java:294-303 | building the chain one level further leaves the chain it ends in unchanged and its arguments valid |
| ClassScan.NextLevelAppends | revapi-java/src/main/java/org/revapi/java/model/ClassTreeInitializer.java:294-303 | once a level was appended, the next level is appended too: a lookup below the last node cannot succeed |
| ClassScan.OnlyLevelsStep | revapi-java/src/main/java/org/revapi/java/model/ClassTreeInitializer.java:298-299 | the only new nodes of the chain are its levels, after one more level too |
| ClassScan.ParentsStep | revapi-java/src/main/java/org/revapi/java/model/ClassTreeInitializer.java:298-299 | each new level has the previous level as parent, and a new first level is a root, after one more level too |
| ClassScan.ChainStep | revapi-java/src/main/java/org/revapi/java/model/ClassTreeInitializer.java:294-303 | one more level keeps the chain's shape: names, parents, canonical names and nothing else added |
| ClassScan.ChainFromShape | revapi-java/src/main/java/org/revapi/java/model/ClassTreeInitializer.java:294-303 | the chain built from a partial chain has the chain shape |
| ClassScan.NestingChainShape | revapi-java/src/main/java/org/revapi/java/model/ClassTreeInitializer.java:289-303 | primary mode: level `k` is a node named with the first `k + 1` binary parts joined with `$` and lies below level `k - 1`; a new level carries the first `k + 1` canonical parts joined with `.`, has level `k - 1` as parent (none for level 0), and no node other than the levels is added |
| ClassScan.KnownAncestor | revapi-java/src/main/java/org/revapi/java/model/ClassTreeInitializer.java:311-319 | the closure-mode lookups give a node of the tree or none, and a node found for the last level carries the full binary name |
| ClassScan.ClosureNewLeafIsRoot | revapi-java/src/main/java/org/revapi/java/model/ClassTreeInitializer.java:304-325 | in closure mode a nested class whose binary name is nowhere in the tree becomes one new root with its binary and canonical names |
| ClassScan.ClosureReaddsKnownLeaf | revapi-java/src/main/java/org/revapi/java/model/ClassTreeInitializer.java:304-325 | in closure mode, when the ancestor walk finds the class's own node, a second node with its binary name is appended under that node, and a tree with unique names loses that property |
| ClassScan.ClosureReaddsInnerClass | revapi-java/src/main/java/org/revapi/java/model/ClassTreeInitializer.java:304-325 | on the tree `p.O`, `p.O$I` under it, with `Lp/O$I;` pending, `p/O$I` in closure mode appends a second `p.O$I` under the first |
| ClassScan.EndTree | revapi-java/src/main/java/org/revapi/java/model/ClassTreeInitializer.java:279-327 | the specification of `visitEnd`'s tree update, by its definition; its contract states that the tree stays well formed and is only appended to |
| ClassScan.UnitEffect | revapi-java/src/main/java/org/revapi/java/model/ClassTreeInitializer.java:163-380 | the specification of one class file's effect, by its definition; its contract states that the tree stays well formed and is only appended to |
| ClassScan.UnitClearsOwnDescriptor | revapi-java/src/main/java/org/revapi/java/model/ClassTreeInitializer.java:279-330 | a public-API class file never leaves its own descriptor pending |
| ClassScan.NonApiUnitKeepsTree | revapi-java/src/main/java/org/revapi/java/model/ClassTreeInitializer.java:279 | a class file that is not public API leaves the tree as it was |
| ClassScan.UnitEffectIsLocal | revapi-java/src/main/java/org/revapi/java/model/ClassTreeInitializer.java:163-380 | a class file changes no pending entry except its own descriptor and the entries of the types its contributing members mention |
| ClassScan.EntriesEffect | revapi-java/src/main/java/org/revapi/java/model/ClassTreeInitializer.java:140-154 | the specification of a jar scan, by its definition; its contract states that the tree stays well formed and is only appended to |
| ClassScan.ArchiveEffect | revapi-java/src/main/java/org/revapi/java/model/ClassTreeInitializer.java:131-138 | the specification of the archive dispatch, by its definition; its contract states that the tree stays well formed and is only appended to |
| ClassScan.ArchivesEffect | revapi-java/src/main/java/org/revapi/java/model/ClassTreeInitializer.java:72-85 | the specification of a group scan, by its definition; its contract states that the tree stays well formed and is only appended to |
| ClassScan.PassEffect | revapi-java/src/main/java/org/revapi/java/model/ClassTreeInitializer.java:69-98 | the specification of one pass, by its definition; its contract states that the tree stays well formed and is only appended to |
| ClassScan.AfterPasses | revapi-java/src/main/java/org/revapi/java/model/ClassTreeInitializer.java:69-101 | the specification of repeated passes, by its definition; its contract states that the tree stays well formed and is only appended to |
| TreeInit.ClassTreeInitializer.constructor | revapi-java/src/main/java/org/revapi/java/model/ClassTreeInitializer.java:56-62 | keeps the archives and the tree; the pending set starts empty |
| TreeInit.ClassTreeInitializer.AddConditionally | revapi-java/src/main/java/org/revapi/java/model/ClassTreeInitializer.java:414-434 | the new tree and the returned node are those of `Insert` for the type's class name |
| TreeInit.ClassTreeInitializer.ProcessClassBytes | revapi-java/src/main/java/org/revapi/java/model/ClassTreeInitializer.java:163-380 | one class file through the visitor in the parser's order: the new tree and pending set are exactly `UnitEffect` of the old ones |
| TreeInit.ClassTreeInitializer.ProcessClassFile | revapi-java/src/main/java/org/revapi/java/model/ClassTreeInitializer.java:156-161 | a `.class` archive: the new state is `UnitEffect` of its class file |
| TreeInit.ClassTreeInitializer.ProcessJarArchive | revapi-java/src/main/java/org/revapi/java/model/ClassTreeInitializer.java:140-154 | the new state is `EntriesEffect` over all entries: every non-directory entry whose name ends in `.class`, ignoring case, in order, and no other entry |
| TreeInit.ClassTreeInitializer.ProcessArchive | revapi-java/src/main/java/org/revapi/java/model/ClassTreeInitializer.java:131-138 | the new state is `ArchiveEffect`: a `.jar` name is read as a jar, otherwise a `.class` name as one class file, ignoring case; any other archive changes nothing |
| TreeInit.ClassTreeInitializer.ProcessArchives | revapi-java/src/main/java/org/revapi/java/model/ClassTreeInitializer.java:72-85 | the new state is `ArchivesEffect`: each archive of the group in order, in the given mode |
| TreeInit.ClassTreeInitializer.PruneBootstrap | revapi-java/src/main/java/org/revapi/java/model/ClassTreeInitializer.java:88-98 | the iterator loop leaves exactly the pending descriptors that the runtime library does not supply (`Prune`); the tree is not touched |
| TreeInit.ClassTreeInitializer.ArchiveNames | revapi-java/src/main/java/org/revapi/java/model/ClassTreeInitializer.java:105-108 | the primary archives' names, in order |
| TreeInit.ClassTreeInitializer.InitTree | revapi-java/src/main/java/org/revapi/java/model/ClassTreeInitializer.java:64-113 | `passes` is the number of passes run, at least one. The final state is `AfterPasses` of that many from the initial tree and an empty pending set. Every pass before the last changed the pending set, and the last one did not unless the budget ran out. No remaining entry comes from the runtime library. The run succeeds exactly when nothing is pending at the fixpoint; otherwise it fails with the archive names and the remaining set |
| TreeInit.UnitVisitor.constructor | revapi-java/src/main/java/org/revapi/java/model/ClassTreeInitializer.java:167-177 | a fresh visitor: the resolver is `Unseeded` and the class is not public API |
| TreeInit.UnitVisitor.Visit | revapi-java/src/main/java/org/revapi/java/model/ClassTreeInitializer.java:180-199 | records the name and flags; the public-API flag is the mode's classification; the class may be nested exactly when its name holds `$` |
| TreeInit.UnitVisitor.AcceptInnerName | revapi-java/src/main/java/org/revapi/java/model/ClassTreeInitializer.java:228-232 | an accepted record extends the builder by `.` and the inner name, appends it to both part lists and advances the position by its length plus one, keeping the resolver invariant |
| TreeInit.UnitVisitor.TryInnerName | revapi-java/src/main/java/org/revapi/java/model/ClassTreeInitializer.java:225-247 | the resolver moves to `Offer` of its old state: the inner name is appended exactly when the canonical name so far is shorter than the class name and `MatchesAt` holds at the traversal position |
| TreeInit.UnitVisitor.VisitInnerClass | revapi-java/src/main/java/org/revapi/java/model/ClassTreeInitializer.java:211-256 | the resolver moves to `ResolveStep` of its old state: an ignored record changes nothing, the first record with an outer name seeds both lists with it (dotted in the canonical list), and an inner name is then offered |
| TreeInit.UnitVisitor.AddToAdditionalClasses | revapi-java/src/main/java/org/revapi/java/model/ClassTreeInitializer.java:334-357 | the new pending set is `Tracked` of the old one |
| TreeInit.UnitVisitor.VisitField | revapi-java/src/main/java/org/revapi/java/model/ClassTreeInitializer.java:202-208 | a field passing the member guard tracks its type; otherwise nothing changes |
| TreeInit.UnitVisitor.VisitMethod | revapi-java/src/main/java/org/revapi/java/model/ClassTreeInitializer.java:259-270 | a method passing the guard tracks its return type and then each parameter type in order; otherwise nothing changes |
| TreeInit.UnitVisitor.AddNestingChain | revapi-java/src/main/java/org/revapi/java/model/ClassTreeInitializer.java:289-303 | the new tree is exactly `ChainFrom`'s: one `addConditionally` per level, outermost first, each under the previous level's node |
| TreeInit.UnitVisitor.AddUnderKnownAncestors | revapi-java/src/main/java/org/revapi/java/model/ClassTreeInitializer.java:304-325 | the new tree and the returned node are those of one insertion of the full binary and canonical names under `KnownAncestor`, the result of the level-by-level lookups; no other node is added |
| TreeInit.UnitVisitor.VisitEnd | revapi-java/src/main/java/org/revapi/java/model/ClassTreeInitializer.java:273-332 | the new tree is `EndTree`: unchanged unless the class is public API (in closure mode: also pending); a plain class is inserted as a root with its dotted name; a nested class as `ChainFrom` in primary mode and under `KnownAncestor` in closure mode. For a public-API class exactly its own descriptor leaves the pending set, and nothing else changes |
| TreeInit.ClassTreeInitializer.FindByType | revapi-java/src/main/java/org/revapi/java/model/ClassTreeInitializer.java:436-451 | `findByType`: a result is in scope and carries the type's class name; no result exactly when no node in scope carries it |
| TreeInit.ClassTreeInitializer.ReadInnerClasses | revapi-java/src/main/java/org/revapi/java/model/ClassTreeInitializer.java:165-167 | the parser reports every inner-class record in order; the resolver ends as `Resolved` over all of them |
| TreeInit.ClassTreeInitializer.ReadFields | revapi-java/src/main/java/org/revapi/java/model/ClassTreeInitializer.java:165-167 | the parser reports every field in order; the pending set becomes `FieldsTracked` over all of them |
| TreeInit.ClassTreeInitializer.ReadMethods | revapi-java/src/main/java/org/revapi/java/model/ClassTreeInitializer.java:165-167 | the parser reports every method in order; the pending set becomes `MethodsTracked` over all of them |
| TreeInit.ClassTreeInitializer.RunPass | revapi-java/src/main/java/org/revapi/java/model/ClassTreeInitializer.java:69-98 | one pass: the new state is `PassEffect` of the old one, and nothing pending comes from the runtime library |
| TreeInit.ClassTreeInitializer.RunPasses | revapi-java/src/main/java/org/revapi/java/model/ClassTreeInitializer.java:69-101 | the do-while loop: the final state is `AfterPasses` of `passes` passes, every pass before the last changed the pending set, and the last did not unless the budget ran out |
| TreeInit.UnitVisitor.AddAllToAdditionalClasses | revapi-java/src/main/java/org/revapi/java/model/ClassTreeInitializer.java:264-266 | the parameter loop: the pending set becomes `TrackedAll` of the parameter types, in order |

## Left out

- TreeInit.ClassTreeInitializer.InitTree: the do-while loop has no proved termination, so a `maxPasses` bound stops it with the `PassLimitReached` outcome, which the source does not have.
- ClassTree.Find: the tree search itself (`searchUnsafe`, `TypeElement`) is not part of this model. A lookup under a scope searches the scope's strict descendants, and among several matches the earliest-added one is returned. The source returns the first in its own traversal order, which can differ only when a name occurs twice in scope. Such trees arise: see `ClosureReaddsKnownLeaf`.
- The ASM class-file parser and the `Type` helper are a foreign library. A class file arrives as a decoded `ClassUnit`, and types arrive as `JType` values; `ReadInnerClasses`, `ReadFields` and `ReadMethods` stand for `ClassReader.accept` reporting them in that order. `getObjectType` of a name starting with `[` (an array sort) is not modelled, because class names never start with `[`.
- TreeInit.UnitVisitor.AddToAdditionalClasses: requires a value type. The source's `AssertionError` for a method-sort type cannot occur, because field descriptors and the parts of method descriptors are never method types (sections 4.3.2 and 4.3.3 of the Java Virtual Machine Specification).
- Archive, zip-stream and file I/O, with the `IOException`s they can raise. An archive carries both its zip entries and the class file its bytes decode to.
- `comesFromRtJar` relies on reflective class loading and system properties. It is the parameter `fromRtJar` of `InitTree`.
- Logging, and the visitor's `processingInnerClass` flag, which only feeds a log message.
- Visitor parameters the source does not use: the class version, signature, superclass, interfaces, field values, method names and exceptions.
- `String.toLowerCase` is modelled for ASCII letters only (`LowerAscii`).
- `CheckForkMojo` in the Maven plugin is annotations only, with no logic.
