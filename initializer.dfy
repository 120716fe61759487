/**
 * The class-tree initializer: it scans the primary and supplementary
 * archives, classifies each class file as public API or not, collects the
 * types that public members mention but that are not yet in the tree (the
 * pending set), rebuilds the names of nested classes from the inner-class
 * records, inserts the classes into the tree, and repeats the scan until the
 * pending set no longer changes.
 *
 * The class-file parser is not modelled: a class file arrives already decoded
 * into the facts the visitor is told about, in the order the parser reports
 * them (header, inner-class records, fields, methods, end). Each method is
 * proved to change the state exactly as the functions of `ClassScan` say.
 */
module TreeInit {
  import opened Wrappers
  import opened Names
  import opened Descriptors
  import opened ClassTree
  import opened ClassScan

  /** How `initTree` ends. */
  datatype InitOutcome =
    | Initialized
      /** The `IllegalStateException`: the primary archives' names and the descriptors not located. */
    | Unlocated(archiveNames: seq<string>, missing: set<string>)
      /** The pass budget ran out before the pending set settled. */
    | PassLimitReached

  class ClassTreeInitializer {
    const archives: seq<Archive>
    const supplementaryArchives: Option<seq<Archive>>
    /** The environment's tree. */
    var nodes: seq<TypeElement>
    /** The pending set. */
    var additionalClasses: set<string>

    ghost predicate Valid()
      reads this`nodes
    {
      WellFormed(nodes)
    }

    /** The tree and the pending set, as one value. */
    function State(): ScanState
      reads this`nodes, this`additionalClasses
    {
      ScanState(nodes, additionalClasses)
    }

    constructor (archives: seq<Archive>, supplementaryArchives: Option<seq<Archive>>, tree: seq<TypeElement>)
      requires WellFormed(tree)
      ensures Valid()
      ensures this.archives == archives && this.supplementaryArchives == supplementaryArchives
      ensures nodes == tree && additionalClasses == {}
    {
      this.archives := archives;
      this.supplementaryArchives := supplementaryArchives;
      nodes := tree;
      additionalClasses := {};
    }

    /** `findByType(t, superType)`: a node in scope with the type's class
        name, or none exactly when no node in scope has it. */
    function FindByType(t: JType, superType: Option<nat>): (r: Option<nat>)
      requires IsValueType(t)
      reads this
      ensures r.Some? ==> InScope(nodes, r.value, superType) && nodes[r.value].binaryName == ClassName(t)
      ensures r.None? <==> forall i :: 0 <= i < |nodes| && InScope(nodes, i, superType) ==> nodes[i].binaryName != ClassName(t)
    {
      Find(nodes, ClassName(t), superType)
    }

    /** `addConditionally(t, canonicalName, superType)`. */
    method AddConditionally(t: JType, canonicalName: string, superType: Option<nat>) returns (node: nat)
      requires Valid() && IsValueType(t) && ScopeIn(nodes, superType)
      modifies this`nodes
      ensures Valid()
      ensures var r := Insert(old(nodes), ClassName(t), canonicalName, superType);
        nodes == r.nodes && node == r.index
    {
      var add := false;
      var found := FindByType(t, superType);
      var element: TypeElement;
      if found.None? {
        var binaryName := ClassName(t);
        add := true;
        element := TypeElement(binaryName, canonicalName, superType);
      }
      if add {
        // a root when superType is absent, otherwise a child of superType
        nodes := nodes + [element];
        node := |nodes| - 1;
      } else {
        node := found.value;
      }
    }

    /** The parser reporting the inner-class records to `v`, in order. */
    method ReadInnerClasses(v: UnitVisitor, recs: seq<InnerClassRecord>)
      requires v.State() == Unseeded
      modifies v`innerClassCanonicalName, v`innerClassCanonicalNameParts,
        v`innerClassBinaryNameParts, v`currentInnerClassTraversePos
      ensures v.Valid()
      ensures v.State() == Resolved(v.mainName, v.isPublicAPI && v.maybeInner, recs, |recs|)
    {
      for i := 0 to |recs|
        invariant v.Valid()
        invariant v.State() == Resolved(v.mainName, v.isPublicAPI && v.maybeInner, recs, i)
      {
        v.VisitInnerClass(recs[i].name, recs[i].outerName, recs[i].innerName, recs[i].access);
      }
    }

    /** The parser reporting the fields to `v`, in order. */
    method ReadFields(v: UnitVisitor, fields: seq<FieldRecord>)
      requires v.owner == this && FieldTypesValid(fields)
      modifies this`additionalClasses
      ensures additionalClasses == FieldsTracked(nodes, old(additionalClasses), v.isPublicAPI, fields, |fields|)
    {
      for i := 0 to |fields|
        invariant additionalClasses == FieldsTracked(nodes, old(additionalClasses), v.isPublicAPI, fields, i)
      {
        v.VisitField(fields[i].access, fields[i].desc);
      }
    }

    /** The parser reporting the methods to `v`, in order. */
    method ReadMethods(v: UnitVisitor, methods: seq<MethodRecord>)
      requires v.owner == this && MethodTypesValid(methods)
      modifies this`additionalClasses
      ensures additionalClasses == MethodsTracked(nodes, old(additionalClasses), v.isPublicAPI, methods, |methods|)
    {
      for i := 0 to |methods|
        invariant additionalClasses == MethodsTracked(nodes, old(additionalClasses), v.isPublicAPI, methods, i)
      {
        v.VisitMethod(methods[i].access, methods[i].desc);
      }
    }

    /** Runs the visitor over one class file, in the parser's order. */
    method ProcessClassBytes(unit: ClassUnit, onlyAddAdditional: bool)
      requires Valid() && WellFormedUnit(unit)
      modifies this
      ensures Valid()
      ensures State() == UnitEffect(old(State()), unit, onlyAddAdditional)
    {
      var v := new UnitVisitor(this, onlyAddAdditional);
      v.Visit(unit.access, unit.name);
      ReadInnerClasses(v, unit.innerClasses);
      ReadFields(v, unit.fields);
      ReadMethods(v, unit.methods);
      v.VisitEnd();
    }

    /** `processClassFile`: a single class file. */
    method ProcessClassFile(a: Archive, onlyAddAdditional: bool)
      requires Valid() && WellFormedArchive(a)
      modifies this
      ensures Valid()
      ensures State() == UnitEffect(old(State()), a.unit, onlyAddAdditional)
    {
      ProcessClassBytes(a.unit, onlyAddAdditional);
    }

    /** `processJarArchive`: every entry that is not a directory and whose
        name ends in `.class`, in the zip stream's order. */
    method ProcessJarArchive(a: Archive, onlyAddAdditional: bool)
      requires Valid() && WellFormedArchive(a)
      modifies this
      ensures Valid()
      ensures State() == EntriesEffect(old(State()), a.entries, onlyAddAdditional, |a.entries|)
    {
      var i := 0;
      while i < |a.entries|
        invariant 0 <= i <= |a.entries|
        invariant Valid() && State() == EntriesEffect(old(State()), a.entries, onlyAddAdditional, i)
      {
        var entry := a.entries[i];
        if !entry.isDirectory && EndsWithIgnoreCase(entry.name, ".class") {
          ProcessClassBytes(entry.unit, onlyAddAdditional);
        }
        i := i + 1;
      }
    }

    /** `processArchive`: dispatch on the archive's name; other kinds are ignored. */
    method ProcessArchive(a: Archive, onlyAddAdditional: bool)
      requires Valid() && WellFormedArchive(a)
      modifies this
      ensures Valid()
      ensures State() == ArchiveEffect(old(State()), a, onlyAddAdditional)
    {
      if EndsWithIgnoreCase(a.name, ".jar") {
        ProcessJarArchive(a, onlyAddAdditional);
      } else if EndsWithIgnoreCase(a.name, ".class") {
        ProcessClassFile(a, onlyAddAdditional);
      }
    }

    /** Scans each archive of `group`, in order, in the given mode. */
    method ProcessArchives(group: seq<Archive>, onlyAddAdditional: bool)
      requires Valid() && AllWellFormed(group)
      modifies this
      ensures Valid()
      ensures State() == ArchivesEffect(old(State()), group, onlyAddAdditional, |group|)
    {
      for i := 0 to |group|
        invariant Valid() && State() == ArchivesEffect(old(State()), group, onlyAddAdditional, i)
      {
        ProcessArchive(group[i], onlyAddAdditional);
      }
    }

    /** The iterator loop of `initTree` that drops every pending descriptor
        the platform's runtime library supplies. */
    method PruneBootstrap(fromRtJar: string -> bool)
      modifies this`additionalClasses
      ensures additionalClasses == Prune(old(additionalClasses), fromRtJar)
    {
      var toVisit := additionalClasses;
      while toVisit != {}
        invariant toVisit <= old(additionalClasses)
        invariant additionalClasses == set d | d in old(additionalClasses) && (d in toVisit || !fromRtJar(d))
        decreases toVisit
      {
        var typeDescriptor :| typeDescriptor in toVisit;
        if fromRtJar(typeDescriptor) {
          additionalClasses := additionalClasses - {typeDescriptor};
        }
        toVisit := toVisit - {typeDescriptor};
      }
    }

    /** The names of the primary archives, for the failure message. */
    method ArchiveNames() returns (names: seq<string>)
      ensures |names| == |archives|
      ensures forall k :: 0 <= k < |archives| ==> names[k] == archives[k].name
    {
      names := [];
      for i := 0 to |archives|
        invariant |names| == i
        invariant forall k :: 0 <= k < i ==> names[k] == archives[k].name
      {
        names := names + [archives[i].name];
      }
    }

    /** One pass of `initTree`'s loop: the primary archives (in closure mode
        after the first pass), the supplementary archives in closure mode, and
        the pruning when anything is pending. */
    method RunPass(secondRun: bool, fromRtJar: string -> bool)
      requires Valid() && RunArgs(archives, supplementaryArchives)
      modifies this
      ensures Valid()
      ensures State() == PassEffect(old(State()), archives, supplementaryArchives, secondRun, fromRtJar)
      ensures forall d | d in additionalClasses :: !fromRtJar(d)
    {
      ProcessArchives(archives, secondRun);
      if supplementaryArchives.Some? {
        ProcessArchives(supplementaryArchives.value, true);
      }
      if additionalClasses != {} {
        PruneBootstrap(fromRtJar);
      }
    }

    /** The loop of `initTree`: passes run until one ends with the pending
        set it started with, or until the pass after the last one the budget
        `maxPasses` allows has changed it. `passes` counts the passes run. */
    method RunPasses(fromRtJar: string -> bool, maxPasses: nat) returns (limitReached: bool, ghost passes: nat)
      requires Valid() && RunArgs(archives, supplementaryArchives)
      modifies this
      ensures Valid()
      ensures 1 <= passes <= maxPasses + 1
      ensures State() == AfterPasses(old(State()), archives, supplementaryArchives, fromRtJar, passes)
      ensures forall j :: 1 <= j < passes ==>
        PassChanges(old(State()), archives, supplementaryArchives, fromRtJar, j)
      ensures limitReached <==> PassChanges(old(State()), archives, supplementaryArchives, fromRtJar, passes)
      ensures limitReached ==> passes == maxPasses + 1
      ensures forall d | d in additionalClasses :: !fromRtJar(d)
    {
      ghost var start := State();
      var secondRunOrSupplementaryArchives := false;
      var round := 0;
      while true
        invariant Valid() && round <= maxPasses
        invariant secondRunOrSupplementaryArchives == (round > 0)
        invariant State() == AfterPasses(start, archives, supplementaryArchives, fromRtJar, round)
        invariant forall j :: 1 <= j <= round ==> PassChanges(start, archives, supplementaryArchives, fromRtJar, j)
        decreases maxPasses - round
      {
        var oldAdditionalClasses := additionalClasses;
        RunPass(secondRunOrSupplementaryArchives, fromRtJar);
        secondRunOrSupplementaryArchives := true;
        passes := round + 1;
        assert State() == AfterPasses(start, archives, supplementaryArchives, fromRtJar, passes);
        if oldAdditionalClasses == additionalClasses {
          limitReached := false;
          return;
        }
        assert PassChanges(start, archives, supplementaryArchives, fromRtJar, passes);
        if round == maxPasses {
          limitReached := true;
          return;
        }
        round := round + 1;
      }
    }

    /** `initTree`: the passes from the initial tree and an empty pending set
        (`RunPasses`), then the verdict: no pending descriptor is left unless
        the outcome says which ones, or the budget ran out. `fromRtJar` stands
        for `comesFromRtJar`. The final state is `AfterPasses` of `passes`
        passes; every pass before the last changed the pending set, and the
        last one did not unless the budget ran out. */
    method InitTree(fromRtJar: string -> bool, maxPasses: nat) returns (outcome: InitOutcome, ghost passes: nat)
      requires Valid() && RunArgs(archives, supplementaryArchives)
      modifies this
      ensures Valid()
      ensures 1 <= passes <= maxPasses + 1
      ensures State() == AfterPasses(ScanState(old(nodes), {}), archives, supplementaryArchives, fromRtJar, passes)
      ensures forall j :: 1 <= j < passes ==>
        PassChanges(ScanState(old(nodes), {}), archives, supplementaryArchives, fromRtJar, j)
      ensures outcome == PassLimitReached <==>
        PassChanges(ScanState(old(nodes), {}), archives, supplementaryArchives, fromRtJar, passes)
      ensures outcome == PassLimitReached ==> passes == maxPasses + 1
      ensures forall d | d in additionalClasses :: !fromRtJar(d)
      ensures outcome == Initialized <==> outcome != PassLimitReached && additionalClasses == {}
      ensures outcome.Unlocated? ==>
        outcome.missing == additionalClasses &&
        |outcome.archiveNames| == |archives| &&
        forall k :: 0 <= k < |archives| ==> outcome.archiveNames[k] == archives[k].name
    {
      additionalClasses := {};
      var limitReached;
      limitReached, passes := RunPasses(fromRtJar, maxPasses);
      if limitReached {
        outcome := PassLimitReached;
      } else if additionalClasses != {} {
        var names := ArchiveNames();
        outcome := Unlocated(names, additionalClasses);
      } else {
        outcome := Initialized;
      }
    }
  }

  /** The visitor created for one class file. */
  class UnitVisitor {
    const owner: ClassTreeInitializer
    const onlyAddAdditional: bool
    var mainName: string
    var mainAccess: bv32
    var isPublicAPI: bool
    /** The canonical-name builder; absent until the first usable record. */
    var innerClassCanonicalName: Option<string>
    var innerClassCanonicalNameParts: seq<string>
    var innerClassBinaryNameParts: seq<string>
    var maybeInner: bool
    var currentInnerClassTraversePos: nat

    /** The resolver's fields, as one value. */
    function State(): ResolverState
      reads this`innerClassCanonicalName, this`innerClassCanonicalNameParts,
        this`innerClassBinaryNameParts, this`currentInnerClassTraversePos
    {
      ResolverState(innerClassCanonicalName, innerClassCanonicalNameParts, innerClassBinaryNameParts,
                    currentInnerClassTraversePos)
    }

    /** The inner-class resolver's invariant. */
    ghost predicate Valid()
      reads this`innerClassCanonicalName, this`innerClassCanonicalNameParts,
        this`innerClassBinaryNameParts, this`currentInnerClassTraversePos
    {
      ResolverValid(State())
    }

    constructor (owner: ClassTreeInitializer, onlyAddAdditional: bool)
      ensures Valid()
      ensures this.owner == owner && this.onlyAddAdditional == onlyAddAdditional
      ensures State() == Unseeded && !isPublicAPI
    {
      this.owner := owner;
      this.onlyAddAdditional := onlyAddAdditional;
      mainName := "";
      mainAccess := 0;
      isPublicAPI := false;
      innerClassCanonicalName := None;
      innerClassCanonicalNameParts := [];
      innerClassBinaryNameParts := [];
      maybeInner := false;
      currentInnerClassTraversePos := 0;
    }

    /** `visit`: records the class and classifies it. */
    method Visit(access: bv32, name: string)
      requires Valid()
      modifies this`mainName, this`mainAccess, this`isPublicAPI, this`maybeInner
      ensures Valid()
      ensures mainName == name && mainAccess == access
      ensures isPublicAPI == IsApiClass(onlyAddAdditional, access, name, owner.additionalClasses)
      ensures maybeInner <==> '$' in name
    {
      mainName := name;
      mainAccess := access;
      isPublicAPI := HasPublic(mainAccess) || HasProtected(mainAccess);
      if onlyAddAdditional && !isPublicAPI {
        isPublicAPI := ObjectDescriptor(name) in owner.additionalClasses;
      }
      maybeInner := '$' in name;
    }

    /** Appends an accepted inner name to the builder and to both part lists. */
    method AcceptInnerName(innerName: string)
      requires Valid() && innerClassCanonicalName.Some?
      modifies this`innerClassCanonicalName, this`innerClassCanonicalNameParts,
        this`innerClassBinaryNameParts, this`currentInnerClassTraversePos
      ensures Valid()
      ensures innerClassCanonicalName == Some(old(innerClassCanonicalName).value + "." + innerName)
      ensures innerClassBinaryNameParts == old(innerClassBinaryNameParts) + [innerName]
      ensures innerClassCanonicalNameParts == old(innerClassCanonicalNameParts) + [innerName]
      ensures currentInnerClassTraversePos == old(currentInnerClassTraversePos) + |innerName| + 1
    {
      innerClassCanonicalName := Some(innerClassCanonicalName.value + "." + innerName);
      currentInnerClassTraversePos := currentInnerClassTraversePos + |innerName| + 1;
      innerClassCanonicalNameParts := innerClassCanonicalNameParts + [innerName];
      innerClassBinaryNameParts := innerClassBinaryNameParts + [innerName];
    }

    /** `visitInnerClass`: the first record with an outer name seeds both
        part lists with that outer name; a record's inner name is then
        appended when the names built so far are shorter than the visited
        class's name and `containsAt` accepts the inner name at the
        traversal position. */
    method VisitInnerClass(name: string, outerName: Option<string>, innerName: Option<string>, access: bv32)
      requires Valid()
      modifies this`innerClassCanonicalName, this`innerClassCanonicalNameParts,
        this`innerClassBinaryNameParts, this`currentInnerClassTraversePos
      ensures Valid()
      ensures State() == ResolveStep(old(State()), mainName, isPublicAPI && maybeInner,
                                     InnerClassRecord(name, outerName, innerName, access))
    {
      if isPublicAPI && maybeInner && innerName.Some? {
        if innerClassCanonicalName.None? {
          if outerName.Some? {
            var base := Dotted(outerName.value);
            innerClassCanonicalName := Some(base);
            innerClassCanonicalNameParts := [base];
            innerClassBinaryNameParts := [outerName.value];
            currentInnerClassTraversePos := |outerName.value| + 1;
            TryInnerName(innerName.value);
          }
        } else {
          TryInnerName(innerName.value);
        }
      }
    }

    /** The length guard and the `containsAt` test of `visitInnerClass`. */
    method TryInnerName(innerName: string)
      requires Valid() && innerClassCanonicalName.Some?
      modifies this`innerClassCanonicalName, this`innerClassCanonicalNameParts,
        this`innerClassBinaryNameParts, this`currentInnerClassTraversePos
      ensures Valid()
      ensures State() == Offer(old(State()), mainName, innerName)
    {
      if |innerClassCanonicalName.value| < |mainName| {
        var matches := ContainsAt(mainName, innerName, currentInnerClassTraversePos);
        if matches {
          AcceptInnerName(innerName);
        }
      }
    }

    /** `addToAdditionalClasses(t)`. */
    method AddToAdditionalClasses(t: JType)
      requires IsValueType(t)
      modifies owner`additionalClasses
      ensures owner.additionalClasses == Tracked(owner.nodes, old(owner.additionalClasses), t)
    {
      if owner.FindByType(t, None).None? {
        match t {
          case Object(_) =>
            owner.additionalClasses := owner.additionalClasses + {Descriptor(t)};
          case Array(_) =>
            var desc := Descriptor(t);
            desc := ArrayEntry(desc);
            owner.additionalClasses := owner.additionalClasses + {desc};
          case Primitive(_) =>
        }
      } else {
        owner.additionalClasses := owner.additionalClasses - {Descriptor(t)};
      }
    }

    /** `visitField`. */
    method VisitField(access: bv32, desc: JType)
      requires IsValueType(desc)
      modifies owner`additionalClasses
      ensures owner.additionalClasses ==
        if MemberContributes(isPublicAPI, access) then Tracked(owner.nodes, old(owner.additionalClasses), desc)
        else old(owner.additionalClasses)
    {
      if MemberContributes(isPublicAPI, access) {
        AddToAdditionalClasses(desc);
      }
    }

    /** `visitMethod`: the return type, then each parameter type in order. */
    method VisitMethod(access: bv32, desc: JType)
      requires IsMethodType(desc)
      modifies owner`additionalClasses
      ensures owner.additionalClasses ==
        if MemberContributes(isPublicAPI, access)
        then TrackedAll(owner.nodes, Tracked(owner.nodes, old(owner.additionalClasses), desc.ret), desc.args)
        else old(owner.additionalClasses)
    {
      if MemberContributes(isPublicAPI, access) {
        AddToAdditionalClasses(desc.ret);
        AddAllToAdditionalClasses(desc.args);
      }
    }

    /** The parameter loop of `visitMethod`: each type of `ts` in order. */
    method AddAllToAdditionalClasses(ts: seq<JType>)
      requires AllValueTypes(ts)
      modifies owner`additionalClasses
      ensures owner.additionalClasses == TrackedAll(owner.nodes, old(owner.additionalClasses), ts)
    {
      for i := 0 to |ts|
        invariant owner.additionalClasses == TrackedAll(owner.nodes, old(owner.additionalClasses), ts[..i])
      {
        TrackedAllStep(owner.nodes, old(owner.additionalClasses), ts, i);
        AddToAdditionalClasses(ts[i]);
      }
      assert ts[..|ts|] == ts;
    }

    /** Primary mode: one `addConditionally` per nesting level, outermost
        first, each under the node the previous level returned; the tree
        that results is `ChainFrom`'s, whose shape `NestingChainShape` gives. */
    method AddNestingChain()
      requires owner.Valid() && |innerClassBinaryNameParts| == |innerClassCanonicalNameParts|
      modifies owner`nodes
      ensures owner.Valid()
      ensures owner.nodes ==
        ChainFrom(old(owner.nodes), [], innerClassBinaryNameParts, innerClassCanonicalNameParts).nodes
    {
      var binaryParts := innerClassBinaryNameParts;
      var canonicalParts := innerClassCanonicalNameParts;
      var binaryName := "";
      var canonicalName := "";
      var superType: Option<nat> := None;
      ghost var levels: seq<nat> := [];
      ghost var goal := ChainFrom(owner.nodes, [], binaryParts, canonicalParts);
      for i := 0 to |binaryParts|
        invariant owner.Valid()
        invariant binaryName == Terminated(binaryParts[..i], '$')
        invariant canonicalName == Terminated(canonicalParts[..i], '.')
        invariant |levels| == i && ChainArgs(owner.nodes, levels, binaryParts, canonicalParts)
        invariant superType == LevelScope(levels)
        invariant ChainFrom(owner.nodes, levels, binaryParts, canonicalParts) == goal
      {
        TerminatedStep(binaryParts, i, '$');
        TerminatedStep(canonicalParts, i, '.');
        binaryName := binaryName + binaryParts[i];
        canonicalName := canonicalName + canonicalParts[i];
        ghost var next := NextLevel(owner.nodes, levels, binaryParts, canonicalParts);
        ChainFromUnfold(owner.nodes, levels, binaryParts, canonicalParts);
        var node := owner.AddConditionally(Object(binaryName), canonicalName, superType);
        assert owner.nodes == next.nodes && node == next.index;
        levels := levels + [node];
        superType := Some(node);
        binaryName := binaryName + "$";
        canonicalName := canonicalName + ".";
      }
    }

    /** Closure mode: look each nesting level up below the previous result
        (below the whole tree after a failed lookup), then one
        `addConditionally` for the whole name under the last result. */
    method AddUnderKnownAncestors() returns (node: nat)
      requires Valid() && owner.Valid() && innerClassCanonicalName.Some?
      modifies owner`nodes
      ensures owner.Valid()
      ensures var ins := Insert(old(owner.nodes), Dotted(Join(innerClassBinaryNameParts, '$')),
                                Join(innerClassCanonicalNameParts, '.'),
                                KnownAncestor(old(owner.nodes), innerClassBinaryNameParts, 0, None));
        owner.nodes == ins.nodes && node == ins.index
    {
      var binaryParts := innerClassBinaryNameParts;
      var canonicalParts := innerClassCanonicalNameParts;
      var binaryName := "";
      var canonicalName := "";
      var superType: Option<nat> := None;
      for i := 0 to |binaryParts|
        invariant owner.nodes == old(owner.nodes)
        invariant binaryName == Terminated(binaryParts[..i], '$')
        invariant canonicalName == Terminated(canonicalParts[..i], '.')
        invariant ScopeIn(owner.nodes, superType)
        invariant KnownAncestor(owner.nodes, binaryParts, i, superType) == KnownAncestor(owner.nodes, binaryParts, 0, None)
      {
        TerminatedStep(binaryParts, i, '$');
        TerminatedStep(canonicalParts, i, '.');
        binaryName := binaryName + binaryParts[i];
        canonicalName := canonicalName + canonicalParts[i];
        superType := owner.FindByType(Object(binaryName), superType);
        binaryName := binaryName + "$";
        canonicalName := canonicalName + ".";
      }
      TerminatedDropLast(binaryParts, '$');
      TerminatedDropLast(canonicalParts, '.');
      assert binaryParts[..|binaryParts|] == binaryParts;
      assert canonicalParts[..|canonicalParts|] == canonicalParts;
      binaryName := binaryName[..|binaryName| - 1];
      canonicalName := canonicalName[..|canonicalName| - 1];
      node := owner.AddConditionally(Object(binaryName), canonicalName, superType);
    }

    /** `visitEnd`: a public-API class (in closure mode: one that is also
        pending) goes into the tree as `EndTree` says, and its own descriptor
        leaves the pending set; nothing else in the pending set changes. */
    method VisitEnd()
      requires Valid() && owner.Valid()
      modifies owner
      ensures owner.Valid()
      ensures owner.nodes == EndTree(old(owner.nodes), old(owner.additionalClasses), isPublicAPI,
                                     onlyAddAdditional, mainName, State())
      ensures owner.additionalClasses ==
        if isPublicAPI then old(owner.additionalClasses) - {ObjectDescriptor(mainName)}
        else old(owner.additionalClasses)
    {
      if isPublicAPI {
        var t := Object(mainName);
        if !onlyAddAdditional || Descriptor(t) in owner.additionalClasses {
          if innerClassCanonicalName.None? {
            var _ := owner.AddConditionally(t, Dotted(mainName), None);
          } else if !onlyAddAdditional {
            AddNestingChain();
          } else {
            var _ := AddUnderKnownAncestors();
          }
        }
        owner.additionalClasses := owner.additionalClasses - {Descriptor(t)};
      }
    }
  }
}
