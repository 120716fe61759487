/**
 * What scanning does, as values: the classification of a class file, the
 * pending-set update of its members, the inner-class resolver, the tree
 * update at the end of a class file, and their composition over archives
 * and passes. The classes of `TreeInit` are proved to change their state
 * exactly as these functions say.
 */
module ClassScan {
  import opened Wrappers
  import opened Names
  import opened Descriptors
  import opened ClassTree

  const ACC_PUBLIC: bv32 := 0x0001
  const ACC_PROTECTED: bv32 := 0x0004

  predicate HasPublic(access: bv32) { access & ACC_PUBLIC != 0 }
  predicate HasProtected(access: bv32) { access & ACC_PROTECTED != 0 }

  /** The classification `visit` makes: public or protected flags make a
      class public API; in closure mode a class without them is public API
      when its own descriptor is pending. */
  predicate IsApiClass(onlyAddAdditional: bool, access: bv32, name: string, pending: set<string>)
  {
    HasPublic(access) || HasProtected(access) ||
    (onlyAddAdditional && ObjectDescriptor(name) in pending)
  }

  /** The guard of `visitField` and `visitMethod`, with Java's precedence:
      `isPublicAPI && PUBLIC || PROTECTED`. */
  predicate MemberContributes(isPublicAPI: bool, access: bv32)
  {
    (isPublicAPI && HasPublic(access)) || HasProtected(access)
  }

  /** A protected member feeds the tracker even when its class is not public API. */
  lemma ProtectedMemberOfNonApiClassContributes(access: bv32)
    requires HasProtected(access)
    ensures MemberContributes(false, access)
  {
  }

  /** A public member of a class that is not public API does not. */
  lemma PublicMemberOfNonApiClassIgnored(access: bv32)
    requires !HasProtected(access)
    ensures !MemberContributes(false, access)
  {
  }

  /** In primary mode exactly the public or protected classes are public API. */
  lemma PrimaryModeClassification(access: bv32, name: string, pending: set<string>)
    ensures IsApiClass(false, access, name, pending) <==> HasPublic(access) || HasProtected(access)
  {
  }

  /** In closure mode a class without those flags is public API exactly when it is pending. */
  lemma ClosureModeClassification(access: bv32, name: string, pending: set<string>)
    requires !HasPublic(access) && !HasProtected(access)
    ensures IsApiClass(true, access, name, pending) <==> ObjectDescriptor(name) in pending
  {
  }

  /** The pending set after `addToAdditionalClasses(t)`. A type already in the
      tree clears its own descriptor; otherwise an object type adds its
      descriptor, an array the text after the descriptor's last `[`, and a
      primitive nothing. */
  function Tracked(nodes: seq<TypeElement>, pending: set<string>, t: JType): (r: set<string>)
    requires IsValueType(t)
    ensures forall d :: d != Descriptor(t) && d != ArrayEntry(Descriptor(t)) ==> (d in r <==> d in pending)
  {
    if Find(nodes, ClassName(t), None).Some? then pending - {Descriptor(t)}
    else if t.Object? then pending + {Descriptor(t)}
    else if t.Array? then pending + {ArrayEntry(Descriptor(t))}
    else pending
  }

  /** A type already in the tree is not added; its own descriptor is removed. */
  lemma TrackedKnownType(nodes: seq<TypeElement>, pending: set<string>, t: JType)
    requires IsValueType(t) && Find(nodes, ClassName(t), None).Some?
    ensures Tracked(nodes, pending, t) == pending - {Descriptor(t)}
  {
  }

  /** A missing object type becomes pending under its descriptor. */
  lemma TrackedObject(nodes: seq<TypeElement>, pending: set<string>, n: string)
    requires Find(nodes, Dotted(n), None).None?
    ensures Tracked(nodes, pending, Object(n)) == pending + {ObjectDescriptor(n)}
  {
  }

  /** A missing array type makes its element type pending, whatever its
      number of dimensions. */
  lemma TrackedArray(nodes: seq<TypeElement>, pending: set<string>, t: JType)
    requires t.Array? && IsValueType(t) && BracketFree(t)
    requires Find(nodes, ClassName(t), None).None?
    ensures Tracked(nodes, pending, t) == pending + {Descriptor(Element(t))}
  {
    ArrayEntryIsElement(t);
  }

  /** Primitive types never change the pending set. */
  lemma TrackedPrimitive(nodes: seq<TypeElement>, pending: set<string>, k: PrimitiveKind)
    requires Find(nodes, Keyword(k), None).None?
    ensures Tracked(nodes, pending, Primitive(k)) == pending
  {
  }

  /** A missing array of a primitive type makes the primitive's one-letter
      descriptor pending (`int[]` adds `I`), a key that is no class's own
      descriptor. */
  lemma TrackedPrimitiveArray(nodes: seq<TypeElement>, pending: set<string>, k: PrimitiveKind)
    requires Find(nodes, Keyword(k) + "[]", None).None?
    ensures Tracked(nodes, pending, Array(Primitive(k))) == pending + {[Code(k)]}
    ensures forall n :: ObjectDescriptor(n) != [Code(k)]
  {
    var t := Array(Primitive(k));
    ArrayEntryIsElement(t);
    assert Element(t) == Primitive(k);
    assert ArrayEntry(Descriptor(t)) == [Code(k)];
    assert ClassName(t) == Keyword(k) + "[]";
  }

  /** An array type is looked up under its own class name with `[]`, so an
      array use makes the element class pending even when that class is in
      the tree, where a use of the class itself clears it. Within one pass a
      class that an earlier class file cleared is therefore pending again
      after a later class uses it only as an array element. */
  lemma ArrayUseRependsKnownElement(nodes: seq<TypeElement>, pending: set<string>, n: string)
    requires '[' !in n
    requires Find(nodes, Dotted(n), None).Some?
    requires Find(nodes, Dotted(n) + "[]", None).None?
    ensures Tracked(nodes, pending, Object(n)) == pending - {ObjectDescriptor(n)}
    ensures Tracked(nodes, pending - {ObjectDescriptor(n)}, Array(Object(n))) == pending + {ObjectDescriptor(n)}
  {
    TrackedKnownType(nodes, pending, Object(n));
    ObjectArrayShape(n);
    TrackedArray(nodes, pending - {ObjectDescriptor(n)}, Array(Object(n)));
  }

  lemma ObjectArrayShape(n: string)
    requires '[' !in n
    ensures IsValueType(Array(Object(n))) && BracketFree(Array(Object(n)))
    ensures ClassName(Array(Object(n))) == Dotted(n) + "[]"
    ensures Descriptor(Element(Array(Object(n)))) == ObjectDescriptor(n)
  {
  }

  /** The only pending descriptor a type use can clear is the type's own:
      a pending descriptor of any other value type stays pending. */
  lemma TrackedClearsOnlyOwnDescriptor(nodes: seq<TypeElement>, pending: set<string>, t: JType, u: JType)
    requires IsValueType(t) && IsValueType(u)
    requires Descriptor(u) in pending && Descriptor(u) !in Tracked(nodes, pending, t)
    ensures u == t
  {
    assert Descriptor(u) == Descriptor(t);
    DescriptorInjective(u, t);
  }

  /** When every name in the tree is bracket-free, an array type is never
      found in it, so the removal at the hit branch never applies to arrays,
      and for an array it would remove a key other than the one the miss
      branch adds. */
  lemma ArrayNeverKnown(nodes: seq<TypeElement>, pending: set<string>, t: JType)
    requires t.Array? && IsValueType(t) && BracketFree(t)
    requires forall i :: 0 <= i < |nodes| ==> '[' !in nodes[i].binaryName
    ensures Find(nodes, ClassName(t), None).None?
    ensures ArrayEntry(Descriptor(t)) != Descriptor(t)
  {
    ArrayClassNameHasBracket(t);
    ArrayEntryDiffersFromDescriptor(t);
  }

  /** Every type of `ts` is a value type. */
  predicate AllValueTypes(ts: seq<JType>)
  {
    forall k :: 0 <= k < |ts| ==> IsValueType(ts[k])
  }

  /** The pending set after tracking each type of `ts` in order. */
  function TrackedAll(nodes: seq<TypeElement>, pending: set<string>, ts: seq<JType>): set<string>
    requires AllValueTypes(ts)
  {
    if |ts| == 0 then pending
    else Tracked(nodes, TrackedAll(nodes, pending, ts[..|ts| - 1]), ts[|ts| - 1])
  }

  /** Tracking a list of types touches no entry other than the descriptors of
      those types and their array entries. */
  lemma {:induction false} TrackedAllIsLocal(nodes: seq<TypeElement>, pending: set<string>, ts: seq<JType>, d: string)
    requires AllValueTypes(ts)
    requires forall k :: 0 <= k < |ts| ==> d != Descriptor(ts[k]) && d != ArrayEntry(Descriptor(ts[k]))
    ensures d in TrackedAll(nodes, pending, ts) <==> d in pending
  {
    if |ts| > 0 {
      TrackedAllIsLocal(nodes, pending, ts[..|ts| - 1], d);
    }
  }

  /** Tracking the first `i + 1` types is tracking the first `i` and then type `i`. */
  lemma TrackedAllStep(nodes: seq<TypeElement>, pending: set<string>, ts: seq<JType>, i: nat)
    requires i < |ts| && AllValueTypes(ts)
    ensures AllValueTypes(ts[..i]) && AllValueTypes(ts[..i + 1])
    ensures TrackedAll(nodes, pending, ts[..i + 1]) == Tracked(nodes, TrackedAll(nodes, pending, ts[..i]), ts[i])
  {
    assert ts[..i + 1][..i] == ts[..i];
  }

  /** Level `k` of `levels` is the node named by the first `k + 1` binary
      parts joined with `$`. */
  ghost predicate ChainNamed(nodes: seq<TypeElement>, levels: seq<nat>, bin: seq<string>)
    requires |levels| <= |bin|
  {
    forall k :: 0 <= k < |levels| ==>
      levels[k] < |nodes| && nodes[levels[k]].binaryName == Dotted(Join(bin[..k + 1], '$'))
  }

  /** Each level lies below the level before it. */
  ghost predicate ChainLinked(nodes: seq<TypeElement>, levels: seq<nat>)
  {
    forall k :: 0 < k < |levels| ==> IsDescendant(nodes, levels[k], levels[k - 1])
  }

  /** A level at or past position `base` (created by the current insertion)
      carries the first `k + 1` canonical parts joined with `.`. */
  ghost predicate ChainCanonical(nodes: seq<TypeElement>, levels: seq<nat>, canon: seq<string>, base: nat)
    requires |levels| <= |canon|
  {
    forall k :: 0 <= k < |levels| && levels[k] >= base && levels[k] < |nodes| ==>
      nodes[levels[k]].canonicalName == Join(canon[..k + 1], '.')
  }

  /** `levels` are the nodes of the nesting levels of a nested class, outermost first. */
  ghost predicate IsChain(nodes: seq<TypeElement>, levels: seq<nat>, bin: seq<string>, canon: seq<string>, base: nat)
  {
    |levels| <= |bin| && |levels| <= |canon| &&
    ChainNamed(nodes, levels, bin) && ChainLinked(nodes, levels) && ChainCanonical(nodes, levels, canon, base)
  }

  lemma ChainNamedExtend(nodes: seq<TypeElement>, ext: seq<TypeElement>, levels: seq<nat>, node: nat, bin: seq<string>)
    requires |levels| < |bin| && ChainNamed(nodes, levels, bin) && nodes <= ext
    requires node < |ext| && ext[node].binaryName == Dotted(Join(bin[..|levels| + 1], '$'))
    ensures ChainNamed(ext, levels + [node], bin)
  {
    var l := levels + [node];
    forall k | 0 <= k < |l|
      ensures l[k] < |ext| && ext[l[k]].binaryName == Dotted(Join(bin[..k + 1], '$'))
    {
      if k < |levels| {
        assert l[k] == levels[k] && ext[levels[k]] == nodes[levels[k]];
      }
    }
  }

  lemma ChainLinkedExtend(nodes: seq<TypeElement>, ext: seq<TypeElement>, levels: seq<nat>, node: nat)
    requires ChainLinked(nodes, levels) && nodes <= ext
    requires forall k :: 0 <= k < |levels| ==> levels[k] < |nodes|
    requires |levels| > 0 ==> IsDescendant(ext, node, levels[|levels| - 1])
    ensures ChainLinked(ext, levels + [node])
  {
    var l := levels + [node];
    forall k | 0 < k < |l|
      ensures IsDescendant(ext, l[k], l[k - 1])
    {
      if k < |levels| {
        assert l[k] == levels[k] && l[k - 1] == levels[k - 1];
        DescendantPrefix(nodes, ext, levels[k], levels[k - 1]);
      }
    }
  }

  lemma ChainCanonicalExtend(nodes: seq<TypeElement>, ext: seq<TypeElement>, levels: seq<nat>, node: nat,
                             canon: seq<string>, base: nat)
    requires |levels| < |canon| && ChainCanonical(nodes, levels, canon, base) && nodes <= ext
    requires forall k :: 0 <= k < |levels| ==> levels[k] < |nodes|
    requires node < |ext| && (node >= base ==> ext[node].canonicalName == Join(canon[..|levels| + 1], '.'))
    ensures ChainCanonical(ext, levels + [node], canon, base)
  {
    var l := levels + [node];
    forall k | 0 <= k < |l| && l[k] >= base && l[k] < |ext|
      ensures ext[l[k]].canonicalName == Join(canon[..k + 1], '.')
    {
      if k < |levels| {
        assert l[k] == levels[k] && ext[levels[k]] == nodes[levels[k]];
      }
    }
  }

  /** A chain survives appending nodes and grows by a node for the next level. */
  lemma ChainExtend(nodes: seq<TypeElement>, ext: seq<TypeElement>, levels: seq<nat>, node: nat,
                    bin: seq<string>, canon: seq<string>, base: nat)
    requires IsChain(nodes, levels, bin, canon, base) && nodes <= ext
    requires |levels| < |bin| && |levels| < |canon|
    requires node < |ext| && ext[node].binaryName == Dotted(Join(bin[..|levels| + 1], '$'))
    requires |levels| > 0 ==> IsDescendant(ext, node, levels[|levels| - 1])
    requires node >= base ==> ext[node].canonicalName == Join(canon[..|levels| + 1], '.')
    ensures IsChain(ext, levels + [node], bin, canon, base)
  {
    ChainNamedExtend(nodes, ext, levels, node, bin);
    ChainLinkedExtend(nodes, ext, levels, node);
    ChainCanonicalExtend(nodes, ext, levels, node, canon, base);
  }

  /** Inner-class table record: (name, outerName, innerName, access). */
  datatype InnerClassRecord = InnerClassRecord(name: string, outerName: Option<string>, innerName: Option<string>, access: bv32)
  datatype FieldRecord = FieldRecord(access: bv32, name: string, desc: JType)
  datatype MethodRecord = MethodRecord(access: bv32, name: string, desc: JType)

  /** One class file as the parser reports it. */
  datatype ClassUnit = ClassUnit(
    access: bv32,
    name: string,
    innerClasses: seq<InnerClassRecord>,
    fields: seq<FieldRecord>,
    methods: seq<MethodRecord>)

  /** Field descriptors are value types. */
  predicate FieldTypesValid(fields: seq<FieldRecord>)
  {
    forall k :: 0 <= k < |fields| ==> IsValueType(fields[k].desc)
  }

  /** Method descriptors are method types. */
  predicate MethodTypesValid(methods: seq<MethodRecord>)
  {
    forall k :: 0 <= k < |methods| ==> IsMethodType(methods[k].desc)
  }

  /** What the parser guarantees of a class file: its field and method
      descriptors are well formed. */
  predicate WellFormedUnit(u: ClassUnit)
  {
    FieldTypesValid(u.fields) && MethodTypesValid(u.methods)
  }

  /** An entry of a zip archive, with the class file its bytes decode to. */
  datatype ZipEntry = ZipEntry(name: string, isDirectory: bool, unit: ClassUnit)

  /** An archive, given both as the entries of a zip stream over its bytes
      and as the class file those bytes decode to; which view is used depends
      on the archive's name. */
  datatype Archive = Archive(name: string, entries: seq<ZipEntry>, unit: ClassUnit)

  predicate WellFormedArchive(a: Archive)
  {
    WellFormedUnit(a.unit) && forall k :: 0 <= k < |a.entries| ==> WellFormedUnit(a.entries[k].unit)
  }
  /** Every archive of a group is well formed. */
  predicate AllWellFormed(group: seq<Archive>)
  {
    forall k :: 0 <= k < |group| ==> WellFormedArchive(group[k])
  }

  // ----- The members of a class file -----

  /** The pending set after `visitField` for the first `n` fields. */
  function FieldsTracked(nodes: seq<TypeElement>, pending: set<string>, isPublicAPI: bool,
                         fields: seq<FieldRecord>, n: nat): set<string>
    requires n <= |fields| && FieldTypesValid(fields)
  {
    if n == 0 then pending
    else
      var before := FieldsTracked(nodes, pending, isPublicAPI, fields, n - 1);
      var f := fields[n - 1];
      if MemberContributes(isPublicAPI, f.access) then Tracked(nodes, before, f.desc) else before
  }

  /** The pending set after `visitMethod` for the first `n` methods: the
      return type, then each parameter type. */
  function MethodsTracked(nodes: seq<TypeElement>, pending: set<string>, isPublicAPI: bool,
                          methods: seq<MethodRecord>, n: nat): set<string>
    requires n <= |methods| && MethodTypesValid(methods)
  {
    if n == 0 then pending
    else
      var before := MethodsTracked(nodes, pending, isPublicAPI, methods, n - 1);
      var m := methods[n - 1];
      if MemberContributes(isPublicAPI, m.access)
      then TrackedAll(nodes, Tracked(nodes, before, m.desc.ret), m.desc.args)
      else before
  }

  /** A type leaves entry `d` alone: `d` is neither its descriptor nor its array entry. */
  predicate Avoids(t: JType, d: string)
  {
    d != Descriptor(t) && d != ArrayEntry(Descriptor(t))
  }

  /** No contributing field among the first `n` mentions `d`. */
  predicate FieldsAvoid(isPublicAPI: bool, fields: seq<FieldRecord>, n: nat, d: string)
  {
    forall k :: 0 <= k < n && k < |fields| && MemberContributes(isPublicAPI, fields[k].access) ==>
      Avoids(fields[k].desc, d)
  }

  /** No contributing method among the first `n` mentions `d`, neither as
      return type nor as parameter type. */
  predicate MethodsAvoid(isPublicAPI: bool, methods: seq<MethodRecord>, n: nat, d: string)
  {
    forall k :: 0 <= k < n && k < |methods| && MemberContributes(isPublicAPI, methods[k].access) &&
                methods[k].desc.Method? ==>
      Avoids(methods[k].desc.ret, d) &&
      forall j :: 0 <= j < |methods[k].desc.args| ==> Avoids(methods[k].desc.args[j], d)
  }

  /** Fields only touch the entries of the types they mention. */
  lemma {:induction false} FieldsTrackedIsLocal(nodes: seq<TypeElement>, pending: set<string>, isPublicAPI: bool,
                                                fields: seq<FieldRecord>, n: nat, d: string)
    requires n <= |fields| && FieldTypesValid(fields)
    requires FieldsAvoid(isPublicAPI, fields, n, d)
    ensures d in FieldsTracked(nodes, pending, isPublicAPI, fields, n) <==> d in pending
  {
    if n > 0 {
      FieldsTrackedIsLocal(nodes, pending, isPublicAPI, fields, n - 1, d);
    }
  }

  /** Methods only touch the entries of the types they mention. */
  lemma {:induction false} MethodsTrackedIsLocal(nodes: seq<TypeElement>, pending: set<string>, isPublicAPI: bool,
                                                 methods: seq<MethodRecord>, n: nat, d: string)
    requires n <= |methods| && MethodTypesValid(methods)
    requires MethodsAvoid(isPublicAPI, methods, n, d)
    ensures d in MethodsTracked(nodes, pending, isPublicAPI, methods, n) <==> d in pending
  {
    if n > 0 {
      MethodsTrackedIsLocal(nodes, pending, isPublicAPI, methods, n - 1, d);
      var m := methods[n - 1];
      if MemberContributes(isPublicAPI, m.access) {
        var before := MethodsTracked(nodes, pending, isPublicAPI, methods, n - 1);
        TrackedAllIsLocal(nodes, Tracked(nodes, before, m.desc.ret), m.desc.args, d);
      }
    }
  }

  // ----- The inner-class resolver -----

  /** The visitor's resolver state: the canonical-name builder (absent until
      seeded), the canonical and binary part lists, and the traversal
      position in the class name. */
  datatype ResolverState = ResolverState(canonical: Option<string>, canonParts: seq<string>,
                                         binParts: seq<string>, pos: nat)

  /** The state before any inner-class record. */
  const Unseeded := ResolverState(None, [], [], 0)

  /** The two part lists have equal length; the first canonical part is the
      dotted outer name and the later parts agree; the builder is the
      canonical parts joined with `.`; the position is one past the binary
      parts joined with `$`, which has the builder's length. */
  ghost predicate ResolverValid(r: ResolverState)
  {
    |r.binParts| == |r.canonParts| &&
    (r.canonical.None? ==> r.binParts == []) &&
    (r.canonical.Some? ==>
      |r.binParts| >= 1 &&
      r.canonParts[0] == Dotted(r.binParts[0]) &&
      (forall k :: 1 <= k < |r.binParts| ==> r.canonParts[k] == r.binParts[k]) &&
      r.canonical.value == Join(r.canonParts, '.') &&
      r.pos == |Join(r.binParts, '$')| + 1 &&
      |r.canonical.value| == |Join(r.binParts, '$')|)
  }

  /** The state the first record with an outer name seeds. */
  function Seed(outerName: string): (r: ResolverState)
    ensures ResolverValid(r) && r.canonical.Some?
  {
    ResolverState(Some(Dotted(outerName)), [Dotted(outerName)], [outerName], |outerName| + 1)
  }

  /** The length guard and the `containsAt` test: the inner name is appended
      when the canonical name so far is shorter than the class name and
      matches at the traversal position. */
  function Offer(r: ResolverState, mainName: string, innerName: string): (r': ResolverState)
    requires ResolverValid(r) && r.canonical.Some?
    ensures ResolverValid(r') && r'.canonical.Some?
  {
    if |r.canonical.value| < |mainName| && MatchesAt(mainName, innerName, r.pos) then
      assert (r.canonParts + [innerName])[..|r.canonParts|] == r.canonParts;
      assert (r.binParts + [innerName])[..|r.binParts|] == r.binParts;
      ResolverState(Some(r.canonical.value + "." + innerName), r.canonParts + [innerName],
                    r.binParts + [innerName], r.pos + |innerName| + 1)
    else r
  }

  /** `visitInnerClass` on a record, with `active` the visitor's
      `isPublicAPI && maybeInner`: records without an inner name, and the
      records before the first one with an outer name, change nothing. */
  function ResolveStep(r: ResolverState, mainName: string, active: bool, rec: InnerClassRecord): (r': ResolverState)
    requires ResolverValid(r)
    ensures ResolverValid(r')
  {
    if !active || rec.innerName.None? then r
    else if r.canonical.Some? then Offer(r, mainName, rec.innerName.value)
    else if rec.outerName.None? then r
    else Offer(Seed(rec.outerName.value), mainName, rec.innerName.value)
  }

  /** The resolver state after the first `n` inner-class records. */
  function Resolved(mainName: string, active: bool, recs: seq<InnerClassRecord>, n: nat): (r: ResolverState)
    requires n <= |recs|
    ensures ResolverValid(r)
  {
    if n == 0 then Unseeded
    else ResolveStep(Resolved(mainName, active, recs, n - 1), mainName, active, recs[n - 1])
  }

  /** Every part after the first was matched against the class name: it
      agrees with the name at the offset where the parts before it end, up
      to a `$` or the end of the name. The first part, the seed, is not
      compared with the class name. */
  ghost predicate PartsFollow(parts: seq<string>, mainName: string)
  {
    forall k :: 1 <= k < |parts| ==> SegmentFollows(parts[..k], parts[k], mainName)
  }

  /** `part` agrees with the class name right after the parts `before`
      joined with `$`, and those are shorter than the class name. */
  predicate SegmentFollows(before: seq<string>, part: string, mainName: string)
  {
    |Join(before, '$')| < |mainName| && MatchesAt(mainName, part, |Join(before, '$')| + 1)
  }

  ghost predicate FollowsName(r: ResolverState, mainName: string)
  {
    PartsFollow(r.binParts, mainName)
  }

  lemma PartsFollowAppend(parts: seq<string>, mainName: string, x: string)
    requires PartsFollow(parts, mainName)
    requires SegmentFollows(parts, x, mainName)
    ensures PartsFollow(parts + [x], mainName)
  {
    var b := parts + [x];
    assert b[..|parts|] == parts;
    forall k | 1 <= k < |b|
      ensures SegmentFollows(b[..k], b[k], mainName)
    {
      if k < |parts| {
        assert b[..k] == parts[..k];
        assert b[k] == parts[k];
      }
    }
  }

  lemma OfferFollowsName(r: ResolverState, mainName: string, innerName: string)
    requires ResolverValid(r) && r.canonical.Some? && FollowsName(r, mainName)
    ensures FollowsName(Offer(r, mainName, innerName), mainName)
  {
    if |r.canonical.value| < |mainName| && MatchesAt(mainName, innerName, r.pos) {
      PartsFollowAppend(r.binParts, mainName, innerName);
    }
  }

  /** One record keeps the resolved parts following the class name. */
  lemma ResolveStepFollowsName(r: ResolverState, mainName: string, active: bool, rec: InnerClassRecord)
    requires ResolverValid(r) && FollowsName(r, mainName)
    ensures FollowsName(ResolveStep(r, mainName, active, rec), mainName)
  {
    if active && rec.innerName.Some? {
      if r.canonical.Some? {
        OfferFollowsName(r, mainName, rec.innerName.value);
      } else if rec.outerName.Some? {
        var seed := Seed(rec.outerName.value);
        assert FollowsName(seed, mainName);
        OfferFollowsName(seed, mainName, rec.innerName.value);
      }
    }
  }

  /** Whatever the records, the resolved parts follow the class name. */
  lemma {:induction false} ResolvedFollowsName(mainName: string, active: bool, recs: seq<InnerClassRecord>, n: nat)
    requires n <= |recs|
    ensures FollowsName(Resolved(mainName, active, recs, n), mainName)
  {
    if n > 0 {
      ResolvedFollowsName(mainName, active, recs, n - 1);
      ResolveStepFollowsName(Resolved(mainName, active, recs, n - 1), mainName, active, recs[n - 1]);
    }
  }

  /** The records of the example below: an unrelated nested class of `p/Q`
      first, then the visited class `p/O$I` itself. */
  function SiblingRecords(): seq<InnerClassRecord>
  {
    [InnerClassRecord("p/Q$R", Some("p/Q"), Some("R"), 0), InnerClassRecord("p/O$I", Some("p/O"), Some("I"), 0)]
  }

  lemma SiblingSeeds()
    ensures Resolved("p/O$I", true, SiblingRecords(), 1) == Seed("p/Q")
  {
    var s := Seed("p/Q");
    assert |s.canonical.value| == 3;
    assert !MatchesAt("p/O$I", "R", 4) by {
      assert Overlap("p/O$I", "R", 4) == 1;
      assert "p/O$I"[4] != "R"[0];
    }
  }

  lemma SiblingAccepts()
    ensures Offer(Seed("p/Q"), "p/O$I", "I").binParts == ["p/Q", "I"]
  {
    var s := Seed("p/Q");
    assert |s.canonical.value| == 3;
    assert MatchesAt("p/O$I", "I", 4) by {
      assert Overlap("p/O$I", "I", 4) == 1;
    }
  }

  lemma SiblingLeafName()
    ensures Dotted(Join(["p/Q", "I"], '$')) == "p.Q$I"
  {
    assert Join(["p/Q", "I"], '$') == "p/Q$I" by {
      assert ["p/Q", "I"][..1] == ["p/Q"];
    }
    var d := Dotted("p/Q$I");
    assert d[0] == 'p' && d[1] == '.' && d[2] == 'Q' && d[3] == '$' && d[4] == 'I';
  }

  /** The seed is taken from the first record with an outer name, whatever
      class that record describes: for `p/O$I`, a record of the unrelated
      `p/Q$R` followed by the record of `p/O$I` resolves to the parts
      `p/Q`, `I`, so the class would enter the tree as `p.Q$I`. */
  lemma SeedIsNotChecked()
    ensures Resolved("p/O$I", true, SiblingRecords(), 2).binParts == ["p/Q", "I"]
    ensures Dotted(Join(Resolved("p/O$I", true, SiblingRecords(), 2).binParts, '$')) == "p.Q$I"
  {
    SiblingSeeds();
    SiblingAccepts();
    SiblingLeafName();
  }

  /** Segment `i + 1` of a name joined with `$` passes `containsAt` right
      after the first `i + 1` segments, which are shorter than the name. */
  lemma NextSegmentMatches(segs: seq<string>, i: nat)
    requires i + 1 < |segs|
    ensures SegmentFollows(segs[..i + 1], segs[i + 1], Join(segs, '$'))
  {
    JoinNextPart(segs, i);
  }

  /** An offer that passes the length guard and `containsAt` appends the
      inner name to the binary parts. */
  lemma OfferAccepts(r: ResolverState, mainName: string, innerName: string)
    requires ResolverValid(r) && r.canonical.Some?
    requires SegmentFollows(r.binParts, innerName, mainName)
    ensures Offer(r, mainName, innerName).canonical.Some?
    ensures Offer(r, mainName, innerName).binParts == r.binParts + [innerName]
  {
  }

  /** A seeded state whose binary parts are the first `i + 1` segments of the
      class name accepts the next segment. */
  lemma OfferNextSegment(r: ResolverState, segs: seq<string>, i: nat)
    requires ResolverValid(r) && r.canonical.Some?
    requires i + 1 < |segs| && r.binParts == segs[..i + 1]
    ensures Offer(r, Join(segs, '$'), segs[i + 1]).canonical.Some?
    ensures Offer(r, Join(segs, '$'), segs[i + 1]).binParts == segs[..i + 2]
  {
    NextSegmentMatches(segs, i);
    OfferAccepts(r, Join(segs, '$'), segs[i + 1]);
    TakeOneMore(segs, i + 1);
  }

  /** The first record, when it names an outer and an inner class, seeds
      the resolver and offers the inner name. */
  lemma FirstRecordOffers(mainName: string, recs: seq<InnerClassRecord>)
    requires |recs| >= 1 && recs[0].outerName.Some? && recs[0].innerName.Some?
    ensures Resolved(mainName, true, recs, 1)
         == Offer(Seed(recs[0].outerName.value), mainName, recs[0].innerName.value)
  {
  }

  /** After the first `n` records, the resolver for the class name joined
      from `segs` is seeded and holds the first `n + 1` segments. */
  ghost predicate ResolvedTo(segs: seq<string>, recs: seq<InnerClassRecord>, n: nat)
  {
    n <= |recs| && n < |segs| &&
    var r := Resolved(Join(segs, '$'), true, recs, n);
    r.canonical.Some? && r.binParts == segs[..n + 1]
  }

  /** The first `n` records carry the inner names `segs[1]` to `segs[n]`. */
  ghost predicate CarriesInnerNames(segs: seq<string>, recs: seq<InnerClassRecord>, n: nat)
  {
    n <= |recs| && n < |segs| && forall k :: 0 <= k < n ==> recs[k].innerName == Some(segs[k + 1])
  }

  /** The first record seeds the resolver with the outermost class and
      offers the first inner name. */
  lemma FirstRecordSeeds(segs: seq<string>, recs: seq<InnerClassRecord>)
    requires 1 <= |recs| && 1 < |segs|
    requires recs[0].outerName == Some(segs[0]) && recs[0].innerName == Some(segs[1])
    ensures ResolvedTo(segs, recs, 1)
  {
    FirstRecordOffers(Join(segs, '$'), recs);
    TakeOneMore(segs, 0);
    OfferNextSegment(Seed(segs[0]), segs, 0);
  }

  /** A later record offers the next inner name to the seeded resolver. */
  lemma LaterRecordExtends(segs: seq<string>, recs: seq<InnerClassRecord>, n: nat)
    requires 2 <= n <= |recs| && n < |segs|
    requires ResolvedTo(segs, recs, n - 1)
    requires recs[n - 1].innerName == Some(segs[n])
    ensures ResolvedTo(segs, recs, n)
  {
    var m := Join(segs, '$');
    var prev := Resolved(m, true, recs, n - 1);
    assert Resolved(m, true, recs, n) == Offer(prev, m, segs[n]);
    OfferNextSegment(prev, segs, n - 1);
  }

  /** Records that name the outermost class first and then each inner name
      in turn resolve, after the first `n` of them, to the first `n + 1`
      segments of the class name. Only the first record's outer name is
      consulted. */
  lemma {:induction false} ResolvedSegments(segs: seq<string>, recs: seq<InnerClassRecord>, n: nat)
    requires 1 <= n && CarriesInnerNames(segs, recs, n)
    requires recs[0].outerName == Some(segs[0])
    ensures ResolvedTo(segs, recs, n)
  {
    assert recs[n - 1].innerName == Some(segs[n]);
    if n == 1 {
      FirstRecordSeeds(segs, recs);
    } else {
      assert CarriesInnerNames(segs, recs, n - 1);
      ResolvedSegments(segs, recs, n - 1);
      LaterRecordExtends(segs, recs, n);
    }
  }

  /** What the resolver is for: a class `S0$S1$...$Sk` whose records name
      each level once, outermost first, ends with the segments as its binary
      parts and, as its canonical parts, the dotted outer name followed by
      the inner names. */
  lemma ResolvedNestingParts(segs: seq<string>, recs: seq<InnerClassRecord>)
    requires |recs| >= 1 && |segs| == |recs| + 1
    requires recs[0].outerName == Some(segs[0])
    requires forall k :: 0 <= k < |recs| ==> recs[k].innerName == Some(segs[k + 1])
    ensures Resolved(Join(segs, '$'), true, recs, |recs|).canonical.Some?
    ensures Resolved(Join(segs, '$'), true, recs, |recs|).binParts == segs
    ensures Resolved(Join(segs, '$'), true, recs, |recs|).canonParts == [Dotted(segs[0])] + segs[1..]
  {
    assert CarriesInnerNames(segs, recs, |recs|);
    ResolvedSegments(segs, recs, |recs|);
    assert segs[..|recs| + 1] == segs;
    CanonicalParts(Resolved(Join(segs, '$'), true, recs, |recs|));
  }

  /** A seeded resolver's canonical parts are its dotted first binary part
      followed by its other binary parts. */
  lemma CanonicalParts(r: ResolverState)
    requires ResolverValid(r) && r.canonical.Some?
    ensures r.canonParts == [Dotted(r.binParts[0])] + r.binParts[1..]
  {
  }

  /** The records of `p/O$I$D`, outermost first. */
  function ThreeLevelRecords(): seq<InnerClassRecord>
  {
    [InnerClassRecord("p/O$I", Some("p/O"), Some("I"), 0), InnerClassRecord("p/O$I$D", Some("p/O$I"), Some("D"), 0)]
  }

  lemma ThreeLevelJoins()
    ensures Join(["p/O", "I", "D"], '$') == "p/O$I$D"
    ensures Join(["p/O", "I"], '$') == "p/O$I"
    ensures Join(["p.O", "I", "D"], '.') == "p.O.I.D"
    ensures Join(["p.O", "I"], '.') == "p.O.I"
    ensures Dotted("p/O") == "p.O" && Dotted("p/O$I") == "p.O$I" && Dotted("p/O$I$D") == "p.O$I$D"
  {
    assert ["p/O", "I", "D"][..2] == ["p/O", "I"];
    assert ["p/O", "I"][..1] == ["p/O"];
    assert ["p.O", "I", "D"][..2] == ["p.O", "I"];
    assert ["p.O", "I"][..1] == ["p.O"];
  }

  /** A level whose name is not yet under the previous level is appended
      with that name, its canonical name and the previous level as parent. */
  lemma ChainFromAppends(nodes: seq<TypeElement>, levels: seq<nat>, bin: seq<string>, canon: seq<string>,
                         name: string, canonName: string)
    requires ChainArgs(nodes, levels, bin, canon) && |levels| < |bin|
    requires Dotted(Join(bin[..|levels| + 1], '$')) == name && Join(canon[..|levels| + 1], '.') == canonName
    requires Find(nodes, name, LevelScope(levels)).None?
    ensures ChainArgs(nodes + [TypeElement(name, canonName, LevelScope(levels))], levels + [|nodes|], bin, canon)
    ensures ChainFrom(nodes, levels, bin, canon)
         == ChainFrom(nodes + [TypeElement(name, canonName, LevelScope(levels))], levels + [|nodes|], bin, canon)
  {
    ChainFromUnfold(nodes, levels, bin, canon);
  }

  const ThreeBin: seq<string> := ["p/O", "I", "D"]
  const ThreeCanon: seq<string> := ["p.O", "I", "D"]
  const ThreeNode0 := TypeElement("p.O", "p.O", None)
  const ThreeNode1 := TypeElement("p.O$I", "p.O.I", Some(0))
  const ThreeNode2 := TypeElement("p.O$I$D", "p.O.I.D", Some(1))

  lemma ThreeLevelNames()
    ensures Dotted(Join(ThreeBin[..1], '$')) == "p.O" && Join(ThreeCanon[..1], '.') == "p.O"
    ensures Dotted(Join(ThreeBin[..2], '$')) == "p.O$I" && Join(ThreeCanon[..2], '.') == "p.O.I"
    ensures Dotted(Join(ThreeBin[..3], '$')) == "p.O$I$D" && Join(ThreeCanon[..3], '.') == "p.O.I.D"
  {
    ThreeLevelJoins();
    assert ThreeBin[..1] == ["p/O"] && ThreeCanon[..1] == ["p.O"];
    assert ThreeBin[..2] == ["p/O", "I"] && ThreeCanon[..2] == ["p.O", "I"];
    assert ThreeBin[..3] == ThreeBin && ThreeCanon[..3] == ThreeCanon;
  }

  lemma ThreeLevelAbsent()
    ensures Find([], "p.O", None).None?
    ensures Find([ThreeNode0], "p.O$I", Some(0)).None?
    ensures Find([ThreeNode0, ThreeNode1], "p.O$I$D", Some(1)).None?
  {
    assert !IsDescendant([ThreeNode0], 0, 0);
    var n2 := [ThreeNode0, ThreeNode1];
    assert !IsDescendant(n2, 0, 1) && !IsDescendant(n2, 1, 1);
  }

  lemma ThreeLevelFirst()
    ensures ChainArgs([ThreeNode0], [0], ThreeBin, ThreeCanon)
    ensures ChainFrom([], [], ThreeBin, ThreeCanon) == ChainFrom([ThreeNode0], [0], ThreeBin, ThreeCanon)
  {
    ThreeLevelNames();
    ThreeLevelAbsent();
    ChainFromAppends([], [], ThreeBin, ThreeCanon, "p.O", "p.O");
    assert [] + [ThreeNode0] == [ThreeNode0] && [] + [0] == [0];
  }

  lemma ThreeLevelSecond()
    requires ChainArgs([ThreeNode0], [0], ThreeBin, ThreeCanon)
    ensures ChainArgs([ThreeNode0, ThreeNode1], [0, 1], ThreeBin, ThreeCanon)
    ensures ChainFrom([ThreeNode0], [0], ThreeBin, ThreeCanon)
         == ChainFrom([ThreeNode0, ThreeNode1], [0, 1], ThreeBin, ThreeCanon)
  {
    ThreeLevelNames();
    ThreeLevelAbsent();
    ChainFromAppends([ThreeNode0], [0], ThreeBin, ThreeCanon, "p.O$I", "p.O.I");
    assert [ThreeNode0] + [ThreeNode1] == [ThreeNode0, ThreeNode1] && [0] + [1] == [0, 1];
  }

  lemma ThreeLevelThird()
    requires ChainArgs([ThreeNode0, ThreeNode1], [0, 1], ThreeBin, ThreeCanon)
    ensures ChainFrom([ThreeNode0, ThreeNode1], [0, 1], ThreeBin, ThreeCanon)
         == Chain([ThreeNode0, ThreeNode1, ThreeNode2], [0, 1, 2])
  {
    ThreeLevelNames();
    ThreeLevelAbsent();
    var n2 := [ThreeNode0, ThreeNode1];
    ChainFromAppends(n2, [0, 1], ThreeBin, ThreeCanon, "p.O$I$D", "p.O.I.D");
    assert n2 + [ThreeNode2] == [ThreeNode0, ThreeNode1, ThreeNode2] && [0, 1] + [2] == [0, 1, 2];
  }

  /** The primary-mode chain of the parts `p/O`, `I`, `D` on an empty tree:
      `p.O`, then `p.O$I` under it, then `p.O$I$D` under that, with the
      canonical names `p.O`, `p.O.I` and `p.O.I.D`. */
  lemma ThreeLevelTree()
    ensures ChainFrom([], [], ["p/O", "I", "D"], ["p.O", "I", "D"]).nodes
         == [TypeElement("p.O", "p.O", None), TypeElement("p.O$I", "p.O.I", Some(0)),
             TypeElement("p.O$I$D", "p.O.I.D", Some(1))]
  {
    ThreeLevelFirst();
    ThreeLevelSecond();
    ThreeLevelThird();
  }

  /** The records of `p/O$I$D`, outermost first, resolve to the parts
      `p/O`, `I`, `D` and the canonical parts `p.O`, `I`, `D`. */
  lemma ThreeLevelResolved()
    ensures Resolved("p/O$I$D", true, ThreeLevelRecords(), 2).canonical.Some?
    ensures Resolved("p/O$I$D", true, ThreeLevelRecords(), 2).binParts == ThreeBin
    ensures Resolved("p/O$I$D", true, ThreeLevelRecords(), 2).canonParts == ThreeCanon
  {
    ThreeLevelJoins();
    ResolvedNestingParts(ThreeBin, ThreeLevelRecords());
    assert [Dotted(ThreeBin[0])] + ThreeBin[1..] == ThreeCanon;
  }

  /** `p/O$I$D`, public API in primary mode with its records outermost
      first, enters an empty tree as that three-level chain. */
  lemma ThreeLevelChain()
    ensures EndTree([], {}, true, false, "p/O$I$D", Resolved("p/O$I$D", true, ThreeLevelRecords(), 2))
         == [TypeElement("p.O", "p.O", None), TypeElement("p.O$I", "p.O.I", Some(0)),
             TypeElement("p.O$I$D", "p.O.I.D", Some(1))]
  {
    ThreeLevelResolved();
    ThreeLevelTree();
    var res := Resolved("p/O$I$D", true, ThreeLevelRecords(), 2);
    assert EndTree([], {}, true, false, "p/O$I$D", res) == ChainFrom([], [], res.binParts, res.canonParts).nodes;
  }

  /** The records of `p/O$I$D` innermost first. */
  function SwappedRecords(): seq<InnerClassRecord>
  {
    [ThreeLevelRecords()[1], ThreeLevelRecords()[0]]
  }

  /** The first of them seeds the resolver with `p/O$I` and `D` is accepted
      after it, which fills the class name's length. */
  lemma SwappedSeedAccepts()
    ensures Resolved("p/O$I$D", true, SwappedRecords(), 1).canonical.Some?
    ensures Resolved("p/O$I$D", true, SwappedRecords(), 1).binParts == SwappedBin
    ensures |Resolved("p/O$I$D", true, SwappedRecords(), 1).canonical.value| == 7
  {
    FirstRecordOffers("p/O$I$D", SwappedRecords());
    var s := Seed("p/O$I");
    assert |s.canonical.value| == 5;
    assert MatchesAt("p/O$I$D", "D", 6) by {
      assert Overlap("p/O$I$D", "D", 6) == 1;
    }
    assert Offer(s, "p/O$I$D", "D").binParts == SwappedBin;
  }

  /** The same records innermost first: the seed is `p/O$I`, `D` is accepted
      after it, and `I` is then refused because the canonical name already
      has the class name's length. */
  lemma InnermostFirstParts()
    ensures Resolved("p/O$I$D", true, SwappedRecords(), 2).binParts == SwappedBin
    ensures Resolved("p/O$I$D", true, SwappedRecords(), 2).canonParts == SwappedCanon
  {
    SwappedSeedAccepts();
    var r1 := Resolved("p/O$I$D", true, SwappedRecords(), 1);
    assert Resolved("p/O$I$D", true, SwappedRecords(), 2) == r1;
    CanonicalParts(r1);
    ThreeLevelJoins();
    assert [Dotted(SwappedBin[0])] + SwappedBin[1..] == SwappedCanon;
  }

  const SwappedBin: seq<string> := ["p/O$I", "D"]
  const SwappedCanon: seq<string> := ["p.O$I", "D"]
  const SwappedNode0 := TypeElement("p.O$I", "p.O$I", None)
  const SwappedNode1 := TypeElement("p.O$I$D", "p.O$I.D", Some(0))

  lemma SwappedNames()
    ensures Dotted(Join(SwappedBin[..1], '$')) == "p.O$I" && Join(SwappedCanon[..1], '.') == "p.O$I"
    ensures Dotted(Join(SwappedBin[..2], '$')) == "p.O$I$D" && Join(SwappedCanon[..2], '.') == "p.O$I.D"
  {
    ThreeLevelJoins();
    assert SwappedBin[..1] == ["p/O$I"] && SwappedCanon[..1] == ["p.O$I"];
    assert SwappedBin[..2] == SwappedBin && SwappedCanon[..2] == SwappedCanon;
    assert Join(SwappedBin, '$') == "p/O$I$D";
    assert Join(SwappedCanon, '.') == "p.O$I.D";
  }

  lemma SwappedAbsent()
    ensures Find([], "p.O$I", None).None?
    ensures Find([SwappedNode0], "p.O$I$D", Some(0)).None?
  {
    assert !IsDescendant([SwappedNode0], 0, 0);
  }

  lemma SwappedFirst()
    ensures ChainArgs([SwappedNode0], [0], SwappedBin, SwappedCanon)
    ensures ChainFrom([], [], SwappedBin, SwappedCanon) == ChainFrom([SwappedNode0], [0], SwappedBin, SwappedCanon)
  {
    SwappedNames();
    SwappedAbsent();
    ChainFromAppends([], [], SwappedBin, SwappedCanon, "p.O$I", "p.O$I");
    assert [] + [SwappedNode0] == [SwappedNode0] && [] + [0] == [0];
  }

  lemma SwappedSecond()
    requires ChainArgs([SwappedNode0], [0], SwappedBin, SwappedCanon)
    ensures ChainFrom([SwappedNode0], [0], SwappedBin, SwappedCanon)
         == Chain([SwappedNode0, SwappedNode1], [0, 1])
  {
    SwappedNames();
    SwappedAbsent();
    ChainFromAppends([SwappedNode0], [0], SwappedBin, SwappedCanon, "p.O$I$D", "p.O$I.D");
    assert [SwappedNode0] + [SwappedNode1] == [SwappedNode0, SwappedNode1] && [0] + [1] == [0, 1];
  }

  /** With the records innermost first, `p.O` never enters the tree: the
      chain is `p.O$I` as a root and `p.O$I$D` under it, whose canonical
      name `p.O$I.D` keeps a `$`. */
  lemma InnermostFirstChain()
    ensures EndTree([], {}, true, false, "p/O$I$D",
                    Resolved("p/O$I$D", true, SwappedRecords(), 2))
         == [TypeElement("p.O$I", "p.O$I", None), TypeElement("p.O$I$D", "p.O$I.D", Some(0))]
  {
    InnermostFirstParts();
    SwappedFirst();
    SwappedSecond();
    var res := Resolved("p/O$I$D", true, SwappedRecords(), 2);
    assert EndTree([], {}, true, false, "p/O$I$D", res) == ChainFrom([], [], res.binParts, res.canonParts).nodes;
  }

  // ----- The tree update at the end of a class file -----

  /** The tree and the node of each nesting level, outermost first. */
  datatype Chain = Chain(nodes: seq<TypeElement>, levels: seq<nat>)

  /** The scope the next level is inserted under: the last level, or none. */
  function LevelScope(levels: seq<nat>): Option<nat>
  {
    if |levels| == 0 then None else Some(levels[|levels| - 1])
  }

  /** A nesting chain that can be continued: its last level is a node of the tree. */
  ghost predicate ChainArgs(nodes: seq<TypeElement>, levels: seq<nat>, bin: seq<string>, canon: seq<string>)
  {
    WellFormed(nodes) && |bin| == |canon| && |levels| <= |bin| &&
    (|levels| > 0 ==> levels[|levels| - 1] < |nodes|)
  }

  /** The `addConditionally` of the next level: the first `i + 1` binary parts
      joined with `$`, dotted, and the first `i + 1` canonical parts joined
      with `.`, under the previous level. */
  function NextLevel(nodes: seq<TypeElement>, levels: seq<nat>, bin: seq<string>, canon: seq<string>): Insertion
    requires ChainArgs(nodes, levels, bin, canon) && |levels| < |bin|
  {
    var i := |levels|;
    Insert(nodes, Dotted(Join(bin[..i + 1], '$')), Join(canon[..i + 1], '.'), LevelScope(levels))
  }

  /** The primary-mode loop of `visitEnd`, from the levels added so far to the last. */
  function ChainFrom(nodes: seq<TypeElement>, levels: seq<nat>, bin: seq<string>, canon: seq<string>): (c: Chain)
    requires ChainArgs(nodes, levels, bin, canon)
    ensures WellFormed(c.nodes) && nodes <= c.nodes && |c.levels| == |bin|
    decreases |bin| - |levels|
  {
    if |levels| == |bin| then Chain(nodes, levels)
    else
      var ins := NextLevel(nodes, levels, bin, canon);
      ChainFrom(ins.nodes, levels + [ins.index], bin, canon)
  }

  /** Building the chain one level further does not change where it ends. */
  lemma ChainFromUnfold(nodes: seq<TypeElement>, levels: seq<nat>, bin: seq<string>, canon: seq<string>)
    requires ChainArgs(nodes, levels, bin, canon) && |levels| < |bin|
    ensures var ins := NextLevel(nodes, levels, bin, canon);
      ChainArgs(ins.nodes, levels + [ins.index], bin, canon) &&
      ChainFrom(ins.nodes, levels + [ins.index], bin, canon) == ChainFrom(nodes, levels, bin, canon)
  {
  }

  /** Every node past `base` is one of the levels. */
  ghost predicate OnlyLevelsAdded(nodes: seq<TypeElement>, levels: seq<nat>, base: nat)
  {
    forall j :: base <= j < |nodes| ==> j in levels
  }

  /** A level past `base` hangs under the level before it; the first is a root. */
  ghost predicate ParentsFollowLevels(nodes: seq<TypeElement>, levels: seq<nat>, base: nat)
  {
    (|levels| > 0 && base <= levels[0] < |nodes| ==> nodes[levels[0]].parent.None?) &&
    forall k :: 0 < k < |levels| && base <= levels[k] < |nodes| ==> nodes[levels[k]].parent == Some(levels[k - 1])
  }

  /** Everything the nesting chain promises about the tree, with `base` the
      size of the tree before the chain was started. */
  ghost predicate ChainShape(nodes: seq<TypeElement>, levels: seq<nat>, bin: seq<string>, canon: seq<string>, base: nat)
  {
    IsChain(nodes, levels, bin, canon, base) &&
    OnlyLevelsAdded(nodes, levels, base) && ParentsFollowLevels(nodes, levels, base)
  }

  /** Once the chain has added a node, the next level cannot be found: a
      node below the previous level would lie after it, past the last node;
      so the next level is appended. */
  lemma NextLevelAppends(nodes: seq<TypeElement>, levels: seq<nat>, bin: seq<string>, canon: seq<string>, base: nat)
    requires ChainArgs(nodes, levels, bin, canon) && |levels| < |bin|
    requires |nodes| > base ==> |levels| > 0 && levels[|levels| - 1] == |nodes| - 1
    ensures |nodes| > base ==> NextLevel(nodes, levels, bin, canon).nodes != nodes
  {
    var ins := NextLevel(nodes, levels, bin, canon);
    if ins.nodes == nodes && |nodes| > base {
      DescendantAfter(nodes, ins.index, levels[|levels| - 1]);
      assert false;
    }
  }

  lemma OnlyLevelsStep(nodes: seq<TypeElement>, ext: seq<TypeElement>, levels: seq<nat>, node: nat, base: nat)
    requires OnlyLevelsAdded(nodes, levels, base) && nodes <= ext
    requires |ext| <= |nodes| + 1 && (ext != nodes ==> node == |nodes|)
    ensures OnlyLevelsAdded(ext, levels + [node], base)
  {
    var l := levels + [node];
    forall j | base <= j < |ext| ensures j in l {
      if j < |nodes| {
        assert j in levels;
      } else {
        assert l[|levels|] == j;
      }
    }
  }

  lemma ParentsStep(nodes: seq<TypeElement>, ext: seq<TypeElement>, levels: seq<nat>, node: nat, base: nat)
    requires ParentsFollowLevels(nodes, levels, base) && nodes <= ext
    requires forall k :: 0 <= k < |levels| ==> levels[k] < |nodes|
    requires node < |ext| && base <= node ==> ext[node].parent == LevelScope(levels)
    ensures ParentsFollowLevels(ext, levels + [node], base)
  {
    var l := levels + [node];
    if |levels| > 0 {
      assert l[0] == levels[0] && ext[levels[0]] == nodes[levels[0]];
    }
    forall k | 0 < k < |l| && base <= l[k] < |ext|
      ensures ext[l[k]].parent == Some(l[k - 1])
    {
      assert l[k - 1] == levels[k - 1];
      if k < |levels| {
        assert l[k] == levels[k] && ext[levels[k]] == nodes[levels[k]];
      }
    }
  }

  /** One level keeps the chain's shape: the inserted node is named for the
      level, lies below the previous level and, when new, carries the
      level's canonical name, hangs under the previous level and is the
      last node of the tree. */
  lemma ChainStep(nodes: seq<TypeElement>, levels: seq<nat>, bin: seq<string>, canon: seq<string>, base: nat)
    requires ChainArgs(nodes, levels, bin, canon) && |levels| < |bin|
    requires base <= |nodes| && ChainShape(nodes, levels, bin, canon, base)
    requires |nodes| > base ==> |levels| > 0 && levels[|levels| - 1] == |nodes| - 1
    ensures var ins := NextLevel(nodes, levels, bin, canon);
      ChainShape(ins.nodes, levels + [ins.index], bin, canon, base) &&
      (|ins.nodes| > base ==> ins.index == |ins.nodes| - 1)
  {
    var ins := NextLevel(nodes, levels, bin, canon);
    NextLevelAppends(nodes, levels, bin, canon, base);
    ChainExtend(nodes, ins.nodes, levels, ins.index, bin, canon, base);
    OnlyLevelsStep(nodes, ins.nodes, levels, ins.index, base);
    ParentsStep(nodes, ins.nodes, levels, ins.index, base);
  }

  lemma {:induction false} ChainFromShape(nodes: seq<TypeElement>, levels: seq<nat>, bin: seq<string>,
                                          canon: seq<string>, base: nat)
    requires ChainArgs(nodes, levels, bin, canon)
    requires base <= |nodes| && ChainShape(nodes, levels, bin, canon, base)
    requires |nodes| > base ==> |levels| > 0 && levels[|levels| - 1] == |nodes| - 1
    ensures var c := ChainFrom(nodes, levels, bin, canon); ChainShape(c.nodes, c.levels, bin, canon, base)
    decreases |bin| - |levels|
  {
    if |levels| < |bin| {
      ChainStep(nodes, levels, bin, canon, base);
      var ins := NextLevel(nodes, levels, bin, canon);
      ChainFromShape(ins.nodes, levels + [ins.index], bin, canon, base);
    }
  }

  /** The primary-mode chain of a nested class: one level per binary part.
      Level `k` is named by the first `k + 1` binary parts joined with `$`
      and lies below level `k - 1`; a new level carries the first `k + 1`
      canonical parts joined with `.` and hangs directly under level `k - 1`
      (the first one is a root); and the levels are the only nodes added. */
  lemma NestingChainShape(nodes: seq<TypeElement>, bin: seq<string>, canon: seq<string>)
    requires WellFormed(nodes) && |bin| == |canon|
    ensures var c := ChainFrom(nodes, [], bin, canon);
      |c.levels| == |bin| && ChainShape(c.nodes, c.levels, bin, canon, |nodes|)
  {
    ChainFromShape(nodes, [], bin, canon, |nodes|);
  }

  /** The closure-mode loop of `visitEnd`: each level is looked up below the
      previous result, and below the whole tree after a failed lookup. The
      last lookup is for the full name, so a result is a node of that name. */
  function KnownAncestor(nodes: seq<TypeElement>, bin: seq<string>, i: nat, scope: Option<nat>): (r: Option<nat>)
    requires i <= |bin| && ScopeIn(nodes, scope)
    ensures ScopeIn(nodes, r)
    ensures i < |bin| && r.Some? ==> nodes[r.value].binaryName == Dotted(Join(bin, '$'))
    decreases |bin| - i
  {
    if i == |bin| then scope
    else
      assert bin[..|bin|] == bin;
      KnownAncestor(nodes, bin, i + 1, Find(nodes, Dotted(Join(bin[..i + 1], '$')), scope))
  }

  /** `visitEnd` inserts a public-API class; in closure mode only one whose
      descriptor is pending when the class file ends. */
  predicate EntersTree(isPublicAPI: bool, onlyAddAdditional: bool, mainName: string, pending: set<string>)
  {
    isPublicAPI && (!onlyAddAdditional || ObjectDescriptor(mainName) in pending)
  }

  /** The tree after `visitEnd`, from the tree and the pending set it starts with. */
  function EndTree(nodes: seq<TypeElement>, pending: set<string>, isPublicAPI: bool, onlyAddAdditional: bool,
                   mainName: string, res: ResolverState): (r: seq<TypeElement>)
    requires WellFormed(nodes) && ResolverValid(res)
    ensures WellFormed(r) && nodes <= r
  {
    if !EntersTree(isPublicAPI, onlyAddAdditional, mainName, pending) then nodes
    else if res.canonical.None? then Insert(nodes, Dotted(mainName), Dotted(mainName), None).nodes
    else if !onlyAddAdditional then ChainFrom(nodes, [], res.binParts, res.canonParts).nodes
    else Insert(nodes, Dotted(Join(res.binParts, '$')), Join(res.canonParts, '.'),
                KnownAncestor(nodes, res.binParts, 0, None)).nodes
  }

  // ----- Class files, archives and passes -----

  /** In closure mode a nested class whose binary name is nowhere in the
      tree is added as a new root, whatever its outer classes are: the
      last lookup of the ancestor walk fails. */
  lemma ClosureNewLeafIsRoot(nodes: seq<TypeElement>, pending: set<string>, mainName: string, res: ResolverState)
    requires WellFormed(nodes) && ResolverValid(res) && res.canonical.Some?
    requires ObjectDescriptor(mainName) in pending
    requires Find(nodes, Dotted(Join(res.binParts, '$')), None).None?
    ensures var r := EndTree(nodes, pending, true, true, mainName, res);
      |r| == |nodes| + 1 && r[|nodes|].parent.None? &&
      r[|nodes|].binaryName == Dotted(Join(res.binParts, '$')) &&
      r[|nodes|].canonicalName == Join(res.canonParts, '.')
  {
  }

  /** In closure mode a nested class whose own node the ancestor walk finds
      is added a second time, as a child of that node: the walk's last lookup
      is for the full name, and the insertion then searches only below the
      node found. From a tree in which every binary name is unique the result
      holds the name twice. */
  lemma ClosureReaddsKnownLeaf(nodes: seq<TypeElement>, pending: set<string>, mainName: string, res: ResolverState)
    requires WellFormed(nodes) && NamesUnique(nodes)
    requires ResolverValid(res) && res.canonical.Some?
    requires ObjectDescriptor(mainName) in pending
    requires KnownAncestor(nodes, res.binParts, 0, None).Some?
    ensures var k := KnownAncestor(nodes, res.binParts, 0, None);
      EndTree(nodes, pending, true, true, mainName, res)
        == nodes + [TypeElement(Dotted(Join(res.binParts, '$')), Join(res.canonParts, '.'), k)]
    ensures var r := EndTree(nodes, pending, true, true, mainName, res);
      |r| == |nodes| + 1 && !NamesUnique(r) &&
      r[KnownAncestor(nodes, res.binParts, 0, None).value].binaryName == r[|nodes|].binaryName
  {
    var name := Dotted(Join(res.binParts, '$'));
    var k := KnownAncestor(nodes, res.binParts, 0, None);
    assert nodes[k.value].binaryName == name;
    forall i | 0 <= i < |nodes| && InScope(nodes, i, k)
      ensures nodes[i].binaryName != name
    {
      DescendantAfter(nodes, i, k.value);
    }
    assert Find(nodes, name, k).None?;
  }

  /** `p/O$I` read again in closure mode, on the tree `p.O`, `p.O$I` under
      it, with its descriptor pending and its own record: a second `p.O$I`
      is appended under the first. */
  lemma ClosureReaddsInnerClass()
    ensures EndTree([TypeElement("p.O", "p.O", None), TypeElement("p.O$I", "p.O.I", Some(0))], {"Lp/O$I;"},
                    true, true, "p/O$I", Resolved("p/O$I", true, [InnerClassRecord("p/O$I", Some("p/O"), Some("I"), 0)], 1))
         == [TypeElement("p.O", "p.O", None), TypeElement("p.O$I", "p.O.I", Some(0)), TypeElement("p.O$I", "p.O.I", Some(1))]
  {
    var nodes := [TypeElement("p.O", "p.O", None), TypeElement("p.O$I", "p.O.I", Some(0))];
    var recs := [InnerClassRecord("p/O$I", Some("p/O"), Some("I"), 0)];
    ClosureReaddsNames();
    ResolvedNestingParts(["p/O", "I"], recs);
    var res := Resolved("p/O$I", true, recs, 1);
    assert res.binParts == ["p/O", "I"] && res.canonParts == ["p.O", "I"];
    ClosureReaddsWalk(nodes, res.binParts);
    ClosureReaddsKnownLeaf(nodes, {"Lp/O$I;"}, "p/O$I", res);
  }

  lemma ClosureReaddsNames()
    ensures Join(["p/O", "I"], '$') == "p/O$I" && Join(["p.O", "I"], '.') == "p.O.I"
    ensures Join(["p/O"], '$') == "p/O" && Dotted("p/O") == "p.O" && Dotted("p/O$I") == "p.O$I"
    ensures ObjectDescriptor("p/O$I") == "Lp/O$I;"
  {
    assert ["p/O", "I"][..1] == ["p/O"];
    assert ["p.O", "I"][..1] == ["p.O"];
  }

  lemma ClosureReaddsWalk(nodes: seq<TypeElement>, bin: seq<string>)
    requires nodes == [TypeElement("p.O", "p.O", None), TypeElement("p.O$I", "p.O.I", Some(0))]
    requires bin == ["p/O", "I"]
    ensures WellFormed(nodes) && NamesUnique(nodes)
    ensures KnownAncestor(nodes, bin, 0, None) == Some(1)
  {
    ClosureReaddsNames();
    assert bin[..1] == ["p/O"] && bin[..2] == bin;
    assert Find(nodes, "p.O", None) == Some(0);
    assert IsDescendant(nodes, 1, 0);
    assert Find(nodes, "p.O$I", Some(0)) == Some(1) by {
      assert !IsDescendant(nodes, 0, 0);
    }
    assert KnownAncestor(nodes, bin, 2, Some(1)) == Some(1);
    assert KnownAncestor(nodes, bin, 1, Some(0)) == Some(1);
  }

  /** The tree and the pending set. */
  datatype ScanState = ScanState(nodes: seq<TypeElement>, pending: set<string>)

  /** One class file through the visitor. The classification uses the
      pending set the file starts with; the members are tracked against the
      tree it starts with; `visitEnd` then updates the tree and removes the
      class's own descriptor when it is public API. */
  function UnitEffect(s: ScanState, u: ClassUnit, onlyAddAdditional: bool): (r: ScanState)
    requires WellFormed(s.nodes) && WellFormedUnit(u)
    ensures WellFormed(r.nodes) && s.nodes <= r.nodes
  {
    var api := IsApiClass(onlyAddAdditional, u.access, u.name, s.pending);
    var res := Resolved(u.name, api && '$' in u.name, u.innerClasses, |u.innerClasses|);
    var afterFields := FieldsTracked(s.nodes, s.pending, api, u.fields, |u.fields|);
    var afterMethods := MethodsTracked(s.nodes, afterFields, api, u.methods, |u.methods|);
    ScanState(EndTree(s.nodes, afterMethods, api, onlyAddAdditional, u.name, res),
              if api then afterMethods - {ObjectDescriptor(u.name)} else afterMethods)
  }

  /** A public-API class file never leaves its own descriptor pending. */
  lemma UnitClearsOwnDescriptor(s: ScanState, u: ClassUnit, onlyAddAdditional: bool)
    requires WellFormed(s.nodes) && WellFormedUnit(u)
    requires IsApiClass(onlyAddAdditional, u.access, u.name, s.pending)
    ensures ObjectDescriptor(u.name) !in UnitEffect(s, u, onlyAddAdditional).pending
  {
  }

  /** A class file that is not public API leaves the tree as it was. */
  lemma NonApiUnitKeepsTree(s: ScanState, u: ClassUnit, onlyAddAdditional: bool)
    requires WellFormed(s.nodes) && WellFormedUnit(u)
    requires !IsApiClass(onlyAddAdditional, u.access, u.name, s.pending)
    ensures UnitEffect(s, u, onlyAddAdditional).nodes == s.nodes
  {
  }

  /** A class file changes no pending entry other than its own descriptor
      and the entries of the types its contributing members mention. */
  lemma UnitEffectIsLocal(s: ScanState, u: ClassUnit, onlyAddAdditional: bool, d: string)
    requires WellFormed(s.nodes) && WellFormedUnit(u)
    requires d != ObjectDescriptor(u.name)
    requires var api := IsApiClass(onlyAddAdditional, u.access, u.name, s.pending);
      FieldsAvoid(api, u.fields, |u.fields|, d) && MethodsAvoid(api, u.methods, |u.methods|, d)
    ensures d in UnitEffect(s, u, onlyAddAdditional).pending <==> d in s.pending
  {
    var api := IsApiClass(onlyAddAdditional, u.access, u.name, s.pending);
    var afterFields := FieldsTracked(s.nodes, s.pending, api, u.fields, |u.fields|);
    FieldsTrackedIsLocal(s.nodes, s.pending, api, u.fields, |u.fields|, d);
    MethodsTrackedIsLocal(s.nodes, afterFields, api, u.methods, |u.methods|, d);
  }

  /** The jar entries up to `n`: each non-directory `.class` entry, in order. */
  function EntriesEffect(s: ScanState, entries: seq<ZipEntry>, onlyAddAdditional: bool, n: nat): (r: ScanState)
    requires WellFormed(s.nodes) && n <= |entries|
    requires forall k :: 0 <= k < |entries| ==> WellFormedUnit(entries[k].unit)
    ensures WellFormed(r.nodes) && s.nodes <= r.nodes
  {
    if n == 0 then s
    else
      var before := EntriesEffect(s, entries, onlyAddAdditional, n - 1);
      var e := entries[n - 1];
      if !e.isDirectory && EndsWithIgnoreCase(e.name, ".class") then UnitEffect(before, e.unit, onlyAddAdditional)
      else before
  }

  /** `processArchive`: a `.jar` as its entries, a `.class` as one class
      file, ignoring case; anything else changes nothing. */
  function ArchiveEffect(s: ScanState, a: Archive, onlyAddAdditional: bool): (r: ScanState)
    requires WellFormed(s.nodes) && WellFormedArchive(a)
    ensures WellFormed(r.nodes) && s.nodes <= r.nodes
  {
    if EndsWithIgnoreCase(a.name, ".jar") then EntriesEffect(s, a.entries, onlyAddAdditional, |a.entries|)
    else if EndsWithIgnoreCase(a.name, ".class") then UnitEffect(s, a.unit, onlyAddAdditional)
    else s
  }

  /** The first `n` archives of a group, in order. */
  function ArchivesEffect(s: ScanState, group: seq<Archive>, onlyAddAdditional: bool, n: nat): (r: ScanState)
    requires WellFormed(s.nodes) && n <= |group| && AllWellFormed(group)
    ensures WellFormed(r.nodes) && s.nodes <= r.nodes
  {
    if n == 0 then s
    else ArchiveEffect(ArchivesEffect(s, group, onlyAddAdditional, n - 1), group[n - 1], onlyAddAdditional)
  }

  /** The pending descriptors the runtime library does not supply. */
  function Prune(pending: set<string>, fromRtJar: string -> bool): set<string>
  {
    set d | d in pending && !fromRtJar(d)
  }

  /** The archives a run is given. */
  ghost predicate RunArgs(archives: seq<Archive>, supplementary: Option<seq<Archive>>)
  {
    AllWellFormed(archives) && (supplementary.Some? ==> AllWellFormed(supplementary.value))
  }

  /** One pass of `initTree`: the primary archives in the given mode, the
      supplementary ones in closure mode, then the pruning. */
  function PassEffect(s: ScanState, archives: seq<Archive>, supplementary: Option<seq<Archive>>,
                      secondRun: bool, fromRtJar: string -> bool): (r: ScanState)
    requires WellFormed(s.nodes) && RunArgs(archives, supplementary)
    ensures WellFormed(r.nodes) && s.nodes <= r.nodes
  {
    var primary := ArchivesEffect(s, archives, secondRun, |archives|);
    var both := if supplementary.Some? then ArchivesEffect(primary, supplementary.value, true, |supplementary.value|)
                else primary;
    if both.pending != {} then ScanState(both.nodes, Prune(both.pending, fromRtJar)) else both
  }

  /** The state after `n` passes from `start`; only the first pass reads the
      primary archives in primary mode. */
  function AfterPasses(start: ScanState, archives: seq<Archive>, supplementary: Option<seq<Archive>>,
                       fromRtJar: string -> bool, n: nat): (r: ScanState)
    requires WellFormed(start.nodes) && RunArgs(archives, supplementary)
    ensures WellFormed(r.nodes) && start.nodes <= r.nodes
  {
    if n == 0 then start
    else PassEffect(AfterPasses(start, archives, supplementary, fromRtJar, n - 1), archives, supplementary, n > 1, fromRtJar)
  }

  /** Pass `n` ended with another pending set than it started with. */
  ghost predicate PassChanges(start: ScanState, archives: seq<Archive>, supplementary: Option<seq<Archive>>,
                              fromRtJar: string -> bool, n: nat)
    requires WellFormed(start.nodes) && RunArgs(archives, supplementary) && n >= 1
  {
    AfterPasses(start, archives, supplementary, fromRtJar, n - 1).pending !=
    AfterPasses(start, archives, supplementary, fromRtJar, n).pending
  }
}
