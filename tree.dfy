/**
 * The API class tree as the builder sees it. The tree's roots list and each
 * node's children list are kept as one sequence of nodes in insertion order:
 * a node's position is its identity, and each node names its parent by
 * position (none for a root). Nodes are only ever appended, and a parent
 * always comes before its children.
 */
module ClassTree {
  import opened Wrappers

  /** A `TypeElement`: the class name it was created with (dotted, `$` kept),
      its canonical name, and the node it was added under. */
  datatype TypeElement = TypeElement(binaryName: string, canonicalName: string, parent: Option<nat>)

  /** Every parent precedes its child, so the parent links form a forest. */
  ghost predicate WellFormed(nodes: seq<TypeElement>)
  {
    forall i :: 0 <= i < |nodes| && nodes[i].parent.Some? ==> nodes[i].parent.value < i
  }

  /** A node that can be passed as the scope of a search: absent, or present. */
  predicate ScopeIn(nodes: seq<TypeElement>, scope: Option<nat>)
  {
    scope.Some? ==> scope.value < |nodes|
  }

  /** Node `i` lies strictly below node `anc`. */
  predicate IsDescendant(nodes: seq<TypeElement>, i: nat, anc: nat)
    decreases i
  {
    i < |nodes| && nodes[i].parent.Some? && nodes[i].parent.value < i &&
    (nodes[i].parent.value == anc || IsDescendant(nodes, nodes[i].parent.value, anc))
  }

  /** Node `i` is searched by a lookup under `scope`: the whole tree when the
      scope is absent, otherwise the scope's descendants. */
  predicate InScope(nodes: seq<TypeElement>, i: nat, scope: Option<nat>)
  {
    i < |nodes| && (scope.None? || IsDescendant(nodes, i, scope.value))
  }

  /** Whether a node lies below another depends only on the nodes up to it,
      so appending nodes changes no existing ancestry. */
  lemma {:induction false} DescendantPrefix(nodes: seq<TypeElement>, ext: seq<TypeElement>, i: nat, anc: nat)
    requires nodes <= ext && i < |nodes|
    ensures IsDescendant(ext, i, anc) <==> IsDescendant(nodes, i, anc)
    decreases i
  {
    assert ext[i] == nodes[i];
    if nodes[i].parent.Some? && nodes[i].parent.value < i {
      DescendantPrefix(nodes, ext, nodes[i].parent.value, anc);
    }
  }

  /** A node lies after every node it lies below. */
  lemma {:induction false} DescendantAfter(nodes: seq<TypeElement>, i: nat, anc: nat)
    requires IsDescendant(nodes, i, anc)
    ensures anc < i
    decreases i
  {
    if nodes[i].parent.value != anc {
      DescendantAfter(nodes, nodes[i].parent.value, anc);
    }
  }

  lemma InScopePrefix(nodes: seq<TypeElement>, ext: seq<TypeElement>, i: nat, scope: Option<nat>)
    requires nodes <= ext && i < |nodes|
    ensures InScope(ext, i, scope) <==> InScope(nodes, i, scope)
  {
    if scope.Some? {
      DescendantPrefix(nodes, ext, i, scope.value);
    }
  }

  /** The search from position `from` on. */
  function FindFrom(nodes: seq<TypeElement>, name: string, scope: Option<nat>, from: nat): (r: Option<nat>)
    decreases |nodes| - from
    ensures r.Some? ==> from <= r.value && InScope(nodes, r.value, scope) && nodes[r.value].binaryName == name
    ensures r.None? ==> forall i :: from <= i < |nodes| && InScope(nodes, i, scope) ==> nodes[i].binaryName != name
  {
    if from >= |nodes| then None
    else if InScope(nodes, from, scope) && nodes[from].binaryName == name then Some(from)
    else FindFrom(nodes, name, scope, from + 1)
  }

  /** `findByType`: a node with the given class name under `scope`, or none
      when no node there has that name. */
  function Find(nodes: seq<TypeElement>, name: string, scope: Option<nat>): (r: Option<nat>)
    ensures r.Some? ==> InScope(nodes, r.value, scope) && nodes[r.value].binaryName == name
    ensures r.None? <==> forall i :: 0 <= i < |nodes| && InScope(nodes, i, scope) ==> nodes[i].binaryName != name
  {
    FindFrom(nodes, name, scope, 0)
  }

  /** The outcome of `addConditionally`: the tree afterwards and the node returned. */
  datatype Insertion = Insertion(nodes: seq<TypeElement>, index: nat)

  /** `addConditionally`: return the node under `scope` that has the name,
      or append a new node with that name under `scope` and return it. */
  function Insert(nodes: seq<TypeElement>, name: string, canonical: string, scope: Option<nat>): (r: Insertion)
    requires WellFormed(nodes) && ScopeIn(nodes, scope)
    ensures WellFormed(r.nodes) && nodes <= r.nodes && |r.nodes| <= |nodes| + 1
    ensures InScope(r.nodes, r.index, scope) && r.nodes[r.index].binaryName == name
    ensures r.nodes == nodes <==> Find(nodes, name, scope).Some?
    ensures r.nodes != nodes ==> r.index == |nodes| && r.nodes[r.index] == TypeElement(name, canonical, scope)
  {
    match Find(nodes, name, scope)
    case Some(i) => Insertion(nodes, i)
    case None => Insertion(nodes + [TypeElement(name, canonical, scope)], |nodes|)
  }

  /** Inserting the same name under the same scope a second time returns the
      same node and leaves the tree as the first insertion left it, whatever
      canonical name the second call passes. */
  lemma InsertIdempotent(nodes: seq<TypeElement>, name: string, canonical: string, canonical2: string, scope: Option<nat>)
    requires WellFormed(nodes) && ScopeIn(nodes, scope)
    ensures Insert(Insert(nodes, name, canonical, scope).nodes, name, canonical2, scope)
         == Insert(nodes, name, canonical, scope)
  {
    var r := Insert(nodes, name, canonical, scope);
    var f := Find(r.nodes, name, scope);
    assert f.Some?;
    if r.nodes != nodes {
      if f.value < |nodes| {
        InScopePrefix(nodes, r.nodes, f.value, scope);
        assert false;
      }
    }
  }

  /** No binary name occurs twice anywhere in the tree. */
  ghost predicate NamesUnique(nodes: seq<TypeElement>)
  {
    forall i, j :: 0 <= i < j < |nodes| ==> nodes[i].binaryName != nodes[j].binaryName
  }

  /** An insertion searched over the whole tree keeps every binary name unique:
      it either finds the name or appends the only node that has it. */
  lemma InsertAtRootKeepsNamesUnique(nodes: seq<TypeElement>, name: string, canonical: string)
    requires WellFormed(nodes) && NamesUnique(nodes)
    ensures NamesUnique(Insert(nodes, name, canonical, None).nodes)
  {
    var r := Insert(nodes, name, canonical, None).nodes;
    if r != nodes {
      forall i, j | 0 <= i < j < |r|
        ensures r[i].binaryName != r[j].binaryName
      {
        if j == |nodes| {
          assert InScope(nodes, i, None);
        }
      }
    }
  }

  /** The roots, in the order they were added. */
  function Roots(nodes: seq<TypeElement>): seq<nat>
  {
    if |nodes| == 0 then []
    else Roots(nodes[..|nodes| - 1]) + (if nodes[|nodes| - 1].parent.None? then [|nodes| - 1] else [])
  }

  /** The children of node `p`, in the order they were added. */
  function Children(nodes: seq<TypeElement>, p: nat): seq<nat>
  {
    if |nodes| == 0 then []
    else Children(nodes[..|nodes| - 1], p) + (if nodes[|nodes| - 1].parent == Some(p) then [|nodes| - 1] else [])
  }

  /** A new node goes to the end of the roots when the scope is absent, and
      to the end of the scope's children otherwise; no other list changes. */
  lemma InsertAttaches(nodes: seq<TypeElement>, name: string, canonical: string, scope: Option<nat>, p: nat)
    requires WellFormed(nodes) && ScopeIn(nodes, scope)
    requires Find(nodes, name, scope).None?
    ensures var r := Insert(nodes, name, canonical, scope);
      Roots(r.nodes) == Roots(nodes) + (if scope.None? then [r.index] else []) &&
      Children(r.nodes, p) == Children(nodes, p) + (if scope == Some(p) then [r.index] else [])
  {
    var r := Insert(nodes, name, canonical, scope);
    assert r.nodes[..|r.nodes| - 1] == nodes;
  }
}
