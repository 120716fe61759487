/**
 * JVM type descriptors (section 4.3.2, field descriptors, and section 4.3.3,
 * method descriptors, of the Java Virtual Machine Specification) and the
 * parts of ASM's `Type` that the class-tree builder relies on: a type's sort,
 * its descriptor and its class name.
 */
module Descriptors {
  import opened Names

  datatype PrimitiveKind = Void | Boolean | Char | Byte | Short | Int | Float | Long | Double

  /** The one-letter descriptor of a primitive type (`V Z C B S I F J D`). */
  function Code(k: PrimitiveKind): char
  {
    match k
    case Void => 'V'
    case Boolean => 'Z'
    case Char => 'C'
    case Byte => 'B'
    case Short => 'S'
    case Int => 'I'
    case Float => 'F'
    case Long => 'J'
    case Double => 'D'
  }

  /** The keyword `Type.getClassName()` gives a primitive type. */
  function Keyword(k: PrimitiveKind): string
  {
    match k
    case Void => "void"
    case Boolean => "boolean"
    case Char => "char"
    case Byte => "byte"
    case Short => "short"
    case Int => "int"
    case Float => "float"
    case Long => "long"
    case Double => "double"
  }

  /** A type as ASM's `Type` sees it; the constructor is the sort. An array
      of several dimensions is an array of arrays. */
  datatype JType =
    | Primitive(kind: PrimitiveKind)
    | Object(internalName: string)
    | Array(component: JType)
    | Method(args: seq<JType>, ret: JType)

  /** A type a field, a parameter or a return value can have: no method sort anywhere in it. */
  predicate IsValueType(t: JType)
  {
    match t
    case Primitive(_) => true
    case Object(_) => true
    case Array(c) => IsValueType(c)
    case Method(_, _) => false
  }

  /** A method type as `Type.getArgumentTypes` and `Type.getReturnType` take it apart. */
  predicate IsMethodType(t: JType)
  {
    t.Method? && IsValueType(t.ret) && forall k :: 0 <= k < |t.args| ==> IsValueType(t.args[k])
  }

  /** Object names without `[`, as every binary name is (section 4.2.1 of the
      Java Virtual Machine Specification). */
  predicate BracketFree(t: JType)
  {
    match t
    case Primitive(_) => true
    case Object(n) => '[' !in n
    case Array(c) => BracketFree(c)
    case Method(_, _) => false
  }

  /** `Type.getDescriptor()`. */
  function Descriptor(t: JType): string
    decreases t
  {
    match t
    case Primitive(k) => [Code(k)]
    case Object(n) => ObjectDescriptor(n)
    case Array(c) => "[" + Descriptor(c)
    case Method(args, ret) => "(" + DescriptorList(args) + ")" + Descriptor(ret)
  }

  function DescriptorList(ts: seq<JType>): string
    decreases ts
  {
    if |ts| == 0 then "" else Descriptor(ts[0]) + DescriptorList(ts[1..])
  }

  /** `Type.getObjectType(name).getDescriptor()` for a class name. */
  function ObjectDescriptor(internalName: string): string
  {
    "L" + internalName + ";"
  }

  /** `Type.getElementType()`: an array with every dimension stripped. */
  function Element(t: JType): (e: JType)
    ensures !e.Array?
    ensures IsValueType(t) ==> IsValueType(e)
    ensures BracketFree(t) ==> BracketFree(e)
  {
    if t.Array? then Element(t.component) else t
  }

  /** `Type.getDimensions()`. */
  function Dimensions(t: JType): nat
  {
    if t.Array? then 1 + Dimensions(t.component) else 0
  }

  /** `Type.getClassName()`: dotted names for objects, keywords for
      primitives, and one `[]` per dimension after an array's element. */
  function ClassName(t: JType): string
    requires IsValueType(t)
  {
    match t
    case Primitive(k) => Keyword(k)
    case Object(n) => Dotted(n)
    case Array(c) => ClassName(c) + "[]"
    case Method(_, _) => assert false; ""
  }

  /** What the tracker stores for an array: the descriptor text after its last `[`. */
  function ArrayEntry(d: string): (r: string)
    ensures |r| <= |d| && r == d[|d| - |r|..]
    ensures forall k :: 0 <= k < |r| ==> r[k] != '['
    ensures (forall k :: 0 <= k < |d| ==> d[k] != '[') ==> r == d
  {
    d[LastIndexOf(d, '[') + 1..]
  }

  function Brackets(n: nat): (r: string)
    ensures |r| == n && forall k :: 0 <= k < n ==> r[k] == '['
  {
    if n == 0 then "" else "[" + Brackets(n - 1)
  }

  /** An array's descriptor is one `[` per dimension before its element's descriptor. */
  lemma {:induction false} DescriptorOfArray(t: JType)
    ensures Descriptor(t) == Brackets(Dimensions(t)) + Descriptor(Element(t))
  {
    if t.Array? {
      DescriptorOfArray(t.component);
    }
  }

  /** The descriptor of a bracket-free type that is not an array has no `[`. */
  lemma ElementDescriptorBracketFree(e: JType)
    requires BracketFree(e) && !e.Array?
    ensures '[' !in Descriptor(e)
  {
    match e
    case Primitive(k) =>
    case Object(n) =>
      assert Descriptor(e) == ['L'] + n + [';'];
  }

  /** Stripping an array descriptor up to its last `[` leaves exactly the
      element's descriptor, whatever the number of dimensions. */
  lemma ArrayEntryIsElement(t: JType)
    requires t.Array? && BracketFree(t)
    ensures ArrayEntry(Descriptor(t)) == Descriptor(Element(t))
  {
    DescriptorOfArray(t);
    var k := Dimensions(t);
    var el := Descriptor(Element(t));
    var d := Descriptor(t);
    ElementDescriptorBracketFree(Element(t));
    var r := LastIndexOf(d, '[');
    assert d[k - 1] == '[';
    assert r == k - 1;
    assert d[k..] == el;
  }

  /** `[Ljava/lang/String;` and `[[Ljava/lang/String;` leave the same entry:
      arrays with the same element type do, at any dimensions. */
  lemma ArrayEntryIgnoresDimensions(t1: JType, t2: JType)
    requires t1.Array? && t2.Array? && BracketFree(t1) && BracketFree(t2)
    requires Element(t1) == Element(t2)
    ensures ArrayEntry(Descriptor(t1)) == ArrayEntry(Descriptor(t2))
  {
    ArrayEntryIsElement(t1);
    ArrayEntryIsElement(t2);
  }

  /** For an array the stored entry is a proper suffix of the descriptor, so
      removing the descriptor never removes the entry. */
  lemma ArrayEntryDiffersFromDescriptor(t: JType)
    requires t.Array? && BracketFree(t)
    ensures ArrayEntry(Descriptor(t)) != Descriptor(t)
  {
    ArrayEntryIsElement(t);
    DescriptorOfArray(t);
  }

  /** The class name of an array contains `[`, so it never equals the class
      name of a bracket-free object type. */
  lemma ArrayClassNameHasBracket(t: JType)
    requires t.Array? && IsValueType(t)
    ensures '[' in ClassName(t)
  {
    var c := ClassName(t.component);
    assert ClassName(t) == c + "[]";
    assert ClassName(t)[|c|] == '[';
  }

  /** The first character of a descriptor: it tells the sort apart. */
  function Head(t: JType): char
  {
    match t
    case Primitive(k) => Code(k)
    case Object(_) => 'L'
    case Array(_) => '['
    case Method(_, _) => '('
  }

  lemma DescriptorHead(t: JType)
    ensures |Descriptor(t)| >= 1 && Descriptor(t)[0] == Head(t)
    ensures t.Primitive? ==> Descriptor(t) == [Code(t.kind)]
    ensures t.Object? ==> |Descriptor(t)| >= 2
  {
  }

  /** The descriptor determines the type. */
  lemma {:induction false} DescriptorInjective(t1: JType, t2: JType)
    requires IsValueType(t1) && IsValueType(t2)
    requires Descriptor(t1) == Descriptor(t2)
    ensures t1 == t2
  {
    var d := Descriptor(t1);
    DescriptorHead(t1);
    DescriptorHead(t2);
    if t1.Primitive? {
      assert t2.Primitive?;
    } else if t1.Object? {
      assert t2.Object?;
      assert t1.internalName == d[1..|d| - 1] == t2.internalName;
    } else {
      assert t1.Array? && t2.Array?;
      assert Descriptor(t1.component) == d[1..] == Descriptor(t2.component);
      DescriptorInjective(t1.component, t2.component);
    }
  }
}
