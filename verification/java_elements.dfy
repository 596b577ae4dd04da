/**
 Java model elements as the search result labels see them: a kind, a name,
 and the parent chain up to the Java model. The chain is finite because an
 element holds its parent.
 */
module JavaElements {
  import opened Options

  /** `IJavaModel`, `ICompilationUnit`, `IClassFile`, `IType`, other members, import container and declaration, anything else. */
  datatype ElementKind =
    | JavaModel
    | CompilationUnit
    | ClassFile
    | Type
    | OtherMember
    | ImportContainer
    | ImportDeclaration
    | OtherElement

  /** `parent` is what the search's element content provider answers for `getParent`; None is null. */
  datatype Element = Element(name: string, kind: ElementKind, parent: Option<Element>)

  /** `IMember`: types, fields, methods and initializers. */
  predicate IsMember(e: Element)
  {
    e.kind == Type || e.kind == OtherMember
  }

  /** `a` lies on the parent chain of `e`, strictly above it. */
  predicate IsAncestor(a: Element, e: Element)
    decreases e
  {
    match e.parent
    case None => false
    case Some(p) => p == a || IsAncestor(a, p)
  }

  /** The length of the parent chain. */
  function Depth(e: Element): nat
    decreases e
  {
    match e.parent
    case None => 0
    case Some(p) => 1 + Depth(p)
  }

  /** Ancestors sit strictly higher, so no element is its own ancestor. */
  lemma {:induction false} AncestorIsHigher(a: Element, e: Element)
    requires IsAncestor(a, e)
    ensures Depth(a) < Depth(e)
    decreases e
  {
    match e.parent
    case Some(p) =>
      if p != a {
        AncestorIsHigher(a, p);
      }
  }

  /**
   The first ancestor of a member that is not itself a member: where
   `getClassFile()` and `getCompilationUnit()` of a member look.
   */
  function DeclaringUnit(e: Element): (r: Option<Element>)
    ensures r.Some? ==> IsAncestor(r.value, e) && !IsMember(r.value)
    decreases e
  {
    match e.parent
    case None => None
    case Some(p) => if IsMember(p) then DeclaringUnit(p) else Some(p)
  }

  /** `IMember.getClassFile()`: the declaring unit when it is a class file, else null. */
  function GetClassFile(e: Element): (r: Option<Element>)
    ensures r.Some? ==> r.value.kind == ClassFile && IsAncestor(r.value, e)
  {
    var u := DeclaringUnit(e);
    if u.Some? && u.value.kind == ClassFile then u else None
  }

  /** `IMember.getCompilationUnit()`: the declaring unit when it is a compilation unit, else null. */
  function GetCompilationUnit(e: Element): (r: Option<Element>)
    ensures r.Some? ==> r.value.kind == CompilationUnit && IsAncestor(r.value, e)
  {
    var u := DeclaringUnit(e);
    if u.Some? && u.value.kind == CompilationUnit then u else None
  }
}
