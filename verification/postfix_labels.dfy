/**
 The label of a search match shown in a tree whose levels skip some of the
 Java hierarchy: the element's text, its match count, and a postfix naming
 the ancestors the tree does not show.
 */
module PostfixLabels {
  import opened Options
  import opened JavaElements
  import opened SearchLabels

  /**
   isSameInformation: a class file or compilation unit adds nothing to the
   label of the type it declares.
   */
  predicate IsSameInformation(realParent: Element, lastElement: Element)
  {
    && lastElement.kind == Type
    && ((realParent.kind == ClassFile && GetClassFile(lastElement) == Some(realParent))
        || (realParent.kind == CompilationUnit && GetCompilationUnit(lastElement) == Some(realParent)))
  }

  /** Along the walk, where `realParent` is the parent of `lastElement`, only a type's own unit is skipped. */
  lemma SameInformationOfParent(p: Element, last: Element)
    requires last.parent == Some(p)
    ensures IsSameInformation(p, last) <==> last.kind == Type && (p.kind == ClassFile || p.kind == CompilationUnit)
  {
  }

  /** The walk up the parent chain does not go past the Java model or the parent the tree shows. */
  predicate Stops(a: Element, visible: Option<Element>)
  {
    a.kind == JavaModel || Some(a) == visible
  }

  /** `a` is reached by the walk up from `last` before the walk stops. */
  predicate OnWalk(a: Element, last: Element, visible: Option<Element>)
    decreases last
  {
    match last.parent
    case None => false
    case Some(p) => !Stops(p, visible) && (p == a || OnWalk(a, p, visible))
  }

  /**
   The ancestors named in the postfix of `last`, child first: walking up
   from the parent, stopping at null, at the Java model or at the parent the
   tree shows, and skipping a type's own class file or compilation unit.
   */
  function Segments(last: Element, visible: Option<Element>): (r: seq<Element>)
    ensures forall s | s in r :: OnWalk(s, last, visible) && IsAncestor(s, last) && s.kind != JavaModel && Some(s) != visible
    ensures forall i | 0 < i < |r| :: IsAncestor(r[i], r[i - 1])
    decreases last
  {
    match last.parent
    case None => []
    case Some(p) =>
      if Stops(p, visible) then []
      else
        var rest := Segments(p, visible);
        if IsSameInformation(p, last) then rest else [p] + rest
  }

  /** An element reached by the walk lies strictly above the start. */
  lemma {:induction false} OnWalkIsAncestor(a: Element, last: Element, visible: Option<Element>)
    requires OnWalk(a, last, visible)
    ensures IsAncestor(a, last) && Depth(a) < Depth(last)
    decreases last
  {
    match last.parent
    case Some(p) =>
      if p != a {
        OnWalkIsAncestor(a, p, visible);
      }
  }

  /**
   The postfix names every element the walk passes, except a type's own
   unit: for `a` reached by the walk, with `c` its child on the way up, `a`
   is named exactly when it does not repeat `c`.
   */
  lemma {:induction false} SegmentsComplete(last: Element, visible: Option<Element>, c: Element, a: Element)
    requires c == last || OnWalk(c, last, visible)
    requires c.parent == Some(a) && !Stops(a, visible)
    ensures a in Segments(last, visible) <==> !IsSameInformation(a, c)
    decreases last
  {
    if c == last {
      if a in Segments(a, visible) {
        OnWalkIsAncestor(a, a, visible);
      }
    } else {
      var p := last.parent.value;
      assert OnWalk(a, c, visible);
      if c == p {
        OnWalkIsAncestor(a, p, visible);
      } else {
        OnWalkIsAncestor(c, p, visible);
        AncestorIsHigher(a, c);
      }
      SegmentsComplete(p, visible, c, a);
    }
  }

  /** What one segment adds to the postfix. */
  function Piece(ctx: LabelContext, segment: Element): string
  {
    " - " + InternalText(ctx, segment)
  }

  /** The pieces of the segments, in order. */
  function Postfix(ctx: LabelContext, segments: seq<Element>): string
    decreases |segments|
  {
    if |segments| == 0 then "" else Piece(ctx, segments[0]) + Postfix(ctx, segments[1..])
  }

  lemma SegmentsUnfold(last: Element, p: Element, visible: Option<Element>)
    requires last.parent == Some(p) && !Stops(p, visible)
    ensures Segments(last, visible) == if IsSameInformation(p, last) then Segments(p, visible) else [p] + Segments(p, visible)
  {
  }

  lemma PostfixCons(ctx: LabelContext, prefix: string, p: Element, rest: seq<Element>)
    ensures prefix + Postfix(ctx, [p] + rest) == (prefix + Piece(ctx, p)) + Postfix(ctx, rest)
  {
    assert ([p] + rest)[1..] == rest;
    assert Postfix(ctx, [p] + rest) == Piece(ctx, p) + Postfix(ctx, rest);
  }

  /** One step of the walk: the parent adds its segment unless it is the type's own unit. */
  lemma PostfixStep(ctx: LabelContext, last: Element, p: Element, visible: Option<Element>, postfix: string)
    requires last.parent == Some(p) && !Stops(p, visible)
    ensures !IsSameInformation(p, last) ==>
      (postfix + Piece(ctx, p)) + Postfix(ctx, Segments(p, visible)) == postfix + Postfix(ctx, Segments(last, visible))
    ensures IsSameInformation(p, last) ==>
      postfix + Postfix(ctx, Segments(p, visible)) == postfix + Postfix(ctx, Segments(last, visible))
  {
    var rest := Segments(p, visible);
    SegmentsUnfold(last, p, visible);
    if !IsSameInformation(p, last) {
      PostfixCons(ctx, postfix, p, rest);
    }
  }

  /** getText: the text, the match count when above one, and the postfix unless the count is one. */
  method GetText(ctx: LabelContext, element: Element) returns (shown: string)
    ensures var text := InternalText(ctx, element);
            var postfix := Postfix(ctx, Segments(element, ctx.visibleParent(element)));
            var n := ctx.matchCount(element);
            && (n == 0 ==> shown == text + postfix)
            && (n == 1 ==> shown == text)
            && (2 <= n ==> shown == text + MatchSuffix(n) + postfix)
  {
    var visibleParent := ctx.visibleParent(element);
    var realParent := element.parent;
    var lastElement := element;
    var postfix := "";
    while realParent.Some? && realParent.value.kind != JavaModel && realParent != visibleParent
      invariant realParent == lastElement.parent
      invariant postfix + Postfix(ctx, Segments(lastElement, visibleParent)) == Postfix(ctx, Segments(element, visibleParent))
      decreases Depth(lastElement)
    {
      var p := realParent.value;
      PostfixStep(ctx, lastElement, p, visibleParent, postfix);
      if !IsSameInformation(p, lastElement) {
        postfix := postfix + Piece(ctx, p);
      }
      lastElement := p;
      realParent := p.parent;
    }
    var matchCount := ctx.matchCount(element);
    var text := InternalText(ctx, element);
    if matchCount == 0 {
      return text + postfix;
    }
    if matchCount == 1 {
      return text;
    }
    return text + MatchSuffix(matchCount) + postfix;
  }
}
