/**
 The label of a search match in the flat, sortable result list: the
 element's text and its match count, with the order of name and container
 chosen by a set of text flags.
 */
module SortingLabels {
  import opened Options
  import opened JavaElements
  import opened SearchLabels

  /** The display orders the result page offers. */
  const SHOW_ELEMENT_CONTAINER: int := 1
  const SHOW_CONTAINER_ELEMENT: int := 2
  const SHOW_PATH: int := 3

  /**
   `JavaElementLabels` text flags. Each is a distinct bit, so a mask built
   with `|` is the set of its flags; `OtherFlag` stands for the flags of the
   default set that this provider does not name.
   */
  datatype LabelFlag =
    | FPostQualified | MPostQualified | IPostQualified | TPostQualified
    | DPostQualified | CfPostQualified | CuPostQualified
    | FFullyQualified | MFullyQualified | IFullyQualified | TFullyQualified
    | DQualified | CfQualified | CuQualified
    | MParameterTypes | PrependRootPath | PCompressed
    | OtherFlag(name: string)

  /** An import declaration is labelled by its import container's parent. */
  predicate ImportHasUnit(e: Element)
  {
    e.kind == ImportDeclaration ==> e.parent.Some? && e.parent.value.parent.Some?
  }

  /** The element whose text labels `e`: the compilation unit for an import declaration, else `e`. */
  function LabelTarget(e: Element): (r: Element)
    requires ImportHasUnit(e)
    ensures e.kind == ImportDeclaration ==> IsAncestor(r, e) && Depth(r) + 2 == Depth(e)
    ensures e.kind != ImportDeclaration ==> r == e
  {
    if e.kind == ImportDeclaration then e.parent.value.parent.value else e
  }

  /** getText: the text, followed by the match count when there are at least two matches. */
  function GetText(ctx: LabelContext, e: Element): (r: string)
    requires ImportHasUnit(e)
    ensures ctx.matchCount(e) < 2 ==> r == InternalText(ctx, LabelTarget(e))
    ensures 2 <= ctx.matchCount(e) ==> r == InternalText(ctx, LabelTarget(e)) + MatchSuffix(ctx.matchCount(e))
  {
    var matchCount := ctx.matchCount(e);
    var text := InternalText(ctx, LabelTarget(e));
    if matchCount < 2 then text else text + MatchSuffix(matchCount)
  }

  /**
   The label starts with the text of the element it stands for, and what
   follows it is either nothing or a suffix that reads back as the count.
   */
  lemma GetTextShowsCount(ctx: LabelContext, e: Element)
    requires ImportHasUnit(e)
    ensures var text := InternalText(ctx, LabelTarget(e));
            var r := GetText(ctx, e);
            && |text| <= |r| && r[..|text|] == text
            && (|r| == |text| <==> ctx.matchCount(e) < 2)
            && (2 <= ctx.matchCount(e) ==> r[|text|..] == MatchSuffix(ctx.matchCount(e)))
  {
    var text := InternalText(ctx, LabelTarget(e));
    var n := ctx.matchCount(e);
    if 2 <= n {
      MatchSuffixShowsCount(n);
      assert (text + MatchSuffix(n))[|text|..] == MatchSuffix(n);
    }
  }

  /** The flags every order starts from: `DEFAULT_TEXTFLAGS | P_COMPRESSED`. */
  function BaseFlags(defaultTextFlags: set<LabelFlag>): set<LabelFlag>
  {
    defaultTextFlags + {PCompressed}
  }

  /** Names qualified after the element: for SHOW_ELEMENT_CONTAINER. */
  const PostQualifiedFlags: set<LabelFlag> :=
    {FPostQualified, MPostQualified, IPostQualified, MParameterTypes,
     TPostQualified, DPostQualified, CfPostQualified, CuPostQualified}

  /** Names fully qualified in front: for SHOW_CONTAINER_ELEMENT and SHOW_PATH. */
  const FullyQualifiedFlags: set<LabelFlag> :=
    {FFullyQualified, MFullyQualified, IFullyQualified, MParameterTypes,
     TFullyQualified, DQualified, CfQualified, CuQualified}

  /** setOrder: the text flags installed for a display order. */
  function SetOrder(orderFlag: int, defaultTextFlags: set<LabelFlag>): (flags: set<LabelFlag>)
    ensures BaseFlags(defaultTextFlags) <= flags
    ensures PCompressed in flags
    ensures orderFlag !in {SHOW_ELEMENT_CONTAINER, SHOW_CONTAINER_ELEMENT, SHOW_PATH} ==> flags == BaseFlags(defaultTextFlags)
    ensures orderFlag == SHOW_ELEMENT_CONTAINER ==> flags == BaseFlags(defaultTextFlags) + PostQualifiedFlags
    ensures orderFlag == SHOW_CONTAINER_ELEMENT ==> flags == BaseFlags(defaultTextFlags) + FullyQualifiedFlags
    ensures orderFlag == SHOW_PATH ==> flags == BaseFlags(defaultTextFlags) + FullyQualifiedFlags + {PrependRootPath}
    ensures orderFlag == SHOW_ELEMENT_CONTAINER ==> TPostQualified in flags && MParameterTypes in flags
    ensures orderFlag in {SHOW_CONTAINER_ELEMENT, SHOW_PATH} ==> TFullyQualified in flags && MParameterTypes in flags
    ensures PrependRootPath in flags <==> orderFlag == SHOW_PATH || PrependRootPath in defaultTextFlags
  {
    var flags := BaseFlags(defaultTextFlags);
    if orderFlag == SHOW_ELEMENT_CONTAINER then flags + PostQualifiedFlags
    else if orderFlag == SHOW_CONTAINER_ELEMENT then flags + FullyQualifiedFlags
    else if orderFlag == SHOW_PATH then flags + FullyQualifiedFlags + {PrependRootPath}
    else flags
  }

  /** SHOW_PATH is SHOW_CONTAINER_ELEMENT with the root path prepended. */
  lemma ShowPathPrependsRoot(defaultTextFlags: set<LabelFlag>)
    ensures SetOrder(SHOW_PATH, defaultTextFlags) == SetOrder(SHOW_CONTAINER_ELEMENT, defaultTextFlags) + {PrependRootPath}
  {
  }

  /** Whatever the defaults, the two element/container orders differ. */
  lemma OrdersDiffer(defaultTextFlags: set<LabelFlag>)
    ensures (TPostQualified !in defaultTextFlags || TFullyQualified !in defaultTextFlags) ==>
              SetOrder(SHOW_ELEMENT_CONTAINER, defaultTextFlags) != SetOrder(SHOW_CONTAINER_ELEMENT, defaultTextFlags)
  {
    if TPostQualified !in defaultTextFlags {
      assert TPostQualified !in SetOrder(SHOW_CONTAINER_ELEMENT, defaultTextFlags);
    } else if TFullyQualified !in defaultTextFlags {
      assert TFullyQualified !in SetOrder(SHOW_ELEMENT_CONTAINER, defaultTextFlags);
    }
  }
}
