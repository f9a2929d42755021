/**
 * Request validation for page writes: the recursive component-tree check,
 * the ordered page-payload check, the slug character check and the UUID
 * format check. Everything here is a pure decision over a parsed body.
 */
module Validation {
  import opened Strings
  import opened JsValue
  import opened PageTypes

  /** The component type names the validator accepts, in the order it lists them. */
  const ValidComponentTypes: seq<string> :=
    ["Hero", "ArticleCard", "ArticleList", "Section", "Text", "Image", "Container"]

  /** The deepest nesting level accepted; a root component is at level 0. */
  const MaxDepth: nat := 10

  /** Longest title accepted. */
  const MaxTitleLength: nat := 255

  /** The validator's list names exactly the seven component types, without repeats. */
  lemma ValidTypesMatchComponentTypes(name: string, t: ComponentType)
    ensures |ValidComponentTypes| == 7
    ensures forall i, j :: 0 <= i < j < 7 ==> ValidComponentTypes[i] != ValidComponentTypes[j]
    ensures name in ValidComponentTypes <==> TypeFromName(name).Some?
    ensures TypeName(t) in ValidComponentTypes
  {
    TypeNameRoundTrip(t, t);
  }

  /** `VALID_COMPONENT_TYPES.includes(v)`: only a string equal to one of the names passes. */
  predicate IsValidType(v: Value)
  {
    v.Str? && v.s in ValidComponentTypes
  }

  // ---------------------------------------------------------------------------
  // Outcome of a validating middleware
  // ---------------------------------------------------------------------------

  /** A middleware either hands the request on (`next()`) or answers it itself. */
  datatype MiddlewareOutcome =
    | Next
    | Reject(status: nat, body: ApiResponse<()>)
      /** The middleware threw: Express hands the error to its error-handling middleware. */
    | Throws

  function BadRequest(message: string): MiddlewareOutcome
  {
    Reject(400, ApiResponse(false, None, Some(message)))
  }

  // ---------------------------------------------------------------------------
  // Component tree
  // ---------------------------------------------------------------------------

  datatype ComponentError =
    | NestingTooDeep
    | ComponentRequired
    | TypeRequired
    | InvalidType(value: Value)
    | IdRequired
    | PropsRequired
    | ChildrenNotArray

  /**
   * The message each component error is reported with; building the
   * invalid-type message throws when the type value cannot be converted.
   */
  function ComponentErrorMessage(e: ComponentError): Rendering
  {
    match e
    case NestingTooDeep => Rendered("Component nesting too deep (max 10 levels)")
    case ComponentRequired => Rendered("Component is required")
    case TypeRequired => Rendered("Component type is required")
    case InvalidType(v) =>
      (match ToJsString(v)
       case Rendered(t) => Rendered("Invalid component type: " + t)
       case TypeErrorThrown => TypeErrorThrown)
    case IdRequired => Rendered("Component id is required and must be a string")
    case PropsRequired => Rendered("Component props is required and must be an object")
    case ChildrenNotArray => Rendered("Component children must be an array")
  }

  /** The checks a single node must pass, apart from depth and its children. */
  predicate NodeFieldsOk(c: Value)
  {
    && Truthy(c)
    && IsValidType(Get(c, "type"))
    && Truthy(Get(c, "id")) && Get(c, "id").Str?
    && Truthy(Get(c, "props")) && TypeofObject(Get(c, "props"))
  }

  /**
   * Reference definition of an acceptable tree: every node sits at a level
   * of at most MaxDepth, passes its own checks, and has either no truthy
   * `children` or a `children` array whose elements are acceptable one level down.
   */
  ghost predicate WellFormed(c: Value, depth: nat)
  {
    && depth <= MaxDepth
    && NodeFieldsOk(c)
    && match c
       case Obj(fields) =>
         if "children" in fields && Truthy(fields["children"]) then
           match fields["children"]
           case Arr(children) => forall i | 0 <= i < |children| :: WellFormed(children[i], depth + 1)
           case _ => false
         else true
       case _ => true
  }

  /**
   * `validateComponent(component, depth)`: the first failing check's error,
   * or `None` (validateComponent's `null`) when the node and all its descendants pass.
   */
  function ValidateComponent(c: Value, depth: nat): (r: Option<ComponentError>)
    ensures depth > MaxDepth ==> r == Some(NestingTooDeep)
    ensures r.None? <==> WellFormed(c, depth)
  {
    if depth > MaxDepth then Some(NestingTooDeep)
    else if !Truthy(c) then Some(ComponentRequired)
    else if !Truthy(Get(c, "type")) then Some(TypeRequired)
    else if !IsValidType(Get(c, "type")) then Some(InvalidType(Get(c, "type")))
    else if !Truthy(Get(c, "id")) || !Get(c, "id").Str? then Some(IdRequired)
    else if !Truthy(Get(c, "props")) || !TypeofObject(Get(c, "props")) then Some(PropsRequired)
    else
      match c
      case Obj(fields) =>
        if "children" in fields && Truthy(fields["children"]) then
          match fields["children"]
          case Arr(children) => FirstChildError(children, depth + 1)
          case _ => Some(ChildrenNotArray)
        else None
      case _ => None
  }

  /**
   * The `for...of` loop over children: each child is validated at `depth`
   * in order, and the first error is returned unchanged.
   */
  function FirstChildError(children: seq<Value>, depth: nat): (r: Option<ComponentError>)
    ensures r.None? <==> forall i | 0 <= i < |children| :: WellFormed(children[i], depth)
  {
    if children == [] then None
    else
      match ValidateComponent(children[0], depth)
      case Some(e) => Some(e)
      case None => FirstChildError(children[1..], depth)
  }

  /** The children a node's validation recurses into (none unless `children` is an array). */
  function ChildrenOf(c: Value): seq<Value>
  {
    if Get(c, "children").Arr? then Get(c, "children").elems else []
  }

  /**
   * Every check of one node, each evaluated on its own, in the order the
   * validator runs them.
   */
  function NodeCheckFailures(c: Value, depth: nat): seq<ComponentError>
  {
    var t, id, props, children := Get(c, "type"), Get(c, "id"), Get(c, "props"), Get(c, "children");
    (if depth > MaxDepth then [NestingTooDeep] else [])
    + (if !Truthy(c) then [ComponentRequired] else [])
    + (if !Truthy(t) then [TypeRequired] else [])
    + (if Truthy(t) && !IsValidType(t) then [InvalidType(t)] else [])
    + (if !Truthy(id) || !id.Str? then [IdRequired] else [])
    + (if !Truthy(props) || !TypeofObject(props) then [PropsRequired] else [])
    + (if Truthy(children) && !children.Arr? then [ChildrenNotArray] else [])
  }

  /**
   * Which error wins: the first of the node's failing checks, in the fixed
   * order depth, presence, type, type name, id, props, children; only when
   * the node itself passes are its children examined.
   */
  lemma FirstFailingCheckDecides(c: Value, depth: nat)
    ensures NodeCheckFailures(c, depth) != [] ==> ValidateComponent(c, depth) == Some(NodeCheckFailures(c, depth)[0])
    ensures NodeCheckFailures(c, depth) == [] ==> ValidateComponent(c, depth) == FirstChildError(ChildrenOf(c), depth + 1)
  {
  }

  /** A node with a type outside the seven names is rejected, with that type in the message. */
  lemma UnknownTypeRejected(c: Value, depth: nat, t: string)
    requires Get(c, "type") == Str(t) && t != "" && t !in ValidComponentTypes
    ensures ValidateComponent(c, depth) == Some(if depth > MaxDepth then NestingTooDeep else InvalidType(Str(t)))
    ensures ValidateComponent(c, depth).Some?
  {
  }

  /**
   * The first failing child decides: children before it pass, and the
   * children after it are never looked at.
   */
  lemma {:induction false} FirstFailingChildDecides(children: seq<Value>, depth: nat, k: nat)
    requires k < |children| && ValidateComponent(children[k], depth).Some?
    requires forall j | 0 <= j < k :: ValidateComponent(children[j], depth).None?
    ensures FirstChildError(children, depth) == ValidateComponent(children[k], depth)
  {
    if k > 0 {
      assert ValidateComponent(children[0], depth).None?;
      FirstFailingChildDecides(children[1..], depth, k - 1);
    }
  }

  /** A Container chain with `levels` further levels of single-child nesting below its root. */
  function Chain(levels: nat): Value
  {
    var node := map["type" := Str("Container"), "id" := Str("node"), "props" := Obj(map[])];
    if levels == 0 then Obj(node) else Obj(node["children" := Arr([Chain(levels - 1)])])
  }

  /** A chain is accepted exactly when its deepest node is at level MaxDepth or less. */
  lemma {:induction false} ChainAcceptedIffShallow(levels: nat, depth: nat)
    ensures ValidateComponent(Chain(levels), depth)
         == if depth + levels <= MaxDepth then None else Some(NestingTooDeep)
  {
    if depth <= MaxDepth {
      ChainStep(levels, depth);
      if levels > 0 {
        ChainAcceptedIffShallow(levels - 1, depth + 1);
        assert FirstChildError([Chain(levels - 1)], depth + 1) == ValidateComponent(Chain(levels - 1), depth + 1);
      }
    }
  }

  /** One level of a chain: its root passes its own checks, so the outcome is its child's. */
  lemma ChainStep(levels: nat, depth: nat)
    requires depth <= MaxDepth
    ensures ValidateComponent(Chain(levels), depth)
         == if levels == 0 then None else FirstChildError([Chain(levels - 1)], depth + 1)
  {
    var c := Chain(levels);
    assert Get(c, "type") == Str("Container") && IsValidType(Get(c, "type"));
    assert Get(c, "id") == Str("node") && Get(c, "props") == Obj(map[]);
  }

  /** A root whose deepest descendant is at level 10 passes; one reaching level 11 does not. */
  lemma DepthTenAcceptedElevenRejected()
    ensures ValidateComponent(Chain(10), 0).None?
    ensures ValidateComponent(Chain(11), 0) == Some(NestingTooDeep)
  {
    ChainAcceptedIffShallow(10, 0);
    ChainAcceptedIffShallow(11, 0);
  }

  // ---------------------------------------------------------------------------
  // Typed trees
  // ---------------------------------------------------------------------------

  /** Levels of nesting below a node (0 for a leaf or an empty child list). */
  function Height(c: ComponentDefinition): nat
  {
    match c.children
    case NoChildren => 0
    case ChildList(nodes) => if nodes == [] then 0 else 1 + MaxHeight(nodes)
  }

  function MaxHeight(cs: seq<ComponentDefinition>): (h: nat)
    ensures forall i | 0 <= i < |cs| :: Height(cs[i]) <= h
  {
    if cs == [] then 0
    else if Height(cs[0]) >= MaxHeight(cs[1..]) then Height(cs[0])
    else MaxHeight(cs[1..])
  }

  /** Every node of a typed tree has a non-empty id. */
  predicate IdsNonEmpty(c: ComponentDefinition)
  {
    && c.id != ""
    && match c.children
       case NoChildren => true
       case ChildList(nodes) => forall i | 0 <= i < |nodes| :: IdsNonEmpty(nodes[i])
  }

  /**
   * A typed tree, sent as JSON, passes validation at `depth` exactly when
   * every id is non-empty and its deepest node is at level MaxDepth or less.
   */
  lemma {:induction false} TypedTreeValidates(c: ComponentDefinition, depth: nat)
    ensures ValidateComponent(ComponentToValue(c), depth).None?
        <==> IdsNonEmpty(c) && depth + Height(c) <= MaxDepth
    decreases c, 2
  {
    var v := ComponentToValue(c);
    ComponentValueFields(c);
    WellFormedByFields(v, depth);
    assert NodeFieldsOk(v) <==> c.id != "";
    match c.children
    case NoChildren =>
      assert Height(c) == 0;
      assert WellFormed(v, depth) <==> depth <= MaxDepth && c.id != "";
    case ChildList(nodes) =>
      TypedParentValidates(c, depth);
  }

  /** The case of `TypedTreeValidates` for a node with a child list. */
  lemma {:induction false} TypedParentValidates(c: ComponentDefinition, depth: nat)
    requires c.children.ChildList?
    ensures WellFormed(ComponentToValue(c), depth)
        <==> IdsNonEmpty(c) && depth + Height(c) <= MaxDepth
    decreases c, 1
  {
    var nodes := c.children.nodes;
    ParentWellFormed(c, depth);
    TypedChildrenValidate(nodes, depth + 1);
    ParentHeightFits(c, depth);
    assert IdsNonEmpty(c) <==> c.id != "" && forall i | 0 <= i < |nodes| :: IdsNonEmpty(nodes[i]);
  }

  /** A typed node with a child list is acceptable when its id is set and its children pass one level down. */
  lemma ParentWellFormed(c: ComponentDefinition, depth: nat)
    requires c.children.ChildList?
    ensures WellFormed(ComponentToValue(c), depth)
        <==> depth <= MaxDepth && c.id != "" && FirstChildError(ComponentsToValues(c.children.nodes), depth + 1).None?
  {
    var v := ComponentToValue(c);
    ComponentValueFields(c);
    WellFormedByFields(v, depth);
  }

  /** A node with a child list fits below MaxDepth when each child fits one level down. */
  lemma ParentHeightFits(c: ComponentDefinition, depth: nat)
    requires c.children.ChildList?
    ensures depth + Height(c) <= MaxDepth
        <==> depth <= MaxDepth && forall i | 0 <= i < |c.children.nodes| :: depth + 1 + Height(c.children.nodes[i]) <= MaxDepth
  {
    var nodes := c.children.nodes;
    if nodes != [] {
      assert Height(c) == 1 + MaxHeight(nodes);
      MaxHeightBound(nodes, MaxDepth - depth - 1);
    }
  }

  lemma {:induction false} TypedChildrenValidate(nodes: seq<ComponentDefinition>, depth: nat)
    ensures FirstChildError(ComponentsToValues(nodes), depth).None?
        <==> (forall i | 0 <= i < |nodes| :: IdsNonEmpty(nodes[i]))
             && (forall i | 0 <= i < |nodes| :: depth + Height(nodes[i]) <= MaxDepth)
    decreases nodes, 0
  {
    forall i | 0 <= i < |nodes|
      ensures WellFormed(ComponentToValue(nodes[i]), depth)
          <==> IdsNonEmpty(nodes[i]) && depth + Height(nodes[i]) <= MaxDepth
    {
      TypedTreeValidates(nodes[i], depth);
    }
  }

  /** The highest child is within a bound exactly when every child is. */
  lemma {:induction false} MaxHeightBound(nodes: seq<ComponentDefinition>, bound: int)
    ensures MaxHeight(nodes) <= bound <==> bound >= 0 && forall i | 0 <= i < |nodes| :: Height(nodes[i]) <= bound
  {
    if nodes != [] {
      MaxHeightBound(nodes[1..], bound);
      assert forall i | 1 <= i < |nodes| :: nodes[i] == nodes[1..][i - 1];
    }
  }

  /** The fields a typed node shows once sent as JSON. */
  lemma ComponentValueFields(c: ComponentDefinition)
    ensures IsValidType(Get(ComponentToValue(c), "type"))
    ensures Get(ComponentToValue(c), "id") == Str(c.id)
    ensures Get(ComponentToValue(c), "props") == Obj(c.props)
    ensures c.children.NoChildren? ==> Get(ComponentToValue(c), "children") == Undefined
    ensures c.children.ChildList? ==> Get(ComponentToValue(c), "children") == Arr(ComponentsToValues(c.children.nodes))
    ensures ComponentToValue(c).Obj?
  {
    ValidTypesMatchComponentTypes(TypeName(c.componentType), c.componentType);
  }

  /** Acceptance of a node, read off its fields. */
  lemma WellFormedByFields(v: Value, depth: nat)
    ensures WellFormed(v, depth) <==>
      && depth <= MaxDepth
      && NodeFieldsOk(v)
      && (Truthy(Get(v, "children")) ==>
            Get(v, "children").Arr? && FirstChildError(Get(v, "children").elems, depth + 1).None?)
  {
  }

  // ---------------------------------------------------------------------------
  // Slug
  // ---------------------------------------------------------------------------

  /** A character of the slug alphabet `[a-zA-Z0-9/-]`. */
  predicate IsSlugChar(ch: char)
  {
    ('a' <= ch <= 'z') || ('A' <= ch <= 'Z') || ('0' <= ch <= '9') || ch == '/' || ch == '-'
  }

  /** `validateSlug`: the anchored match of `[a-zA-Z0-9/-]+`, one character at a time. */
  function ValidateSlug(slug: string): (ok: bool)
    ensures ok <==> |slug| > 0 && forall i | 0 <= i < |slug| :: IsSlugChar(slug[i])
  {
    |slug| > 0 && IsSlugChar(slug[0]) && SlugCharsFollow(slug[1..])
  }

  /** The `*`-part of the match: the rest of the input is slug characters up to its end. */
  function SlugCharsFollow(s: string): (ok: bool)
    ensures ok <==> forall i | 0 <= i < |s| :: IsSlugChar(s[i])
  {
    s == [] || (IsSlugChar(s[0]) && SlugCharsFollow(s[1..]))
  }

  // ---------------------------------------------------------------------------
  // Page payload
  // ---------------------------------------------------------------------------

  datatype PageDataError =
    | SlugRequired
    | SlugInvalid
    | TitleRequired
    | TitleTooLong
    | MetadataNotObject
    | DescriptionNotString
    | KeywordsNotArray
    | OgImageNotString
    | ComponentsRequired
    | ComponentsNotArray
    | ComponentsEmpty
    | ComponentInvalid(error: ComponentError)

  /** The `error` text of the 400 response for each payload error. */
  function PageDataMessage(e: PageDataError): Rendering
  {
    match PageDataReason(e)
    case Rendered(t) => Rendered("Validation failed: " + t)
    case TypeErrorThrown => TypeErrorThrown
  }

  /** The reason part of each payload error's message. */
  function PageDataReason(e: PageDataError): Rendering
  {
    match e
    case SlugRequired => Rendered("slug is required and must be a string")
    case SlugInvalid => Rendered("slug can only contain letters, numbers, hyphens, and forward slashes")
    case TitleRequired => Rendered("title is required and must be a string")
    case TitleTooLong => Rendered("title must be 255 characters or less")
    case MetadataNotObject => Rendered("metadata must be an object")
    case DescriptionNotString => Rendered("metadata.description must be a string")
    case KeywordsNotArray => Rendered("metadata.keywords must be an array")
    case OgImageNotString => Rendered("metadata.ogImage must be a string")
    case ComponentsRequired => Rendered("components is required")
    case ComponentsNotArray => Rendered("components must be an array")
    case ComponentsEmpty => Rendered("components array cannot be empty")
    case ComponentInvalid(ce) => ComponentErrorMessage(ce)
  }

  /** The checks of `validatePageData`, fail-fast, in validatePageData's order. */
  function CheckPageData(body: Value): Option<PageDataError>
  {
    var slug, title, metadata, components :=
      Get(body, "slug"), Get(body, "title"), Get(body, "metadata"), Get(body, "components");
    if !Truthy(slug) || !slug.Str? then Some(SlugRequired)
    else if !ValidateSlug(slug.s) then Some(SlugInvalid)
    else if !Truthy(title) || !title.Str? then Some(TitleRequired)
    else if |title.s| > MaxTitleLength then Some(TitleTooLong)
    else if !metadata.Undefined? && !metadata.Obj? then Some(MetadataNotObject)
    else if Truthy(Get(metadata, "description")) && !Get(metadata, "description").Str? then Some(DescriptionNotString)
    else if Truthy(Get(metadata, "keywords")) && !Get(metadata, "keywords").Arr? then Some(KeywordsNotArray)
    else if Truthy(Get(metadata, "ogImage")) && !Get(metadata, "ogImage").Str? then Some(OgImageNotString)
    else if !Truthy(components) then Some(ComponentsRequired)
    else if !components.Arr? then Some(ComponentsNotArray)
    else if |components.elems| == 0 then Some(ComponentsEmpty)
    else
      match FirstChildError(components.elems, 0)
      case Some(ce) => Some(ComponentInvalid(ce))
      case None => None
  }

  /** One `ComponentInvalid` per root component that fails, in order. */
  function ComponentFailures(components: seq<Value>): seq<PageDataError>
  {
    if components == [] then []
    else
      (match ValidateComponent(components[0], 0)
       case Some(ce) => [ComponentInvalid(ce)]
       case None => [])
      + ComponentFailures(components[1..])
  }

  /**
   * Reference definition: every payload check evaluated on its own (none
   * stops the others), listed in the order the middleware runs them.
   */
  function PageDataFailures(body: Value): seq<PageDataError>
  {
    var slug, title, metadata, components :=
      Get(body, "slug"), Get(body, "title"), Get(body, "metadata"), Get(body, "components");
    var description, keywords, ogImage :=
      Get(metadata, "description"), Get(metadata, "keywords"), Get(metadata, "ogImage");
    (if !Truthy(slug) || !slug.Str? then [SlugRequired] else [])
    + (if slug.Str? && !ValidateSlug(slug.s) then [SlugInvalid] else [])
    + (if !Truthy(title) || !title.Str? then [TitleRequired] else [])
    + (if title.Str? && |title.s| > MaxTitleLength then [TitleTooLong] else [])
    + (if !metadata.Undefined? && !metadata.Obj? then [MetadataNotObject] else [])
    + (if Truthy(description) && !description.Str? then [DescriptionNotString] else [])
    + (if Truthy(keywords) && !keywords.Arr? then [KeywordsNotArray] else [])
    + (if Truthy(ogImage) && !ogImage.Str? then [OgImageNotString] else [])
    + (if !Truthy(components) then [ComponentsRequired] else [])
    + (if !components.Arr? then [ComponentsNotArray] else [])
    + (if components == Arr([]) then [ComponentsEmpty] else [])
    + (if components.Arr? then ComponentFailures(components.elems) else [])
  }

  /** The fail-fast loop over root components reports the first of their failures. */
  lemma {:induction false} FirstComponentFailure(components: seq<Value>)
    ensures FirstChildError(components, 0).None? <==> ComponentFailures(components) == []
    ensures FirstChildError(components, 0).Some? ==>
              ComponentFailures(components)[0] == ComponentInvalid(FirstChildError(components, 0).value)
  {
    if components != [] {
      FirstComponentFailure(components[1..]);
    }
  }

  /** The fail-fast checks report exactly the first failure of the full list, and nothing when it is empty. */
  lemma FirstPageDataFailureDecides(body: Value)
    ensures CheckPageData(body) == if PageDataFailures(body) == [] then None else Some(PageDataFailures(body)[0])
  {
    var components := Get(body, "components");
    if components.Arr? {
      FirstComponentFailure(components.elems);
    }
  }

  /** Building a payload error's message throws exactly for an invalid type whose value cannot be converted. */
  lemma PageDataMessageThrows(e: PageDataError)
    ensures PageDataMessage(e).TypeErrorThrown?
        <==> e.ComponentInvalid? && e.error.InvalidType? && ConversionThrows(e.error.value)
  {
  }

  /**
   * `validatePageData`: `next()` only when no check fails; otherwise a 400
   * whose error is the message of the first failing check, unless building
   * that message throws.
   */
  function ValidatePageData(body: Value): (r: MiddlewareOutcome)
    ensures r.Next? <==> PageDataFailures(body) == []
    ensures r.Throws? <==> PageDataFailures(body) != [] && PageDataMessage(PageDataFailures(body)[0]).TypeErrorThrown?
    ensures r.Reject? ==>
              && PageDataFailures(body) != []
              && PageDataMessage(PageDataFailures(body)[0]).Rendered?
              && r == BadRequest(PageDataMessage(PageDataFailures(body)[0]).text)
  {
    FirstPageDataFailureDecides(body);
    match CheckPageData(body)
    case None => Next
    case Some(e) =>
      match PageDataMessage(e)
      case Rendered(m) => BadRequest(m)
      case TypeErrorThrown => Throws
  }

  /**
   * A component whose `type` is an object with its own `toString` key makes
   * the middleware throw instead of answering 400.
   */
  lemma OwnToStringTypeThrows()
    ensures ValidatePageData(Obj(map[
              "slug" := Str("a"), "title" := Str("t"),
              "components" := Arr([Obj(map["type" := Obj(map["toString" := Num(1)]), "id" := Str("x"), "props" := Obj(map[])])])]))
            == Throws
  {
    var c := Obj(map["type" := Obj(map["toString" := Num(1)]), "id" := Str("x"), "props" := Obj(map[])]);
    var body := Obj(map["slug" := Str("a"), "title" := Str("t"), "components" := Arr([c])]);
    var t := Obj(map["toString" := Num(1)]);
    assert Get(c, "type") == t;
    assert !IsValidType(t);
    assert ValidateComponent(c, 0) == Some(InvalidType(t));
    assert FirstChildError([c], 0) == Some(InvalidType(t));
    assert ValidateSlug("a");
    assert Get(body, "metadata") == Undefined;
    assert CheckPageData(body) == Some(ComponentInvalid(InvalidType(t)));
    assert ToJsString(t) == TypeErrorThrown;
  }

  // ---------------------------------------------------------------------------
  // UUID
  // ---------------------------------------------------------------------------

  /** `[0-9a-f]` under the case-insensitive flag. */
  predicate IsHexDigit(ch: char)
  {
    ('0' <= ch <= '9') || ('a' <= ch <= 'f') || ('A' <= ch <= 'F')
  }

  /** Positions of the four dashes in a UUID. */
  predicate IsDashPosition(i: int)
  {
    i == 8 || i == 13 || i == 18 || i == 23
  }

  /** The anchored UUID pattern, position by position. */
  predicate IsUuid(s: string)
  {
    |s| == 36 && forall i | 0 <= i < 36 :: if IsDashPosition(i) then s[i] == '-' else IsHexDigit(s[i])
  }

  predicate IsHexGroup(g: string, n: nat)
  {
    |g| == n && forall i | 0 <= i < |g| :: IsHexDigit(g[i])
  }

  function JoinGroups(g1: string, g2: string, g3: string, g4: string, g5: string): string
  {
    g1 + "-" + g2 + "-" + g3 + "-" + g4 + "-" + g5
  }

  /** Five hex groups of lengths 8, 4, 4, 4 and 12 joined by dashes form a UUID. */
  lemma UuidFromGroups(g1: string, g2: string, g3: string, g4: string, g5: string)
    requires IsHexGroup(g1, 8) && IsHexGroup(g2, 4) && IsHexGroup(g3, 4) && IsHexGroup(g4, 4) && IsHexGroup(g5, 12)
    ensures IsUuid(JoinGroups(g1, g2, g3, g4, g5))
  {
    var s := JoinGroups(g1, g2, g3, g4, g5);
    forall i | 0 <= i < 36
      ensures if IsDashPosition(i) then s[i] == '-' else IsHexDigit(s[i])
    {
      if i < 8 { assert s[i] == g1[i]; }
      else if 8 < i < 13 { assert s[i] == g2[i - 9]; }
      else if 13 < i < 18 { assert s[i] == g3[i - 14]; }
      else if 18 < i < 23 { assert s[i] == g4[i - 19]; }
      else if 23 < i { assert s[i] == g5[i - 24]; }
    }
  }

  /** Every UUID is such a join of its five hex groups. */
  lemma UuidSplitsIntoGroups(s: string)
    requires IsUuid(s)
    ensures s == JoinGroups(s[..8], s[9..13], s[14..18], s[19..23], s[24..])
    ensures IsHexGroup(s[..8], 8) && IsHexGroup(s[9..13], 4) && IsHexGroup(s[14..18], 4)
    ensures IsHexGroup(s[19..23], 4) && IsHexGroup(s[24..], 12)
  {
    var j := JoinGroups(s[..8], s[9..13], s[14..18], s[19..23], s[24..]);
    assert |j| == 36;
    forall i | 0 <= i < 36 ensures j[i] == s[i] {
      if i < 8 { assert j[i] == s[..8][i]; }
      else if i == 8 { assert j[i] == '-'; }
      else if i < 13 { assert j[i] == s[9..13][i - 9]; }
      else if i == 13 { assert j[i] == '-'; }
      else if i < 18 { assert j[i] == s[14..18][i - 14]; }
      else if i == 18 { assert j[i] == '-'; }
      else if i < 23 { assert j[i] == s[19..23][i - 19]; }
      else if i == 23 { assert j[i] == '-'; }
      else { assert j[i] == s[24..][i - 24]; }
    }
  }

  /** `validateUUID`: `next()` exactly for UUIDs, otherwise a 400. */
  function ValidateUuid(id: string): (r: MiddlewareOutcome)
    ensures r.Next? <==> IsUuid(id)
    ensures !r.Throws?
    ensures r.Reject? ==> r.status == 400 && !r.body.success && r.body.error == Some("Invalid UUID format")
  {
    if IsUuid(id) then Next else BadRequest("Invalid UUID format")
  }
}
