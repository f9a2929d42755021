/**
 * The page data model: component types, the recursive component tree,
 * page metadata, the page as the API returns it, the database row, the
 * create/update request body and the response envelope.
 */
module PageTypes {
  import opened JsValue

  datatype Option<+T> = None | Some(value: T)

  /** The closed set of component kinds a page may contain. */
  datatype ComponentType = Hero | ArticleCard | ArticleList | Section | Text | Image | Container

  /** The name a component type has in JSON. */
  function TypeName(t: ComponentType): string
  {
    match t
    case Hero => "Hero"
    case ArticleCard => "ArticleCard"
    case ArticleList => "ArticleList"
    case Section => "Section"
    case Text => "Text"
    case Image => "Image"
    case Container => "Container"
  }

  /** The component type a JSON name denotes, if any. */
  function TypeFromName(name: string): (r: Option<ComponentType>)
    ensures r.Some? ==> TypeName(r.value) == name
  {
    match name
    case "Hero" => Some(Hero)
    case "ArticleCard" => Some(ArticleCard)
    case "ArticleList" => Some(ArticleList)
    case "Section" => Some(Section)
    case "Text" => Some(Text)
    case "Image" => Some(Image)
    case "Container" => Some(Container)
    case _ => None
  }

  /** Every type has a name that denotes it back; no two types share a name. */
  lemma TypeNameRoundTrip(t: ComponentType, u: ComponentType)
    ensures TypeFromName(TypeName(t)) == Some(t)
    ensures TypeName(t) == TypeName(u) ==> t == u
  {
    match t
    case Hero =>
    case ArticleCard =>
    case ArticleList =>
    case Section =>
    case Text =>
    case Image =>
    case Container =>
  }

  /**
   * A node of the component tree. `props` is an opaque string-keyed mapping;
   * `children`, when present, is an ordered sequence of nodes of the same shape.
   */
  datatype ComponentDefinition = ComponentDefinition(
    componentType: ComponentType,
    id: string,
    props: map<string, Value>,
    children: Children)

  /**
   * The optional `children` field. A dedicated datatype rather than
   * `Option<seq<...>>`, so that recursion over a tree is well founded.
   */
  datatype Children = NoChildren | ChildList(nodes: seq<ComponentDefinition>)

  /** Descriptive page metadata; every field may be absent. */
  datatype PageMetadata = PageMetadata(
    description: Option<string>,
    keywords: Option<seq<string>>,
    ogImage: Option<string>)

  /** A storage timestamp, treated as an opaque ordered value. */
  type Timestamp = nat

  /** A page as the service returns it: metadata and timestamps may be absent. */
  datatype Page = Page(
    id: string,
    slug: string,
    title: string,
    metadata: Option<PageMetadata>,
    components: seq<ComponentDefinition>,
    createdAt: Option<Timestamp>,
    updatedAt: Option<Timestamp>)

  /** A row of the `pages` table: metadata is nullable (`None` is SQL NULL), the timestamps are always set. */
  datatype PageDB = PageDB(
    id: string,
    slug: string,
    title: string,
    metadata: Option<PageMetadata>,
    components: seq<ComponentDefinition>,
    createdAt: Timestamp,
    updatedAt: Timestamp)

  /** The body of a create request. */
  datatype CreatePageRequest = CreatePageRequest(
    slug: string,
    title: string,
    metadata: Option<PageMetadata>,
    components: seq<ComponentDefinition>)

  /** An update request has exactly the shape of a create request. */
  type UpdatePageRequest = CreatePageRequest

  /** The response envelope every endpoint answers with. */
  datatype ApiResponse<T> = ApiResponse(success: bool, data: Option<T>, error: Option<string>)

  /** The JSON value a typed component tree is sent and stored as. */
  function ComponentToValue(c: ComponentDefinition): Value
  {
    var fields := map["type" := Str(TypeName(c.componentType)), "id" := Str(c.id), "props" := Obj(c.props)];
    match c.children
    case NoChildren => Obj(fields)
    case ChildList(nodes) => Obj(fields["children" := Arr(ComponentsToValues(nodes))])
  }

  function ComponentsToValues(cs: seq<ComponentDefinition>): (r: seq<Value>)
    ensures |r| == |cs|
    ensures forall i :: 0 <= i < |cs| ==> r[i] == ComponentToValue(cs[i])
  {
    if cs == [] then [] else [ComponentToValue(cs[0])] + ComponentsToValues(cs[1..])
  }
}
