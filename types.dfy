/** The route manifest that the app generator reads: components, pages and
    endpoints as the route collector hands them over. Route patterns are
    regular-expression objects in the source; the generator only ever uses
    their string form, so a pattern is modelled as that string. */
module ManifestTypes {

  datatype Option<T> = None | Some(value: T)

  /** One entry of a page's `parts`: a component reference, or a slot with no
      component (JavaScript `undefined`). */
  datatype Part = Missing | Component(path: string)

  /** A page: its pattern's string form, its declared parameter names in
      capture-group order, and its parts, outermost layout first. */
  datatype Page = Page(pattern: string, params: seq<string>, parts: seq<Part>)

  /** An endpoint route; only its pattern is consulted. */
  datatype Route = Route(pattern: string)

  datatype ManifestData = ManifestData(
    components: seq<string>,
    pages: seq<Page>,
    endpoints: seq<Route>,
    layout: string,
    error: string)

  /** JavaScript truthiness of a part: `undefined` and the empty string are
      falsy, every other component reference is truthy. */
  predicate Truthy(p: Part)
    ensures p.Missing? ==> !Truthy(p)
    ensures p.Component? ==> (Truthy(p) <==> |p.path| > 0)
  {
    p.Component? && p.path != ""
  }

  /** The property key JavaScript uses when a part indexes a plain object:
      `undefined` is converted to the string "undefined". */
  function PartKey(p: Part): (k: string)
    ensures p.Missing? ==> k == "undefined"
    ensures p.Component? ==> k == p.path
  {
    match p
    case Missing => "undefined"
    case Component(c) => c
  }
}
