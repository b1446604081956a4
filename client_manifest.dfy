/** The client routing manifest (`generate_client_manifest`): the endpoints
    to ignore, the table of lazily imported components with the index of
    each component, a parameter decoder per page, and each page's parts as
    references into the component table. The emitted module text is
    modelled by its structure. */
module ClientManifest {
  import opened ManifestTypes
  import Text

  // ---------------------------------------------------------------------
  // Endpoints to ignore

  /** The string forms of all page patterns (the `page_ids` set). */
  function PageIds(pages: seq<Page>): (ids: set<string>)
    ensures forall i :: 0 <= i < |pages| ==> pages[i].pattern in ids
    ensures forall id :: id in ids ==> exists i :: 0 <= i < |pages| && pages[i].pattern == id
  {
    set i | 0 <= i < |pages| :: pages[i].pattern
  }

  /** The endpoints whose pattern is not the pattern of any page, in
      endpoint order. */
  function EndpointsToIgnore(ids: set<string>, endpoints: seq<Route>): (r: seq<Route>)
    ensures forall e :: e in r <==> e in endpoints && e.pattern !in ids
    ensures |r| <= |endpoints|
  {
    if endpoints == [] then []
    else
      var rest := EndpointsToIgnore(ids, endpoints[1..]);
      assert forall e :: e in endpoints <==> e == endpoints[0] || e in endpoints[1..] by {
        assert endpoints == [endpoints[0]] + endpoints[1..];
      }
      if endpoints[0].pattern in ids then rest else [endpoints[0]] + rest
  }

  /** The filter keeps relative order: filtering a concatenation is the
      concatenation of the filtered halves. */
  lemma {:induction false} EndpointsToIgnoreAppend(ids: set<string>, a: seq<Route>, b: seq<Route>)
    ensures EndpointsToIgnore(ids, a + b) == EndpointsToIgnore(ids, a) + EndpointsToIgnore(ids, b)
  {
    if a == [] {
      assert a + b == b;
    } else {
      assert (a + b)[0] == a[0];
      assert (a + b)[1..] == a[1..] + b;
      EndpointsToIgnoreAppend(ids, a[1..], b);
    }
  }

  /** With no endpoint sharing a page's pattern, every endpoint is ignored. */
  lemma {:induction false} EndpointsToIgnoreAll(ids: set<string>, endpoints: seq<Route>)
    requires forall i :: 0 <= i < |endpoints| ==> endpoints[i].pattern !in ids
    ensures EndpointsToIgnore(ids, endpoints) == endpoints
  {
    if endpoints != [] {
      EndpointsToIgnoreAll(ids, endpoints[1..]);
    }
  }

  // ---------------------------------------------------------------------
  // Component table and component indexes

  /** One table entry, `() => import(path)`. */
  datatype LazyImport = LazyImport(path: string)

  /** The `component_indexes` record after the loop has seen `cs`: every
      component maps to the LAST position at which it occurs, since each
      assignment overwrites the previous one. */
  function ComponentIndexes(cs: seq<string>): (m: map<string, nat>)
    ensures forall c :: c in m <==> c in cs
    ensures forall c :: c in m ==> m[c] < |cs| && cs[m[c]] == c
    ensures forall c, j :: c in m && m[c] < j < |cs| ==> cs[j] != c
  {
    if cs == [] then map[]
    else
      var init := cs[..|cs| - 1];
      var m0 := ComponentIndexes(init);
      assert cs == init + [cs[|cs| - 1]];
      assert forall c :: c in m0 ==> cs[m0[c]] == init[m0[c]];
      m0[cs[|cs| - 1] := |cs| - 1]
  }

  /** On a list without repetitions the last position is the only one, so
      the index of a component is its position in the list. */
  lemma ComponentIndexesOfDistinct(cs: seq<string>, i: nat)
    requires forall a, b :: 0 <= a < b < |cs| ==> cs[a] != cs[b]
    requires i < |cs|
    ensures cs[i] in ComponentIndexes(cs) && ComponentIndexes(cs)[cs[i]] == i
  {
  }

  /** A repeated component keeps the index of its last occurrence, and the
      table still has one entry per element. */
  lemma LastOccurrenceExample()
    ensures ComponentIndexes(["a", "b", "a"]) == map["a" := 2, "b" := 1]
  {
    assert ["a", "b", "a"][..2] == ["a", "b"];
    assert ["a", "b"][..1] == ["a"];
    assert ["a"][..0] == [];
  }

  /** The `components.map(...)` pass: one lazy import per input element, in
      input order, and the index record filled as a side effect. */
  method BuildComponentTable(components: seq<string>, resolve: string -> string)
    returns (table: seq<LazyImport>, indexes: map<string, nat>)
    ensures |table| == |components|
    ensures forall i :: 0 <= i < |components| ==> table[i] == LazyImport(resolve(components[i]))
    ensures indexes == ComponentIndexes(components)
  {
    table, indexes := [], map[];
    var i := 0;
    while i < |components|
      invariant 0 <= i <= |components|
      invariant |table| == i
      invariant forall k :: 0 <= k < i ==> table[k] == LazyImport(resolve(components[k]))
      invariant indexes == ComponentIndexes(components[..i])
    {
      assert components[..i + 1][..i] == components[..i];
      indexes := indexes[components[i] := i];
      table := table + [LazyImport(resolve(components[i]))];
      i := i + 1;
    }
    assert components[..i] == components;
  }

  // ---------------------------------------------------------------------
  // Parameter decoders

  /** How one parameter is taken from the match array `m`. */
  datatype Binding = Binding(name: string, group: nat, rest: bool)

  /** The `params` entry of a page: the shared `empty` decoder, or the
      generated `(m) => ({ ... })`. */
  datatype Decoder = Empty | FromMatch(bindings: seq<Binding>)

  /** `param.startsWith('...')`. */
  predicate IsRest(param: string)
    ensures IsRest(param) <==> |param| >= 3 && param[0] == '.' && param[1] == '.' && param[2] == '.'
  {
    |param| >= 3 && param[..3] == "..."
  }

  /** The object key a parameter is emitted under. */
  function ParamName(param: string): (name: string)
    ensures IsRest(param) ==> param == "..." + name
    ensures !IsRest(param) ==> name == param
  {
    if IsRest(param) then
      assert param == param[..3] + param[3..];
      param[3..]
    else param
  }

  /** The emitted entry for parameter `i`: its key, the capture group
      `m[i + 1]` it reads, and whether it is split into segments. */
  function Bind(param: string, i: nat): (b: Binding)
    ensures b.group == i + 1
    ensures b.rest <==> IsRest(param)
    ensures b.rest ==> "..." + b.name == param
    ensures !b.rest ==> b.name == param
  {
    Binding(ParamName(param), i + 1, IsRest(param))
  }

  /** The `params` expression of a page: `empty` exactly when the page has
      no parameters, and otherwise one binding per parameter, parameter `i`
      reading capture group `i + 1`. */
  function ParamsDecoder(params: seq<string>): (d: Decoder)
    ensures d.Empty? <==> params == []
    ensures d.FromMatch? ==> |d.bindings| == |params|
    ensures d.FromMatch? ==> forall i :: 0 <= i < |params| ==>
      && d.bindings[i].group == i + 1
      && d.bindings[i].rest == IsRest(params[i])
      && (IsRest(params[i]) ==> "..." + d.bindings[i].name == params[i])
      && (!IsRest(params[i]) ==> d.bindings[i].name == params[i])
  {
    if |params| == 0 then Empty
    else FromMatch(seq(|params|, i requires 0 <= i < |params| => Bind(params[i], i)))
  }

  /** A decoded parameter: a scalar, or the segments of a rest parameter. */
  datatype Value = Scalar(s: string) | Segments(parts: seq<string>)

  predicate GroupsPresent(d: Decoder, m: seq<string>)
  {
    d.FromMatch? ==> forall k :: 0 <= k < |d.bindings| ==> d.bindings[k].group < |m|
  }

  /** What the emitted decoder returns on a match array `m`, with `decode`
      standing for `decodeURIComponent`: the object's entries in order. */
  function RunDecoder(d: Decoder, m: seq<string>, decode: string -> string): (r: seq<(string, Value)>)
    requires GroupsPresent(d, m)
    ensures d.Empty? ==> r == []
    ensures d.FromMatch? ==> |r| == |d.bindings|
    ensures d.FromMatch? ==> forall k :: 0 <= k < |r| ==>
      && r[k].0 == d.bindings[k].name
      && (d.bindings[k].rest ==>
            && r[k].1.Segments?
            && |r[k].1.parts| >= 1
            && (forall seg :: seg in r[k].1.parts ==> '/' !in seg)
            && Text.Join(r[k].1.parts, '/') == decode(m[d.bindings[k].group]))
      && (!d.bindings[k].rest ==> r[k].1 == Scalar(decode(m[d.bindings[k].group])))
  {
    match d
    case Empty => []
    case FromMatch(bs) =>
      assert forall k :: 0 <= k < |bs| ==> Text.Join(Text.Split(decode(m[bs[k].group]), '/'), '/') == decode(m[bs[k].group]) by {
        forall k | 0 <= k < |bs| ensures Text.Join(Text.Split(decode(m[bs[k].group]), '/'), '/') == decode(m[bs[k].group]) {
          Text.JoinSplit(decode(m[bs[k].group]), '/');
        }
      }
      seq(|bs|, k requires 0 <= k < |bs| =>
        var b := bs[k];
        (b.name, if b.rest then Segments(Text.Split(decode(m[b.group]), '/')) else Scalar(decode(m[b.group]))))
  }

  /** Decoding is positional: parameter `i` is read from `m[i + 1]`, under
      its name without the `...` marker, split on `/` exactly when it is a rest
      parameter; the segments join back to the decoded group. */
  lemma DecoderBindsPositionally(params: seq<string>, m: seq<string>, decode: string -> string)
    requires |m| > |params|
    ensures GroupsPresent(ParamsDecoder(params), m)
    ensures params == [] <==> ParamsDecoder(params) == Empty
    ensures |RunDecoder(ParamsDecoder(params), m, decode)| == |params|
    ensures forall i :: 0 <= i < |params| ==>
      var entry := RunDecoder(ParamsDecoder(params), m, decode)[i];
      && (IsRest(params[i]) ==> && "..." + entry.0 == params[i]
                                && entry.1 == Segments(Text.Split(decode(m[i + 1]), '/'))
                                && (forall seg :: seg in entry.1.parts ==> '/' !in seg)
                                && Text.Join(entry.1.parts, '/') == decode(m[i + 1]))
      && (!IsRest(params[i]) ==> entry == (params[i], Scalar(decode(m[i + 1]))))
  {
  }

  /** The full match `m[0]` is never bound to a parameter. */
  lemma DecoderIgnoresFullMatch(params: seq<string>, m: seq<string>, m': seq<string>, decode: string -> string)
    requires |m| > |params| && |m| == |m'| && m[1..] == m'[1..]
    ensures GroupsPresent(ParamsDecoder(params), m) && GroupsPresent(ParamsDecoder(params), m')
    ensures RunDecoder(ParamsDecoder(params), m, decode) == RunDecoder(ParamsDecoder(params), m', decode)
  {
    var d := ParamsDecoder(params);
    if d.FromMatch? {
      forall k | 1 <= k < |m| ensures m[k] == m'[k] {
        assert m[k] == m[1..][k - 1] && m'[k] == m'[1..][k - 1];
      }
    }
  }

  /** A rest parameter on the match of `/a/b/c`: since the captured text
      starts with the separator, `split` yields a leading empty segment. */
  lemma RestParameterExample()
    ensures RunDecoder(ParamsDecoder(["...rest"]), ["/a/b/c", "/a/b/c"], s => s)
         == [("rest", Segments(["", "a", "b", "c"]))]
  {
    assert IsRest("...rest");
    assert "...rest"[3..] == "rest";
    assert Text.Split("", '/') == [""];
    Text.SplitOther('c', '/', "");
    assert "c" == ['c'] + "";
    assert Text.Split("c", '/') == ["c"];
    Text.SplitSeparator('/', "c");
    assert "/c" == ['/'] + "c";
    assert Text.Split("/c", '/') == ["", "c"];
    Text.SplitOther('b', '/', "/c");
    assert "b/c" == ['b'] + "/c";
    assert ["", "c"][1..] == ["c"] && ['b'] + "" == "b";
    assert Text.Split("b/c", '/') == ["b", "c"];
    Text.SplitSeparator('/', "b/c");
    assert "/b/c" == ['/'] + "b/c";
    assert Text.Split("/b/c", '/') == ["", "b", "c"];
    Text.SplitOther('a', '/', "/b/c");
    assert "a/b/c" == ['a'] + "/b/c";
    assert ["", "b", "c"][1..] == ["b", "c"] && ['a'] + "" == "a";
    assert Text.Split("a/b/c", '/') == ["a", "b", "c"];
    Text.SplitSeparator('/', "a/b/c");
    assert "/a/b/c" == ['/'] + "a/b/c";
    assert Text.Split("/a/b/c", '/') == ["", "a", "b", "c"];
  }

  // ---------------------------------------------------------------------
  // Page descriptors

  /** The last part, named in the descriptor's comment; JavaScript prints
      `undefined` for a page without parts. */
  function LastPart(parts: seq<Part>): (p: Part)
    ensures parts == [] ==> p == Missing
    ensures parts != [] ==> p in parts && p == parts[|parts| - 1]
  {
    if parts == [] then Missing else parts[|parts| - 1]
  }

  /** `component_indexes[part]`; `None` is the `undefined` of a missing key. */
  function Lookup(indexes: map<string, nat>, p: Part): (r: Option<nat>)
    ensures r.Some? <==> PartKey(p) in indexes
    ensures r.Some? ==> r.value == indexes[PartKey(p)]
  {
    if PartKey(p) in indexes then Some(indexes[PartKey(p)]) else None
  }

  /** One emitted page: comment, pattern, decoder and `components[i]` parts. */
  datatype PageDescriptor = PageDescriptor(comment: Part, pattern: string, params: Decoder, parts: seq<Option<nat>>)

  function Describe(page: Page, indexes: map<string, nat>): (d: PageDescriptor)
    ensures |d.parts| == |page.parts|
  {
    PageDescriptor(
      LastPart(page.parts),
      page.pattern,
      ParamsDecoder(page.params),
      seq(|page.parts|, j requires 0 <= j < |page.parts| => Lookup(indexes, page.parts[j])))
  }

  /** A reference `r` emitted for part `p` points at the table entry that
      imports `p`'s component when `p` names a listed component, and is
      `undefined` otherwise. */
  predicate RefersTo(components: seq<string>, table: seq<LazyImport>, resolve: string -> string, p: Part, r: Option<nat>)
  {
    if PartKey(p) in components then
      r.Some? && r.value < |components| && r.value < |table|
      && components[r.value] == PartKey(p) && table[r.value] == LazyImport(resolve(PartKey(p)))
    else r == None
  }

  /** Every part of a described page, falsy ones included, keeps its place
      and refers to the entry of its component. */
  lemma DescribeResolvesParts(page: Page, components: seq<string>, table: seq<LazyImport>, resolve: string -> string)
    requires |table| == |components|
    requires forall i :: 0 <= i < |components| ==> table[i] == LazyImport(resolve(components[i]))
    ensures |Describe(page, ComponentIndexes(components)).parts| == |page.parts|
    ensures forall j :: 0 <= j < |page.parts| ==>
      RefersTo(components, table, resolve, page.parts[j], Describe(page, ComponentIndexes(components)).parts[j])
  {
    var m := ComponentIndexes(components);
    forall j | 0 <= j < |page.parts|
      ensures RefersTo(components, table, resolve, page.parts[j], Describe(page, m).parts[j])
    {
      var key := PartKey(page.parts[j]);
      if key in components {
        assert key in m;
      } else {
        assert key !in m;
      }
    }
  }

  // ---------------------------------------------------------------------
  // The whole manifest

  datatype Manifest = Manifest(
    layout: string,
    components: seq<LazyImport>,
    pages: seq<PageDescriptor>,
    ignore: seq<Route>)

  /** `generate_client_manifest` with `resolve` standing for
      `relative(dir, ·)`. */
  method GenerateClientManifest(md: ManifestData, resolve: string -> string) returns (m: Manifest)
    ensures m.layout == resolve(md.layout)
    ensures |m.components| == |md.components|
    ensures forall i :: 0 <= i < |md.components| ==> m.components[i] == LazyImport(resolve(md.components[i]))
    ensures |m.pages| == |md.pages|
    ensures forall i :: 0 <= i < |md.pages| ==> |m.pages[i].parts| == |md.pages[i].parts|
    ensures forall i :: 0 <= i < |md.pages| ==> m.pages[i] == Describe(md.pages[i], ComponentIndexes(md.components))
    ensures forall i, j :: 0 <= i < |md.pages| && 0 <= j < |md.pages[i].parts| ==>
      RefersTo(md.components, m.components, resolve, md.pages[i].parts[j], m.pages[i].parts[j])
    ensures forall e :: e in m.ignore <==> e in md.endpoints && forall p :: p in md.pages ==> p.pattern != e.pattern
    ensures m.ignore == EndpointsToIgnore(PageIds(md.pages), md.endpoints)
  {
    var ids := PageIds(md.pages);
    var ignore := EndpointsToIgnore(ids, md.endpoints);
    var table, indexes := BuildComponentTable(md.components, resolve);
    var pages := seq(|md.pages|, i requires 0 <= i < |md.pages| => Describe(md.pages[i], indexes));
    m := Manifest(resolve(md.layout), table, pages, ignore);
    forall i | 0 <= i < |md.pages|
      ensures forall j :: 0 <= j < |md.pages[i].parts| ==>
        RefersTo(md.components, table, resolve, md.pages[i].parts[j], pages[i].parts[j])
    {
      DescribeResolvesParts(md.pages[i], md.components, table, resolve);
    }
    assert forall p :: p in md.pages ==> exists i :: 0 <= i < |md.pages| && md.pages[i] == p;
  }
}
