# Model of the SvelteKit app generator (`create_app.js`)

At build time, SvelteKit's app generator turns the route manifest into three
generated modules. The route manifest lists the shared component list, the
pages and their layout parts, the endpoints, the root layout and the error
component. The three modules are:

- the client routing manifest (`generate_client_manifest`). It holds a table of
  lazily imported components, one descriptor per page and the list of
  endpoints the client router ignores. A page descriptor holds the pattern, a
  decoder from the regular-expression match to the page's parameters, and
  references into the component table.
- the root Svelte template (`generate_app`). It declares one `props_<level>`
  variable per nesting level and nests the layout components in a "pyramid":
  each level conditionally wraps the next one.
- the service-worker manifest (`create_serviceworker_manifest`). It lists the
  static files, the client build files and the page routes.

The model works on structured values in place of the emitted text. Its modules:

- `ManifestTypes` (`types.dfy`): the input. A pattern is its string form,
  since only that is used. A part is a component reference or `Missing`
  (JavaScript `undefined`). `Truthy` and `PartKey` give JavaScript
  truthiness and object-key conversion.
- `Text` (`text.dfy`): the `trim` helper (a multiline `^\t\t` removal, then
  `String.prototype.trim` with ECMAScript's whitespace set),
  `split`/`join` on one character, and decimal rendering of a level number.
- `ClientManifest` (`client_manifest.dfy`): the ignore filter, the
  component-table loop, the parameter decoders together with what the
  emitted decoder returns on a match array, and the page descriptors.
- `RootApp` (`root_app.dfy`): `max_depth`, the `levels` loop, the props
  variable names, and the decrementing pyramid loop.
- `ServiceWorker` (`service_worker.dfy`): the `files`/`assets`, `shell` and
  `routes` lists.

Collaborators are parameters:

- `resolve` stands for `relative(dir, ·)`.
- `decode` stands for `decodeURIComponent`.
- `walked` is the result of `walk(static_files)`, or `None` when the static
  directory does not exist.
- `now` stands for `Date.now()`.

Points of the code's behaviour that the model keeps exactly:

- Component indexes. The component table has one entry per element of the
  component list, repetitions included. Each assignment to the index record
  overwrites the previous one, so a repeated component maps to its LAST
  position. `ComponentIndexesOfDistinct` shows that on a list without
  repetitions each component's index is its own position.
- `max_depth` is the plain maximum of the pages' truthy-part counts. Nothing
  is subtracted from it.
- Pyramid guard. The pyramid covers levels 1 to `max_depth`. Level 1 is not
  guarded: it sits directly in the `{:else}` branch of the level-0
  `<Layout>`. Only levels 1 to `max_depth - 1` guard their child. When
  `max_depth` is 0, the pyramid is the single element `components[0]`,
  inside a `<Layout>` that is also `components[0]`.
- Rest parameters. A rest parameter is JavaScript's `split('/')` of the
  decoded capture, so `'/a/b/c'` decodes as `['', 'a', 'b', 'c']`, with a
  leading empty segment (`RestParameterExample`).
- No pages. With no pages, `Math.max()` is `-Infinity`. The model keeps this as
  `Depth.NegInfinity`: no levels, and a single innermost element of that
  "level". It does not require a page.

Both generation methods state every field of their result in their
`ensures` clauses, so identical input determines identical output.

## Model

| member | source | states |
|---|---|---|
| `ManifestTypes.Truthy` | packages/kit/src/core/create_app.js:142 | as for `filter(Boolean)`, `undefined` is falsy and a component reference is truthy iff its path is non-empty |
| `ManifestTypes.PartKey` | packages/kit/src/core/create_app.js:110 | indexing `component_indexes` with `undefined` uses the key `"undefined"`; a component reference uses its path |
| `ClientManifest.PageIds` | packages/kit/src/core/create_app.js:70 | a pattern string is a page id iff some page has that pattern |
| `ClientManifest.EndpointsToIgnore` | packages/kit/src/core/create_app.js:72-74 | an endpoint is in the ignore list iff it is an input endpoint whose pattern string is no page's pattern string; the list is no longer than the input |
| `ClientManifest.EndpointsToIgnoreAppend` | packages/kit/src/core/create_app.js:72-74 | the filter keeps endpoint order: filtering a concatenation concatenates the filtered parts |
| `ClientManifest.EndpointsToIgnoreAll` | packages/kit/src/core/create_app.js:72-74 | when no endpoint shares a page pattern, the ignore list is the endpoint list unchanged |
| `ClientManifest.ComponentIndexes` | packages/kit/src/core/create_app.js:77-84 | the index record has exactly the listed components as keys, and each maps to a position holding it, with no later position holding it (the last occurrence) |
| `ClientManifest.ComponentIndexesOfDistinct` | packages/kit/src/core/create_app.js:82-84 | on a list without repetitions, each component's index is its own position |
| `ClientManifest.LastOccurrenceExample` | packages/kit/src/core/create_app.js:84 | for the list `[a, b, a]` the record maps `a` to 2 and `b` to 1 |
| `ClientManifest.BuildComponentTable` | packages/kit/src/core/create_app.js:81-89 | the loop emits one lazy import of `resolve(component)` per input element, in input order, and leaves the index record equal to `ComponentIndexes` of the list |
| `ClientManifest.IsRest` | packages/kit/src/core/create_app.js:98 | `param.startsWith('...')`: the first three characters are dots |
| `ClientManifest.Bind` | packages/kit/src/core/create_app.js:97-101 | parameter i reads capture group i+1, is split exactly when it starts with `...`, and is keyed by its name after the marker, or by its name unchanged |
| `ClientManifest.ParamName` | packages/kit/src/core/create_app.js:98-100 | a `...`-prefixed name is emitted as the name after the marker; any other name is emitted unchanged |
| `ClientManifest.ParamsDecoder` | packages/kit/src/core/create_app.js:94-104 | a page without parameters gets the shared `empty` decoder and only such a page does; otherwise there is one binding per parameter, in order, parameter i reading capture group i+1, marked rest exactly when the name starts with `...`, and named by the name without the marker (rest) or the name itself |
| `ClientManifest.RunDecoder` | packages/kit/src/core/create_app.js:95-103 | the emitted `(m) => ({ ... })` yields one entry per binding, in order, under the binding's name; a rest binding yields at least one segment, none containing `/`, joining back to the decoded capture (by `Text.SplitJoin` exactly its `split('/')`), any other binding the decoded capture itself; `empty` yields nothing |
| `ClientManifest.DecoderBindsPositionally` | packages/kit/src/core/create_app.js:94-104 | empty `params` gives the shared `empty` decoder; otherwise parameter i is read from `m[i+1]`; a rest parameter gives exactly `decode(m[i+1]).split('/')`, whose segments contain no `/` and join back to it, and any other parameter gives the scalar `decode(m[i+1])` |
| `ClientManifest.DecoderIgnoresFullMatch` | packages/kit/src/core/create_app.js:99-100 | the decoder's result does not depend on `m[0]` |
| `ClientManifest.RestParameterExample` | packages/kit/src/core/create_app.js:99 | `...rest` applied to the match `['/a/b/c', '/a/b/c']` yields `rest: ['', 'a', 'b', 'c']` |
| `ClientManifest.LastPart` | packages/kit/src/core/create_app.js:107 | the comment names the page's last part, and `undefined` when the page has no parts |
| `ClientManifest.Lookup` | packages/kit/src/core/create_app.js:110 | `component_indexes[part]` is defined exactly when the part's key is in the index record, and is then the recorded index |
| `ClientManifest.Describe` | packages/kit/src/core/create_app.js:106-111 | a descriptor has one part reference per page part, falsy parts included |
| `ClientManifest.DescribeResolvesParts` | packages/kit/src/core/create_app.js:110 | part j of a descriptor is the table index of a position holding part j's component, and that table entry imports that component; a part naming no listed component gives `undefined` |
| `ClientManifest.GenerateClientManifest` | packages/kit/src/core/create_app.js:69-132 | the manifest imports the resolved layout, has one table entry per component in order, one descriptor per page in page order whose parts resolve as above, and ignores exactly the endpoints whose pattern no page shares, in endpoint order |
| `RootApp.TruthyCount` | packages/kit/src/core/create_app.js:142 | the count of truthy parts is at most the number of parts; it is 0 iff no part is truthy, and equal to the number of parts iff all are |
| `RootApp.TruthyCountAppend` | packages/kit/src/core/create_app.js:142 | counting distributes over concatenation, so falsy slots add nothing wherever they stand |
| `RootApp.MaxDepth` | packages/kit/src/core/create_app.js:141-143 | with no pages the result is `-Infinity`; otherwise it is at least every page's truthy-part count and equal to some page's count |
| `RootApp.BuildLevels` | packages/kit/src/core/create_app.js:145-148 | the loop yields exactly `[0, 1, ..., max_depth]`, or nothing when max_depth is `-Infinity` |
| `RootApp.PropsName` | packages/kit/src/core/create_app.js:183 | the props variable of level l is `props_` followed by the decimal digits of l, with no leading zero |
| `RootApp.PropsNameInjective` | packages/kit/src/core/create_app.js:183 | distinct levels declare distinct `props_<level>` variables |
| `RootApp.PyramidFrom` | packages/kit/src/core/create_app.js:152-164 | the pyramid from level lo inwards to level n starts at level lo, ends at level n and has n - lo conditionals |
| `RootApp.PyramidFor` | packages/kit/src/core/create_app.js:150-164 | the innermost element is of level max_depth (also `-Infinity`); for max_depth ≥ 1 the outermost is level 1 with max_depth − 1 conditionals; for max_depth 0 it is the single unconditional level-0 element |
| `RootApp.PyramidFromShape` | packages/kit/src/core/create_app.js:152-164 | the pyramid from level lo to n has elements for levels lo..n outermost first, innermost level n, n - lo conditionals, each testing the level of the element it wraps |
| `RootApp.PyramidShape` | packages/kit/src/core/create_app.js:150-164 | for max_depth ≥ 1 the pyramid has max_depth elements (levels 1..max_depth) and max_depth − 1 conditionals, with innermost level max_depth; for max_depth 0 it is one unconditional element of level 0 |
| `RootApp.BuildPyramid` | packages/kit/src/core/create_app.js:150-164 | the decrementing loop builds exactly `PyramidFor(max_depth)` |
| `RootApp.GenerateApp` | packages/kit/src/core/create_app.js:138-215 | the template has max_depth from the pages, levels `0..max_depth`, one props declaration per level, and the pyramid under the non-error branch of the level-0 layout whose error branch shows the resolved error component |
| `ServiceWorker.Rooted` | packages/kit/src/core/create_app.js:52 | one entry per path, each starting with `/` |
| `ServiceWorker.UnrootedRooted` | packages/kit/src/core/create_app.js:52 | removing the leading `/` from each emitted entry gives back the original paths |
| `ServiceWorker.Routes` | packages/kit/src/core/create_app.js:57-59 | one route per page, in page order, with that page's pattern |
| `ServiceWorker.StaticFiles` | packages/kit/src/core/create_app.js:42-46 | the list starts with `service-worker-index.html`, followed by the walked files when the static directory exists and nothing else otherwise |
| `ServiceWorker.ServiceWorkerLists` | packages/kit/src/core/create_app.js:42-59 | `files` (and its alias `assets`) is `/service-worker-index.html` followed by the walked files, each behind `/`; `shell` is the client files behind `/`; `routes` has one pattern per page in page order; the timestamp is the given clock value |
| `Text.Trim` | packages/kit/src/core/create_app.js:26-28 | the result is the tab-stripped text with only whitespace cut from its two ends, and it neither starts nor ends with whitespace |
| `Text.JsTrim` | packages/kit/src/core/create_app.js:27 | `trim` removes only whitespace and only at the two ends, and leaves no whitespace at either end |
| `Text.JsTrimIdempotent` | packages/kit/src/core/create_app.js:27 | trimming twice is trimming once |
| `Text.StripAtLineStart` | packages/kit/src/core/create_app.js:27 | the `^\t\t` removal, scanned from a line start, never lengthens the text |
| `Text.StripInLine` | packages/kit/src/core/create_app.js:27 | the same removal scanned from inside a line never lengthens the text |
| `Text.StripAtLineStartDropsOnlyTabs` | packages/kit/src/core/create_app.js:27 | from a line start, the removal drops tabs only: with tabs deleted, input and output are equal |
| `Text.StripInLineDropsOnlyTabs` | packages/kit/src/core/create_app.js:27 | from inside a line, likewise the removal drops tabs only |
| `Text.StripLastLine` | packages/kit/src/core/create_app.js:27 | on a line without terminator, `^\t\t` removal drops two leading tabs and nothing else |
| `Text.StripLineThenRest` | packages/kit/src/core/create_app.js:27 | on a line followed by a line terminator, the line loses two leading tabs, the terminator stays, and removal restarts on the next line |
| `Text.Split` | packages/kit/src/core/create_app.js:99 | `split('/')` yields at least one piece, and no piece contains the separator |
| `Text.JoinSplit` | packages/kit/src/core/create_app.js:99 | joining the pieces of a split gives back the string |
| `Text.SplitJoin` | packages/kit/src/core/create_app.js:99 | splitting a join of separator-free pieces gives back the pieces |
| `Text.NatToString` | packages/kit/src/core/create_app.js:183 | a level renders as a non-empty string of decimal digits, with at least two digits from 10 on; `NatToStringValue` shows the digits spell the level |
| `Text.NatToStringValue` | packages/kit/src/core/create_app.js:183 | the rendering of `n` read as a decimal numeral is `n`, with no leading zero, as `${l}` renders a level |
| `Text.NatToStringInjective` | packages/kit/src/core/create_app.js:183 | two numbers with the same decimal rendering (as in `props_${l}`) are equal |

## Left out

- The text layout of the emitted modules is not modelled: indentation, the
  `.replace(/^\t/gm, '')` and `.replace(/\n/g, …)` re-indentation, separators
  and punctuation. Only their structure is modelled. `Text.Trim` models the
  helper itself.
- `stringify` / `JSON.stringify` are not modelled: an emitted path is kept as
  the value they would serialise.
- `relative` is the parameter `resolve`; path resolution itself is not
  modelled.
- `decodeURIComponent` is the parameter `decode`; percent-decoding is not
  modelled.
- `create_app`, `fs.existsSync`, `walk` and `write_if_changed` are file-system
  I/O and are not modelled. The existence check and the walk show up only as
  the `walked` parameter.
- `Date.now()` is the parameter `now`, because it is nondeterministic.
- The Svelte runtime part of the root template is emitted text for a reactive
  runtime, so none of it is modelled: `setContext`, `afterUpdate`, `onMount`,
  the page-store subscription, the `mounted`/`navigated` announcer and the CSS.
- A route pattern is modelled by its string form, because the generator only
  ever uses `toString()` or string interpolation of it.
- ClientManifest.RunDecoder: capture groups that did not participate in the
  match (`undefined` in `m`) are not modelled; every group is taken to be a
  string.
- `ClientManifest.RunDecoder` returns the emitted object's entries in literal
  order. It does not model the object literal's rule that a repeated key keeps
  its last value. Nor does it model JavaScript's enumeration order, which
  lists integer-like keys first (`({ b: 1, 0: 2 })` lists `0` first).
- ClientManifest.RunDecoder: `decode` is a total function. It cannot express
  the `URIError` that `decodeURIComponent` throws on a malformed escape such
  as `%E0%A4%A`.
- `ClientManifest.Lookup` treats `component_indexes` as a plain dictionary.
  Prototype keys of a JavaScript `{}` are not modelled (for example a component
  named `constructor` or `__proto__`). A `null` part is not modelled; only
  `undefined` (`Missing`) and the empty string are the falsy parts.
- ClientManifest.Describe: its own contract states only that there is one part
  reference per page part. The comment, pattern and decoder fields are fixed
  by its definition. The decoder's meaning is stated by
  `DecoderBindsPositionally` and the references' meaning by
  `DescribeResolvesParts`.
- `RootApp.Pyramid` carries no `props_<level>` spread of its own: every element
  of level `l` spreads `props_l`, so the level number determines it.
