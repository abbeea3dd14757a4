# svg-js-inline-loader, modelled in Dafny

`SVGJSInlineLoader` is a webpack loader. It turns an `.svg` file into a JavaScript
module whose default export is meant to rebuild the image with `document.createElement`
and `setAttribute` calls (the doc comment at loader.ts:18-19). What the emitted
statements actually build differs from the markup in two ways; see "Where the code and
its stated intent disagree" below. The loader writes a header chosen by the `cjsModule`
option, parses the file, and then writes the rest of the module text:

- `const s=document.createElement('svg');`;
- the statements of a recursive walk, `handleElement`, over the parsed tree;
- `return s;` and `}`.

The walk pushes its statements onto a shared output array. It shares a root tracker
`{ val: true }` across the recursion. While the tracker is set, statements target the
root `s` and declare `let p`/`let e`. The first child key visited clears the tracker
for good.

The model follows the source's own structure:

- `XmlObject.dfy`: what the parser hands over. These are JavaScript values (string,
  number, array, object), each with the keys `Object.keys` gives it, property access
  `v[key]`, truthiness, and the text a template literal inserts.
- `Statements.dfy`: the wording of each statement. Also a reference semantics,
  `Render`, which folds a list of walk events (attribute, string node, child key) into
  statements while threading the tracker. This file holds the general facts about
  `Render`: concatenation, monotone tracker, declare-once, and when an attribute
  statement can be parsed back.
- `Walk.dfy`: the walk itself, written imperatively.
  - `OutputBuffer` and `RootTracker` are classes whose fields are updated in place.
  - `HandleElement` and one method per `forEach` callback (`PushAttributes`,
    `VisitItems`, `VisitItem`, `VisitKeys`, `VisitKey`) each have a loop or a call per
    step.
  - Each method is proved to append exactly `Render(Events(…))` to the buffer and to
    leave the tracker where `Render` leaves it. `Events` is the tracker-free list of
    what the walk visits.
- `Layout.dfy`: properties of one call, stated against the parsed value.
  - The attribute statements come first, in key order, against the target chosen on
    entry.
  - The children's statements follow and start with the parent statement.
  - A child key is visited exactly when `VisitsChild` holds.
  - When the tracker is set on entry, it ends cleared exactly when a child key is
    visited, and the root bindings are then declared exactly once. Otherwise they are
    never declared, and a tracker that was already cleared stays cleared.
- `Loader.dfy`: the loader.
  - The error cases: a `null` parse, an empty parse, and a first node without an `svg`
    key.
  - The exact output, joined with `''`.
  - The header chosen by `cjsModule`, with the framing around the walk.
  - Declare-once over the whole module.

Where the code and its stated intent disagree, the model follows the code:

- **Which keys become elements.** The doc comment at loader.ts:18-19 says the output
  inserts the `.svg` file, and the comment at loader.ts:50-51 says it adds an element's
  attributes and children. The code instead creates an element for
  *every* key of each child object, including the parser's attribute key `':@'` and
  text key `'#text'`. It also walks the elements of a string reached as `el[elName]`
  (its UTF-16 units in JavaScript) as if they were children. `Layout.EveryKeyOpened`
  states the general fact that produces this.
- **Where later children go.** The children of an element are meant to be added to
  that element. The parent statement of every child key after the first is `p=e;`, and `e`
  holds the element created last. So a later sibling is appended inside the previous
  sibling's subtree: for `<svg><a/><b/></svg>`, `b` is appended to `a`, not to the
  root. `Statements.LaterOpenReparents` states the general fact, and
  `Layout.SiblingsNest` works through this example.
- **Error kinds.** Only one error is thrown explicitly: `new Error('Unable to parse
  SVG')` at loader.ts:36, for a `null` parse or a first node without an `svg` key. An
  empty parse result gets through the `!svg` test. Then `Object.keys(svg[0])` at
  loader.ts:35 is `Object.keys(undefined)`, which throws a `TypeError` instead. Both
  failures are modelled (`LoadError`).

## Model

| member | source | states |
|---|---|---|
| `Loader.SVGJSInlineLoader` | src/svg-js-inline-loader/loader.ts:22-43 | `Err(UnableToParseSvg)` for a `null` parse or a first node without an `svg` key, and `Err(NoFirstNode)` for an empty parse. `Ok` exactly when the parse is an SVG document. Then the text is the join of header, root statement, walk under `svg` with the tracker set, `return s;` and `}`. It starts with the CommonJS header iff `cjsModule` and with the ES header iff not, and ends with `return s;}` |
| `Loader.Framing` | src/svg-js-inline-loader/loader.ts:26-42 | for any walk, the module text starts with `module.exports=function(){` exactly when `cjsModule` and with `export default function(){` exactly when not. The header is followed at once by `const s=document.createElement('svg');`, and the text ends with `return s;}` |
| `Loader.FrameText` | src/svg-js-inline-loader/loader.ts:38-42 | the joined module is header + root statement + joined walk + `return s;}`: the walk lies strictly between the framing lines |
| `Loader.ConcatAppend` | src/svg-js-inline-loader/loader.ts:42 | joining with `''` distributes over concatenation of the line list |
| `Loader.DocumentDeclaresOnce` | src/svg-js-inline-loader/loader.spec.ts:87-92 | over all module lines, `let p=`, `let e=` and `p=s;` each occur exactly once when the root element has a child key, and never otherwise |
| `Loader.RootTrackerAfterDocument` | src/svg-js-inline-loader/loader.ts:39 | the tracker created as `{ val: true }` is false after the walk exactly when the root element had a child key |
| `Loader.FrameCount` | src/svg-js-inline-loader/loader.ts:28-41 | the four framing lines add nothing to a count of lines none of them satisfies |
| `Loader.Concat` | src/svg-js-inline-loader/loader.ts:42 | definition: `output.join('')`, the lines joined with no separator |
| `Loader.Header` | src/svg-js-inline-loader/loader.ts:27-31 | definition: `module.exports=function(){` when `cjsModule` is set, `export default function(){` otherwise |
| `Loader.IsSvgDocument` | src/svg-js-inline-loader/loader.ts:34-35 | definition: the parse is not `null`, has a first node, and that node lists `svg` among its keys |
| `Loader.Frame` | src/svg-js-inline-loader/loader.ts:26-41 | definition: header and root statement, then the walk's lines, then `return s;` and `}` |
| `Loader.DocumentLines` | src/svg-js-inline-loader/loader.ts:26-41 | definition: the framed lines of the walk of the first node under `svg`, starting with the tracker set |
| `Walk.HandleElement` | src/svg-js-inline-loader/loader.ts:57-84 | `null` changes nothing. Otherwise the buffer only grows, by exactly `Render(Events(el, elName), tracker on entry)`, and the tracker ends as that rendering leaves it |
| `Walk.PushAttributes` | src/svg-js-inline-loader/loader.ts:64-69 | appends the rendering of one `SetAttribute` per key of `el[':@']`, in key order, all with the target `v` fixed on entry, which leaves the tracker unchanged |
| `Walk.VisitItems` | src/svg-js-inline-loader/loader.ts:70-83 | appends the rendering of the walk of every key `i` of `el[elName]` in key order, threading the tracker from each key to the next |
| `Walk.VisitItem` | src/svg-js-inline-loader/loader.ts:71-73 | for a key `i` that `Object.keys` returned, appends the rendering of the walk of `el[elName][i]`'s keys |
| `Walk.VisitKeys` | src/svg-js-inline-loader/loader.ts:73-81 | appends, for each key of the child in order, that key's visit, with the tracker threaded through |
| `Walk.VisitKey` | src/svg-js-inline-loader/loader.ts:74-80 | appends `p=…;`, `e=document.createElement('key');` and `p.appendChild(e);`, worded by the tracker on entry. These are followed immediately by the statements of the child walked under `key` with the tracker cleared, and the tracker ends as that walk leaves it |
| `Walk.OutputBuffer.Push` | src/svg-js-inline-loader/loader.ts:26-28 | the output array is append-only: a push adds exactly one line at the end |
| `Walk.OutputBuffer.constructor` | src/svg-js-inline-loader/loader.ts:26 | the output array starts empty |
| `Walk.RootTracker.constructor` | src/svg-js-inline-loader/loader.ts:45-48 | the tracker holds the value it is created with |
| `Walk.Events` | src/svg-js-inline-loader/loader.ts:57-83 | definition: what one call visits, in order, whatever the tracker holds. A string node is one text event. Any other node gives its attribute entries, then, for each key `i` of a truthy `el[elName]` and each key of `el[elName][i]`, a visit of that key followed by the walk of `el[elName][i]` under it |
| `Walk.AttributeEvents` | src/svg-js-inline-loader/loader.ts:64-69 | definition: the entries of a truthy `el[':@']` in key order, and nothing when it is missing or falsy |
| `Walk.AttributeList` | src/svg-js-inline-loader/loader.ts:65-68 | definition: one attribute event per name, carrying the text `${el[':@'][a]}` |
| `Walk.ItemEvents` | src/svg-js-inline-loader/loader.ts:71-82 | definition: the outer `forEach` over the given keys of `el[elName]`, one round after another |
| `Walk.ItemEventsAt` | src/svg-js-inline-loader/loader.ts:71-73 | definition: one round of the outer loop, the inner loop over the keys of `el[elName][i]` |
| `Walk.KeyEvents` | src/svg-js-inline-loader/loader.ts:73-81 | definition: the inner `forEach`, for each key a visit followed by the walk of the same `el[elName][i]` under that key |
| `Walk.ChildEvents` | src/svg-js-inline-loader/loader.ts:70-83 | definition: the children part of a call, nothing when `el[elName]` is missing or falsy |
| `Statements.RenderConcat` | src/svg-js-inline-loader/loader.ts:71-81 | rendering consecutive parts of the walk renders the second from the tracker value the first left, so statements append in walk order |
| `Statements.TrackerMonotone` | src/svg-js-inline-loader/loader.ts:74-78 | after any stretch of the walk the tracker is set exactly when it was set before and no child key was visited: it never turns back on |
| `Statements.RenderWithoutOpen` | src/svg-js-inline-loader/loader.ts:59-69 | without a child key every statement uses the entry target, one statement per event, and the tracker is unchanged |
| `Statements.RenderFirstOpen` | src/svg-js-inline-loader/loader.ts:74-77 | a visit renders as the parent, element and append statements, parent first |
| `Statements.Target` | src/svg-js-inline-loader/loader.ts:59 | definition: `s` while the tracker is set, `e` once it is cleared (the same choice is made again at line 74) |
| `Statements.LetPrefix` | src/svg-js-inline-loader/loader.ts:75-76 | definition: `let ` while the tracker is set, nothing once it is cleared |
| `Statements.TextStatement` | src/svg-js-inline-loader/loader.ts:61 | definition: `v.setAttribute('name', 'value');`, with a space after the comma and both texts inserted verbatim |
| `Statements.AttributeStatement` | src/svg-js-inline-loader/loader.ts:67 | definition: `v.setAttribute('a','value');`, with no space after the comma and both texts inserted verbatim |
| `Statements.ParentStatement` | src/svg-js-inline-loader/loader.ts:75 | definition: `let p=s;` while the tracker is set, `p=e;` once it is cleared |
| `Statements.ElementStatement` | src/svg-js-inline-loader/loader.ts:76 | definition: `e=document.createElement('key');`, prefixed with `let ` while the tracker is set |
| `Statements.EventStatements` | src/svg-js-inline-loader/loader.ts:59-77 | one statement for a text or attribute event. A child-key visit gives three: parent, element, then `p.appendChild(e);` |
| `Statements.Render` | src/svg-js-inline-loader/loader.ts:57-83 | definition: the statements pushed for a list of events, and the tracker afterwards. Each event is worded by the tracker it meets, and only a child-key visit clears the tracker (line 78) |
| `Statements.LaterOpenReparents` | src/svg-js-inline-loader/loader.ts:74-78 | after a first child-key visit, each later visit begins with `p=e;`: the new element's parent is the element created last, not the node whose key it is |
| `Statements.OpenStatementKinds` | src/svg-js-inline-loader/loader.ts:75-77 | the parent statement declares `let p=` and binds `p=s;` exactly when the tracker is set. The element statement declares `let e=` exactly then, and the append statement does neither |
| `Statements.EventDeclarations` | src/svg-js-inline-loader/loader.ts:59-77 | each event's statements contain one declaration of each kind iff it is a child key met with the tracker set, and none otherwise |
| `Statements.DeclareOnce` | src/svg-js-inline-loader/loader.ts:75-78 | over any walk, `let p=`, `let e=` and the `p=s` binding each occur once if the tracker starts set and a child key is visited, and never otherwise |
| `Statements.AttributeStatementLayout` | src/svg-js-inline-loader/loader.ts:67 | an attribute statement has the target first, the name at offset 16 followed by a quote, and the value verbatim at offset 19 + name length |
| `Statements.AttributeStatementInjective` | src/svg-js-inline-loader/loader.ts:67 | without single quotes in names or values, the statement determines its target, name and value |
| `Statements.AttributeStatementCollision` | src/svg-js-inline-loader/loader.ts:67 | values are not escaped: two different attribute pairs containing quotes render to the same statement |
| `Layout.AttributeListShape` | src/svg-js-inline-loader/loader.ts:65-68 | one `SetAttribute` per attribute name, in the given order, with the value `${el[':@'][a]}` |
| `Layout.AttributeListRender` | src/svg-js-inline-loader/loader.ts:64-69 | the attribute statements are exactly `v.setAttribute('a','value');` per key in key order, with the entry target, and the tracker is unchanged |
| `Layout.AttributeEventsRender` | src/svg-js-inline-loader/loader.ts:64-69 | the attribute part never visits a child and renders to `AttributeLines`, which is empty when `el[':@']` is missing or falsy |
| `Layout.NodeLayout` | src/svg-js-inline-loader/loader.ts:64-83 | a node's statements are its attribute statements followed by its children's statements. Without a child visit there are only attribute statements |
| `Layout.ChildLinesStart` | src/svg-js-inline-loader/loader.ts:74-77 | when a child key is visited the children's statements begin with the parent statement worded by the entry tracker, then element, then `p.appendChild(e);` |
| `Layout.TextNode` | src/svg-js-inline-loader/loader.ts:60-62 | a string node emits exactly one `v.setAttribute('name', 'value');` with the entry target and leaves the tracker alone |
| `Layout.EveryKeyOpened` | src/svg-js-inline-loader/loader.ts:73-77 | every key of the object the inner loop is given is visited as a child element, `':@'` and `'#text'` included |
| `Layout.KeyEventsStart` | src/svg-js-inline-loader/loader.ts:73-77 | the inner loop emits something iff the object has a key, and then starts with a visit of its first key |
| `Layout.ItemEventsAtStart` | src/svg-js-inline-loader/loader.ts:71-73 | one round of the outer loop emits something iff `el[elName][i]` has a key, and then starts with a visit |
| `Layout.ItemEventsNonEmpty` | src/svg-js-inline-loader/loader.ts:70-83 | the outer loop emits something iff one of the entries of `el[elName]` has a key |
| `Layout.ItemEventsFirst` | src/svg-js-inline-loader/loader.ts:71-77 | what the outer loop emits starts with a visit |
| `Layout.ChildEventsStart` | src/svg-js-inline-loader/loader.ts:70-83 | the children part of a node emits something iff `VisitsChild`, and then starts with a visit |
| `Layout.OpensIff` | src/svg-js-inline-loader/loader.ts:70-83 | a call visits a child key iff the node is not a string, `el[elName]` is truthy and one of its entries has a key |
| `Layout.TrackerAfterWalk` | src/svg-js-inline-loader/loader.ts:78 | after a call the tracker is set iff it was set on entry and no child key was visited. After any call that visits one it is false |
| `Layout.WalkDeclaresOnce` | src/svg-js-inline-loader/loader.ts:75-78 | for one call, `let p=`, `let e=` and the `p=s` binding each occur once iff the tracker is set on entry and a child key is visited |
| `Layout.EmptyElement` | src/svg-js-inline-loader/loader.ts:70-77 | an element `{tag: []}` has the single key `tag`. Its own walk under `tag` emits nothing, and the inner loop over it visits `tag` once |
| `Layout.TwoItems` | src/svg-js-inline-loader/loader.ts:71-82 | over a two-item array, the outer loop walks the first item's keys, then the second's |
| `Layout.SiblingEvents` | src/svg-js-inline-loader/loader.ts:57-83 | the walk of `<svg><a/><b/></svg>` under `svg` visits `a`, then `b`, and nothing else |
| `Layout.SiblingsNest` | src/svg-js-inline-loader/loader.ts:74-78 | the walk of `<svg><a/><b/></svg>` emits, in order: `let p=s;`, the element `a`, append, `p=e;`, the element `b`, append. So `b` is appended to `a` |
| `XmlObject.Lookup` | src/svg-js-inline-loader/loader.ts:70-73 | property access finds a value iff some own property has that name, and then the value is that property's |
| `XmlObject.KeysHaveMembers` | src/svg-js-inline-loader/loader.ts:71-73 | every name `Object.keys` returns reads back a value, so `el[elName][i]` is never `undefined` |
| `XmlObject.IndexName` | src/svg-js-inline-loader/loader.ts:71 | the property name of index `j` is the decimal numeral of `j`: all digits, no leading zero, one digit exactly below ten, and denoting `j` |
| `XmlObject.IndexNameInjective` | src/svg-js-inline-loader/loader.ts:71 | distinct indices have distinct property names |
| `XmlObject.Entries` | src/svg-js-inline-loader/loader.ts:73 | `Object.keys` lists one key per element of a string, per item of an array and per field of an object, and none for a number |
| `XmlObject.IndexKeys` | src/svg-js-inline-loader/loader.ts:71-73 | the `j`-th key of a string or an array is the numeral of `j` |
| `XmlObject.LookupFirst` | src/svg-js-inline-loader/loader.ts:73 | property access by an entry's name finds that entry when no earlier entry has the same name |
| `XmlObject.ItemsReadBack` | src/svg-js-inline-loader/loader.ts:71-80 | reading back the `j`-th key gives the `j`-th item: `el[elName][i]` is the `i`-th array item, the `i`-th string element, or the `i`-th field's value of an object (whose names are distinct) |
| `XmlObject.Keys` | src/svg-js-inline-loader/loader.ts:65 | definition: `Object.keys(v)`, the names of the entries in order |
| `XmlObject.Member` | src/svg-js-inline-loader/loader.ts:64-73 | definition: property access `v[key]` for own properties, with `undefined` as `None` |
| `XmlObject.Truthy` | src/svg-js-inline-loader/loader.ts:64 | definition: JavaScript truthiness, as tested at lines 64 and 70. The empty string and the numbers `0` and `NaN` are falsy, and arrays and objects are truthy |
| `XmlObject.Interpolate` | src/svg-js-inline-loader/loader.ts:61 | definition: the text `${v}` inserts. A string is inserted as is, a number as its rendering, an array as its items joined with commas, and an object as `[object Object]` |
| `XmlObject.JoinWithCommas` | src/svg-js-inline-loader/loader.ts:67 | definition: `Array.prototype.toString`, the items' texts joined with commas, which is what `${v}` inserts for an array |
| `XmlObject.Show` | src/svg-js-inline-loader/loader.ts:67 | definition: `${el[':@'][a]}`, with a missing property inserted as `undefined` |
| `XmlObject.DecimalValue` | src/svg-js-inline-loader/loader.ts:71 | definition: the number a digit string denotes, used to state what an index name means |

## Left out

- The XML parser (fast-xml-parser, loader.ts:33-34) is outside the model. Its result is
  an input: `None` for `null`, otherwise the parsed nodes as `Value`s. Numbers carry the
  text JavaScript prints for them.
- Booleans are not a kind of `Value`. The parser may turn the text `true` or `false` into
  a boolean, and the walk can reach it as `el['#text']`. There a boolean behaves like a
  `Num` with the same rendering. It has no keys, so the loops over it run zero times and
  nothing is emitted, whether it is truthy or not.
- XmlObject.Entries: splits a string into Dafny `char`s, which are Unicode scalar
  values. JavaScript's `Object.keys` on a string gives one key per UTF-16 code unit. A
  string holding a character outside the Basic Multilingual Plane (an emoji, say) has one
  key in the model and two in the source. The source then emits two rounds, each setting a
  lone surrogate, where the model emits one round with the whole character. Below that
  plane the two agree.
- The webpack loader context (loader.ts:23-24) is outside the model: `this.cacheable()`
  and `getOptions()`. The `cjsModule` option is a `bool` parameter, with a missing option
  read as `false`.
- Exceptions are `Err` values. The messages are not modelled, only which of the two
  throws happens.
- The `hasAdded` field of `RootTracker` (loader.ts:47) is never read or written and is
  left out.
- What the emitted statements do when run against a document object model is not
  modelled. The output is treated as text.
- Property access reads own properties only. Every read in the walk uses `':@'` or a
  name `Object.keys` has just returned, so inherited properties are never involved.
  Object field names are taken to be distinct, as in JavaScript.
- src/svg-inline-loader/loader.ts is not part of this model.
- Loader.DocumentDeclaresOnce: counts module lines, not occurrences of the text `p=s`
  in the joined string. Values are inserted verbatim, so an attribute value containing
  `p=s` adds occurrences of that text that the line count does not see.
