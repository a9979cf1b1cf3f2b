# Request block: endpoint path-template codec

This project models, in Dafny, the string logic of the "Request" WordPress block. The block lets an editor pick a REST namespace, choose an endpoint, fill in its path parameters and send the request. The model covers two parts.

1. **Route definition to endpoint id, and the endpoint listing** (`src/utils/request-api.js`).
   - `covertEndpointDefinitionToId` drops the namespace prefix from a route key such as `/wp/v2/posts/(?P<id>[\d]+)`.
   - It then rewrites every named group `(?P<name>body)`. A group becomes `<name>` when the body offers several options (it holds `[`, `|` or `+`). Otherwise it becomes `<name=body>`.
   - `requestEndpoints` turns an index response into either namespace paths or a filtered list of endpoint descriptors.
   - `requestNamespaces` turns the namespaces into select options.
   - `requestEndpoint` decides whether the request carries a body.
2. **Endpoint id to concrete path** (`src/components/endpoint-input.js`).
   - The id is split on `/`. Each part is either a static label or a parameter input, and a part is a parameter when it contains `<`.
   - Each input is named after the most recent static part, or gets the empty name when there is none.
   - Each input shows its parameter's current value, `params[ paramName ]`, or `''` when there is none.
   - On submit, the parts are folded back into a path. Each parameter is replaced by what a lookup in the form's elements finds under a name built from the part before it (see Findings).

For `GET` the endpoint arguments are not sent at all; for any other method they are attached as `data` (request-api.js:62-65).

Modules, one per concern:

- `Wrappers` (`wrappers.dfy`): `Option`, the model of a JavaScript value that may be `undefined`.
- `Strings` (`strings.dfy`): `substr`, `split` and `join`, with their round-trip lemmas.
- `RouteId` (`route_id.dfy`): the pattern `\(\?P<([a-zA-Z_-]+)>(.[^)]+)\)`, written as a hand-built scanner `MatchGroup`, and the global replace `Rewrite`.
  - `MatchGroup` is proved sound and complete against a declarative description of a match (`GroupAt`), so the match it finds is the only one.
- `RequestApi` (`request_api.dfy`): the listing and request construction. The index response is an input value.
- `EndpointInput` (`endpoint_input.dfy`): the part split, the classification loop, the form's named inputs and the submit fold.
  - The classification loop is a method carrying `fieldName` from part to part. It is proved against the function `FieldAfter`.
- `RouteToPath` (`route_to_path.dfy`): how the two halves fit together.
  - Every placeholder written by `RouteId` holds `<`, so `EndpointInput` treats it as a parameter. A placeholder whose body is free of `/` is never cut by the split. It lies inside one part, which holds `<` and so is a parameter (`SegmentGroupTail`). That part is the placeholder alone only when `/` or the end of the id follows the group (`RouteToSubmittedPath`). In `/wp/v2/users/(?P<user_id>(?:[\d]+|me))/application-passwords` the part is `<user_id>)`.
  - A route key such as `path/seg/(?P<name>body)` is followed all the way to the path that gets submitted.

## Model

| member | source | states |
|---|---|---|
| `Strings.Substr` | src/utils/request-api.js:13 | `substr(start)` is the suffix from `start` (`s == s[..start] + r`), and empty once `start` passes the end |
| `Strings.Split` | src/components/endpoint-input.js:111 | a split always has at least one part, and no part holds the separator |
| `Strings.SplitCount` | src/components/endpoint-input.js:111 | a split has exactly one part more than the string has separators (`"".split('/')` is `[""]`) |
| `Strings.JoinSplit` | src/components/endpoint-input.js:111 | joining the parts of a split with the separator gives back the original string |
| `Strings.SplitJoin` | src/components/endpoint-input.js:111 | splitting a join gives back the parts, when no part holds the separator |
| `RouteId.MatchGroup` | src/utils/request-api.js:14 | a match found at the start of the text has the pattern's shape: `(?P<`, a name of at least one `[a-zA-Z_-]`, `>`, a body of two or more characters, then `)`. The body's first character is not a line terminator and no later one is `)`, so the match ends at the first `)` after the body's second character |
| `RouteId.MatchGroupComplete` | src/utils/request-api.js:14 | every text that starts with a match of the pattern is matched by the scanner with exactly that name and body, so the match is unique |
| `RouteId.SourceGroupAt` | src/utils/request-api.js:14 | the text `(?P<name>body)` of a well-shaped group is a match of that group, `\|name\| + \|body\| + 6` characters long, whatever follows it |
| `RouteId.OneCharBodyNotMatched` | src/utils/request-api.js:14 | a group whose body is one character is not a match at its `(`: `.` takes that character and `[^)]+` then meets the `)` |
| `RouteId.OneCharBodyCopied` | src/utils/request-api.js:13-14 | such a group stays in the id verbatim, in front of whatever the rest converts to. No match starts at any of its characters, not even at a body `(`, which a `)` follows |
| `RouteId.NoGroupWithoutOpener` | src/utils/request-api.js:14 | text without `(?P<` contains no match |
| `RouteId.Placeholder` | src/utils/request-api.js:15-22 | the replacement is `<`, the name, and `>`. It is exactly `name` plus two brackets iff the body holds `[`, `\|` or `+`. Otherwise `=` and the body sit between the name and `>` |
| `RouteId.Rewrite` | src/utils/request-api.js:13-23 | the global replace of the id: it scans from the left, replaces each match by its placeholder and copies all other text. It has no contract of its own; its properties are the rows `RewriteCopiesUntilGroup`, `RewriteAtGroup`, `RewriteVerbatim` and `RewriteCopiesPlainText` |
| `RouteId.RewriteCopiesUntilGroup` | src/utils/request-api.js:13-14 | the text in front of the first match is copied unchanged and in order |
| `RouteId.RewriteVerbatim` | src/utils/request-api.js:13-14 | text in which the pattern never matches is left as it is |
| `RouteId.RewriteAtGroup` | src/utils/request-api.js:14-23 | a match is replaced by its placeholder, and the scan resumes right after the match's `)`, so matches never overlap |
| `RouteId.RewriteCopiesPlainText` | src/utils/request-api.js:14 | text without `(` is copied unchanged in front of whatever the rest becomes |
| `RouteId.ConvertId` | src/utils/request-api.js:12-13 | a key no longer than the namespace, such as the namespace's own index route, gets the empty id |
| `RouteId.ConvertIdWithoutGroups` | src/utils/request-api.js:13 | a route key without named groups loses exactly its first `\|path\|` characters |
| `RouteId.ConvertIdOfGroup` | src/utils/request-api.js:12-23 | namespace + plain text + group + tail converts to the plain text, then the placeholder, then the converted tail |
| `RequestApi.Difference` | src/utils/request-api.js:46 | lodash `difference` keeps exactly the elements of the first list that are not in the second |
| `RequestApi.EndpointsOf` | src/utils/request-api.js:37-44 | one entry per route, in route order. Each entry keeps the descriptor, has `id` set to the converted key and `def` set to the key |
| `RequestApi.IsListed` | src/utils/request-api.js:45-47 | the filter's test, `!! id && !! difference( methods, filterMethods ).length`. It has no contract of its own; `IsListedIff` states what it accepts |
| `RequestApi.RouteListing` | src/utils/request-api.js:37-47 | the `routes` branch: convert every route, then keep the listed ones. It has no contract of its own; `FilterEndpoints`, `RouteListingConcat` and `RequestEndpoints` state what it keeps and in which order |
| `RequestApi.IsListedIff` | src/utils/request-api.js:45-47 | a route is kept iff its id is non-empty and one of its methods is not filtered out |
| `RequestApi.FilterEndpoints` | src/utils/request-api.js:37-47 | every kept entry is listed and passes the filter, and every entry that passes is kept |
| `RequestApi.FilterEndpointsConcat` | src/utils/request-api.js:37-47 | filtering keeps order: the filter of a concatenation is the concatenation of the filters |
| `RequestApi.RouteListingConcat` | src/utils/request-api.js:37-47 | listed endpoints come in the order of their routes |
| `RequestApi.IndexRouteNotListed` | src/utils/request-api.js:46 | the route whose key equals `path` is never listed |
| `RequestApi.RequestEndpoints` | src/utils/request-api.js:26-51 | with `namespaces`, the result is those namespaces, each prefixed with `/`, in order and same number, and `routes` is ignored. With `routes` only, the result is `RouteListing` of the routes, in route order, and an entry is listed iff it is a converted route that passes the filter. With neither, the result is empty. The defaults are `/wp/v2` and `[]` |
| `RequestApi.ToOptions` | src/utils/request-api.js:55-57 | each entry `n` becomes `{label: n, value: n}`, with order and length preserved |
| `RequestApi.RequestNamespaces` | src/utils/request-api.js:54-57 | for a root index with namespaces, the options are `/n` as label and value, one per namespace, in order |
| `RequestApi.EndpointRequest` | src/utils/request-api.js:61-65 | `path` and `method` pass through unchanged. `data` is attached iff the method is not `GET`, and then it is the endpoint arguments |
| `EndpointInput.Parts` | src/components/endpoint-input.js:111 | there is at least one part, and no part contains `/` |
| `EndpointInput.PartsJoin` | src/components/endpoint-input.js:111 | for an id starting with `/`, `'/' + parts.join('/')` is the id |
| `EndpointInput.ParamName` | src/components/endpoint-input.js:127 | a parameter name contains neither `<` nor `>` |
| `EndpointInput.ParamNameConcat` | src/components/endpoint-input.js:127 | deleting brackets from a concatenation deletes them from each half |
| `EndpointInput.ParamNameWithoutBrackets` | src/components/endpoint-input.js:127 | text without brackets is its own parameter name |
| `EndpointInput.ParamNameUnwraps` | src/components/endpoint-input.js:127 | the name of `<inner>` is the name of `inner` |
| `EndpointInput.ParamNameOfPlaceholder` | src/components/endpoint-input.js:127 | `<id>` gives `id`, and `<context=view>` gives `context=view` |
| `EndpointInput.FieldAfter` | src/components/endpoint-input.js:112-118 | the value of `fieldName` after the first `k` parts. It has no contract of its own; `FieldAfterLastStatic` and `FieldAfterNoStatic` state its value |
| `EndpointInput.FieldAfterLastStatic` | src/components/endpoint-input.js:112-118 | after any number of parts, `fieldName` is `endpoint-<s>-param`, where `s` is the last static part so far |
| `EndpointInput.FieldAfterNoStatic` | src/components/endpoint-input.js:112 | while no static part has been seen, `fieldName` is the empty string |
| `EndpointInput.RenderParts` | src/components/endpoint-input.js:111-138 | the loop yields the parts of the id and one component per part, each the one the classification specifies |
| `EndpointInput.ComponentShape` | src/components/endpoint-input.js:113-136 | a part is an input iff it contains `<`. A static part is a label showing its own text, for `endpoint-<part>-param`. An input is named after the most recent static part before it, or has the empty name if there is none |
| `EndpointInput.PathOf` | src/components/endpoint-input.js:143-147 | the reduce that appends `'/' + segment` to `''`. It has no contract of its own; `PathOfJoin` and `PathOfParts` state what it builds |
| `EndpointInput.PathOfJoin` | src/components/endpoint-input.js:143-147 | the reduce from `''` that appends `'/' + segment` gives `'/'` + the segments joined with `/` |
| `EndpointInput.PathOfParts` | src/components/endpoint-input.js:143-147 | read as an id again, a folded path splits back into its segments when none of them contains `/` |
| `EndpointInput.RenderedNames` | src/components/endpoint-input.js:130-132 | the input of each parameter part carries the `name` its rendered component was given |
| `EndpointInput.ElementValue` | src/components/endpoint-input.js:144 | `elements?.[ name ]?.value`: `undefined` for the empty name or no match, the input's value for one match, `''` (a `RadioNodeList`) for several. It has no contract of its own; the three cases are the rows `ElementValueMissing`, `ElementValueUnique` and `ElementValueShared` |
| `EndpointInput.MatchingNone` | src/components/endpoint-input.js:144 | a name no input has finds no control |
| `EndpointInput.MatchingConcat` | src/components/endpoint-input.js:144 | the controls a name finds in two runs of inputs are those of the first run, then those of the second, in document order |
| `EndpointInput.MatchingAt` | src/components/endpoint-input.js:144 | the controls a name finds are those before input `i`, input `i` itself when it has the name, and those after it |
| `EndpointInput.ElementValueMissing` | src/components/endpoint-input.js:144 | a lookup under the empty name, or under a name no input has, gives `undefined` |
| `EndpointInput.ElementValueUnique` | src/components/endpoint-input.js:144 | a lookup under a name that exactly one input has gives that input's value |
| `EndpointInput.ElementValueShared` | src/components/endpoint-input.js:144 | a lookup under a name two inputs share gives a `RadioNodeList`, whose `value` is `''` |
| `EndpointInput.MatchingUniqueName` | src/components/endpoint-input.js:144 | a name that only one parameter's input has finds exactly that input's value once the input is rendered, and nothing before |
| `EndpointInput.SharedNameLookup` | src/components/endpoint-input.js:144 | when two inputs share a name, a lookup under it gives a `RadioNodeList`, whose `value` is `''`, and a lookup under any other name gives `undefined` |
| `EndpointInput.FieldNameInjective` | src/components/endpoint-input.js:118 | `endpoint-${ part }-param` tells different parts apart |
| `EndpointInput.SubmittedPathAsWritten` | src/components/endpoint-input.js:140-148 | the path `submitHandler` passes to `onRequest`, with each parameter looked up as written. It has no contract of its own; `SubmittedPathAsWrittenSegments`, `SubmittedPathWithoutParams`, `AsWrittenAgreesAfterStatic` and `ParamAfterParamAsWritten` state what it submits |
| `EndpointInput.SubmittedPathAsWrittenSegments` | src/components/endpoint-input.js:143-147 | as written, the submitted path read as an id splits into one segment per part, given no segment holds `/`. Static parts appear unchanged, and each parameter position holds what the lookup under `endpoint-${ parts[ n - 1 ] }-param` finds |
| `EndpointInput.SubmittedPathWithoutParams` | src/components/endpoint-input.js:143-147 | when no part is a parameter, the submitted path is the id itself, both as written and with the corrected input names |
| `EndpointInput.LookupNameIsRenderedName` | src/components/endpoint-input.js:118-144 | when every parameter directly follows a static part, the name looked up for a parameter at :144 is the name its own input was rendered with at :132 |
| `EndpointInput.RenderedNameAfterStatic` | src/components/endpoint-input.js:118-132 | when every parameter directly follows a static part and no two parameters follow equal static parts, no other parameter's input has the name of this parameter's input |
| `EndpointInput.AsWrittenSegmentUniqueName` | src/components/endpoint-input.js:144 | a parameter whose input has a name of its own, built from the part before it, submits the value of that input |
| `EndpointInput.AsWrittenAgreesAfterStatic` | src/components/endpoint-input.js:118-147 | under the same conditions, the lookup at :144 is the name of the parameter's own input, so the code as written submits the intended path |
| `EndpointInput.ParamAfterParamInputs` | src/components/endpoint-input.js:118-134 | for a static part `s` followed by parameters `<p>` and `<q>`, the form has exactly two named inputs, both named after `s`, holding the two parameters' values in order |
| `EndpointInput.ParamAfterParamAsWritten` | src/components/endpoint-input.js:143-147 | as written, the same form submits `/s//undefined`. The first lookup finds both inputs and gets `''`, and the second uses the name built from `<p>`, which no input has |
| `EndpointInput.SecondParamLookupMismatch` | src/components/endpoint-input.js:144 | as written, for `/a/<x>/<y>` with `x` set to `1` and `y` to `2`, both inputs are named `endpoint-a-param` and the path submitted is `/a//undefined` |
| `EndpointInput.EqualStaticsAsWritten` | src/components/endpoint-input.js:118-147 | for parameters after equal static parts, `s, <p>, s, <q>`, both inputs are named after `s`, both lookups find the two inputs and get `''`, and the form as written submits `/s//s/` |
| `EndpointInput.EqualStaticsLookupMismatch` | src/components/endpoint-input.js:144 | as written, `/a/<x>/a/<y>` names both inputs `endpoint-a-param` and submits `/a//a/`, whatever the parameters hold |
| `EndpointInput.IndexNameInjective` | src/components/endpoint-input.js:115 | in the corrected form, inputs numbered like the element keys `param-${ i }` never share a name |
| `Strings.DigitsInjective` | src/components/endpoint-input.js:115 | different indices print as different decimal numerals |
| `EndpointInput.SegmentReadsOwnInput` | src/components/endpoint-input.js:132-134 | in the corrected form, parameter `n` submits the value of input `n`, which is `params[ paramName ]`, or `''` when unset (the default at :60) |
| `EndpointInput.SubmittedPathFilled` | src/components/endpoint-input.js:143-147 | the corrected form submits the intended path: static parts unchanged, each parameter replaced by its own input's value |
| `EndpointInput.SubmittedPathSegments` | src/components/endpoint-input.js:143-147 | in the corrected form, the submitted path read as an id splits back into the static parts and, at each parameter, its input's value, given no part and no value holds `/` |
| `EndpointInput.ParamAfterParam` | src/components/endpoint-input.js:143-147 | in the corrected form, a static part `s` followed by two parameters submits `/s/`, the first parameter's value, `/`, and the second's |
| `EndpointInput.SecondParamReadsOwnInput` | src/components/endpoint-input.js:143-147 | in the corrected form, the same `/a/<x>/<y>` form submits `/a/1/2` |
| `RouteToPath.ParamNameOfSingleOption` | src/components/endpoint-input.js:127 | the parameter name of `<name=body>` is `name=` followed by the body with its brackets deleted |
| `RouteToPath.PlaceholderIsParam` | src/utils/request-api.js:16-20 | every placeholder is a parameter part. Its parameter name is the group's name, followed by `=body` for a single-option body |
| `RouteToPath.SegmentGroupId` | src/utils/request-api.js:12-23 | the key `path/seg/(?P<name>body)` has the id `/seg/` followed by the placeholder |
| `RouteToPath.SegmentGroupParts` | src/components/endpoint-input.js:111 | the id `/seg/<placeholder>` splits into the segment and the placeholder |
| `RouteToPath.SegmentGroupTailId` | src/utils/request-api.js:12-23 | the key `path/seg/(?P<name>body)tail`, with no `(` in the tail, has the id `/seg/`, the placeholder, then the tail unchanged |
| `RouteToPath.SegmentGroupTail` | src/components/endpoint-input.js:111-113 | when the body and the tail are free of `/`, that id splits into `seg` and the placeholder followed by the tail, and that part is a parameter. For `users/(?P<user_id>(?:[\d]+\|me))` the match ends at the first `)`, the tail is the second `)`, and the part is `<user_id>)` |
| `RouteToPath.StaticParamSubmit` | src/components/endpoint-input.js:143-147 | a static part followed by one parameter submits `/`, the static part, `/` and the parameter's value, as written and corrected alike |
| `RouteToPath.SegmentParamSubmit` | src/components/endpoint-input.js:143-147 | for a static segment `seg` and a parameter `p`, that value is `params[ paramName ]` of `p` (:134), or `''` when unset |
| `RouteToPath.RouteToSubmittedPath` | src/components/endpoint-input.js:111-147 | a route `path/seg/(?P<name>body)` with a body free of `/` is shown as `seg` plus one input. It submits `/seg/` followed by the value of the placeholder's parameter |

## Findings

| source | as written | input that shows it | evidently intended | confidence | as-written member | corrected member |
|---|---|---|---|---|---|---|
| src/components/endpoint-input.js:144 | a parameter's value is looked up under `endpoint-${ parts[ n - 1 ] }-param`, built from the part just before it (`SubmittedPathAsWritten`). Inputs are named after the last static part (:118, :132), so parameters after one static part share a name. So do parameters after equal static parts: in `/a/<x>/a/<y>` both inputs are named `endpoint-a-param`, both lookups find the two inputs and get `''`, and the path submitted is `/a//a/` (`EqualStaticsLookupMismatch`) | the id `/a/<x>/<y>` with `x` set to `1` and `y` to `2`. Both inputs are named `endpoint-a-param`, so the first lookup gets a `RadioNodeList` whose value is `''`. The second lookup, `endpoint-<x>-param`, finds nothing. The path submitted is `/a//undefined` | each parameter submits the value of its own input. The corrected form names input `n` uniquely, after its position as the keys `param-${ i }` (:115) are, and reads it under that name (`SubmittedPath`), giving `/a/1/2` | medium, not executed | `EndpointInput.SecondParamLookupMismatch` | `EndpointInput.SegmentReadsOwnInput` |

## Left out

- Network calls through `apiFetch`, promises and `.catch( console.error )` are left out. The index response is a parameter. `requestNamespaces` is a function of the root index, though the source fetches it once, when the module loads.
- React rendering is left out: `DropdownMethods`, `EndpointParamEdit`, the focus effect, the buttons, element keys and class names. Each rendered part is reduced to the data it carries: text, `htmlFor`, name, placeholder, parameter name and current value. `onParamChange` and `onRequest` are left out; the submitted path is the result.
- `src/edit.js` (state hooks, effects, inspector panels, placeholder text) is not part of this model. Neither is `src/components/autocomplete.js`, whose `<`-based part test is the same as `IsParam`.
- The PHP files `request.php` and `class-dev-blocks-endpoints.php` only register assets, a block category and a fixed REST route, so they are left out.
- Static data and registration are left out: `src/utils/json-tree-themes.js`, `src/attributes.js`, `src/constants.js`, `src/index.js`, `src/save.js`. `filterMethods` is any list of method labels, rather than one derived from the `METHODS` table.
- General JavaScript regular expressions are not modelled. Only the fixed pattern at request-api.js:14 and the character-class test at :18 are, and `/[<>]/` and `/</` in endpoint-input.js are character filters.
- Strings are sequences of Unicode characters, not UTF-16 code units. A key holding characters outside the Basic Multilingual Plane would be cut differently by `substr` and by `.`. Route keys are ASCII in practice.
- The form's named controls are taken to be the parameter inputs alone. The method dropdown and the buttons carry no name. Each input holds its controlled value, `params[ paramName ]` or `''`. Typing updates `params` through `onParamChange` in `src/edit.js`, which is not part of this model.
- `RouteToPath.RouteToSubmittedPath` requires a body without `/`. A single-option body with `/`, as in `(?P<x>a/b)`, becomes `<x=a/b>`, which the part split cuts into `<x=a` and `b>`. The model does not follow such ids through the form.
- Route descriptors keep every field but `methods` as one opaque value. A descriptor without `methods` is modelled as one with an empty list, which lodash `difference` also treats as empty. Namespaces and routes given in JSON shapes other than an array and an object are not modelled.
- `path` and `method` of `requestEndpoint` are always strings here. An `undefined` method would also attach `data`, since `undefined !== 'GET'`, and the model does the same for any method other than `GET`.
- The route table is a sequence of key/descriptor pairs in insertion order. JavaScript keeps that order for keys that start with `/`, because such keys are never integer-like.
