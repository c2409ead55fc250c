# Tonic embed widget: a verified model

This project models the core of `assets/js/tonic.js`. That script lets a web page embed
a live notebook in an iframe and talk to it. The model covers five parts of the script:

- **Message router.** The script-wide counters `COUNTER` and `MESSAGE_ID`, and the table
  `CALLBACKS` of pending callbacks. `_sendMessage` hands out an id and registers a
  callback under it. The `message` listener resizes the frame, reports a load or a URL
  change, or resolves one pending callback, in that order of priority.
- **Notebook-path canonicaliser.** A reference `author/repo[/rest]` becomes
  `/users/author/repositories/repo/...`, with `branches/master` when nothing follows the
  repository. A reference with fewer than two segments, after one empty leading and one
  empty trailing piece are dropped, is discarded.
- **Query-string builder.** It produces the frame's `?key=value&...` query in a fixed key
  order, skips absent fields, and appends one `env[]=` pair per env entry.
- **Env-attribute mapping.** Each `data-env-*` attribute of the script tag becomes one
  lower-cased `key=value` entry.
- **De-indenter.** It reformats the text already inside the target element before that
  text becomes the notebook's source.

The modules follow the script's structure:

- `Router` holds the message router as pure functions over its state, plus lemmas about
  whole runs of requests and replies.
- `Embed` holds the same state as objects updated in place. `Embed.Registry` keeps the
  counters and the callback table that all instances share. `Embed.Notebook` is one
  instance. Their methods are specified by the `Router` functions.
- `NotebookPath`, `Query`, `EnvAttrs` and `Deindent` model the other four parts.
- `Text`, `Decimal` and `Json` model the few JavaScript built-ins the script relies on:
  `split`, `join`, `trim`, the regex `\s`, `toLowerCase`, number-to-string conversion,
  property reads, truthiness and property keys.

Two behaviours of the code are worth naming, and the model keeps both:

- `onLoad` runs for every `"loaded"` message that reaches the instance
  (`assets/js/tonic.js:127-130`), not only the first. `Router.Dispatch` returns a
  `Loaded` effect each time, as `Router.LoadedBeforeReply` states.
- A whitespace-only line shorter than `prefix` becomes empty, because
  `substring(prefix)` goes past its end (`assets/js/tonic.js:227-230`).
  `Deindent.StripIndent` does the same, and `Deindent.StripIndentShape` and
  `Deindent.ReformatPerLine` state it.

## Model

| member | source | states |
|---|---|---|
| Decimal.Show | assets/js/tonic.js:29 | `toString` of a whole number is a non-empty digit string with no leading zero |
| Decimal.Parse | assets/js/tonic.js:136-138 | a string names a whole-number key exactly when it is a canonical decimal numeral |
| Decimal.ParseIffShow | assets/js/tonic.js:136-138 | a string parses to `n` if and only if it is `n`'s decimal form |
| Decimal.ShowInjective | assets/js/tonic.js:29 | different counter values give different decimal forms |
| Json.Get | assets/js/tonic.js:123-141 | a property read yields a value exactly when the message is an object with that own field |
| Json.Truthy | assets/js/tonic.js:123-136 | JavaScript truthiness of `parsed.height`, `parsed.url` and `parsed.message_id`; `Router.HeightFirst`, `Router.UrlBeforeReply` and `Router.UnknownIdIgnored` state the branches it decides |
| Json.TableKey | assets/js/tonic.js:136-138 | the property key `CALLBACKS[parsed.message_id]` reads; `Json.TableKeyIff` states which ids name entry `k` |
| Json.TableKeyIff | assets/js/tonic.js:136-138 | `CALLBACKS[parsed.message_id]` looks up entry `k` exactly when the id is the number `k` or the string of `k`'s digits |
| Router.InstanceNamesDistinct | assets/js/tonic.js:29 | instances created at different counter values get different names |
| Router.InstanceName | assets/js/tonic.js:29 | the instance name is `tonic-embed-` followed by the decimal form of `COUNTER` at creation; `Router.InstanceNamesDistinct` makes it unique |
| Router.AddressedTo | assets/js/tonic.js:123 | the listener acts only on a parsed message whose `name` is the instance's own name |
| Router.PendingReply | assets/js/tonic.js:136 | a reply is taken only for an id whose table entry holds a callback |
| Router.Dispatch | assets/js/tonic.js:119-145 | a message not addressed to the instance is ignored; a reply is taken only from an addressed message with no truthy height, no `"loaded"` event and no truthy url, and removes exactly its own entry and returns that entry's callback; every other branch leaves the table unchanged |
| Router.OtherInstancesIgnore | assets/js/tonic.js:119-123 | a message addressed to one instance changes nothing in any other instance |
| Router.ReplyResolves | assets/js/tonic.js:136-141 | a reply naming a pending id, as a number or a numeral, removes that entry and calls its callback with `parsed.message` |
| Router.ReplyAtMostOnce | assets/js/tonic.js:136-141 | the same reply delivered again changes nothing and calls nothing |
| Router.UnknownIdIgnored | assets/js/tonic.js:136 | a reply with a falsy, unknown or callback-less id changes nothing and calls nothing |
| Router.HeightFirst | assets/js/tonic.js:125-141 | a message with a truthy height only resizes, even when it carries a pending message id |
| Router.LoadedBeforeReply | assets/js/tonic.js:125-136 | a `"loaded"` event without a truthy height reports the load and `onLoad`, and keeps the table even when a pending id comes with it |
| Router.UrlBeforeReply | assets/js/tonic.js:125-136 | a truthy url without a truthy height or a `"loaded"` event reports the URL and `onURLChanged`, and keeps the table even when a pending id comes with it |
| Router.Send | assets/js/tonic.js:150-151 | the next id is fresh; it gets exactly one new entry holding the callback; every other entry is unchanged; validity is kept |
| Router.Run | assets/js/tonic.js:119-151 | the shared state through any interleaving of requests from `_sendMessage` and messages to any instance's listener; `Router.RunIssuesConsecutiveIds`, `Router.RunRepliesFresh` and `Router.AtMostOnceFromStart` state what it keeps |
| Router.RunIssuesConsecutiveIds | assets/js/tonic.js:150 | over any interleaving of requests and messages, the ids handed out are consecutive from the starting `MESSAGE_ID` |
| Router.RunRepliesFresh | assets/js/tonic.js:136-151 | over any run, the state stays valid, and no id is replied to twice or after it was resolved |
| Router.AtMostOnceFromStart | assets/js/tonic.js:24-25 | from the initial state, each request's callback is called at most once, and only for an id some request handed out; one function passed to two requests is stored under two ids and may be called once for each |
| NotebookPath.Segments | assets/js/tonic.js:47-55 | the pieces of `split('/')` after `shift` of an empty first piece and `pop` of an empty last piece; `NotebookPath.SegmentsSpan` states what they span |
| NotebookPath.SegmentsFree | assets/js/tonic.js:47-55 | no segment holds a `/` |
| NotebookPath.CanonicalSegments | assets/js/tonic.js:63-70 | `['', 'users', author, 'repositories', repo]` followed by the rest of the segments, or by `branches`, `master` when there is no rest |
| NotebookPath.Canonical | assets/js/tonic.js:45-74 | an absent or empty reference is kept, fewer than two segments give `null`, otherwise the joined canonical segments; `NotebookPath.CanonicalShape` states its shape |
| NotebookPath.Canonicalise | assets/js/tonic.js:45-74 | the `shift`/`pop` code computes `NotebookPath.Canonical` |
| NotebookPath.SegmentsSpan | assets/js/tonic.js:47-55 | the segments, joined again, are the reference without its leading `/` when it has one and without its trailing `/` when it has one (a lone `/` counts once) |
| NotebookPath.SlashesIgnored | assets/js/tonic.js:49-55 | a leading `/`, a trailing `/` or both leave the canonical path unchanged |
| NotebookPath.CanonicalShape | assets/js/tonic.js:47-72 | the reference is discarded exactly when fewer than two segments remain; otherwise the path splits into `""`, `users`, author, `repositories`, repo, then the rest verbatim or `branches`, `master` |
| NotebookPath.JoinCanonical | assets/js/tonic.js:65-72 | the joined path spells `/users/<author>/repositories/<repo>/` followed by the tail |
| NotebookPath.TwoSegments | assets/js/tonic.js:63-72 | `author/repo` becomes `/users/author/repositories/repo/branches/master` |
| NotebookPath.MoreSegments | assets/js/tonic.js:67-68 | `author/repo/rest` keeps `rest` verbatim after the repository |
| NotebookPath.OneSegmentDiscarded | assets/js/tonic.js:57-60 | a single segment, with or without surrounding slashes, is discarded |
| Query.QueryString | assets/js/tonic.js:88 | the query starts with `?` |
| Query.Keys | assets/js/tonic.js:78-86 | the seven keys in the order the query object literal declares them; `Query.KeysWellFormed` states they are distinct, free of `=`, and none starts with `e`, so no `env[]` pair shadows them |
| Query.Values | assets/js/tonic.js:78-86 | the query object's values in its key order `Query.Keys` (name, notebook, source, location, readOnly, nodeVersion, title); `Query.KeysWellFormed` and `Query.LookupPairs` state that each key reads back its own value |
| Query.Pairs | assets/js/tonic.js:88-91 | `key=encodeURIComponent(value)` for each field that is neither `null` nor `undefined`, in key order; `Query.LookupPairs` states what each key reads back |
| Query.EnvPairs | assets/js/tonic.js:93-97 | one `env[]=encodeURIComponent(entry)` per env entry, in order; `Query.LookupEnvNone` keeps them apart from the fields |
| Query.QueryPieces | assets/js/tonic.js:88-98 | split at `&`, the query is the field pairs in key order, then nothing, one empty piece for an empty env array, or the env pairs |
| Query.LookupPairs | assets/js/tonic.js:88-91 | a reader finds each key's encoded value, and nothing for an absent field |
| Query.KeysWellFormed | assets/js/tonic.js:78-86 | the seven keys are distinct and contain no `=` |
| Query.LookupEnvNone | assets/js/tonic.js:95-97 | env pairs never shadow a field key |
| Query.QueryRoundTrip | assets/js/tonic.js:78-98 | reading the query back recovers every field: the encoded value when present, nothing when null or undefined |
| EnvAttrs.EnvEntriesAppend | assets/js/tonic.js:194-198 | the entries of a concatenation are the entries of each part, in order |
| EnvAttrs.IsEnvAttr | assets/js/tonic.js:195 | the test `/^data-env-/` on an attribute's name |
| EnvAttrs.EnvEntry | assets/js/tonic.js:197 | the name with its first `data-env-` removed and lower-cased, then `=` and the raw value; `EnvAttrs.EnvEntryShape` states its form |
| EnvAttrs.EnvEntries | assets/js/tonic.js:194-198 | the attributes filtered by `IsEnvAttr`, then mapped by `EnvEntry`; `EnvAttrs.EnvEntriesAppend`, `EnvEntriesSingle` and `EnvEntriesCount` state order and count |
| EnvAttrs.EnvEntriesSingle | assets/js/tonic.js:194-198 | a matching attribute gives exactly one entry and any other attribute none |
| EnvAttrs.EnvEntriesCount | assets/js/tonic.js:194-198 | there is exactly one entry per `data-env-` attribute |
| EnvAttrs.EnvEntryShape | assets/js/tonic.js:197 | an entry is the name after `data-env-`, lower-cased, then `=` and the raw value |
| EnvAttrs.EnvEntryFirstEquals | assets/js/tonic.js:197 | when the name has no `=`, the entry's first `=` separates key and value |
| Text.Split | assets/js/tonic.js:47 | `split` always gives at least one piece |
| Text.SplitCount | assets/js/tonic.js:42 | `split` gives one more piece than there are separators, so `source.split("\n").length` counts the lines |
| Text.SplitPiecesFree | assets/js/tonic.js:47 | no piece of a split contains the separator |
| Text.JoinSplit | assets/js/tonic.js:72 | joining the pieces of a split gives the string back |
| Text.SplitJoin | assets/js/tonic.js:72 | splitting a join of separator-free pieces gives the pieces back |
| Text.SplitFirstEmpty | assets/js/tonic.js:51 | the first piece of a split is empty exactly when the string is empty or starts with the separator |
| Text.SplitLastEmpty | assets/js/tonic.js:54 | the last piece of a split is empty exactly when the string is empty or ends with the separator |
| Text.Join | assets/js/tonic.js:72 | `join(sep)`: the pieces with one separator between neighbours; `Text.JoinSplit` and `Text.SplitJoin` make it the inverse of `split` |
| Text.TrimStart | assets/js/tonic.js:222 | `replace(/^\s+/, "")` keeps a suffix that is empty or starts with a non-whitespace character |
| Text.TrimStartRemovesSpace | assets/js/tonic.js:222 | everything the leading trim removes is whitespace |
| Text.TrimEnd | assets/js/tonic.js:81 | the trailing trim keeps a prefix that is empty or ends with a non-whitespace character |
| Text.TrimEndRemovesSpace | assets/js/tonic.js:81 | everything the trailing trim removes is whitespace |
| Text.TrimEmptyIffSpace | assets/js/tonic.js:219 | a line trims to nothing exactly when all of it is whitespace |
| Text.Trim | assets/js/tonic.js:81 | `trim()` is the trailing trim after the leading trim; `Text.TrimEmptyIffSpace` says when it is empty |
| Text.IsSpace | assets/js/tonic.js:219-227 | the ECMAScript whitespace and line-terminator characters that `\s` and `trim` share |
| Text.ToLower | assets/js/tonic.js:197 | `toLowerCase()` on the ASCII letters, every other character kept |
| Text.ReplaceFirst | assets/js/tonic.js:197 | `replace` with a string pattern replaces only the first occurrence; `Text.ReplaceLeadingPattern` covers a leading one |
| Text.IndexOf | assets/js/tonic.js:197 | the result is the first occurrence of the pattern |
| Text.ReplaceLeadingPattern | assets/js/tonic.js:197 | replacing the first `data-env-` in a name that starts with it removes that prefix |
| Deindent.NormalizeNewlines | assets/js/tonic.js:213-214 | no CR survives |
| Deindent.ReplaceCrLf | assets/js/tonic.js:213 | every CRLF becomes one LF, left to right |
| Deindent.ReplaceCr | assets/js/tonic.js:214 | every remaining CR becomes LF |
| Deindent.IsBlank | assets/js/tonic.js:219 | the blank-line test of the loop; `Deindent.BlankIffTrimEmpty` ties it to `trim().length === 0` |
| Deindent.Indent | assets/js/tonic.js:222 | `prefix`: the length of the first line's leading whitespace; `Deindent.StripKeepsRelativeIndent` and `Deindent.FirstLineUnindented` use it |
| Deindent.StripAll | assets/js/tonic.js:225-231 | the `lines.map(...)` with one prefix: one output line per line, each stripped; `Deindent.DeindentLinesShape` states it |
| Deindent.StripIndent | assets/js/tonic.js:225-230 | one line of the map: cut the first `prefix` characters unless they hold a non-whitespace character; `Deindent.StripIndentShape` states the cut |
| Deindent.DeindentLines | assets/js/tonic.js:218-231 | the blank-dropping loop, then the map with the first kept line's indentation; `Deindent.DeindentLinesShape` states it |
| Deindent.Reformat | assets/js/tonic.js:212-231 | the whole reformatting of the element's text; `Deindent.ReformatPerLine` and `Deindent.ReformatIdempotent` state its meaning |
| Deindent.NormalizeSteps | assets/js/tonic.js:213-214 | CRLF and a lone CR each become one LF, and every other character is kept |
| Deindent.NormalizeIdentity | assets/js/tonic.js:213-214 | text without CR is unchanged |
| Deindent.DropBlank | assets/js/tonic.js:219 | the loop keeps a suffix of the lines that is empty or starts with a non-blank line |
| Deindent.DropBlankSkipsBlank | assets/js/tonic.js:219 | every line the loop drops is blank |
| Deindent.BlankIffTrimEmpty | assets/js/tonic.js:219 | the model's blank test holds exactly when `line.trim()` is empty |
| Deindent.ReformatSource | assets/js/tonic.js:212-231 | the loop-and-map code computes `Deindent.Reformat` |
| Deindent.StripIndentShape | assets/js/tonic.js:225-230 | a line loses nothing, or its first `prefix` characters (all of it when shorter), and only whitespace |
| Deindent.StripKeepsRelativeIndent | assets/js/tonic.js:222-230 | a stripped line's indentation is its old indentation minus the prefix |
| Deindent.DeindentLinesShape | assets/js/tonic.js:219-231 | one output line per kept line; each is its line with at most the first line's indentation of whitespace removed |
| Deindent.FirstLineUnindented | assets/js/tonic.js:222-230 | the first kept line loses exactly its indentation, so the result starts with a non-whitespace character |
| Deindent.ReformatLines | assets/js/tonic.js:216-231 | the output text splits back into exactly the reformatted lines and contains no CR |
| Deindent.ReformatPerLine | assets/js/tonic.js:216-231 | each output line is its input line without the first `prefix` characters when those are all whitespace, and unchanged otherwise |
| Deindent.ReformatIdempotent | assets/js/tonic.js:212-231 | reformatting reformatted text changes nothing |
| Embed.GetAttribute | assets/js/tonic.js:188-192 | an attribute value is found exactly when the tag has an attribute of that name; `Embed.GetAttributeFirst` states which value |
| Embed.GetAttributeFirst | assets/js/tonic.js:188-192 | a value found is the value of the first attribute carrying that name |
| Embed.Given | assets/js/tonic.js:200-204 | the truthiness test on an attribute value: present and not `""`; `Embed.DiscoverShape` states how each option depends on it |
| Embed.Discover | assets/js/tonic.js:184-256 | the options auto-discovery passes to `createNotebook`, or none when the tag names neither element nor notebook; `Embed.DiscoverShape` states them field by field |
| Embed.DiscoverShape | assets/js/tonic.js:188-256 | no notebook without an element id or notebook URL; otherwise the env is exactly the `data-env-` entries, one per attribute; the read-only flag is explicit; notebook, node version and title are the tag's attributes; a load hook exactly when a callback name is given; the element's text reformatted when an element is named and has text, and no source text when none is named |
| Embed.FrameHeight | assets/js/tonic.js:38-43 | the starting frame height is exactly 150 pixels without source text, and otherwise 21 pixels per source line plus 60, but at least 150 |
| Embed.InitialHeight | assets/js/tonic.js:38-43 | `initialHeight`: 100, or 21 per source line plus 10 for a truthy source |
| Embed.QueryFields | assets/js/tonic.js:78-86 | the query object: name, canonical notebook, trimmed source, location, read-only flag, node version and title |
| Embed.FrameSource | assets/js/tonic.js:88-102 | the frame's address: the origin, `/e` and the query built from the fields and env; `Query.QueryRoundTrip` states what a reader recovers |
| Embed.GetSourceRequest | assets/js/tonic.js:164 | the `{method: "get_source"}` payload; `Embed.RequestsDistinct` states its `method` |
| Embed.SetSourceRequest | assets/js/tonic.js:169 | the `{method: "set_source", source}` payload; `Embed.RequestsDistinct` states its `method` and `source` |
| Embed.EvaluateRequest | assets/js/tonic.js:174 | the `{method: "evaluate"}` payload; `Embed.RequestsDistinct` states its `method` |
| Embed.RequestsDistinct | assets/js/tonic.js:162-175 | the three requests carry `get_source`, `set_source` with the source, and `evaluate` |
| Embed.Registry.constructor | assets/js/tonic.js:23-25 | the counter starts at 0, ids start at 1, and no callback is pending |
| Embed.Notebook.constructor | assets/js/tonic.js:27-105 | the instance takes the name for the current counter, the counter goes up by one, the callback table is untouched, and the frame address is built from the canonical notebook path and the query fields |
| Embed.Notebook.SendMessage | assets/js/tonic.js:148-160 | the id is the old `MESSAGE_ID`; the registry moves as `Router.Send`; the envelope with name, id and data is posted |
| Embed.Notebook.GetSource | assets/js/tonic.js:162-165 | one `get_source` request is sent under the next id |
| Embed.Notebook.SetSource | assets/js/tonic.js:167-170 | one `set_source` request with the source is sent under the next id |
| Embed.Notebook.Evaluate | assets/js/tonic.js:172-175 | one `evaluate` request is sent under the next id |
| Embed.Notebook.OnMessage | assets/js/tonic.js:119-145 | the listener changes the callback table and reports its effect as `Router.Dispatch`; the reported height and URL are recorded; nothing is posted |
| Embed.Notebook.URL | assets/js/tonic.js:132 | the instance's `URL`: the script's origin followed by the path the frame reported |
| Embed.TwoInstances | assets/js/tonic.js:23-29 | two instances get distinct names and draw ids 1 and 2 from the one shared counter |

## Left out

- DOM work is not modelled: creating, styling and appending the iframe, `replaceChild`, `getElementById`, `textContent`, and the `document.currentScript` fallback. The target element's text is a parameter of `Embed.Discover`.
- Transport is not modelled: `postMessage`, `addEventListener`, `JSON.parse`, `JSON.stringify` and the `try`/`catch`. An inbound message is an already-parsed optional value, where None means a parse failure. An outbound message is appended to `Embed.Notebook.posted` as an envelope.
- `encodeURIComponent` is a parameter of the query functions. The read-back lemmas assume only that it never outputs `&`.
- `scriptOrigin` is a constant of `Embed.Registry`. Its derivation from the script's host (lines 16-21) depends on the browser's URL parser.
- `window.location` is a parameter of the constructor.
- `console.log` is not modelled.
- Registration under `window.Tonic` and the `createNotebook` wrapper are not modelled.
- The lookup of the load callback in `window` is recorded only as whether one was named.
- User callbacks are not executed. `Router.Effect` records which callback would be called and with what: `onLoad`, `onURLChanged`, or a pending reply callback.
- A callback that throws, or a truthy callback that is not a function, is not distinguished. The table change is the same because the entry is deleted before the call. The `try`/`catch` swallows the error.
- Router.Dispatch: a `message_id` that is an array, such as `[1]`, converts to the property key `"1"` in JavaScript and would find entry 1. The model treats every non-number, non-string id as naming no entry.
- Router.Dispatch: an id that names an inherited property, such as `"toString"`, finds a truthy function in JavaScript, which is then called. The model ignores such ids. The callback table comes out the same either way.
- Decimal.Show: JavaScript numbers lose integer precision above 2^53, and `toString` switches to exponent form from 10^21. `COUNTER` and `MESSAGE_ID` are unbounded here.
- Embed.Notebook.URL: the model gives `scriptOrigin + parsed.url` only when the URL is a string. For other truthy values, the conversion to a string is not modelled. The raw value is kept in the `url` field.
- Embed.Notebook.OnMessage: the frame's CSS height `(parsed.height + 50) + "px"` is not computed. The reported height value is recorded as is.
- The options `readOnly`, `nodeVersion` and `title` are modelled by the string forms `encodeURIComponent` receives. The source text and env entries are modelled as strings.
- Text.ToLower: only ASCII letters are lower-cased. HTML lower-cases only ASCII letters in attribute names, so a `data-env-` name with a non-ASCII upper-case letter, such as `data-env-Ärger`, keeps that letter here where JavaScript's `toLowerCase` would lower-case it.
- Text.IsSpace: it is the fixed ECMAScript whitespace and line-terminator set that `\s` and `trim` share.
- publish.py is not part of this model. It is a file rename plus `git` subprocess calls.
- public/js/about.js is not part of this model. It is a timer-driven label animation.
