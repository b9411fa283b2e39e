# errors: a verified model of a Go error-chain library

This project models the core of `github.com/expectedsh/errors`, a small Go
package for building application errors. Each error is a node (`*Error`)
with these parts:

- a call site (`operation`: package, file, function, line);
- a `Kind` classification;
- a message;
- a map of context fields;
- the error it wraps.

Nodes form a chain that ends at nil or at a foreign error (an `error` that
is not an `*Error`). The package has:

- three constructors (`New`, `NewWithKind`, `Wrap`);
- builder mutators that change a node in place and return it;
- three walks over the chain: the flattened `Error()` text, `Stacktrace()`
  and `StacktraceWithMessage()`;
- a decorated `FormatStacktrace()`;
- a table from `Kind` to HTTP status codes.

Files and modules:

- `strings.dfy` (`Strings`): the Go library functions the package relies on.
  These are `strings.Split` with a one-character separator, `strings.Join`
  and the `%d` rendering of an int. Split and Join are proved inverse in
  both directions.
- `kind.dfy` (`Kinds`): the seventeen `Kind` constants and `ToStatusCode`.
  `Kind` is any string, as in Go, so the default branch can be reached. A
  data table of the same mapping serves as the reference the switch is
  checked against.
- `operation.dfy` (`Operations`): the `operation` record and the
  symbol-name split of `newOperation`. It proves that package + "." +
  function rebuilds the symbol name, and that parsing a joined symbol gives
  back its package and function.
- `errors.dfy` (`Errors`): the error node as a class. Its message, kind and
  call site are mutable fields. The field map is its own heap object, so the
  sharing that `Wrap` sets up is real aliasing. The cause is a datatype
  `NoCause | Own(node) | Foreign(text)`. Each walk is a `while` loop with
  invariants. It is proved against a specification function over the chain:
  `Parts`/`Flatten`, `Chain` and `Render`.
  The chain loop of `FormatStacktrace` is its own method, `WriteChain`,
  and the fields loop is `WriteFieldLines`.
- `error_properties.dfy` (`ErrorProperties`): lemmas about those
  specifications, plus concrete call sequences with the results they give.

Acyclicity: the package does not prevent a cycle in the chain. In the
model, every node carries a ghost footprint `Repr`. `Acyclic()` requires
that footprint to strictly contain the footprint of the node it wraps. The
constructor establishes this, and since `err` never changes after
construction, no mutator can break it.

Where descriptions of this library and its code differ, the model follows
the code:

- `Error()` puts the outermost message first (`"c: b: a"`), not the
  innermost.
- `Wrap` over an `*Error` shares the inner node's field map, not a copy.
- This revision has no status-code field and no `WithStatusCode`.
- An inner node with an empty message contributes its whole flattened text,
  and the walk then continues below it. That text therefore appears twice:
  `"c: a: a"` in `EmptyMiddleMessageRepeats`. This is what the code does,
  and the model keeps it.

## Model

| member | source | states |
|---|---|---|
| `Strings.Split` | errors.go:243 | `strings.Split` returns at least one piece, and no piece contains the separator |
| `Strings.Join` | errors.go:92 | `strings.Join`: the empty list joins to the empty string, and a non-empty join starts with its first part |
| `Strings.JoinSplit` | errors.go:243 | joining the pieces of a split with the separator gives back the original string |
| `Strings.SplitJoin` | errors.go:243 | splitting a join of separator-free parts gives back the parts (the inverse direction) |
| `Strings.JoinCons` | errors.go:92 | joining a part in front of a list adds one separator exactly when the list is non-empty |
| `Strings.Digits` | errors.go:151-158 | the decimal digits of a natural number: at least one digit, and no leading zero unless the number is 0 |
| `Strings.Decimal` | errors.go:151-158 | `%d`: a minus sign exactly for a negative number, then only digits |
| `Strings.DigitsRoundTrip` | errors.go:151-158 | the digits read back as the number they were written from |
| `Strings.DecimalRoundTrip` | errors.go:151-158 | `%d` loses nothing: reading its text back gives the number |
| `Operations.NewOperation` | errors.go:240-261 | file and line are passed through; the function is the last segment, or `(Recv).Method` when the second-to-last segment starts with `(`; package + "." + function equals the symbol name whenever there are 2 segments (3 in the method case); the function requires at least 2 segments and a non-empty second-to-last one, where the Go code would otherwise panic |
| `Operations.LastSegmentRebuilt` | errors.go:246-252 | the segments before the last, joined with dots, then a dot and the last segment, rebuild the whole symbol name (the non-method branch) |
| `Operations.LastTwoSegmentsRebuilt` | errors.go:248-250 | with at least three segments, the segments before the last two, a dot, and `second-to-last.last` rebuild the whole symbol name (the method branch) |
| `Operations.SymbolRebuilt` | errors.go:250-252 | the package part and the remaining segments, glued with a dot, rebuild the whole symbol name at any cut point |
| `Operations.SymbolSplit` | errors.go:243 | a symbol name assembled from dot-free segments splits back into exactly those segments |
| `Operations.FunctionSymbolParsed` | errors.go:243-253 | parsing `p1...pn.F` yields package `p1...pn` and function `F` |
| `Operations.MethodSymbolParsed` | errors.go:243-253 | parsing `p1...pn.(Recv).M` yields package `p1...pn` and function `(Recv).M` |
| `Kinds.ToStatusCode` | kind.go:92-123 | the result is always one of 400, 401, 403, 404, 408, 409, 412, 500, 501, 503, and any string that is not one of the 17 named kinds maps to 500 |
| `Kinds.ToStatusCodeMatchesTable` | kind.go:92-123 | the switch agrees on every string with the table of named kinds, and gives 500 off the table |
| `Kinds.NamedKindsMatchTable` | kind.go:92-123 | each of the 17 named kinds is in the table, and the switch gives the table's code for it |
| `Kinds.TableCoversNamedKinds` | kind.go:7-90 | the table's keys are exactly the 17 named kinds |
| `Kinds.KindsDistinct` | kind.go:7-90 | there are 17 named kinds and they are pairwise distinct strings |
| `Kinds.TimeoutKinds` | kind.go:94-95 | canceled and deadline-exceeded map to 408 |
| `Kinds.ClientErrorKinds` | kind.go:98-113 | invalid-argument and out-of-range map to 400, and not-found maps to 404 |
| `Kinds.ConflictAndAccessKinds` | kind.go:102-109 | already-exists and aborted map to 409, permission-denied and resource-exhausted map to 403, and unauthenticated maps to 401 |
| `Kinds.ServiceStateKinds` | kind.go:110-119 | failed-precondition maps to 412, unimplemented to 501, and unavailable to 503 |
| `Kinds.ServerErrorKinds` | kind.go:89-117 | unknown, internal, data-loss and the empty KindNone all map to 500, and KindNone is the empty string |
| `Errors.ErrorNode.constructor` | errors.go:14-29 | sets every field as given; the new node is acyclic, and its footprint is itself plus the wrapped node's footprint |
| `Errors.New` | errors.go:48-55 | a fresh node with no cause, KindNone, the given message and call site, and a fresh empty field map; its chain is just itself |
| `Errors.NewWithKind` | errors.go:57-65 | as `New`, but with the given kind |
| `Errors.Wrap` | errors.go:31-46 | the new node wraps `err`; over an `*Error` it copies that node's kind and shares the same field-map object; over nil or a foreign error it has KindNone and a fresh empty map; its chain is itself followed by the wrapped chain |
| `Errors.ErrorNode.Error` | errors.go:67-93 | the result is the flattened message: the node's own message unless it is empty, then per inner node its message (or its whole `Error()` text when the message is empty), then the foreign error's text, joined by ": " |
| `Errors.ErrorNode.Stacktrace` | errors.go:143-166 | exactly one entry per chain node, outermost first, where entry i is `pkg/file.function:line` of node i; a foreign terminal adds nothing |
| `Errors.ErrorNode.StacktraceWithMessage` | errors.go:168-192 | one entry per chain node, where entry i is `file/pkg.function:line ; message` of node i |
| `Errors.Location` | errors.go:151-158 | a `Stacktrace` entry starts with the package, `/`, the file and `.`, and ends with `:` and the decimal line |
| `Errors.LocationWithMessage` | errors.go:176-184 | a `StacktraceWithMessage` entry is the `Stacktrace` entry with package and file swapped, then `" ; "` and the message |
| `Errors.ErrorNode.FormatStacktrace` | errors.go:95-141 | the output is the header, then the chain section, then the fields section (only when this node's map is non-empty, with one line per key in iteration order), then a newline |
| `Errors.ErrorNode.WriteChain` | errors.go:100-124 | the chain loop of `FormatStacktrace`, written as its own method: the section equals the chain rendering from this node, one entry per node with a line break between entries, then the foreign text if the chain ends in one |
| `Errors.Entry` | errors.go:106-112 | the first node's entry starts with its quoted message and ends with the marker; a later node's entry ends with its quoted message |
| `Errors.FieldLine` | errors.go:131 | a fields line ends with a newline, and is a single line when neither the key nor the shown value contains one |
| `Errors.FieldMap.constructor` | errors.go:37 | the context-field map (`map[string]interface{}`) as a heap object, so that `Wrap` can share it; a new one is empty |
| `Errors.WriteFieldLines` | errors.go:128-135 | the buffer receives one `key<TAB>value` line per key, in the given order |
| `Errors.ErrorNode.WithMessage` | errors.go:194-197 | returns the receiver; the message is replaced, and the kind, call site and fields are unchanged |
| `Errors.ErrorNode.WithField` | errors.go:199-202 | returns the receiver; the shared map becomes the old map with that one key set; the other fields are unchanged |
| `Errors.ErrorNode.WithFields` | errors.go:204-209 | returns the receiver; the map becomes the old map overridden by `m`, so exactly the keys of `m` are overwritten |
| `Errors.ErrorNode.WithKind` | errors.go:211-214 | returns the receiver; only the kind changes |
| `Errors.ErrorNode.WithOpHere` | errors.go:216-219 | returns the receiver; only the call site changes, to the one given |
| `Errors.ErrorNode.GetField` | errors.go:221-224 | `ok` holds exactly when the key is present; then the value is the stored one, and otherwise it is nil (None) |
| `ErrorProperties.ChainInRepr` | errors.go:74-90 | every node a walk reaches lies in the top node's footprint |
| `ErrorProperties.ChainDistinct` | errors.go:74-90 | a walk never reaches the same node twice |
| `ErrorProperties.PartsBelowAreMessages` | errors.go:76-90 | below a node whose inner nodes all have messages, the loop collects exactly those messages, then the foreign text if there is one |
| `ErrorProperties.FlattenAllMessagesSet` | errors.go:67-93 | when every node has a non-empty message, `Error()` is those messages, outer to inner, followed by the foreign error's text, joined by ": " |
| `ErrorProperties.RenderIsJoinOfEntries` | errors.go:100-124 | the chain section is one entry per node (the first with the "error happened here" marker, later ones with `=>`), then the foreign text if there is one, separated by line breaks |
| `ErrorProperties.RenderStep` | errors.go:102-123 | one iteration of the chain loop keeps the section equal to the join of entries and terminal text |
| `ErrorProperties.RenderOwn` | errors.go:106-119 | the section from a node is its entry, followed by a line break and the rest exactly when the node wraps something |
| `ErrorProperties.EntriesOfChainUnfold` | errors.go:102-119 | the entries of a chain are the top node's entry followed by the entries of the chain below it, none of them marked first |
| `ErrorProperties.NoMoreEntries` | errors.go:102 | nothing remains to write exactly when the walk has reached nil |
| `ErrorProperties.FirstEntryMarked` | errors.go:106-112 | an entry ends with the marker's last character exactly when it is the first one; later entries end with a closing quote |
| `ErrorProperties.DistinctCount` | errors.go:130 | a key order without repeats has as many distinct keys as entries |
| `ErrorProperties.OrderVisitsEveryKey` | errors.go:130-133 | an iteration order accepted by `FormatStacktrace` visits every key of the map exactly once |
| `ErrorProperties.WrapNilFlattensToMessage` | errors.go:70-92 | `Wrap(nil, m).Error()` is exactly `m`, with no separator |
| `ErrorProperties.WrapForeignFlattens` | errors.go:86-88 | wrapping a foreign error gives `m + ": " + text`, or just `text` when `m` is empty |
| `ErrorProperties.WrapPrefixesMessage` | errors.go:67-93 | when both a node and the node it wraps have messages, the flattened text is the outer message, ": ", then the inner node's flattened text |
| `ErrorProperties.ThreeLevelsFlatten` | errors.go:67-93 | `Wrap(Wrap(New("a"), "b"), "c").Error()` is `"c: b: a"` |
| `ErrorProperties.EmptyMiddleMessageRepeats` | errors.go:80-85 | `Wrap(Wrap(New("a"), ""), "c").Error()` is `"c: a: a"`, so the text below an empty-message node is repeated |
| `ErrorProperties.EmptyMessageRepeatsBelow` | errors.go:80-85 | for any node with a message over an empty-message node that wraps something, the text below the empty-message node appears twice in the flattened text |
| `ErrorProperties.OverEmptyMessage` | errors.go:80-85 | over an empty-message node, the walk collects that node's whole flattened text and then continues with the parts below it |
| `ErrorProperties.PartsBelowNonEmpty` | errors.go:76-90 | a walk from a cause that is not nil collects at least one part |
| `ErrorProperties.ErrorIsRepeatable` | errors.go:67-93 | two calls of `Error()` give the same text; for a chain ending in a foreign error, this holds because the foreign error is taken to give the same text on every call (see `Errors.Cause` under Left out) |
| `ErrorProperties.WrapAddsOneFrame` | errors.go:143-166 | the stacktrace of a wrapper is the wrapper's own location followed by the inner node's stacktrace |
| `ErrorProperties.StacktracesAgree` | errors.go:143-192 | the two stacktraces have equal length, and entry i of the second is node i's `Stacktrace` location with package and file swapped, followed by `" ; "` and its message |
| `ErrorProperties.WrapSharesFields` | errors.go:40-43 | a field set through the wrapper is visible through `GetField` on the inner node, and the wrapper has the inner node's kind |
| `ErrorProperties.WithFieldThenGet` | errors.go:199-224 | `GetField` after `WithField(k, v)` returns `(v, true)`, and other keys read as before |
| `ErrorProperties.KindOverride` | errors.go:211-214 | `NewWithKind(NotFound)` gives 404; after `Wrap` and `WithKind(InvalidArgument)` the wrapper gives 400 |

## Left out

- The stack lookups of `newOperation` (`runtime.Caller(2)`, `runtime.FuncForPC`, `path.Split`) are not modelled: the call site is a parameter of `New`, `NewWithKind`, `Wrap` and `WithOpHere`, and `NewOperation` takes the symbol name, file base name and line as arguments.
- `fmt.Sprintf` with variadic arguments is not modelled: messages arrive already formatted.
- `Log()` is not modelled: it only hands the fields and the stacktrace to the external logrus library.
- `Errors.ErrorNode.FormatStacktrace`: ANSI colour codes are dropped (their constants are not part of this model); `%q` becomes plain double quotes, with no escaping; the tabwriter column alignment is not modelled, so the tab stays in the line; the random order of Go's map iteration and the `%v` rendering of values are parameters (`order`, `show`).
- `Errors.ErrorNode.GetField`: Go's `interface{}` values are a type parameter `V`, and the nil interface returned for a missing key is `None`.
- `Errors.Cause`: a foreign error is reduced to the text its `Error()` returns (errors.go:87, errors.go:121). That text is taken to be the same on every call, and the call is taken to have no effects; a foreign error whose text changes between calls is not modelled.
- Cyclic chains are excluded by `Acyclic()`, a precondition of every walk; on a cyclic chain the Go walks would not terminate.
- A typed-nil `*Error` passed to `Wrap` is excluded, because `Own` holds a non-null node; in Go it would panic at errors.go:41.
- Client code assigning the exported fields `Kind`, `Message` or `Err` directly is not modelled. The package itself never reassigns `Err`, so it is a `const`.
- The `line` of a call site is an unbounded `int`; Go's machine `int` width is not modelled.
- Concurrent use is not modelled; the package has no synchronisation.
- The demo program sample.go only prints, and is not modelled.
