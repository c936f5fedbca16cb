# kakoune-web-ui front-end core, modelled in Dafny

kakoune-web-ui is a browser front end for the Kakoune editor. Kakoune sends
JSON-RPC draw messages over a websocket; the front end stores them in a UI
state, renders lines of coloured atoms and sends keystrokes back as Kakoune
key names. This project models its pure core as immutable Dafny values and
total functions, and proves what the code promises about them.

- **domdiff.js, the reconciler.** `Tag(name, children)` folds a mixed
  argument list into attributes, handlers and content children, and returns
  a descriptor. `morph` applies that descriptor to the previous DOM node,
  reusing nodes when it can. `Thunk(key, create)` skips the work when the
  previous node already carries its key. `MakeAttr`/`cls`/`id`/`Handler`
  build the contributions. `class_cache` normalises CSS text and hands out
  one class name per distinct key. The DOM is an immutable host tree in
  which every node carries an id standing for its object identity. A log of
  mutations records every write a pass makes to the live tree.
- **template_to_string.** There are two versions. domdiff.js turns every
  falsy interpolated argument into empty text; frontend/src/Kakoune.tsx does
  so only for `undefined`, and passes numbers through.
- **Colours and keys.** `color_to_css` exists in three versions
  (kakoune.js, Kakoune.tsx, hot.js). `mod`, `onkeydown` and the two
  `onmousewheel` handlers exist in the same three variants.
- **Messages.** `on_message` applies the `shows`/`hides` tables to the UI
  state. kakoune.js coalesces refreshes through `schedule_refresh` and
  `actual_refresh`.
- **Atom rendering.** `markup_atoms` chops the private-use offset from the
  start of a line, keeps an empty line one cell wide, and turns newlines
  into spaces. The `state.offset` computation and the menu slice are
  modelled too.
- **frontend/src/div.tsx.** `Tag`'s prop fold (`add`) joins scalar props
  with spaces, composes function props, merges object props and collects
  `css` and `children`. `dummy_keys` gives every unkeyed element child a
  positional key.
- **hot.js.** The string-built markup: `tag`, `styled`, `esc`, `row_markup`.

Modules follow the source:

| file | module | source |
|---|---|---|
| `prelude.dfy` | `Prelude` | shared helpers: Result/Option, decimal text, JS string replace, upper-casing |
| `template.dfy` | `Template` | `template_to_string` and `MakeAttr` in both versions |
| `host.dfy` | `Host` | the host tree and the mutation log |
| `descriptor.dfy` | `Descriptor` | domdiff.js `Tag`, `MakeAttr`, `Handler` |
| `reconcile.dfy` | `Reconcile` | domdiff.js `morph`, `Thunk` |
| `reconcile_laws.dfy` | `ReconcileLaws` | laws relating several reconciliation passes |
| `css_text.dfy` | `CssText` | the CSS normalisation in `generate_class` |
| `class_cache.dfy` | `ClassCache` | domdiff.js `class_cache` |
| `colours.dfy` | `Colours` | `color_to_css` |
| `keys.dfy` | `Keys` | `mod`, `onkeydown`, `onmousewheel` |
| `messages.dfy` | `Messages` | `on_message`, `schedule_refresh` |
| `atoms.dfy` | `Atoms` | `markup_atoms`, `state.offset`, the menu |
| `props.dfy` | `Props` | div.tsx `Tag` and `dummy_keys` |
| `hot_markup.dfy` | `HotMarkup` | hot.js markup helpers |

Where a JavaScript expression of the modelled code throws, the model returns
an `Err`; the exceptions the DOM and the message decoding raise themselves are
listed under "Left out". Where the code
reads an optional value, the model takes an `Option`. All values are immutable, so the copies `markup_atoms` makes
(`atoms.slice()`, `{...atoms[0]}`) to leave the caller's line untouched hold
by construction.

## Model

| member | source | states |
|---|---|---|
| Prelude.Dec | domdiff.js:144 | the decimal text of a number (class names, dummy keys) is non-empty and all digits |
| Prelude.ParseDecOfDec | domdiff.js:144 | decimal text reads back as the number it was written from |
| Prelude.DecInjective | domdiff.js:144 | two numbers have the same decimal text exactly when they are equal |
| Prelude.PrefixedDecInjective | domdiff.js:144 | a prefix followed by a number's decimal text names the number uniquely, as the class names `prefix + size` need |
| Prelude.IntToString | frontend/src/div.tsx:69-76 | the text of an integer is `-` exactly for negative numbers, followed by the decimal digits of its absolute value |
| Prelude.IndexOf | hot.js:75 | the position String.replace with a string pattern acts on: none when the character is absent, otherwise its first occurrence |
| Prelude.ReplaceFirst | hot.js:75 | `s.replace(c, r)` leaves `s` alone when `c` is absent; otherwise exactly the first `c` is replaced by `r` |
| Prelude.ReplaceFirstCount | hot.js:75 | after replacing the first `c`, the count of any character `d` goes down by one if `d` is `c`, and up by its count in `r` |
| Prelude.ReplaceFirstKeeps | hot.js:75 | replacing another character with text that does not contain `d` leaves the count of `d` unchanged |
| Prelude.ReplaceAllAbsent | kakoune.js:198 | a global replacement of a character the text does not contain changes nothing |
| Prelude.ReplaceAllRemoves | kakoune.js:198 | after `replace(/\n/g, r)`, with `r` free of newlines, no newline is left |
| Prelude.ReplaceAllAppend | kakoune.js:198 | a global replacement distributes over concatenation |
| Prelude.FirstWord | hot.js:72 | `name.split(' ')[0]` is the prefix of the name up to its first space, and holds no space |
| Prelude.Upper | domdiff.js:56 | ASCII upper-casing: keeps the length and upper-cases each ASCII letter, character by character |
| Template.Interleave | domdiff.js:7 | `parts.map((s, i) => s + piece(more[i])).join('')` in either version; its meaning is stated by Template.InterleaveLiteral, InterleaveNoArgs, InterleaveIgnoresExtraArgs and InterleaveVersionsAgree |
| Template.Piece | domdiff.js:7 | the text an interpolated argument contributes: `undefined` gives nothing; in domdiff.js every falsy value gives nothing, in Kakoune.tsx every other value gives its string form |
| Template.DomdiffTemplateToString | domdiff.js:3-8 | a plain string is returned as is; a number throws (it has no `map`); a tagged template gives its parts interleaved with the arguments, every falsy argument contributing nothing |
| Template.TsxTemplateToString | frontend/src/Kakoune.tsx:6-11 | a plain string and a number are returned as they are; a tagged template gives its parts interleaved with the arguments, only `undefined` contributing nothing |
| Template.InterleaveVersionsAgree | frontend/src/Kakoune.tsx:10 | when every argument is truthy or `undefined`, the two versions interleave to the same text |
| Template.TemplateVersionsAgree | domdiff.js:7 | on such arguments both `template_to_string` versions return the same interleaved text |
| Template.InterleaveLiteral | domdiff.js:7 | a template without interpolation yields its literal text |
| Template.InterleaveIgnoresExtraArgs | domdiff.js:7 | arguments beyond the literal parts are ignored (`map` runs over the parts) |
| Template.InterleaveNoArgs | domdiff.js:7 | with no arguments the result is the concatenated parts |
| Template.ZeroArgumentDiffers | frontend/src/Kakoune.tsx:10 | the two versions disagree on a `0` argument: `w:px` against `w:0px` |
| Template.MakeAttrTsx | frontend/src/Kakoune.tsx:20-22 | `MakeAttr(attr)` builds an object with the single key `attr` holding the template's text, a plain string, or a number |
| Template.Cls | frontend/src/Kakoune.tsx:25 | `cls` builds an object whose only key is `className`, holding what `template_to_string` returns |
| Template.Id | frontend/src/Kakoune.tsx:26 | `id` builds an object whose only key is `id`, holding what `template_to_string` returns |
| Template.Style | frontend/src/Kakoune.tsx:24 | `style` builds an object whose only key is `style`, holding what `template_to_string` returns |
| Host.FreshElement | domdiff.js:58 | `createElement` gives a new, empty, unkeyed, non-foreign element with the upper-cased tag |
| Host.Fire | domdiff.js:83 | the installed dispatcher runs the handler list stored for the event type, and a node without one runs nothing |
| Descriptor.Tag | domdiff.js:25-53 | `Tag` succeeds exactly when the filter pass over the children does not throw, and its descriptor carries the element name |
| Descriptor.MakeAttr | domdiff.js:121-125 | `MakeAttr(attr)` on a string gives `{attr, value}` with that string; on a template it gives the domdiff.js interpolation; on a number it throws |
| Descriptor.MakeHandler | domdiff.js:127 | `Handler(type)(f)` registers `f` alone for the event type when it is the only child; an empty type is not recognised as a handler and `Tag` throws |
| Descriptor.MakeAttrVersionsAgree | frontend/src/Kakoune.tsx:20-22 | on a template whose arguments are truthy or `undefined`, Kakoune.tsx's `MakeAttr` builds `{[attr]: text}` with the same text as domdiff.js's `{attr, value}` |
| Descriptor.Step | domdiff.js:28-53 | one call of `filter_child`: an attribute or handler contribution is collected, an unmarked DOM element or an invalid child throws, and anything else is kept as content; its meaning is stated by Descriptor.AttrsStep and FoldErrorMeaning |
| Descriptor.Fold | domdiff.js:28-53 | the filter pass over the children, stopping at the first throw; its meaning is stated by Descriptor.FoldSnoc, FoldAttrsMeaning, FoldHandlersMeaning and FoldContentMeaning |
| Descriptor.FoldSnoc | domdiff.js:28-53 | the filter pass over `cs + [c]` is the pass over `cs` followed by one step on `c`, unless it has already thrown |
| Descriptor.FoldErrorMeaning | domdiff.js:47-51 | the pass throws exactly when some child is an unmarked DOM element or an invalid child, and the error is the first one's |
| Descriptor.AttrsStep | domdiff.js:31-38 | one attribute contribution keeps the invariant that each key holds the space-joined values contributed to it so far |
| Descriptor.FoldAttrsMeaning | domdiff.js:31-38 | after the pass, an attribute key is present exactly when some child contributed to it, and holds their values joined by spaces in order |
| Descriptor.FoldHandlersMeaning | domdiff.js:39-46 | a handler type is present exactly when some child contributed to it, and holds their callbacks in argument order |
| Descriptor.FoldContentMeaning | domdiff.js:28-53 | the content children are the non-empty strings, functions and foreign nodes, in order |
| Descriptor.TagMeaning | domdiff.js:25-53 | `Tag`'s error cases and, on success, its attributes, handlers and content, all in terms of the argument list |
| Descriptor.AttributeMergeLaw | domdiff.js:33-34 | two contributions to one attribute merge into `a + " " + b` |
| Reconcile.Applied | domdiff.js:60-71 | after `morph` the element has exactly the attributes with a non-empty next value, with those values |
| Reconcile.AttrDiffResult | domdiff.js:60-71 | the attributes kept, minus those removed, plus those written, are exactly the applied attributes |
| Reconcile.AttrLog | domdiff.js:60-71 | the attribute pass only writes or removes attributes and never creates or replaces nodes |
| Reconcile.HandlerLog | domdiff.js:72-86 | the handler pass only installs or removes dispatchers |
| Reconcile.Apply | domdiff.js:14-23 | a thunk leaves its serialised key (possibly `undefined`) on the node and returns a hit unchanged, with no writes; for `morph` the guarantees of Reconcile.ApplyMorph; every `replaceChild` swaps in a node with another id, and nodes are created only with ids taken from the counter, which only grows |
| Reconcile.ApplyMorph | domdiff.js:55-89 | `morph` reuses the previous node exactly when it is a non-foreign element with the same upper-cased tag, keeping its id and key (otherwise it takes a fresh id and has no key); leaves the applied attributes, the descriptor's handlers and one child per content item |
| Reconcile.Children | domdiff.js:90-110 | the child loop, given no more previous children than content items, leaves one child per content item, keeps the children before the loop index, and logs only honest replacements and fresh creations |
| Reconcile.Resolve | domdiff.js:91-109 | resolving one content item creates only nodes with ids from the counter, and every `replaceChild` in its log swaps in a node with another id |
| ReconcileLaws.ApplyIdentity | domdiff.js:55-59 | the node `morph` or a thunk returns is either the previous node or the one created with the next id |
| ReconcileLaws.ResolveIdentity | domdiff.js:91-103 | a string or function child resolves to the previous child or to a node created with the next id; a foreign node resolves to itself |
| ReconcileLaws.FreshSwappedIn | domdiff.js:94-105 | when the previous child's id is below the counter, a string or function child either keeps that child's id or is a node created now, swapped in with `replaceChild` at its index |
| ReconcileLaws.ResolveCases | domdiff.js:91-109 | a function child is applied to the previous child; a string reuses a previous text node with the same text and otherwise creates a text node with the next id; a foreign node is used as it is, with no writes |
| ReconcileLaws.ChildrenAt | domdiff.js:90-110 | the child at each position is what its content item resolves to against the previous child at that position, or against nothing past the end |
| ReconcileLaws.ChildrenLog | domdiff.js:104-109 | a previous child whose result has another identity is replaced at its index, and each result past the previous children is appended |
| ReconcileLaws.MorphChildren | domdiff.js:87-110 | the children `morph` leaves are, position by position, what each content item resolves to against the reused node's child at that position, if it had one |
| ReconcileLaws.MorphCreateTrim | domdiff.js:56-59 | a node that cannot be reused is created first, with the upper-cased tag; a reused node with more children than content items loses the excess from the end |
| ReconcileLaws.MorphChildWrites | domdiff.js:90-110 | wherever the child `morph` leaves at a position of the previous children has another id, the log replaces that child with it at that index; every child past the previous ones is appended |
| ReconcileLaws.MorphUnfold | domdiff.js:55-112 | the `morph` body in parts: the node keeps its base's id, its children and counter are the child loop's over the trimmed children |
| ReconcileLaws.MorphUnfoldLog | domdiff.js:55-112 | the log of `morph` is the creation, attribute, handler and trim writes followed by the child loop's |
| ReconcileLaws.AttrLogSettled | domdiff.js:60-71 | re-applying the attributes a node already has writes nothing |
| ReconcileLaws.HandlerLogSettled | domdiff.js:72-86 | re-applying the handlers a node already has writes nothing |
| ReconcileLaws.Idempotent | domdiff.js:55-112 | applying a descriptor to the node it built returns that same node with no mutation |
| ReconcileLaws.FirstPassChildren | domdiff.js:107-109 | the first pass appends one child per content item, each settled against its content |
| ReconcileLaws.FirstPassSettled | domdiff.js:91-109 | a node built from a content item is returned unchanged, with no writes, when that item is resolved against it |
| ReconcileLaws.SettledPrefixSkipped | domdiff.js:90-106 | children already settled against their content cost nothing in the child loop |
| ReconcileLaws.SettledStep | domdiff.js:104-106 | one settled child (`prev === next`) is skipped without a replacement |
| ReconcileLaws.GrowingChildren | domdiff.js:87-110 | when the previous children are settled against a prefix of the content, only the new tail is appended |
| ReconcileLaws.FirstNodeSettled | domdiff.js:55-112 | the node a descriptor builds from nothing is reusable by it, and its children are settled |
| ReconcileLaws.SettledMorph | domdiff.js:60-71 | on a node whose handlers and children are settled, `morph` changes only the attributes, and logs only the attribute diff |
| ReconcileLaws.AttributeOnlyChange | domdiff.js:60-71 | re-rendering with only attributes changed keeps the node and its children, and writes only the attribute diff |
| ReconcileLaws.NestedAttributeChange | domdiff.js:55-112 | re-rendering a tree whose only change is the attributes of one descriptor child keeps the parent and every other child, keeps that child's identity and subtree, and writes only that child's attribute diff |
| ReconcileLaws.NestedChild | domdiff.js:60-71 | the changed child of a first-pass node takes the new attributes and writes only their diff |
| ReconcileLaws.NestedOthers | domdiff.js:91-106 | re-resolving each other child of a first-pass node against its unchanged content gives the child back, with no writes |
| ReconcileLaws.ChildSwap | domdiff.js:90-110 | a child loop over settled children except one, whose result keeps its identity, changes only that child and writes only its log |
| ReconcileLaws.SettledRun | domdiff.js:90-106 | a run of settled children costs nothing: the loop continues after them with the same children, counter and no writes |
| ReconcileLaws.ReusedParent | domdiff.js:55-112 | re-applying to a reusable node keeps its id, tag and key, takes the new attributes, handlers and loop children, and logs the attribute and handler diffs before the loop's writes |
| ReconcileLaws.OneAttributeWrite | domdiff.js:65-71 | changing one attribute to a new non-empty value produces exactly one `setAttribute` |
| ReconcileLaws.OneKeyDiff | domdiff.js:65-71 | the attribute diff of a one-key change is that single write |
| ReconcileLaws.AttrLogMinimal | domdiff.js:60-71 | the attribute pass writes exactly the attributes whose next value is non-empty and differs from the current one, with that value, and removes exactly the current attributes whose next value is empty or missing |
| ReconcileLaws.HandlerLogMinimal | domdiff.js:72-86 | a dispatcher is installed exactly for the event types that had no stored list, and removed exactly for stored types the descriptor no longer has |
| ReconcileLaws.ThunkSecondApplication | domdiff.js:14-23 | a thunk applied to its own output returns it untouched, with no writes |
| ReconcileLaws.ThunkKeyChange | domdiff.js:17-19 | a thunk with a different key runs its descriptor on the previous node and records the new key |
| ReconcileLaws.ThunkMiss | domdiff.js:17-20 | a thunk that misses runs its descriptor against the previous node, sets the key on the result, and logs that after the descriptor's writes |
| ReconcileLaws.ThunkUndefinedKey | domdiff.js:15-17 | a thunk whose key serialises to `undefined` skips on any node `morph` built, since `undefined != undefined` is false |
| ReconcileLaws.TaggedNode | domdiff.js:25-112 | after `Tag` and `morph`, the node's attributes are the non-empty joined contributions, every event fires exactly the handlers contributed for it, and there is one child per content child |
| ReconcileLaws.HandlerAccumulationLaw | domdiff.js:39-46 | two `click` handlers both fire, in order |
| ReconcileLaws.FreshParent | domdiff.js:55-112 | `morph` with no previous node gives a new element with the next id, the upper-cased tag, the applied attributes and the descriptor's handlers, whose writes are its creation, the attribute and handler passes and the child loop's |
| ReconcileLaws.OneAppended | domdiff.js:107-109 | a single content item over no previous children is resolved and appended |
| ReconcileLaws.OneReplaced | domdiff.js:104-105 | a single content item whose result is another node than the previous child is resolved and swapped in at index 0 |
| ReconcileLaws.FreshAttr | domdiff.js:65-71 | a single non-empty attribute on a node with no attributes is written by one `setAttribute` |
| ReconcileLaws.FreshHeader | domdiff.js:58-71 | a fresh element with one non-empty attribute and no handlers is written as its creation followed by one `setAttribute` |
| ReconcileLaws.PrePaint | domdiff.js:163 | the test's `pre` with id `heh` is created, given its id, and gets a new text node `hello` appended |
| ReconcileLaws.InitialPaint | domdiff.js:163 | the first test case from nothing: a new `DIV` with class `boo` holding a new `PRE` with id `heh` around a new text node `hello`; the writes are, in order, create `DIV`, set `class`, create `PRE`, set `id`, create the text, append it to `PRE`, append `PRE` to `DIV` |
| ReconcileLaws.SecondPaint | domdiff.js:164 | the second test case over the first one's tree: the `DIV` keeps its id, `class` is removed and `style` set to `background: black`, and the `PRE` is replaced at index 0 by a new text node `hello`, since a string never reuses an element; nothing else is written |
| CssText.Trim | domdiff.js:143 | `trim()`; its meaning is stated by CssText.DropWs and DropWsEnd |
| CssText.Collapse | domdiff.js:143 | `replace(/\n\s*/g, '\n')`; its meaning is stated by CssText.CollapseClean, CollapseEnds and CollapseFixed |
| CssText.Tighten | domdiff.js:143 | `replace(/[:{;]\s*/g, g => g[0])`; its meaning is stated by CssText.TightenClean, TightenEnds and TightenFixed |
| CssText.Normalize | domdiff.js:143 | the three steps in the source's order; its meaning is stated by CssText.NormalizeClean, CleanFixed and NormalizeIdempotent |
| CssText.DropWs | domdiff.js:143 | `trim`'s leading part removes exactly the leading white space |
| CssText.DropWsEnd | domdiff.js:143 | `trim`'s trailing part removes exactly the trailing white space |
| CssText.CollapseEnds | domdiff.js:143 | `replace(/\n\s*/g, '\n')` keeps the first character, and the last one when it is not white space |
| CssText.TightenEnds | domdiff.js:143 | `replace(/[:{;]\s*/g, ...)` keeps the first character, and the last one when it is not white space |
| CssText.CollapseClean | domdiff.js:143 | after the newline replacement no newline is followed by white space |
| CssText.TightenClean | domdiff.js:143 | after the punctuation replacement no `:`, `{` or `;` is followed by white space, and the newline property survives |
| CssText.NormalizeClean | domdiff.js:143 | normalised code is trimmed and has no white space after a newline, `:`, `{` or `;` |
| CssText.CollapseFixed | domdiff.js:143 | the newline replacement leaves code that is already clean unchanged |
| CssText.TightenFixed | domdiff.js:143 | the punctuation replacement leaves code that is already clean unchanged |
| CssText.CleanFixed | domdiff.js:143 | normalising clean code changes nothing |
| CssText.NormalizeIdempotent | domdiff.js:143 | normalising twice is normalising once |
| ClassCache.NewCache | domdiff.js:136-139 | a new cache has the given prefix, no keys and an empty sheet |
| ClassCache.Find | domdiff.js:142 | a key's position in the insertion-ordered `Map`: none when absent, otherwise its first occurrence |
| ClassCache.Lookup | domdiff.js:152 | `generated.get(key)` is absent for a new key, and otherwise is the prefix followed by the key's insertion index |
| ClassCache.FindAppend | domdiff.js:145 | appending a key keeps the positions of the keys already present |
| ClassCache.AppendValid | domdiff.js:145 | appending a new key keeps the keys distinct |
| ClassCache.GenerateClass | domdiff.js:141-153 | a known key returns its class and changes nothing, and the generator is not called; a new key is named `prefix + size`, recorded, and its normalised rule is appended to the sheet; the result is a `class` attribute |
| ClassCache.GenerateValid | domdiff.js:141-153 | `generate_class` keeps the keys distinct |
| ClassCache.NamesInjective | domdiff.js:144-145 | two cached keys get the same class name exactly when they are the same key |
| ClassCache.GenerateKeepsNames | domdiff.js:141-153 | a call never renames a key cached earlier |
| ClassCache.Fragment | domdiff.js:146-149 | the text a new class appends to the sheet; its meaning is stated by ClassCache.FragmentRule and FragmentSelectors |
| ClassCache.FragmentRule | domdiff.js:146-147 | code without `{` is wrapped in `.name {...}` |
| ClassCache.FragmentSelectors | domdiff.js:148-149 | in code with `{`, every `&` is replaced by `.name`, and code without `&` is appended unchanged |
| ClassCache.RunCalls | domdiff.js:141-153 | a sequence of calls yields one class name per call |
| ClassCache.RunLaw | domdiff.js:141-153 | over any sequence of calls the keys stay distinct, the new keys are the evaluated ones in order, the sheet grows by the fragments in order, and every call's key maps to the name it got |
| ClassCache.RunKeys | domdiff.js:142-145 | over a sequence of calls the cached keys grow by exactly the evaluated keys, in order, and stay distinct |
| ClassCache.RunSheet | domdiff.js:146-150 | the sheet grows by exactly the fragments of the evaluated calls, in order |
| ClassCache.RunNames | domdiff.js:152 | after any sequence of calls, each call's key still maps to the name that call returned |
| ClassCache.RunKeepsNames | domdiff.js:141-153 | a sequence of calls never renames a key cached before it |
| ClassCache.Css | domdiff.js:155 | `css` uses the template text as both key and code, and throws on a number |
| ClassCache.CssRepeat | domdiff.js:155 | the same `css` text a second time returns the same class, changes nothing and evaluates nothing |
| ClassCache.FirstNames | domdiff.js:136-153 | the first two distinct keys of a default cache are named `c0` and `c1` |
| Colours.ColorToCss | kakoune.js:55-64 | a default name (`default` or empty) with a non-empty fallback translates the fallback; otherwise a table name gives its hex value and anything else passes through |
| Colours.TableValues | kakoune.js:36-53 | every table value is a lower-case `#rrggbb` and is not itself a table name |
| Colours.ColourMeaning | frontend/src/Kakoune.tsx:109-118 | the result is a hex colour exactly when the name used is in the table, and otherwise is that name |
| Colours.ColourIdempotent | kakoune.js:55-64 | translating a translated colour again changes nothing |
| Colours.DefaultWithoutFallback | kakoune.js:56 | a default name without a usable fallback is passed on unchanged |
| Colours.ColorToCssHot | hot.js:50-59 | hot.js's version falls back the same way and renders table names through the rgb builder |
| Colours.ColourVersionsAgree | hot.js:31-59 | the hot.js and hex tables name the same sixteen colours, so the versions take the same branch, and they agree wherever the name is not in the table |
| Keys.Chord | kakoune.js:556-562 | the modifier chain `mod` builds before bracketing; its meaning is stated by Keys.ModRoundTrip, ModifierOrder, ControlIIsTab, ControlHIsBackspace and ShiftedTab |
| Keys.Unwrap | kakoune.js:563 | strips the angle brackets `mod` adds; Keys.ModRoundTrip and ModHotRoundTrip state that it inverts the bracketing |
| Keys.Mod | kakoune.js:556-564 | `mod` sends a single character bare and anything longer wrapped in angle brackets |
| Keys.ModRoundTrip | kakoune.js:556-564 | unwrapping `mod`'s output gives the modifier chain `c-a-k` with the `tab`, `s-tab` and `backspace` rewrites |
| Keys.ModifierOrder | kakoune.js:558-559 | with both Alt and Ctrl the prefix order is `c-a-` |
| Keys.ControlIIsTab | kakoune.js:560-561 | Ctrl-i is sent as `<tab>`, or `<s-tab>` with Shift |
| Keys.ControlHIsBackspace | kakoune.js:562 | Ctrl-h is sent as `<backspace>` |
| Keys.ShiftedTab | kakoune.js:561 | Shift-Tab is sent as `<s-tab>` |
| Keys.PlainCharacter | kakoune.js:563 | an unmodified single character is sent as itself |
| Keys.ShiftOnlyTab | frontend/src/Kakoune.tsx:448 | Shift changes the chord only when it would otherwise be `tab` |
| Keys.KeyDown | kakoune.js:566-575 | `onkeydown` sends nothing exactly for an unnamed key longer than one character; otherwise it sends `mod` of the `NAMED_KEYS` name or of the key itself |
| Keys.KeyDownRoundTrip | frontend/src/Kakoune.tsx:453-463 | what `onkeydown` sends unwraps to the chord of the key's Kakoune name |
| Keys.NamedKeyBracketed | kakoune.js:4-33 | an unmodified named key is sent as `<name>` |
| Keys.ChordHot | hot.js:132-145 | hot.js's modifier chain, without the Shift rewrite; its meaning is stated by Keys.ModHotRoundTrip and ModVersionsAgree |
| Keys.ModHot | hot.js:132-147 | hot.js's `mod` always wraps in angle brackets |
| Keys.ModHotRoundTrip | hot.js:132-147 | unwrapping hot.js's `mod` gives its chord, which has no `s-tab` rewrite |
| Keys.ModVersionsAgree | hot.js:132-147 | hot.js's chord is the kakoune.js chord without Shift; the two `mod`s agree except on `s-tab` and on single characters, which hot.js still brackets |
| Keys.KeyDownHot | hot.js:149-156 | hot.js's `onkeydown` sends nothing exactly for an unnamed key longer than one character |
| Keys.MinusDiffers | hot.js:1-29 | `-` is sent as `<minus>` by kakoune.js and as `<->` by hot.js, which has no entry for it |
| Keys.WheelScroll | frontend/src/Kakoune.tsx:465-470 | a wheel event with a non-zero `deltaY` scrolls by -1 for upward and 1 for downward deltas, and other events send nothing |
| Keys.WheelMouse | kakoune.js:579-590 | a purely vertical wheel event sends `wheel_up` for a negative `deltaY` and `wheel_down` otherwise, and any horizontal motion sends nothing |
| Keys.WheelVersionsAgree | frontend/src/Kakoune.tsx:465-470 | on a non-zero vertical delta the versions agree on the direction; a zero delta scrolls nowhere in Kakoune.tsx but sends `wheel_down` in kakoune.js |
| Messages.Put | kakoune.js:540 | storing `undefined` clears a field, and no other field changes |
| Messages.Effect | kakoune.js:536-542 | what a message leaves in a field it touches: `params[0]` (`undefined` without parameters) under `set_ui_options`, `undefined` under a hide method, `params` under a show method; Messages.Step and ProcessLastWriter state where it applies |
| Messages.Step | kakoune.js:535-546 | one message writes only its fields: `set_ui_options` stores `params[0]`, a hide method clears its fields and a show method stores `params`; every other field is untouched |
| Messages.ClearAll | kakoune.js:540 | a hide method clears every field it names and leaves the others |
| Messages.Process | kakoune.js:535-546 | `messages.forEach` over the state; its meaning is stated by Messages.ProcessUntouched, ProcessLastWriter and ProcessAppend |
| Messages.ProcessUntouched | kakoune.js:535 | a field no message of the batch writes keeps its value |
| Messages.ProcessLastWriter | kakoune.js:535-546 | a field ends up as the last message that wrote it left it |
| Messages.ProcessAppend | kakoune.js:535 | processing two batches one after the other is processing their concatenation |
| Messages.MenuHideClears | kakoune.js:528-531 | `menu_hide` clears both `menu` and `selected` |
| Messages.TsxIgnoresUiOptions | frontend/src/Kakoune.tsx:430-431 | Kakoune.tsx never writes `ui_options` |
| Messages.FrontendsAgree | frontend/src/Kakoune.tsx:428-439 | on batches without `set_ui_options` the two front ends reach the same state |
| Messages.Schedule | kakoune.js:209-212 | `schedule_refresh` disarms the requester and leaves exactly one frame pending |
| Messages.Frame | kakoune.js:216-218 | a frame runs a refresh exactly when one was pending, and re-arms the requester |
| Messages.ScheduleIdempotent | kakoune.js:211 | scheduling again before the frame requests nothing more |
| Messages.RefreshCoalescing | kakoune.js:207-218 | over any interleaving of schedules and frames at most one refresh is pending, and no more refreshes run than were scheduled |
| Messages.OnMessageJs | kakoune.js:533-548 | kakoune.js processes the batch and then schedules one refresh |
| Messages.OnMessageTsx | frontend/src/Kakoune.tsx:422-441 | in the state Kakoune.tsx publishes, a field no message of the batch writes keeps its old value (absent if it was absent), and a written field holds what the last message writing it left |
| Messages.RowsUntouched | frontend/src/Kakoune.tsx:428-439 | no message writes the `rows` field: it is neither a show field nor named by a hide method |
| Messages.TsxRunFrom | frontend/src/Kakoune.tsx:420-441 | a state without `rows` keeps it absent over any sequence of batches |
| Messages.TsxMenuAsWritten | frontend/src/Kakoune.tsx:288 | Kakoune.tsx's state starts as `{}`, so after any batches `state.rows` is still undefined and the menu slice shows no item |
| Atoms.Chop | kakoune.js:166-175 | the chop loop; its meaning is stated by Atoms.ChopText, ChopFaces and ChopExhausts |
| Atoms.ChopText | kakoune.js:163-175 | chopping `offset` characters removes exactly the first `offset` characters of the line's text, or all of it |
| Atoms.ChopFaces | kakoune.js:167-174 | chopping drops whole atoms from the front and shortens only the first one kept, and never changes a face |
| Atoms.ChopExhausts | kakoune.js:167-174 | an offset longer than the text drops every atom |
| Atoms.FillEmpty | kakoune.js:176-180 | the empty-text fix-up; its meaning is stated by Atoms.FillEmptyMeaning |
| Atoms.FillEmptyMeaning | kakoune.js:176-180 | a non-empty line with no text gets `\n` as its last atom's contents, keeping the faces; any other line is unchanged |
| Atoms.IsEmpty | kakoune.js:159 | `is_empty`: an absent line, or exactly one atom with no contents; Atoms.EnsureNonempty states what it selects |
| Atoms.EnsureNonempty | kakoune.js:158-160 | an absent line, or a single atom with no contents, becomes the one-space default atom; anything else is kept |
| Atoms.Cells | kakoune.js:195-199 | one cell per atom, with the atom's face |
| Atoms.CellsText | kakoune.js:198 | the cells' text is the line's text with every newline replaced by a space, so no newline remains |
| Atoms.MarkupJsAsWritten | kakoune.js:157-205 | as written, `markup_atoms` throws exactly when the line is absent |
| Atoms.AbsentListCrashes | kakoune.js:159-167 | an absent line throws at `atoms.length`, though `is_empty` was written to turn it into the space atom; a present line never reaches `is_empty`'s single-empty-atom case |
| Atoms.MarkupJs | kakoune.js:157-205 | an absent line renders as one default space cell; a present line renders as written |
| Atoms.MarkupJsMeaning | kakoune.js:157-205 | one cell per chopped atom with its face, and the text is the chopped text with newlines as spaces, or a single space for a line left with no text |
| Atoms.MarkupTsx | frontend/src/Kakoune.tsx:229-258 | an absent line, or a single atom without contents, renders as one default space cell; a present line with no atoms renders no cells; any other line renders one cell per atom with newlines as spaces |
| Atoms.MarkupVersionsAgree | frontend/src/Kakoune.tsx:229-258 | with no offset the versions agree on lines with text; a single empty atom keeps its face in kakoune.js and gets the default face in Kakoune.tsx |
| Atoms.Offset | kakoune.js:333 | `state.offset` is 0 or 1, or throws |
| Atoms.Pua | kakoune.js:277 | `pua`: a single character in the private-use range U+E000 to U+F8FF; Atoms.OffsetMeaning states what it decides |
| Atoms.OffsetMeaning | kakoune.js:277 | without atom-less lines the offset is 1 exactly when some line starts with a private-use character |
| Atoms.OffsetEmptyLineThrows | kakoune.js:333 | a present line without atoms, reached before any private-use line, throws at `atoms[0]` |
| Atoms.SliceEnd | kakoune.js:258 | `slice`'s end: a non-negative end is clamped to the length; a negative end counts back from the end and stops at 0 |
| Atoms.Menu | kakoune.js:256-262 | the menu shows a prefix of the items, in order, of the length the slice gives |
| Atoms.MenuMeaning | kakoune.js:256-262 | with a known row count, at most `rows - 3` items are shown, and exactly the selected index, if any, gets the selected face; this is also the intended Kakoune.tsx menu (frontend/src/Kakoune.tsx:285-291, see Findings) |
| Atoms.MenuEdges | kakoune.js:258-260 | without a selection no item is highlighted; two rows drop the last item; unknown rows show nothing |
| Props.Chars | frontend/src/div.tsx:56 | a string spread by `push(...v)` gives one one-character string per character |
| Props.EntriesMapKeys | frontend/src/div.tsx:68 | a key is in a spread object exactly when some entry has that name |
| Props.EntriesMapLast | frontend/src/div.tsx:68 | in a spread object the last entry with a name wins |
| Props.Flatten | frontend/src/div.tsx:44-52 | the items one `add` argument contributes: a string, number or element as a child, an array's elements in place, an object's entries in order, any other value nothing; Props.ArrayFlattened and AddFold state it |
| Props.Add | frontend/src/div.tsx:43-80 | `add` on one argument; its meaning is stated by Props.AddFold |
| Props.AddAll | frontend/src/div.tsx:43 | `args.forEach(add)`; its meaning is stated by Props.AddAllFold |
| Props.Fold | frontend/src/div.tsx:52-77 | the entry loop over the flattened items; its meaning is stated by Props.FoldMeaning, FoldError and FoldAppend |
| Props.StepField | frontend/src/div.tsx:57-76 | one prop value: a function replaces a falsy prop or is composed after a truthy one; an object is merged over the old prop, its own entries winning; a scalar replaces a falsy prop or is appended after a space |
| Props.EntryItems | frontend/src/div.tsx:52 | `Object.entries` gives one prop per entry, in order |
| Props.FoldAppend | frontend/src/div.tsx:43 | folding two argument lists is folding the first, then the second |
| Props.AddEntriesFold | frontend/src/div.tsx:52-77 | adding an object's entries is folding its props in order |
| Props.AddFold | frontend/src/div.tsx:43-80 | `add` on one argument is the fold over its flattening |
| Props.AddAllFold | frontend/src/div.tsx:43 | `args.forEach(add)` is the fold over the flattened arguments |
| Props.ArrayFlattened | frontend/src/div.tsx:49-50 | an array argument contributes what its elements would, in place |
| Props.FoldError | frontend/src/div.tsx:56 | the fold throws exactly when some `children` prop is not spreadable |
| Props.FoldMeaning | frontend/src/div.tsx:43-80 | after the fold, children and css are the collected lists in order, and every other prop is the fold of the values given for it |
| Props.FoldLists | frontend/src/div.tsx:53-56 | the fold collects `children` and `css` in argument order |
| Props.FoldField | frontend/src/div.tsx:57-76 | each ordinary prop ends as the fold of the values given for it, in order |
| Props.FieldsUntouched | frontend/src/div.tsx:52-77 | a prop no argument mentions keeps its value |
| Props.NoValues | frontend/src/div.tsx:52 | a prop no argument mentions has no values |
| Props.Invokes | frontend/src/div.tsx:60-63 | composed functions call each contributed callback once, in order |
| Props.FunctionsCompose | frontend/src/div.tsx:57-66 | function props given after a composed handler extend it, in order |
| Props.FunctionsComposeFresh | frontend/src/div.tsx:57-66 | function props given for a fresh key compose into one handler calling each in order |
| Props.FireComposed | frontend/src/div.tsx:60-63 | firing the composed handler runs every contributed callback once, in order, without throwing |
| Props.ComposedAfterText | frontend/src/div.tsx:58-61 | a function given after a non-empty text prop composes with a prior that is not callable, so the handler throws before calling anything |
| Props.Texts | frontend/src/div.tsx:75 | the texts of scalar values, one per value |
| Props.ScalarsJoin | frontend/src/div.tsx:69-76 | non-empty scalar values of one prop join with single spaces |
| Props.FalsyReplaced | frontend/src/div.tsx:70-74 | a scalar given after an empty one replaces it with no leading space |
| Props.MergeLaterWins | frontend/src/div.tsx:67-68 | when object props merge, the last object defining a name wins |
| Props.MergeKeys | frontend/src/div.tsx:67-68 | the merged object has exactly the names some merged object defines |
| Props.ObjectsMerge | frontend/src/div.tsx:67-68 | object values of one prop merge into one object |
| Props.DummyKeys | frontend/src/div.tsx:5-23 | `dummy_keys` keeps non-elements and keyed elements, and gives each unkeyed element the key `prefix + i` |
| Props.DummyKeysDistinct | frontend/src/div.tsx:11-14 | afterwards every element child is keyed, and the dummy keys are pairwise distinct |
| Props.Tag | frontend/src/div.tsx:35-100 | `Tag` throws exactly when some `children` prop is not spreadable; otherwise the children are `dummy_keys(children, ':')`, the styles are the collected `css`, `key` is taken out of the props, and every other prop is the fold of its values |
| Props.TwoTextsJoin | frontend/src/div.tsx:69-76 | two non-empty text props of one name render as the two joined by a space |
| Props.TwoTextsField | frontend/src/div.tsx:69-76 | two non-empty text values of one prop fold to the two joined by a space |
| Props.ClassNamesJoin | frontend/src/div.tsx:69-76 | two `className` props join with a space |
| HotMarkup.HtmlTag | hot.js:72 | `tag(name)(inner)`; its meaning is stated by HotMarkup.TagCloses |
| HotMarkup.Styled | hot.js:74 | `styled(style, s)`; its meaning is stated by HotMarkup.StyledShape |
| HotMarkup.Esc | hot.js:75 | the four first-occurrence replacements of `esc`; its meaning is stated by HotMarkup.EscFirstLess, EscFirstGreater, EscFirstQuote, EscAmpersands and EscUnchanged |
| HotMarkup.CellStyle | hot.js:80-82 | a cell's inline colour and background; HotMarkup.CellMarkupShape states where it goes |
| HotMarkup.CellMarkup | hot.js:80-83 | one cell; its meaning is stated by HotMarkup.CellMarkupShape and CellNewlines |
| HotMarkup.RowMarkup | hot.js:77-86 | one row; its meaning is stated by HotMarkup.RowMarkupShape, CellsMarkup and RowCellsAppend |
| HotMarkup.TagCloses | hot.js:72 | a tag opened with attributes is closed by its bare name |
| HotMarkup.StyledShape | hot.js:74 | a styled cell is a `pre` with the inline style, closed by `</pre>` |
| HotMarkup.EscUnchanged | hot.js:75 | `esc` leaves text without `&`, `<`, `>` or `"` unchanged |
| HotMarkup.EscapeTextFacts | hot.js:75 | an entity text holds exactly one `&` and no `<`, `>`, `"` or newline |
| HotMarkup.EscapeTexts | hot.js:75 | the four entities `esc` inserts hold one `&` each, and no `<`, `>`, `"` or newline |
| HotMarkup.EscFirstLess | hot.js:75 | `esc` removes only the first `<` |
| HotMarkup.EscFirstGreater | hot.js:75 | `esc` removes only the first `>` |
| HotMarkup.EscFirstQuote | hot.js:75 | `esc` removes only the first `"` |
| HotMarkup.EscAmpersands | hot.js:75 | `esc` adds one `&` per replacement that fired and never removes one |
| HotMarkup.EscStepsSee | hot.js:75 | each replacement of `esc` sees its character exactly when the original text had it |
| HotMarkup.EscOneLess | hot.js:75 | a lone `<` becomes `&lt;`, and is not escaped twice |
| HotMarkup.EscTwoLess | hot.js:75 | of two `<`, only the first is escaped |
| HotMarkup.CellsMarkup | hot.js:79-84 | one `styled` cell per atom, in order |
| HotMarkup.RowMarkupShape | hot.js:77-86 | a row is a `div` with the row height, closed by `</div>`, around its cells |
| HotMarkup.RowCellsAppend | hot.js:79-84 | the cells of a concatenated row are the cells of each part |
| HotMarkup.EscNewlines | hot.js:75 | `esc` keeps every newline |
| HotMarkup.CellNewlines | hot.js:83 | a cell's text loses only its first newline |
| HotMarkup.CellMarkupShape | hot.js:80-83 | a cell is a styled `pre` around its escaped text |

## Left out

- JavaScript's `in` also sees `Object.prototype` names (`key in NAMED_KEYS` with `key == "toString"`); the model looks up own keys only.
- String lengths count Unicode scalar values, where JavaScript counts UTF-16 code units; this matters only for characters outside the Basic Multilingual Plane.
- Numbers are integers; `NaN` and fractional numbers are left out. The wheel deltas are Dafny reals.
- `update_flags` (kakoune.js), `jseval` and every other side effect of a message besides the state update are I/O and are left out.
- The live `NamedNodeMap` quirk: removing attributes while iterating `elem.attributes` can skip one. The model removes every stale attribute, as intended.
- Handler removal stores `undefined` for the type; the model deletes the key, which is observably the same.
- `i == (state.selected || [-1])[0]` compares loosely; the model compares integers.
- hot.js renders a table colour as `rgb(r%, g%, b%)` from floating-point triples; the rgb text is a parameter.
- The websocket, DOM events, `console` output, the Python servers, React's element creation and emotion's `ClassNames`/`cx` are I/O or foreign code and are left out.
- `class_cache` has no `clear()`; there is nothing to model.
- Props.FieldText: the text of a function or object prop used as a string is a placeholder, not JavaScript's conversion.
- Props.SpreadValue: a React element given as an object prop value contributes no keys to the merge; JavaScript would copy its own fields (`type`, `props`, `key`, ...).
- `Object.entries` lists integer-like keys first; the model keeps insertion order.
- The `$$typeof` test stands for "is a React element"; elements are a separate kind of value.
- kakoune.js's empty-atom face has no `attributes` field; the model gives it an empty attribute list. Rendering reads only `fg` and `bg`, but `face_to_style`'s cache key (`JSON.stringify` of the face) would differ; `face_to_style` is left out.
- The mouse column computation (`Math.floor(x / w) + offset`) works on layout geometry and is left out.
- HotMarkup.CellMarkupShape: does not state the default-colour fallback inside the style; Colours.ColorToCssHot states it.
- `mouse_handlers`, `face_to_style`, the info box and the inline menu placement build React/DOM structure around the cells and are left out.

- Reconcile.Children: a foreign node is modelled as a value. In the DOM, appending a foreign node that is already in the tree, or using one node at two positions, moves it and shifts the later children; the model does not track where a node already sits.
- Reconcile.Resolve: the same holds for `replaceChild` with a node that is already a later child of the same element; the model gives no index-shifting semantics to such a move.
- Reconcile.AttrLog: attribute names are compared as given. On HTML elements the DOM lower-cases the names `setAttribute` writes and `attributes` lists, and throws on names that are not valid; the model neither folds case nor throws. Every attribute domdiff.js builds (`class`, `style`, `id`) is a valid lower-case name.
- ReconcileLaws.Idempotent: holds for lower-case attribute names only in the DOM; with an upper-case name the source would remove and rewrite the attribute on every pass.
- Reconcile.ApplyMorph: `document.createElement` throws on a tag name that is not a valid name; the model creates the element.
- Prelude.Upper: upper-cases ASCII letters only. `toUpperCase` is full Unicode upper-casing, while `tagName` upper-cases ASCII letters only, so the source never reuses an element whose tag name has a lower-case non-ASCII letter (`ß` even grows to `SS`); the model reuses it. Every tag name the source uses is ASCII.
- Reconcile.Apply: `create` is a callback the source calls only on a miss; the model holds the descriptor it returns, so a `create` whose result depends on when it is called is not modelled.
- Reconcile.Apply: node identity is the node's id. The laws about replacements (ReconcileLaws.ChildrenLog, MorphChildWrites, FreshSwappedIn) match the DOM's object identity only when the ids in the previous tree, and those of foreign nodes, are pairwise distinct and below the counter, as in any tree earlier passes built from the same counter. The model does not prove that Apply keeps this invariant. With a colliding id, a freshly created node is taken for the previous child and its `replaceChild` is not logged.
- ReconcileLaws.MorphChildWrites: states one direction only. Its converse, that every `replaceChild` of the parent in the log is at a previous child's index, is not proved, because the parent's writes and its descendants' are told apart only by ids (see Reconcile.Apply).
- Messages.Step: a message without a `params` field makes kakoune.js's `params[0]` throw; the model's messages always carry a parameter list.

## Findings

| source | as written | input that shows it | evidently intended | confidence | as-written member | corrected member |
|---|---|---|---|---|---|---|
| kakoune.js:159-167 | `atoms_markup` reads `atoms.length` in the chop loop before `ensure_nonempty` runs, so an absent line throws a TypeError | `markup_atoms(face)(undefined)`, as for a missing status line | `is_empty` treats `!atom` as empty, so an absent line should render as the one-space default atom | not executed | Atoms.MarkupJsAsWritten | Atoms.MarkupJs |
| frontend/src/Kakoune.tsx:288 | the menu is sliced to `state.rows - 3`, but Kakoune.tsx never stores `rows`: the state starts as `{}` (:157), `on_message` writes only show and hide fields, and the measured row count stays in the local `next_rows` (:361-394); the end is `NaN`, so the menu shows no item | any batch with `menu_show`, whatever the window size | store the measured rows as kakoune.js does (kakoune.js:398-411), so the menu shows at most `rows - 3` items | not executed | Messages.TsxMenuAsWritten | Atoms.MenuMeaning |
