# simple-colors: ANSI styles and a help-text builder, in Dafny

This project models two pieces of a small Node.js terminal library.

- **The style engine (index.js).** `style(...)` composes SGR descriptors `{o, c}` and
  other style functions into one style function. A style function wraps a string as
  `ESC[<opens>m<string>ESC[<closes>m`. `<opens>` and `<closes>` are the distinct open
  and close codes, in first-seen order, joined by `;`. The style function remembers its
  descriptors as `_s`, so it can itself be passed to `style` again. `bright(n, b)`
  builds a colour with a `.bright` variant. `styles` is the fixed table of four text
  attributes and eight colours.
- **The help-text builder (helpText.js, class `HelpTextMaker`).** It keeps a list of
  text fragments. Each fragment is tagged with the wrap indent in force when it was
  written. It also keeps a buffer of dictionary entries (keys, values, other text), a
  stack of wrap indents and a wrap switch. `text()` appends pieces. The pieces merge
  into the last fragment (or buffer entry) when that one has the same wrap indent (or
  mode). `endDict` replays the buffer as fragments, with keys padded to the widest key
  and values indented past it. `toString` renders the fragments, optionally greedily
  word-wrapped.

Layout:
- `strings.dfy` (module `Strings`) holds the sequence helpers: JavaScript's `join` and
  `split`, `' '.repeat`, and lodash's `uniq` and `max`.
- `style.dfy` (module `AnsiStyle`) models index.js.
- `fragments.dfy` (module `Fragments`) holds the builder's buffers as values: the merge
  rule of `text()` and the replay `endDict` performs.
- `wrap.dfy` (module `Wrap`) holds the renderer of `toString`: a specification by
  functions, the greedy-wrap properties, and the loops of `toString` proved against the
  functions.
- `help_text.dfy` (module `HelpText`) holds the class `HelpTextMaker`, whose fields the
  methods update in place.

A style function is modelled by its token list `_s`, and its emitter by the function
`StyleFn.Apply`. Visible width (`style.len`) is not defined in index.js, so it is a
`Measure`: `width: string -> nat` on a string, and `linesWidth` on an array of lines.
A `HelpTextMaker` receives one `Measure` at construction and holds it as the
constant `measure`, so `EndDict` and `ToString` measure with the same `style.len`.
The wrap width given to `ToString` is the effective width after the terminal probes.

After each wrapped source line, the code measures the whole array of wrapped lines
(helpText.js:183), not just the last wrapped line. The model follows the code: the
carry after a source line is `Measure.linesWidth` of that array.

## Model

| member | source | states |
|---|---|---|
| Strings.Split | helpText.js:162 | splitting on one character gives at least one piece, and no piece contains the separator |
| Strings.JoinSplit | helpText.js:162 | joining the pieces of a split with the separator gives back the string, so splitting and re-joining on newlines changes nothing |
| Strings.SplitJoin | helpText.js:185 | splitting a join of separator-free pieces gives back the pieces |
| Strings.ConcatAppend | helpText.js:189 | joining with "" distributes over concatenation of the piece lists |
| Strings.Spaces | helpText.js:138 | `' '.repeat(n)` is n characters, all spaces |
| Strings.Uniq | index.js:11-13 | the result has no duplicates, contains only elements of the input, and contains every element of the input |
| Strings.UniqFirstSeen | index.js:12-13 | uniq keeps first-seen order: an earlier result element occurs earlier in the input |
| Strings.UniqNoDup | index.js:11 | a list without duplicates is its own uniq |
| Strings.UniqAbsorbs | index.js:11 | de-duplicating a prefix first changes nothing: uniq(uniq(xs) + ys) == uniq(xs + ys) |
| Strings.UniqMapUniq | index.js:11-12 | de-duplicating tokens before mapping them to codes does not change the de-duplicated codes |
| Strings.UniqMember | index.js:11-13 | an element is in the uniq of a list iff it is in the list |
| Strings.Join | helpText.js:162 | definition: `Array.prototype.join`, the parts separated by the separator, "" for no parts; its properties are JoinSplit, SplitJoin and ConcatAppend |
| Strings.Max | helpText.js:129 | lodash max: nothing for an empty list; otherwise an element that bounds every element |
| Fragments.Peek | helpText.js:6 | the last element, present exactly when the array is non-empty |
| Fragments.AddFragment | helpText.js:54-62 | merges into the last fragment iff its indent equals the stack top, otherwise adds exactly one fragment, and the old fragments are kept; in both cases every fragment but the last is unchanged, the last sits at the stack top, and the concatenated text grows by exactly the new pieces (so a merged last fragment gains exactly them) |
| Fragments.MergeFragment | helpText.js:57-58 | the merge case: replacing the last fragment by one with the new pieces appended keeps the others and grows the concatenated text by exactly those pieces |
| Fragments.MergeEntry | helpText.js:48-49 | the merge case: replacing the last buffer entry by one with the new pieces appended keeps the others and grows the concatenated text by exactly those pieces |
| Fragments.AddFragmentKeeps | helpText.js:54-62 | adjacent fragments keep different wrap indents |
| Fragments.AddEntry | helpText.js:47-52 | merges into the last buffer entry iff its mode matches, otherwise adds exactly one entry, and the old entries are kept; in both cases every entry but the last is unchanged, the last has the current mode, and the concatenated text grows by exactly the new pieces (so a merged last entry gains exactly them) |
| Fragments.AddEntryKeeps | helpText.js:47-52 | adjacent buffer entries keep different modes, and every entry keeps a mode |
| Fragments.AddFragmentTwice | helpText.js:57-58 | two appends at the same indent equal one append of both piece lists |
| Fragments.KeyWidths | helpText.js:129 | the measured widths are exactly the widths of the key entries: every key's width is among them, and every one of them is some key's width |
| Fragments.KeyWidth | helpText.js:129 | definition: the measured width of an entry's joined text, `style.len(d.text.join(''))` |
| Fragments.KeyPad | helpText.js:136-139 | definition: one run of `maxKey - len` spaces when the key is narrower than the widest key, nothing otherwise; its property is KeyAligned |
| Fragments.EntryIndent | helpText.js:132-141 | definition: a value replays at the widest key plus four, every other entry at the enclosing indent |
| Fragments.EntryPieces | helpText.js:132-141 | definition: a value replays behind a tab, a key followed by its padding, any other entry verbatim |
| Fragments.Replay | helpText.js:131-143 | definition: the fragment list after appending every entry's pieces at its indent, in buffer order; its properties are ReplayStep, ReplayPrefix, ReplayText and ReplayIndents |
| Fragments.KeyPadded | helpText.js:135-139 | a key narrower than the widest key, followed by its padding, is the key appended and then the `maxKey - len` spaces appended |
| Fragments.KeyUnpadded | helpText.js:135-139 | a key at least as wide as the widest key is appended with no padding |
| Fragments.ReplayStep | helpText.js:131-143 | replaying one more entry adds that entry's pieces at its indent |
| Fragments.ReplayText | helpText.js:131-143 | the replay keeps adjacent fragments apart and appends exactly the entries' pieces in buffer order |
| Fragments.AddFragmentPrefix | helpText.js:54-62 | one append leaves every fragment before a given index alone; the fragment at that index keeps its indent and at most gains pieces |
| Fragments.ReplayPrefix | helpText.js:131-143 | the replay only appends: the fragments before the old last one are kept, and the old last one keeps its indent and at most gains pieces |
| Fragments.ReplayIndents | helpText.js:130-141 | every fragment from the old last one on is either the old fragment untouched or sits at the enclosing indent or at the widest key plus four, so every fragment the replay adds or extends sits at one of those two |
| Fragments.MaxKeyWidth | helpText.js:129 | with at least one key, the widest key exists, bounds every key and is the width of one of the keys |
| Fragments.KeyAligned | helpText.js:134-139 | every key plus its padding is exactly as wide as the widest key |
| AnsiStyle.NatText | index.js:12-13 | a numeric code renders as a non-empty string of decimal digits that reads back as the number, with no leading zero |
| AnsiStyle.TwoDigits | index.js:12-13 | a two-digit code renders as its two digits |
| AnsiStyle.StyleFn.Opens | index.js:12 | definition: each distinct open code of `_s` once, in first-seen order, joined by `;` |
| AnsiStyle.StyleFn.Closes | index.js:13 | definition: each distinct close code of `_s` once, in first-seen order, joined by `;` |
| AnsiStyle.StyleFn.Apply | index.js:14 | definition: the emitter, `ESC[` opens `m` then the input then `ESC[` closes `m`; its properties are ApplyUnstyle and ApplyInjective |
| AnsiStyle.Spread | index.js:11 | definition: one argument after the `map` and one-level flatten: a style function gives its `_s` descriptors, an array its items, anything else itself |
| AnsiStyle.Expand | index.js:11 | definition: every argument spread, in order; its property is ExpandAppend |
| AnsiStyle.Descriptors | index.js:11 | the filter keeps the plain objects whose `o` and `c` are codes, in order; its contract says only that it is never longer than its input, and DescriptorsMember, DescriptorsAppend and DescriptorsOfTokens state what it keeps |
| AnsiStyle.DescriptorsMember | index.js:11 | a token survives the filter exactly when a well-formed descriptor with its two codes is among the arguments |
| AnsiStyle.P | index.js:25 | definition: the plain descriptor `{o, c}` |
| AnsiStyle.Bright | index.js:19-23 | definition: a colour whose normal style is `style(normal)` and whose `.bright` is `style(bright)` |
| AnsiStyle.Color | index.js:31-38 | definition: colour k of the table, `bright(p(30 + k, 39), p(90 + k, 39))`; the constants BLACK to WHITE are colours 0 to 7 and BOLD, DIM, ITALIC, UNDERLINE are `style(p(1, 22))` to `style(p(4, 24))` (index.js:27-30); its property is ColorNumber |
| AnsiStyle.Compose | index.js:10-17 | the token list `_s` has no duplicates and holds exactly the descriptors that survive flattening and filtering |
| AnsiStyle.ApplyUnstyle | index.js:14 | the emitter output is the open sequence, the input, the close sequence; stripping them gives back the input |
| AnsiStyle.ApplyInjective | index.js:14 | different inputs give different outputs |
| AnsiStyle.ExpandAppend | index.js:11 | the one-level flatten distributes over argument concatenation |
| AnsiStyle.DescriptorsAppend | index.js:11 | the descriptor filter distributes over concatenation |
| AnsiStyle.DescriptorsOfTokens | index.js:11 | tokens read back from `_s` pass the filter unchanged |
| AnsiStyle.ComposeIdempotent | index.js:11-15 | `style(f)` for a composed `f` is `f` again |
| AnsiStyle.ComposeNested | index.js:11-15 | `style(style(a...), b...)` equals `style(a..., b...)` |
| AnsiStyle.ComposeCommutesAsSet | index.js:11 | both argument orders yield the same set of tokens |
| AnsiStyle.DroppedSpread | index.js:11 | an argument that is not a well-formed descriptor contributes no descriptor |
| AnsiStyle.NoDescriptors | index.js:11 | a list of malformed items contributes no descriptor |
| AnsiStyle.ComposeDropsInvalid | index.js:11 | inserting a non-descriptor argument anywhere changes nothing |
| AnsiStyle.ComposeNothing | index.js:11-14 | with no valid descriptor the output is `ESC[m` + s + `ESC[m` |
| AnsiStyle.ComposeCodes | index.js:12-13 | opens and closes list each distinct code of the surviving descriptors once, in first-seen order, joined by `;` |
| AnsiStyle.SingleDescriptor | index.js:25 | `style(p(o, c))` has the one token and opens with o, closes with c |
| AnsiStyle.ColorNumber | index.js:19-23 | `bright(p(30+k, 39), p(90+k, 39))` opens with the digits "3k", its `.bright` with "9k", both close with "39" |
| AnsiStyle.ColorClose | index.js:31-38 | the colour close code renders as "39" |
| AnsiStyle.ColorTable | index.js:31-38 | black to white open "30" to "37" (bright "90" to "97"), and every colour closes with "39" |
| AnsiStyle.TwoTokens | index.js:12-13 | two tokens join their codes with `;`, and a shared code appears once |
| AnsiStyle.JoinPair | index.js:12-13 | the joined codes of a pair are one code or two separated by `;` |
| AnsiStyle.UniqPair | index.js:12-13 | uniq of a pair keeps one element iff they are equal |
| AnsiStyle.PairTokens | index.js:11 | composing two different single-token styles keeps both tokens, in order |
| AnsiStyle.SharedClose | index.js:12-13 | two styles with distinct opens and a shared close open with both codes and close with the shared one once |
| AnsiStyle.BoldDim | index.js:27-28 | `style(bold, dim)` opens "1;2" and closes with "22" alone |
| AnsiStyle.BoldDimCodes | index.js:27-28 | the codes 1 and 2 render as "1;2" when joined, and 22 as "22" |
| Wrap.JoinWords | helpText.js:169 | definition: a wrapped line's cells joined by single spaces |
| Wrap.Place | helpText.js:168-181 | definition: one word placed: a new indent-seeded line when the current line's length (plus the carry on the first line) plus the word plus one exceeds the wrap width, otherwise the word goes at the end of the current line; its property is PlaceGreedy |
| Wrap.PlaceAll | helpText.js:167-182 | definition: the words placed one after another; its property is PlaceAllGreedy |
| Wrap.WrapWords | helpText.js:165-182 | definition: a source line split on spaces and placed word by word, starting from one empty line; its properties are WrapWordsGreedy and WrapWithin |
| Wrap.WrapSourceLines | helpText.js:164-185 | definition: every source line wrapped and its lines joined by newlines, the carry after a line being the measure of its wrapped lines |
| Wrap.RenderFragment | helpText.js:162-188 | definition: one fragment's output and the carry after it, wrapping when the width is positive; its properties are RenderWrapped and RenderUnwrapped |
| Wrap.Render | helpText.js:160-189 | definition: every fragment rendered in order with the carry threaded through, outputs concatenated |
| Wrap.Indent | helpText.js:175-178 | a continuation line is seeded with exactly `wrapIndent` empty cells |
| Wrap.PlaceGreedy | helpText.js:167-182 | one word placement keeps the wrapped lines greedy and appends the word to their words |
| Wrap.PlaceBreak | helpText.js:174-181 | a word that fails the width test opens a new line seeded with the indent cells |
| Wrap.PlaceExtend | helpText.js:181 | a word that passes the width test goes at the end of the current line |
| Wrap.ExtendShaped | helpText.js:181 | extending the last line keeps every continuation line seeded with the indent cells |
| Wrap.ExtendFits | helpText.js:169-181 | extending the last line keeps every shared-line word within the width test |
| Wrap.ExtendBreaks | helpText.js:174 | extending the last line keeps every break forced |
| Wrap.ExtendWords | helpText.js:181 | extending the last line appends the word to the words |
| Wrap.PlaceAllGreedy | helpText.js:167-182 | the word loop keeps the lines greedy and appends exactly the words placed |
| Wrap.WrapWordsGreedy | helpText.js:165-182 | the wrapped lines hold all words of the source line in order; every continuation line opens with the indent cells; every word sharing a line passed the width test (carry counted on the first line); every break was forced |
| Wrap.WordsContain | helpText.js:165-181 | every word on a wrapped line is a word of the source line |
| Wrap.JoinIndent | helpText.js:184 | the indent cells joined with spaces render as exactly that many spaces |
| Wrap.ContinuationIndent | helpText.js:175-184 | every continuation line renders as exactly `wrapIndent` spaces before its words |
| Wrap.JoinSnoc | helpText.js:169 | joining one more word adds the separator and the word |
| Wrap.LastFits | helpText.js:169-174 | a line whose last word passed the width test is no wider than the wrap width |
| Wrap.WrapWithin | helpText.js:169-179 | with character-count width and no word too long, no wrapped line (with the carry on the first) is wider than the wrap width |
| Wrap.RenderUnwrapped | helpText.js:158-189 | without a wrap width the output is the plain concatenation of all pieces |
| Wrap.RenderWrapped | helpText.js:163-188 | with a wrap width a fragment renders as its wrapped source lines joined by newlines, and the carry is the width of its last line |
| Wrap.RenderAll | helpText.js:160-189 | the fragment loop, threading the carried line length, computes the specified rendering |
| Wrap.RenderOne | helpText.js:162-188 | one fragment's rendering and carry agree with the specification |
| Wrap.WrapLine | helpText.js:165-182 | the word loop computes the specified greedy wrapping |
| Wrap.WrapLines | helpText.js:164-185 | the source-line loop computes the specified wrapping, threading the carry |
| HelpText.TopOf | helpText.js:55 | definition: the top of the wrap-indent stack, `_peek(this._wrapIndent)` |
| HelpText.PopIndent | helpText.js:29-34 | popping keeps the base and leaves a prefix of at least one element; a longer stack loses exactly its top |
| HelpText.PushIndent | helpText.js:24-27 | pushing puts n on top of the old stack, and popping restores the old stack exactly |
| HelpText.MaxKey | helpText.js:129 | the widest key's width: it bounds every key and, when there is a key, is the width of one of them |
| HelpText.Bolded | helpText.js:67 | definition: the text as the `bold` style emits it |
| HelpText.ParamStyle | helpText.js:96 | definition: the style `style(cyan.bright, underline)` |
| HelpText.FlagText | helpText.js:149 | definition: each flag as bright green emits it, joined by ", " |
| HelpText.HelpTextMaker.constructor | helpText.js:15-22 | no mode, no fragments, empty buffer, wrapping off, stack [0]; the given measure stands for `style.len` |
| HelpText.HelpTextMaker.PushWrap | helpText.js:24-27 | the stack gains n on top; nothing else changes |
| HelpText.HelpTextMaker.PopWrap | helpText.js:29-34 | the stack loses its top unless only the base is left; nothing else changes |
| HelpText.HelpTextMaker.Wrap | helpText.js:36-39 | sets the wrap switch; nothing else changes |
| HelpText.HelpTextMaker.Text | helpText.js:41-64 | with no mode, the fragments follow the merge rule at the stack top and the buffer is untouched; with a mode, the buffer follows the merge rule under that mode and the fragments are untouched; the invariant is kept |
| HelpText.HelpTextMaker.Bold | helpText.js:66-69 | appends the text in bold |
| HelpText.HelpTextMaker.Title | helpText.js:71-73 | appends the name in bold |
| HelpText.HelpTextMaker.Name | helpText.js:75-77 | appends the name |
| HelpText.HelpTextMaker.Nl | helpText.js:79-81 | appends a newline |
| HelpText.HelpTextMaker.Tab | helpText.js:83-85 | appends four spaces |
| HelpText.HelpTextMaker.Space | helpText.js:87-89 | appends one space |
| HelpText.HelpTextMaker.Usage | helpText.js:91-93 | appends "Usage:" in bold |
| HelpText.HelpTextMaker.Param | helpText.js:95-97 | appends the parameter in bright cyan, underlined |
| HelpText.HelpTextMaker.Flags | helpText.js:99-101 | appends "Flags:" in bold |
| HelpText.HelpTextMaker.Params | helpText.js:103-105 | appends "Parameters:" in bold |
| HelpText.HelpTextMaker.Dict | helpText.js:107-110 | sets dictionary mode; nothing else changes |
| HelpText.HelpTextMaker.Key | helpText.js:112-115 | sets key mode; nothing else changes |
| HelpText.HelpTextMaker.Value | helpText.js:117-120 | sets value mode; nothing else changes |
| HelpText.HelpTextMaker.End | helpText.js:122-125 | returns to dictionary mode; nothing else changes |
| HelpText.HelpTextMaker.ReplayAll | helpText.js:131-143 | the entries are replayed in order: the fragments become the replay of the entries; mode, stack, switch and buffer unchanged |
| HelpText.HelpTextMaker.ReplayEntry | helpText.js:131-143 | one buffer entry becomes its pieces at its indent, and the stack is restored |
| HelpText.HelpTextMaker.ReplayValue | helpText.js:132-133 | a value becomes one append of the tab and its pieces at the widest key plus four, and the stack is restored |
| HelpText.HelpTextMaker.ReplayKey | helpText.js:134-139 | a key becomes one append of its pieces and its padding at the enclosing indent |
| HelpText.HelpTextMaker.PadKey | helpText.js:136-139 | appends the missing spaces when the key is narrower than the widest key, and nothing otherwise |
| HelpText.HelpTextMaker.EndDict | helpText.js:127-146 | mode cleared, buffer emptied, stack and wrap switch unchanged; the fragments are the replay of the buffer in order at the stack top with the widest key, measured with the maker's `measure` (with `ReplayText`, the text grows by exactly the replayed pieces) |
| HelpText.HelpTextMaker.Flag | helpText.js:148-150 | appends the flags in bright green, separated by ", " |
| HelpText.HelpTextMaker.ToString | helpText.js:152-190 | the output is the specified rendering at the effective width with the maker's `measure`, and with wrapping off it is the plain concatenation of all pieces |

## Left out

- Terminal probes: `process.stdout.isTTY` and `process.stdout.columns` (helpText.js:154-155) read the environment. `ToString` takes the effective wrap width as a parameter, so the condition that chooses it is not modelled.
- Visible width: `style.len` is not defined in index.js. It is `Measure.width`, given to the constructor; the constructor's extra parameter has no counterpart in the source. `KeyAligned` and `WrapWithin` are stated for the padding's character count and for character-count width respectively.
- Array width at helpText.js:183: the carry after a source line is `Measure.linesWidth` of the array of wrapped lines (helpText.js:183). What `style.len` does with an array is not part of this model.
- The `'wrap'` mode branch of `text()` (helpText.js:44-45) pushes to `_wrapper`, which is never initialised. No method sets that mode, so the branch is dead.
- HelpText.HelpTextMaker.EndDict: requires that a buffer with a value entry also has a key entry. Without keys, `_max` gives `undefined` and the value indent is `NaN`.
- `text(...)` takes its pieces already flattened. Nested arrays passed to `text` are flattened one level by `_flatten` and `_pushAll`; that step is not modelled.
- Arguments of the chainable methods are strings, and numeric codes are natural numbers rendered in decimal. JavaScript's number formatting of other values is not modelled.
- HelpText.HelpTextMaker.PushWrap: takes a natural number. The default argument 0 and non-numeric indents are not modelled.
- Methods return nothing instead of `this`. A chain is a sequence of calls.
- AnsiStyle.Descriptors: its own contract states only that it is never longer than its input; which tokens survive is stated by `DescriptorsMember`, kept outside the function because a quantified contract on it slows every proof that unfolds it.
- AnsiStyle.Compose: tokens are de-duplicated by value. lodash `uniq` compares descriptor objects by identity, so `_s` may hold equal descriptors twice in the source. The emitted codes are de-duplicated by value in both, so the output string is the same.
- Declared-only APIs are not part of this model. This covers the list builders `ul`, `ol`, `li`, `endList`, `endUl` and `endOl`, the `borderMaker`/`border` functions, and `force`, `forced`, `enabled`, `clean`, `len`, `pad`, `padStart`, `padEnd` and `stripAnsi`. They are declared in the type files but have no implementation in the modelled code.
