# Snippet macros, modelled in Dafny

The site's text plugin `plugins/snippets.js` implements a small macro language
for prose:

- `((text))` **defines** a snippet.
- A `text...` anywhere in the content, before or after the definition,
  **references** it. `text` must begin with the first word of some snippet and
  may run on along the same line up to the `...`; it resolves only when it is
  a prefix of some snippet, so `Hello wor...` resolves to `Hello world`.

The plugin has two entry points:

- `getSnippets(content)` collects every definition's text with a global
  regular expression run in an `exec` loop.
- `insertSnippets(content, snippets, { insertAsHtml })` expands the references
  in two steps:
  - It builds a second regular expression from the escaped, de-duplicated first
    words of the snippets.
  - It repeatedly runs `exec` on the content while rewriting that content in
    place. Each reference is resolved to the first snippet in list order that
    starts with the reference's text.

The rewriting has two modes:

- **Plain mode** replaces the first copy of `text...` in the content (which
  may lie before the reference `exec` found) by the snippet. It then makes one
  left-to-right pass that drops each `((` and `))` it meets; that pass can
  leave a delimiter behind (`())(` becomes `((`).
- **HTML mode** gives each distinct text an id (1, 2, …) and puts an anchor
  `<span id="snippet-N">` after the first `((text`. It then replaces the
  first copy of `text...` in the content by a placeholder span that carries the rest of the snippet and a
  link to the anchor.

Each module follows one part of that file:

- `Strings` (strings.dfy) holds the JavaScript primitives the plugin relies on:
  - `indexOf`;
  - `String.prototype.replace` with a string pattern, including its `$$`,
    `$&`, `` $` `` and `$'` replacement patterns;
  - the `\s` and line-terminator character classes;
  - decimal rendering of ids.
- `Definitions` (definitions.dfy) models `getSnippets`:
  - a hand-written scanner with exactly the semantics of
    `/\(\(([\s\S]+?)(?!\.\.\.)\)\)/g`;
  - the `exec` loop as a method with a loop invariant.
- `References` (references.dfy) covers the reference pattern:
  - the first word of a snippet;
  - the escaping and the `Set` de-duplication;
  - the scanner for `((?:alt|…).*?)\.\.\.` (alternatives tried in order; the
    lazy `.*?` never crosses a line terminator; the cursor may lie beyond the
    end);
  - the `find` that resolves a reference.
- `Rendering` (rendering.dfy) covers the rewriting loop of `insertSnippets`:
  - its state is the content, the regex cursor, the `ids` dictionary and
    `last_id`;
  - `Step` is one turn of the loop and `Render` the whole loop;
  - the loop itself is the method `InsertSnippets`, proved to compute `Render`.
- `Scenarios` (scenarios.dfy) works a complete document through both entry
  points, and shows how HTML mode hands out ids.
- `SkippedScenario` (scenarios.dfy) works a document whose only reference does
  not resolve although a word inside it would.

The cursor of the reference regex is not reset when the content changes: each
`exec` continues from the old `lastIndex` in the new, rewritten content. The
model keeps this.

The definition pattern's lookahead `(?!\.\.\.)` sits directly before `\)\)`,
so it never rejects anything. `((foo...))` is therefore still a definition of
`foo...`, although the comment above the pattern says otherwise. The model
follows the code, and `EllipsisSpanIsKept` shows it.

Two things the code does not do:

- It keeps no positions. `getSnippets` returns bare strings, and `find` takes
  the first snippet in list order that starts with the text, whatever the
  positions. A reference can therefore bind to a definition after it, or to an
  earlier definition when a nearer one shares the prefix.
- It does not look at every match of the reference pattern. After a match the
  cursor lies past its `...`, so a word inside a match that did not resolve is
  never tried on its own. `SkippedScenario.SkippedReferenceStays` shows this.

## Model

| member | source | states |
|---|---|---|
| Strings.IndexOf | plugins/snippets.js:64 | the first index at or after the start where the pattern occurs; no earlier occurrence; none at all when absent |
| Strings.Substitution | plugins/snippets.js:51-64 | a definition (no contract of its own): the replacement text `replace` builds from a template, with `$$`, `$&`, `` $` `` and `$'` expanded and any other `$` kept; `SubstitutionOfPlainText` states what it does to a `$`-free template |
| Strings.ReplaceFirst | plugins/snippets.js:64 | `replace` with a string pattern: the content is unchanged when the pattern is absent; otherwise everything before the first occurrence and everything after it is kept |
| Strings.SubstitutionOfPlainText | plugins/snippets.js:64 | a replacement text without `$` is inserted exactly as written |
| Strings.ReplaceFirstPlain | plugins/snippets.js:64 | with a `$`-free replacement, the first occurrence of the pattern becomes exactly the replacement |
| Strings.ReplacePrefixWithNothing | plugins/snippets.js:57 | `snippet.replace(text, '')` on a snippet that starts with `text` drops exactly that prefix |
| Strings.IsLineTerminator | plugins/snippets.js:25 | a definition (no contract of its own): the four characters `.` does not match, `\n`, `\r`, U+2028 and U+2029 |
| Strings.IsJsWhitespace | plugins/snippets.js:20 | a definition (no contract of its own): the characters `\s` matches, the ASCII spaces and controls, the Unicode space separators, the line terminators and U+FEFF |
| Strings.Decimal | plugins/snippets.js:51 | an id is written as decimal digits without a leading zero |
| Strings.DecimalRoundTrip | plugins/snippets.js:51 | reading back the written id gives the id, so distinct ids give distinct `snippet-N` names |
| Definitions.LookaheadNeverRejects | plugins/snippets.js:4 | the tail `(?!\.\.\.)\)\)` matches exactly where `))` occurs: the lookahead never rejects |
| Definitions.OpensAtIsOccurrence | plugins/snippets.js:4 | the head `\(\(` matches exactly where `((` occurs |
| Definitions.FindClose | plugins/snippets.js:4 | the lazy `[\s\S]+?` stops at the first closing position at or after its start; none when there is none |
| Definitions.NextDefinition | plugins/snippets.js:4 | one `exec` returns a real match at or after the cursor |
| Definitions.NextDefinitionIsLeftmost | plugins/snippets.js:8 | `exec` skips no match: nothing matches between the cursor and the match returned; nothing matches after the cursor when it returns none |
| Definitions.DefinitionTexts | plugins/snippets.js:7-13 | the texts `getSnippets` returns from a cursor on; none of them is empty |
| Definitions.GetSnippets | plugins/snippets.js:1-15 | the `exec` loop pushes exactly the captures of the spans `exec` visits, in order |
| Definitions.DefinitionSpansOrdered | plugins/snippets.js:4-10 | the visited spans are real matches, disjoint and in left-to-right order |
| Definitions.DefinitionTextsAreCaptures | plugins/snippets.js:9 | each pushed text is what lies between its span's `((` and `))` |
| Definitions.SnippetsEndAtFirstClose | plugins/snippets.js:4-10 | each snippet is non-empty; it starts after a `((` and ends just before the first `))` at least one character later; the next span starts after that `))` |
| Definitions.EllipsisSpanIsKept | plugins/snippets.js:3-4 | `((foo...))` yields the snippet `foo...` |
| Definitions.MultilineSnippets | plugins/snippets.js:4-10 | a snippet may span lines, and each `exec` resumes after the previous `))` |
| References.FirstWord | plugins/snippets.js:20 | `split(/\s/)[0]`: a prefix of the snippet without whitespace, followed by whitespace or by the end |
| References.FirstWordIsUnique | plugins/snippets.js:20 | any whitespace-free prefix followed by whitespace or the end is the first word |
| References.Escape | plugins/snippets.js:20 | each character is kept, with at most one backslash put before it, so the pattern is between one and two times as long as the token; `EscapeMatchesItself` states what it matches |
| References.EscapeMatchesItself | plugins/snippets.js:20 | an escaped token is a literal pattern that matches exactly the token |
| References.EscapeLeavesPlainText | plugins/snippets.js:20 | a token with no character to escape is unchanged by escaping |
| References.Dedup | plugins/snippets.js:23 | `[...new Set(s)]` has the same members as `s`, each once |
| References.DedupKeepsFirstOccurrenceOrder | plugins/snippets.js:23 | the de-duplicated elements keep the order of their first occurrences |
| References.ReferenceAlternatives | plugins/snippets.js:25 | the alternation always has at least one alternative; an empty list joins to `(?:)` |
| References.AlternativesMatchFirstWords | plugins/snippets.js:20-25 | the alternatives match exactly the distinct first words of the snippets, in first-occurrence order; every alternative is a literal pattern; with no snippets the only alternative is empty |
| References.LiteralsOfDedupEscaped | plugins/snippets.js:20-23 | escaping before de-duplicating merges no distinct tokens |
| References.LazyToEllipsis | plugins/snippets.js:25 | `.*?\.\.\.` ends at the first `...` reachable without crossing a line terminator, and at none if none is reachable |
| References.FirstAlternative | plugins/snippets.js:25 | alternatives are tried in order: the first that leads to a match is taken, and every earlier one fails |
| References.MatchAt | plugins/snippets.js:25 | a match at a position ends group 1 at a `...` at or after that position |
| References.NextReference | plugins/snippets.js:30 | one `exec`: a match at or after the cursor, with a `...` at the end of group 1 |
| References.NextReferenceIsLeftmost | plugins/snippets.js:30 | `exec` skips no match, and returns none only when nothing matches from the cursor on |
| References.NextReferenceSkips | plugins/snippets.js:30 | `exec` gives the same result from any earlier cursor when no position in between matches |
| References.MatchShape | plugins/snippets.js:25 | group 1 begins with the earliest alternative that leads to a match, continues on one line, and stops at the first `...` after the token |
| References.MatchOnOneLine | plugins/snippets.js:20-25 | a match lies wholly on one line: its token is a first word, which holds no `\s` character and so no line terminator, and `.*?` crosses none |
| References.ReferenceOnOneLine | plugins/snippets.js:25-30 | the whole of group 1 of the reference `exec` finds lies on one line from its start |
| References.FirstStartingWith | plugins/snippets.js:36 | `find`: the first snippet in list order that starts with the text; none when no snippet does |
| Rendering.StripDelimiters | plugins/snippets.js:65 | removing `((` and `))` never lengthens the content |
| Rendering.StripWithoutDelimiters | plugins/snippets.js:65 | content without `((` or `))` is unchanged |
| Rendering.StripRemovesOnlyParentheses | plugins/snippets.js:65 | every character other than a parenthesis keeps its count |
| Rendering.StripAfterPlainText | plugins/snippets.js:65 | text without parentheses is kept and stripping continues after it |
| Rendering.StripDelimiterPair | plugins/snippets.js:65 | a leading `((` or `))` is dropped |
| Rendering.StripCanLeaveDelimiters | plugins/snippets.js:65 | one pass is not idempotent: `())(` becomes `((` |
| Rendering.Anchor | plugins/snippets.js:51 | the anchor begins with the `((text` it replaces, so the definition stays in the content |
| Rendering.Placeholder | plugins/snippets.js:55-59 | the placeholder begins with the reference's text |
| Rendering.IsNewText | plugins/snippets.js:48 | a definition (no contract of its own): `!ids[text]`, true when the text has no entry or its entry is 0; `RegisteredIdsAreTruthy` states when that is |
| Rendering.Unresolved | plugins/snippets.js:36-41 | a definition (no contract of its own): `find` gave nothing, or gave the falsy empty snippet, so the loop body stops at `continue` |
| Rendering.Annotate | plugins/snippets.js:45-59 | the HTML rewrite leaves the regex cursor where it is |
| Rendering.Resolve | plugins/snippets.js:35-67 | an unresolved reference changes nothing (`continue`); plain mode never touches `ids` or `last_id` |
| Rendering.Step | plugins/snippets.js:30-67 | a turn exists exactly when `exec` finds a reference; it moves the cursor at least three places on; in plain mode it keeps `ids` and `last_id` |
| Rendering.Render | plugins/snippets.js:17-73 | a definition (no contract of its own): the content after the loop, which starts at cursor 0 with empty `ids`, `last_id` 1 and the alternatives built from the snippets; `None` when the fuel runs out. `InsertSnippets` is proved to compute it |
| Rendering.InsertSnippets | plugins/snippets.js:17-73 | the loop, rewriting the content in place, returns what `Render` specifies |
| Rendering.TakeTurn | plugins/snippets.js:30-67 | one pass through the loop body is one `Step`; when `exec` finds nothing, the content is unchanged and the loop stops |
| Rendering.ApplyReference | plugins/snippets.js:35-67 | the imperative body after `exec` computes `Resolve` |
| Rendering.Annotated | plugins/snippets.js:45-59 | the imperative HTML branch computes `Annotate` |
| Rendering.ReplacedCopyPrecedesReference | plugins/snippets.js:55 | the whole match is group 1 followed by `...`, and the copy `replace` rewrites is its first occurrence, at or before the reference |
| Rendering.PlainTurnLiteral | plugins/snippets.js:30-65 | plain mode, one turn at the reference `exec` finds, resolved by `find` to a snippet without `$`: the first copy of `text...` lies at or before the reference, and it becomes the snippet with the text before and after it kept; then one pass of `StripDelimiters` runs, the cursor moves past the `...`, and the ids are kept |
| Rendering.ResolveNewText | plugins/snippets.js:47-59 | HTML mode, new text: it gets id `last_id`, which then moves on by one; the anchor follows the first `((text`; the placeholder carries the snippet minus its leading text |
| Rendering.ResolveKnownText | plugins/snippets.js:47-59 | HTML mode, known text: its id is reused, no anchor is added, only the placeholder is put in |
| Rendering.RegisteredIdsAreTruthy | plugins/snippets.js:48 | in a valid registry `!ids[text]` holds exactly when the text is unregistered |
| Rendering.Register | plugins/snippets.js:49 | giving a new text the id `last_id++` keeps the ids a numbering 1..last_id-1 and keeps earlier entries |
| Rendering.StepKeepsRegistry | plugins/snippets.js:28-52 | one turn keeps the ids a one-to-one numbering 1..last_id-1 and only adds entries |
| Rendering.RunKeepsRegistry | plugins/snippets.js:28-52 | over the whole loop the ids stay such a numbering, and earlier entries keep their ids |
| Rendering.PlainRunKeepsIds | plugins/snippets.js:62-66 | plain mode never changes `ids` or `last_id` |
| Rendering.NothingResolvesIsVisited | plugins/snippets.js:30-41 | if no match at all resolves, in particular none of the matches `exec` visits resolves |
| Rendering.UnresolvedRunKeepsContent | plugins/snippets.js:30-41 | when none of the references `exec` visits from the cursor on resolves, the loop ends with the content, ids and counter unchanged |
| Rendering.UnresolvedLeavesContent | plugins/snippets.js:17-71 | if none of the references `exec` visits resolves, the output is the input exactly: no delimiter is stripped either |
| Rendering.NothingResolvesLeavesContent | plugins/snippets.js:17-71 | the same when no match of the pattern resolves at all |
| Rendering.NoSnippetsLeaveContent | plugins/snippets.js:17-71 | with an empty snippet list the output equals the input |
| Rendering.RenderFuelMonotone | plugins/snippets.js:30 | once the loop has ended, more fuel does not change the result |
| Scenarios.ExampleDefinitions | plugins/snippets.js:1-15 | `getSnippets` on `((a b))`, newline, `a...` returns `["a b"]` |
| Scenarios.PlainRenderingExample | plugins/snippets.js:17-73 | with the snippets `getSnippets` collects, plain mode turns `((a b))`, newline, `a...` into `a b`, newline, `a b` |
| Scenarios.HtmlFirstSight | plugins/snippets.js:45-59 | HTML mode: the first reference to `a` gets id 1, the counter moves to 2, and the anchor goes after `((a` |
| Scenarios.HtmlSecondSight | plugins/snippets.js:45-59 | HTML mode: a second reference to `a` reuses id 1, adds no anchor and leaves the counter at 2 |
| SkippedScenario.SkippedReferenceStays | plugins/snippets.js:30-41 | `a b...` with the snippets `a x` and `b y` comes back unchanged, although the match of `b` inside it would resolve |

## Left out

- plugins/bionic.js is not part of this model. It is a DOM effect: tree walking, computed styles and floating-point cut-offs.
- nuxt.config.js is not part of this model. It is static framework configuration.
- Rendering.InsertSnippets: the JavaScript loop need not terminate, because a snippet can bring a new reference in front of the cursor. So the loop and `Render` take a `fuel` bound on the number of turns and answer `None` when it runs out. No lemma says which inputs make the source loop forever.
- Rendering.UnresolvedLeavesContent: stated for fuel larger than the content's length plus one, the number of turns the loop can take when nothing resolves. Its hypothesis is sufficient but not necessary: a reference that resolves to a rewrite giving back the same content also leaves it unchanged.
- Rendering.PlainTurnLiteral: states the rewritten content by position only for snippets without `$`. With a `$` in the snippet, `replace` expands it as `Strings.ReplaceFirst` and `Strings.Substitution` state.
- The `ids` dictionary is a plain JavaScript object, so a text such as `constructor` finds an inherited truthy value. The model starts from an empty map and does not capture those names.
- Strings are sequences of Unicode characters, not UTF-16 code units. Surrogate pairs and the `.` class on lone surrogates are not modelled.
- The default `{ insertAsHtml } = {}` argument becomes a plain `bool`. A missing option is `false`.
- Snippets must be strings. A non-string element would fail or behave differently in `split`/`startsWith` and is not modelled.
- What the emitted markup does in a browser (`gotoid`, the click handler) is out of scope. The placeholder and anchor are modelled only as the exact strings the code builds.
- The commented-out `console.log`/`console.warn` lines produce no output and are not modelled.
- Rendering.StripDelimiters: its own contract states only that the content does not grow. What it removes and keeps is stated by the lemmas beside it.
- Rendering.Annotate: its own contract states only that the cursor is kept. Its full effect is stated by ResolveNewText and ResolveKnownText.
