# Markdown utilities of the guide viewer

The guide viewer of the blog CMS (`components/guide/GuideViewer.tsx`)
shows a Markdown guide with a table of contents. Before rendering, it
runs three pure string transforms:

- `slugify` turns a heading's text into an anchor id, in six steps:
  1. lowercase;
  2. drop `(`, `（`, `)` and `）`;
  3. drop `:` and `：`;
  4. collapse each whitespace run to `-`;
  5. delete every character outside ASCII `\w`, U+4E00–U+9FFF and `-`;
  6. trim `-` at both ends.
- `parseHeadings` splits the document on `'\n'`. It keeps the lines that
  pass `/^#{1,3}\s/` and also match `/^(#{1,3})\s+(.+)$/`, and turns each
  into a `Heading` record `{level, text, id}`.
- `splitContent` cuts the document at the first `'\n## 常见问题'` (the FAQ
  heading) into a main part and a Q&A part.

After rendering, `useInjectHeadingIds` walks the rendered h1–h3 elements
and gives them the parsed ids by position.

The model has six modules:

| module | file | what it holds |
|---|---|---|
| `Chars` | `chars.dfy` | The character classes: ECMAScript `\s`, which is also the set `trim` strips; `\w` without the `u` flag; the CJK range; the line terminators `.` refuses; the case mapping of one character. |
| `JsString` | `strings.dfy` | The String built-ins the core uses: `toLowerCase`, `trim` (built from a start half and an end half), `split('\n')` and `indexOf`, with their algebra (round trips, idempotence, what trimming removes). |
| `Slug` | `slug.dfy` | `slugify` as the composition of its six steps, and what it guarantees: the slug alphabet, fixed points and idempotence, which characters survive, and the effect of brackets, colons and whitespace. |
| `Headings` | `headings.dfy` | The `Heading` record and `parseHeadings`. The filter regex and the matching regex are modelled separately, and the match includes the backtracking of `\s+` before `(.+)$`. |
| `ContentSplit` | `split_content.dfy` | `splitContent` and its two outcomes. |
| `HeadingIds` | `inject_ids.dfy` | The injection loop of `useInjectHeadingIds`, as a method that updates an array of element ids in place. |

A document without the FAQ marker comes back untouched, not trimmed
(`components/guide/GuideViewer.tsx:53`), and so it does in
`ContentSplit.SplitContent`.

The model keeps two consequences of the regexes as the code has them:

- A line that ends in `'\r'` passes the filter but fails the match, so
  it yields no entry. In a document with CRLF line ends, no heading is
  listed except on a last line that has no line end after it:
  `"# A\r\n# B"` lists `# B` only.
- A line of one to three hashes followed only by whitespace yields an entry with
  empty text and an empty id when the whitespace is at least two
  characters long and does not end in a line terminator. `"#  "` is an
  example.

## Model

| member | source | states |
|---|---|---|
| Chars.IsWs | components/guide/GuideViewer.tsx:29 | The class `\s`, which is also the set `trim` strips (lines 42, 55-56). It contains every line terminator, the space and the tab. |
| Chars.IsLineTerminator | components/guide/GuideViewer.tsx:39 | The four LineTerminator characters, the only ones `.` does not match. |
| Chars.IsWord | components/guide/GuideViewer.tsx:30 | `\w` without the `u` flag: ASCII letters, digits and `_`. |
| Chars.IsCjk | components/guide/GuideViewer.tsx:30 | The range `\u4e00-\u9fff`. |
| Chars.IsSlugChar | components/guide/GuideViewer.tsx:30 | The class `[\w\u4e00-\u9fff-]` that step 5 keeps. |
| Chars.LowerChar | components/guide/GuideViewer.tsx:25 | Lowercasing one character yields one or two characters, none of which is an ASCII capital, KELVIN SIGN or U+0130. Any other character is unchanged. |
| JsString.Lower | components/guide/GuideViewer.tsx:25 | The result is at least as long as the input and at most twice as long, and contains no ASCII capital, KELVIN SIGN or U+0130. |
| JsString.LowerConcat | components/guide/GuideViewer.tsx:25 | Lowercasing distributes over concatenation. |
| JsString.LowerIdempotent | components/guide/GuideViewer.tsx:25 | Lowercasing twice is the same as lowercasing once. |
| JsString.LowerFixed | components/guide/GuideViewer.tsx:25 | Text without ASCII capitals, KELVIN SIGN or U+0130 is its own lowercase. |
| JsString.TrimStart | components/guide/GuideViewer.tsx:42 | The result is a suffix of the input and does not start with whitespace. |
| JsString.TrimStartDropsWs | components/guide/GuideViewer.tsx:42 | What the start half of `trim` removes is all whitespace. |
| JsString.TrimEnd | components/guide/GuideViewer.tsx:42 | The result is a prefix of the input and does not end with whitespace. |
| JsString.TrimEndDropsWs | components/guide/GuideViewer.tsx:42 | What the end half of `trim` removes is all whitespace. |
| JsString.Trim | components/guide/GuideViewer.tsx:42 | The result is no longer than the input and has no whitespace at either end. |
| JsString.TrimShape | components/guide/GuideViewer.tsx:55-56 | The input is the trimmed text with a whitespace-only prefix and a whitespace-only suffix around it. |
| JsString.TrimIsSlice | components/guide/GuideViewer.tsx:55-56 | The trimmed text is a contiguous slice of the input. |
| JsString.TrimOfPadded | components/guide/GuideViewer.tsx:55-56 | Trimming whitespace-padded text that has no whitespace at its ends gives back exactly that text. |
| JsString.TrimWsPrefix | components/guide/GuideViewer.tsx:42 | A whitespace prefix does not change the trimmed text. |
| JsString.TrimIdempotent | components/guide/GuideViewer.tsx:42 | Trimming twice is the same as trimming once. |
| JsString.SplitLines | components/guide/GuideViewer.tsx:36 | `split('\n')` returns at least one piece, and no piece contains `'\n'`. |
| JsString.JoinSplitLines | components/guide/GuideViewer.tsx:36 | Joining the pieces with `'\n'` gives back the document. |
| JsString.SplitJoinLines | components/guide/GuideViewer.tsx:36 | Splitting lines joined with `'\n'` gives back those lines when none contains `'\n'`. |
| JsString.SplitLinesCons | components/guide/GuideViewer.tsx:36 | A document that begins with a line and `'\n'` splits into that line followed by the pieces of the rest. |
| JsString.IndexOf | components/guide/GuideViewer.tsx:52 | The result is -1 exactly when the pattern occurs nowhere. Otherwise it is an occurrence with none before it. |
| JsString.IndexFrom | components/guide/GuideViewer.tsx:52 | Searching from a position finds the first occurrence at or after it, or -1 when there is none. |
| Slug.Without | components/guide/GuideViewer.tsx:26-28 | Removing two characters leaves text containing neither of them, no longer than before. |
| Slug.IsBracketOrColon | components/guide/GuideViewer.tsx:26-28 | The union of `[（(]`, `[）)]` and `[：:]`. |
| Slug.StripBrackets | components/guide/GuideViewer.tsx:26-28 | After the three replacements, no bracket or colon is left, ASCII or full-width. |
| Slug.StripBracketsNoop | components/guide/GuideViewer.tsx:26-28 | Text without brackets and colons is unchanged by the three replacements. |
| Slug.CollapseWs | components/guide/GuideViewer.tsx:29 | The collapse never lengthens the text, and it empties only empty text. |
| Slug.CollapseWsNoWs | components/guide/GuideViewer.tsx:29 | No whitespace is left after the collapse. |
| Slug.CollapseWsNoUpper | components/guide/GuideViewer.tsx:29 | Collapsing whitespace runs introduces no ASCII capital. |
| Slug.CollapseWsNoop | components/guide/GuideViewer.tsx:29 | Text without whitespace is unchanged by the collapse. |
| Slug.CollapseWsRun | components/guide/GuideViewer.tsx:29 | A whole whitespace run becomes a single `-`. |
| Slug.CollapseWsKeepsPrefix | components/guide/GuideViewer.tsx:29 | A prefix without whitespace passes through the collapse untouched. |
| Slug.KeepSlugChars | components/guide/GuideViewer.tsx:30 | Only ASCII word characters, CJK ideographs and `-` remain. |
| Slug.KeepSlugCharsNoop | components/guide/GuideViewer.tsx:30 | Text made only of those characters is unchanged. |
| Slug.KeepSlugCharsConcat | components/guide/GuideViewer.tsx:30 | The deletion works on each part of a text on its own, so the characters kept stay in order. |
| Slug.KeepSlugCharsDropsOne | components/guide/GuideViewer.tsx:30 | One character outside the kept classes, anywhere in the text, is simply removed. |
| Slug.KeepSlugCharsKeepsOne | components/guide/GuideViewer.tsx:30 | One character of the kept classes, including `-`, stays where it stands among what is kept on either side. |
| Slug.DropLeadingHyphens | components/guide/GuideViewer.tsx:31 | The result is a suffix of the input that does not start with `-`. |
| Slug.DropLeadingHyphensDropsHyphens | components/guide/GuideViewer.tsx:31 | What the leading `^-+` removes is all hyphens. |
| Slug.DropTrailingHyphens | components/guide/GuideViewer.tsx:31 | The result is a prefix of the input that does not end with `-`. |
| Slug.DropTrailingHyphensDropsHyphens | components/guide/GuideViewer.tsx:31 | What the trailing `-+$` removes is all hyphens. |
| Slug.TrimHyphens | components/guide/GuideViewer.tsx:31 | The result neither starts nor ends with `-`. Text that already does neither is unchanged. |
| Slug.TrimHyphensShape | components/guide/GuideViewer.tsx:31 | The input is the result with a run of hyphens before it and a run of hyphens after it, and nothing else removed. |
| Slug.TrimHyphensSlug | components/guide/GuideViewer.tsx:30-31 | Trimming hyphens from text of slug characters yields a slug. |
| Slug.Slugify | components/guide/GuideViewer.tsx:23-32 | Every slug uses only lowercase ASCII word characters, CJK ideographs and `-`. It neither starts nor ends with `-`. Empty text gives the empty slug. |
| Slug.SlugifyFixesSlugs | components/guide/GuideViewer.tsx:23-32 | Every step leaves an existing slug alone, so slugify maps a slug to itself. |
| Slug.SlugifyIdempotent | components/guide/GuideViewer.tsx:23-32 | Slugifying twice is the same as slugifying once. |
| Slug.SlugifyFixedPoints | components/guide/GuideViewer.tsx:23-32 | Slugify maps text to itself exactly when the text is a slug. Both directions are proved. |
| Slug.SlugifyKeepsLetters | components/guide/GuideViewer.tsx:25-31 | The letters of the slug, meaning its word characters and ideographs, are exactly those of the lowercased text, in the same order. |
| Slug.SlugifyIgnoresCase | components/guide/GuideViewer.tsx:25 | Lowercasing the text first does not change its slug. |
| Slug.StripBracketsDropsOne | components/guide/GuideViewer.tsx:26-28 | One bracket or colon anywhere in the text is simply removed. |
| Slug.SlugifyIgnoresBrackets | components/guide/GuideViewer.tsx:26-28 | Removing one bracket or colon from anywhere in the text does not change its slug. |
| Slug.SlugifyIgnoresLastBracket | components/guide/GuideViewer.tsx:26-28 | A trailing bracket or colon does not change the slug. |
| Slug.SlugifyParenthesized | components/guide/GuideViewer.tsx:26-27 | Text that becomes a slug once an opening and a closing bracket are removed slugifies to that slug. |
| Slug.SlugifyFullWidthExample | components/guide/GuideViewer.tsx:26-27 | `"快速部署（入门）"` slugifies to `"快速部署入门"`. |
| Slug.SlugifyJoinsWords | components/guide/GuideViewer.tsx:29 | Two slugs separated by any whitespace run slugify to the two joined by one `-`. |
| Slug.SlugifyJoinsThreeWords | components/guide/GuideViewer.tsx:29 | Three slugs separated by whitespace runs slugify to the three joined by `-`. |
| Slug.SlugifyThreeWords | components/guide/GuideViewer.tsx:25-29 | Three words whose lowercase forms are slugs, separated by whitespace runs, slugify to those lowercase forms joined by `-`. |
| Slug.SlugifyColonThreeWords | components/guide/GuideViewer.tsx:25-29 | The same holds when a colon or bracket follows the first word: it is dropped before the whitespace is collapsed. |
| Slug.SlugifySetupExample | components/guide/GuideViewer.tsx:25-31 | `"Setup: Step 1"` slugifies to `"setup-step-1"`. |
| Headings.Heading | components/guide/GuideViewer.tsx:17-21 | The entry record: level, text and id, the three fields of the `Heading` interface. |
| Headings.LeadingHashes | components/guide/GuideViewer.tsx:37-41 | The count of leading `#` stops at the first other character or at the end of the line. |
| Headings.LeadingHashesExact | components/guide/GuideViewer.tsx:37-41 | A run of `k` hashes followed by something else is exactly the count of leading `#`. |
| Headings.FilterAt | components/guide/GuideViewer.tsx:37 | `/^#{1,3}\s/` matched with `k` hashes: 1 to 3 hashes, then a whitespace character. |
| Headings.PassesFilter | components/guide/GuideViewer.tsx:37 | A line the filter accepts starts with `#` and has at least two characters. PassesFilterIff gives the exact condition. |
| Headings.PassesFilterIff | components/guide/GuideViewer.tsx:37 | The filter accepts a line exactly when it starts with 1 to 3 hashes followed by whitespace, and the hashes are all of its leading `#`. |
| Headings.RegexSplit | components/guide/GuideViewer.tsx:39 | `/^(#{1,3})\s+(.+)$/` matched with `k` hashes and a whitespace run of length `j`, then at least one character up to the end of the line, none a line terminator. |
| Headings.WsRun | components/guide/GuideViewer.tsx:39 | The greedy `\s+` first takes the whole run of whitespace at the front: all of it is whitespace and the next character is not. |
| Headings.BacktrackWs | components/guide/GuideViewer.tsx:39 | The whitespace length that `\s+` settles on is at least 1 and at most the run it started from, and `(.+)$` matches after it. |
| Headings.BacktrackLongest | components/guide/GuideViewer.tsx:39 | The backtracking keeps the longest whitespace length after which `(.+)$` matches. |
| Headings.MatchHeading | components/guide/GuideViewer.tsx:39 | A match has 1 to 3 hashes, at least one whitespace character, and a non-empty body without line terminators. |
| Headings.MatchSound | components/guide/GuideViewer.tsx:39 | Every match splits the line as `#{1,3}`, a whitespace run, and `.+` to the end of the line. |
| Headings.MatchGreedy | components/guide/GuideViewer.tsx:39 | Every split of the line of that shape leads to a match with the same hashes and a whitespace run at least as long. |
| Headings.TitleOf | components/guide/GuideViewer.tsx:37-42 | An accepted line's level lies in 1..3 and equals its count of leading `#`. Its text has no whitespace at either end. |
| Headings.TitleOfSound | components/guide/GuideViewer.tsx:39-42 | The text is the trimmed remainder after the hashes, and it has no line terminator. |
| Headings.TitleOfComplete | components/guide/GuideViewer.tsx:37-42 | Every line of the shape `#{1,3}\s+.+$` yields a title. |
| Headings.HeadingOf | components/guide/GuideViewer.tsx:38-43 | A line yields an entry exactly when it yields a title. The level is in 1..3, the text has no whitespace at either end, and the id is the slug of the text. |
| Headings.HeadingOfSpec | components/guide/GuideViewer.tsx:37-43 | A line yields an entry exactly when it has the regex's shape. The entry's text is the trimmed remainder after the hashes, and its id is `slugify(text)`. |
| Headings.CarriageReturnDropsLine | components/guide/GuideViewer.tsx:39-40 | A line ending in `'\r'` yields no entry. |
| Headings.MatchEndsWithLine | components/guide/GuideViewer.tsx:39 | A match's body runs to the last character of the line. |
| Headings.FilteredOut | components/guide/GuideViewer.tsx:37 | A line the filter rejects yields no entry. |
| Headings.TooDeepDropped | components/guide/GuideViewer.tsx:37 | A line starting with `####` yields no entry. |
| Headings.NoSpaceDropped | components/guide/GuideViewer.tsx:37 | Hashes followed by a character that is neither `#` nor whitespace yield no entry, as in `"#x"`. |
| Headings.BlankHeading | components/guide/GuideViewer.tsx:39-42 | One to three hashes followed only by whitespace yield an empty title when the whitespace has at least two characters and does not end in a line terminator. Otherwise they yield nothing. |
| Headings.OneSpaceDropped | components/guide/GuideViewer.tsx:39-40 | `"# "` yields no entry. |
| Headings.TwoSpacesKept | components/guide/GuideViewer.tsx:39-43 | `"#  "` yields a level-1 entry with empty text and an empty id. |
| Headings.FilterMap | components/guide/GuideViewer.tsx:38-45 | Mapping and dropping nulls yields no more entries than lines. |
| Headings.FilterMapConcat | components/guide/GuideViewer.tsx:38-45 | Mapping and dropping nulls distributes over concatenation, so entries keep line order. |
| Headings.FilterMapAll | components/guide/GuideViewer.tsx:38-45 | Every entry kept has each property that every produced record has. |
| Headings.ParseLines | components/guide/GuideViewer.tsx:37-45 | There are no more entries than lines. |
| Headings.ParseHeadings | components/guide/GuideViewer.tsx:34-46 | There are no more entries than `split('\n')` pieces. |
| Headings.ParseLinesWellFormed | components/guide/GuideViewer.tsx:37-43 | Every entry has a level in 1..3, no whitespace at either end of its text, and an id that is the slug of its text. |
| Headings.ParseLinesConcat | components/guide/GuideViewer.tsx:37-45 | The entries of two runs of lines are the entries of the first followed by those of the second. There is no de-duplication. |
| Headings.EntryOf | components/guide/GuideViewer.tsx:38-45 | A line contributes exactly its own entry when it yields one, and nothing otherwise. |
| Headings.ParseHeadingsEmpty | components/guide/GuideViewer.tsx:34-46 | The empty document has no entries. |
| Headings.ParseHeadingsCons | components/guide/GuideViewer.tsx:34-46 | A document's entries are those of its first line followed by those of the rest. |
| Headings.ParseHeadingsLast | components/guide/GuideViewer.tsx:34-46 | A document of one line, such as the last line after the final `'\n'`, contributes exactly that line's entry. |
| Headings.ParseHeadingsOfLines | components/guide/GuideViewer.tsx:34-46 | The entries of lines joined by `'\n'` are the entries of those lines, in order. |
| ContentSplit.QaMarker | components/guide/GuideViewer.tsx:51 | The marker is a line feed followed by `"## 常见问题"`. |
| ContentSplit.OccurrenceIsLineFeed | components/guide/GuideViewer.tsx:51-52 | Every occurrence of the marker starts at a `'\n'`. |
| ContentSplit.DocumentSplit | components/guide/GuideViewer.tsx:53-57 | The `{main, qa}` object splitContent returns. |
| ContentSplit.SplitContent | components/guide/GuideViewer.tsx:50-58 | Without the marker, the document comes back untouched as main, with an empty Q&A part. With it, the Q&A part is non-empty and the two parts are no longer than the document together. |
| ContentSplit.SplitAtFirstMarker | components/guide/GuideViewer.tsx:52-56 | With the marker first at `idx`, main is the trimmed text before `idx` and the Q&A part is the trimmed text from `idx` on. |
| ContentSplit.QaStartsWithHeading | components/guide/GuideViewer.tsx:56 | The Q&A part starts with `"## 常见问题"`. |
| ContentSplit.TrimEndKeepsPrefix | components/guide/GuideViewer.tsx:56 | Trimming never cuts into a prefix that ends in a non-whitespace character. |
| ContentSplit.MainHasNoMarker | components/guide/GuideViewer.tsx:51-55 | The main part never contains the marker. |
| ContentSplit.SplitLosesOnlyWhitespace | components/guide/GuideViewer.tsx:55-56 | Each part is its slice of the document less whitespace at the two ends. |
| ContentSplit.NoLineFeedNoSplit | components/guide/GuideViewer.tsx:51-53 | A document without `'\n'` is never split. In particular, a marker at index 0 without a preceding newline is not found. |
| ContentSplit.FirstMarkerAfter | components/guide/GuideViewer.tsx:52 | When text without the marker is followed by the marker, the first occurrence is right after that text. |
| ContentSplit.SplitsAtMarkerPrefix | components/guide/GuideViewer.tsx:52-56 | The marker matches as a prefix: the FAQ heading may continue, as in `"\n## 常见问题汇总"`. The split then falls before it. |
| ContentSplit.SplitsCleanly | components/guide/GuideViewer.tsx:52-56 | Trimmed text, the marker, then text ending in non-whitespace, split back into the first text and the FAQ heading followed by the second. |
| HeadingIds.Ids | components/guide/GuideViewer.tsx:120 | The ids of the entries, in order. |
| HeadingIds.InjectedIds | components/guide/GuideViewer.tsx:118-124 | Element `i` gets entry `i`'s id when `i` is below both lengths. Every other element keeps its id. |
| HeadingIds.InjectIdempotent | components/guide/GuideViewer.tsx:111-127 | Running the injection again with the same entries changes nothing. |
| HeadingIds.InjectNothing | components/guide/GuideViewer.tsx:113 | With no entries, every element keeps its id. |
| HeadingIds.InjectHeadingIds | components/guide/GuideViewer.tsx:113-124 | The loop hands out `min(elements, entries)` ids, so `idx` never exceeds the number of entries. The array ends up as InjectedIds of its old contents. |

## Left out

- The React rendering is not modelled: `TocPanel`, `GuideViewer`, JSX, `useState`/`useEffect`, the tab switching and the CSS class choices are UI.
- The active-heading tracking with `IntersectionObserver` (lines 65-78) is not modelled. It is event-driven DOM code.
- The `ResizeObserver` with its 860px threshold (lines 149-157) is not modelled, for the same reason.
- The `setTimeout` delay, its cleanup, and `document.querySelectorAll` are not modelled. The elements the query returns are the `ids` array of `HeadingIds.InjectHeadingIds`, in document order.
- `scrollIntoView` is not modelled.
- The dynamic import of `@uiw/react-markdown-preview` (lines 10-13) is not modelled: it is a foreign library. How it renders headings is not part of this model.
- `app/layout.tsx` and `next.config.ts` are not modelled. They hold static metadata and build configuration without logic.
- Chars.LowerChar: maps only ASCII `A`–`Z`, KELVIN SIGN (to `k`) and U+0130 (to `i` with U+0307). Every other character is kept as it is. The full Unicode table of `toLowerCase` is not reproduced. No other character lowercases to an ASCII word character, a CJK ideograph, whitespace, a bracket, a colon or `-`. So every other character is deleted at step 5 either way, and the model's slugs are the source's. That argument rests on the Unicode tables and is not proved.
- JsString.Lower: lowers each character on its own, through Chars.LowerChar, so it is weaker than `toLowerCase` in the same way. The real operation is also context-sensitive: by the Final_Sigma rule of Unicode SpecialCasing, `"ΑΣ"` lowers to `"ας"` while `"Σ"` alone lowers to `"σ"`. So JsString.LowerConcat holds of the model but not of `toLowerCase` in general. Slugs are unaffected, because Greek letters are deleted at step 5.
- Strings are sequences of Unicode scalar values, not of UTF-16 code units. The core never depends on the difference: surrogate halves are outside every class slugify keeps, and the marker and `'\n'` are in the Basic Multilingual Plane.
- `.filter(Boolean)` at line 45 is modelled as dropping the nulls only, because a `Heading` object is always truthy.
