# Tribute, modelled in Dafny

Tribute is a command-line tool that finds the third-party libraries of a
Swift project, recognises their licenses and writes an attribution file.
This project models the deterministic string logic at its core and proves
what that logic promises:

- **Globs** (`globs.dfy`, `glob_roundtrip.dfy`, `glob_stages.dfy`). `expandPath` and
  `pathContainsGlobSyntax`. `expandGlob`, which turns a shell-style path
  into an exact path or the source text of an anchored regular expression:
  brace groups become numbered placeholders, five wildcard rewrites run,
  and the placeholders are substituted back. `Glob.description`, which turns
  such a pattern back into glob text. `Glob.matches` for an exact path.
  Glob text is also modelled as a sequence of pieces (literal characters,
  `?`, `*`, `**`, `**/` and `{a,b}` groups), and every stage of
  `expandGlob` and of `description` is followed piece by piece, up to the
  round trip: an absolute glob whose placeholder path names no existing
  file describes as itself.
- **Templates** (`templates.dfy`). `Format.infer` from a template and from
  a file name, the three built-in templates, and `render`. `render` cuts a
  template at its `$start`, `$separator` and `$end` markers, rejects markers
  out of order, and fills the six placeholders for every library. `escape`
  for plain text, JSON and XML.
- **Licenses** (`licenses.dfy`). The normalisation of a license text and
  its classification as the first license type with a matching phrase.
- **Command-line support** (`tribute.dfy`):
  - the Levenshtein `editDistance` table and the suggestions of `bestMatches`;
  - the argument parser `preprocessArguments`;
  - the column layout of `list`;
  - the allow/skip filter of `export`.
- **Shared pieces** (`strings.dfy`, `wrappers.dfy`). Swift and Foundation
  string operations: `range(of:)`, `replacingOccurrences`,
  `components(separatedBy:)`, `joined`, `lowercased` and
  `trimmingCharacters`. Also the `Option` and `Result` types.

The loops of the source are methods with loop invariants, proved equal to
specification functions:
- `Globs.ExpandGlob`, `Globs.ReplaceBraceGroups` and `Globs.ExpandTokens`;
- `Globs.Description`;
- `Tribute.EditDistance` and `Tribute.NextRow`;
- `Tribute.PreprocessArguments`.

The properties are proved about those functions. The rest of the core is
pure in the source and pure here.

The file system's "does this path exist" check and the regular-expression
engine behind `Glob.matches` are parameters. Nothing reads or writes files.

## Model

| member | source | states |
|---|---|---|
| Globs.DropTrailingSlashes | Sources/Globs.swift:12 | `URL.path` keeps a prefix of the path that differs only by trailing `/`s and ends in something else, unless it is the root `/` |
| Globs.ExpandPath | Sources/Globs.swift:10-18 | an absolute path is kept apart from a trailing `/`; any other path not starting with `~` is joined under the directory with one `/` between them and loses a trailing `/` the same way, so under an absolute directory it becomes absolute; a result longer than `/` never ends in `/` |
| Globs.ExpandPathIdempotent | Sources/Globs.swift:10-18 | under an absolute directory, expanding an expanded path changes nothing |
| Globs.AnyCharIn | Sources/Globs.swift:21 | true exactly when one of the characters occurs in the path |
| Globs.PathContainsGlobSyntax | Sources/Globs.swift:20-22 | true exactly when the path holds one of `*`, `?`, `[`, `{` |
| Globs.Matches | Sources/Globs.swift:29-37 | a `.path` glob matches exactly the paths it is a prefix of; a `.regex` glob defers to the regular-expression engine |
| Globs.FindChar | Sources/Globs.swift:66 | the first position of a character, or none exactly when the character is absent |
| Globs.GroupStartsAt | Sources/Globs.swift:66 | a `{...}` group starting at an opening brace ends at the first closing brace after it, and exists exactly when that brace is not adjacent |
| Globs.FindGroup | Sources/Globs.swift:66 | what the search for `\{[^}]+\}` returns is a real group, at or after the starting point |
| Globs.FindGroupLeftmost | Sources/Globs.swift:66 | the group found is the leftmost one, and none is found only when the text holds none |
| Globs.GroupCloseCount | Sources/Globs.swift:66-73 | the closing characters of a text are those before a group, the group's own one and those after it |
| Globs.ExtractCount | Sources/Globs.swift:66-73 | each turn of the extraction loop removes one `}`, so the loop ends |
| Globs.TokenInjective | Sources/Globs.swift:70 | the placeholders `<<<k>>>` of different groups differ |
| Globs.TokensNumberedExtend | Sources/Globs.swift:70-71 | a new placeholder is not yet a key, and storing it keeps the keys exactly `<<<0>>>` ... `<<<n>>>` |
| Globs.Fragment | Sources/Globs.swift:67-71 | a stored alternation is parenthesised |
| Globs.ExtractBracesNumbered | Sources/Globs.swift:66-73 | after the loop no brace group is left; the dictionary's keys are exactly `<<<0>>>` ... `<<<n>>>`, with one new entry per `}` consumed; entries already present are kept |
| Globs.ReplaceBraceGroups | Sources/Globs.swift:64-73 | the extraction loop computes the recursive extraction |
| Globs.ExpandTokens | Sources/Globs.swift:86-88 | the substitution loop replaces the placeholders `<<<0>>>` ... in turn by their alternations |
| Globs.ExpandGlob | Sources/Globs.swift:60-91 | `expandGlob` returns the compiled glob: an exact expanded path without glob syntax or when the placeholder path exists, else the rewritten, substituted `^...$` pattern |
| Globs.EscapeMetaAppend | Sources/Globs.swift:81 | escaping metacharacters distributes over concatenation |
| Globs.EscapeMetaFree | Sources/Globs.swift:81 | text without metacharacters is left unchanged |
| Globs.EscapeMetaKeepsOut | Sources/Globs.swift:81 | escaping brings in no character but backslashes |
| Globs.CompiledPath | Sources/Globs.swift:60-79 | a path without glob syntax compiles to its expanded self, describes as that path (an absolute one without its trailing `/`) and matches what it prefixes; a glob whose placeholder path exists compiles to that path, placeholders left in and no group left |
| Globs.RewriteLeavesNoStar | Sources/Globs.swift:80-85 | the wildcard rewrites consume every `*` |
| Globs.FragmentNoStar | Sources/Globs.swift:67-71 | alternatives without `*` give an alternation without `*` |
| Globs.SubstituteKeepsOut | Sources/Globs.swift:86-88 | substituting alternations that lack a character does not bring it into the pattern |
| Globs.CompiledNoStar | Sources/Globs.swift:80-88 | when no brace alternative holds `*`, the compiled pattern holds no `*` |
| Globs.Spliced | Sources/Globs.swift:72 | `replaceSubrange` changes the length by the difference of the two texts |
| Globs.DropEnds | Sources/Globs.swift:44 | a text of at least two characters is its first character, the result and its last character |
| Globs.Braced | Sources/Globs.swift:51-52 | collapsing a group without `)` brings in no `)` |
| Globs.CollapseStep | Sources/Globs.swift:50-53 | each turn of the collapse loop removes one `)`, so the loop ends |
| Globs.Description | Sources/Globs.swift:39-56 | the loop of `description` computes `Described`: a `.path` glob gives its path; a `.regex` glob gives its pattern with `^`/`$` dropped, the wildcard rewrites undone and every parenthesised alternation turned back into a brace group |
| GlobRoundTrip.FindGroupAt | Sources/Globs.swift:66 | a group written out after text without `{` is the group found |
| GlobRoundTrip.PlainPiece | Sources/Globs.swift:66-73 | a piece that is not a group is written without braces, and the extraction and wildcard stages leave it as written |
| GlobRoundTrip.ExtractGroupStep | Sources/Globs.swift:66-73 | one turn of the extraction on a written-out group puts the next placeholder in its place and stores its alternation |
| GlobRoundTrip.ExtractPlainPiece | Sources/Globs.swift:66-73 | a piece that is not a group passes through the extraction unchanged |
| GlobRoundTrip.ExtractGroupPiece | Sources/Globs.swift:66-73 | a group piece becomes its placeholder and its alternation is stored under its number |
| GlobRoundTrip.ExtractPieces | Sources/Globs.swift:66-73 | on well-formed glob text, the extraction yields the placeholder text, stores the alternation of the k-th group under `<<<k>>>`, and adds one entry per group |
| GlobStages.FragmentFacts | Sources/Globs.swift:67-71 | the stored alternation of a group is `(`, its escaped alternatives joined by `\|`, then `)`; it holds no `^`, `+`, `<` or `*`, and no `(` after the first character |
| GlobStages.RewriteAnyChar | Sources/Globs.swift:82 | in a piece's text, `?` becomes `[^/]` and nothing else changes |
| GlobStages.RewriteAnyDirs | Sources/Globs.swift:83 | in a piece's text, `**/` becomes `(.+/)?` and nothing else changes |
| GlobStages.RewriteAnyChars | Sources/Globs.swift:84 | in a piece's text, a remaining `**` becomes `.+` and nothing else changes |
| GlobStages.RewriteStar | Sources/Globs.swift:85 | in a piece's text, a remaining `*` becomes `([^/]+)?` and nothing else changes |
| GlobStages.UnrewriteStar | Sources/Globs.swift:45 | `([^/]+)?` goes back to `*`, and no other piece holds it |
| GlobStages.UnrewriteAnyDirs | Sources/Globs.swift:46 | `(.+/)?` goes back to `**/`, and no other piece holds it |
| GlobStages.UnrewriteAnyChars | Sources/Globs.swift:47 | `.+` goes back to `**`; an escaped `.` is not followed by `+` |
| GlobStages.UnrewriteAnyChar | Sources/Globs.swift:48 | `[^/]` goes back to `?`, and no other piece holds it |
| GlobStages.Unescape | Sources/Globs.swift:49 | removing backslashes undoes the metacharacter escaping of lines 68 and 81 on alternatives without backslashes, `,` already swapped for `\|` |
| GlobStages.UnescapePiece | Sources/Globs.swift:49 | removing backslashes gives each piece back its glob text, an alternation its `\|`-separated alternatives |
| GlobStages.StraddleAnyDirs | Sources/Globs.swift:83 | no `**/` is formed across the end of one piece and the start of the next |
| GlobStages.StraddleAnyChars | Sources/Globs.swift:84 | no `**` is formed across two pieces |
| GlobStages.StraddleUnStar | Sources/Globs.swift:45 | no `([^/]+)?` is formed across two pieces |
| GlobStages.StraddleUnAnyDirs | Sources/Globs.swift:46 | no `(.+/)?` is formed across two pieces |
| GlobStages.StraddleUnAnyChar | Sources/Globs.swift:48 | no `[^/]` is formed across two pieces |
| GlobStages.RewriteText | Sources/Globs.swift:82-85 | each wildcard `replacingOccurrences` of the compiler, and likewise each of lines 45-49 of the describer, applied to the text of well-formed pieces rewrites every piece on its own and forms no match across pieces |
| GlobStages.EscapeStage | Sources/Globs.swift:81 | escaping the placeholder text escapes each piece on its own and leaves placeholders as they are |
| GlobStages.Anchored | Sources/Globs.swift:80-85 | a rewrite that involves no `^` or `$` leaves the anchors around the pattern |
| GlobStages.Compile | Sources/Globs.swift:80-85 | the escape and the four wildcard rewrites of the anchored placeholder text give the anchored level-5 text of the pieces |
| GlobStages.TokenAt | Sources/Globs.swift:70 | a placeholder occurs inside another one, or across its end, only at its start and only when the two are the same |
| GlobStages.SubstitutePiece | Sources/Globs.swift:87 | substituting `<<<m>>>` replaces exactly the placeholder of group m and leaves every other piece alone |
| GlobStages.SubstituteStraddle | Sources/Globs.swift:87 | no placeholder is formed across two pieces |
| GlobStages.SubstituteAll | Sources/Globs.swift:86-88 | substituting the stored alternations of `<<<m>>>` onwards puts every group's alternation in place of its placeholder |
| GlobStages.Describe | Sources/Globs.swift:45-49 | the five rewrites of `description` take the compiled pattern's text back to the glob text, alternations still in parentheses |
| GlobStages.BracedAlternation | Sources/Globs.swift:51-52 | collapsing a `(a\|b)` alternation gives the group `{a,b}` |
| GlobStages.CollapseAt | Sources/Globs.swift:50-52 | when no `(` precedes it, the first parenthesised text is the one the loop collapses |
| GlobStages.Collapse | Sources/Globs.swift:50-53 | the collapse loop turns every alternation of the pieces back into its brace group, from left to right |
| GlobStages.CompiledPattern | Sources/Globs.swift:60-90 | for an absolute glob with glob syntax, not ending in `/`, whose placeholder path names no file, `expandGlob` compiles to the anchored, fully substituted pattern of its pieces |
| GlobStages.DescriptionRoundTrip | Sources/Globs.swift:39-90 | `description(expandGlob(p)) == p` for an absolute glob built from well-formed pieces, not ending in `/`, whose placeholder path names no existing file |
| GlobStages.SlashedPattern | Sources/Globs.swift:60-90 | the same glob with a `/` appended compiles to the same pattern, because `URL.path` drops the `/` before the pattern is built |
| GlobStages.TrailingSlashDescribed | Sources/Globs.swift:39-90 | such a glob with a `/` appended, like `/a*/` or `/a/**/`, describes as the glob without it |
| Licenses.CollapseSpacesShape | Sources/Tribute.swift:105 | collapsing is empty only for empty text, starts with whitespace exactly when the text does, holds only spaces and characters of the text, and never two whitespace characters in a row |
| Licenses.CollapseSpacesKeepsText | Sources/Tribute.swift:105 | collapsing keeps every character that is not whitespace, in order |
| Licenses.CollapseSpacesFixed | Sources/Tribute.swift:105 | text whose whitespace is already single spaces is unchanged |
| Licenses.CollapseSpacesIdempotent | Sources/Tribute.swift:105 | collapsing twice is collapsing once |
| Licenses.PreprocessShape | Sources/Tribute.swift:102-106 | the normalised text is lowercase, has no newline and no two whitespace characters in a row |
| Licenses.PreprocessKeepsText | Sources/Tribute.swift:102-106 | normalising keeps the lowercased text apart from its whitespace |
| Licenses.ContainsIgnoringCaseLower | Sources/Tribute.swift:96-100 | a case-insensitive search finds a phrase exactly when the lowercased text contains the lowercased phrase |
| Licenses.FirstMatch | Sources/Tribute.swift:84-86 | the position found is the first type that matches, or the end when none does |
| Licenses.FirstOfIsFirst | Sources/Tribute.swift:84-88 | `first(where:)` gives the earliest matching type, and nothing exactly when none matches |
| Licenses.ClassifyNone | Sources/Tribute.swift:82-90 | `LicenseType(licenseText:)` is nil exactly when no type's phrases match the normalised text |
| Licenses.ClassifyFirst | Sources/Tribute.swift:82-90 | the type found matches, and no type before it in declaration order (BSD, MIT, ISC, Zlib, Apache) does |
| Templates.FormatNamed | Sources/Template.swift:10-14 | `Format(rawValue:)` gives the format with that raw value, and nil exactly when there is none |
| Templates.InferFromTemplateClassifies | Sources/Template.swift:15-26 | XML when the first character other than whitespace is `<` or `</` occurs anywhere; else JSON for `{`, `[` or `"`; else text, a blank template included |
| Templates.PathExtensionOf | Sources/Template.swift:28-29 | the extension of `stem.ext` is `ext` when the stem's last component is not empty |
| Templates.PathExtensionHidden | Sources/Template.swift:28-29 | a hidden file such as `dir/.xml` has no extension |
| Templates.InferFromUrlNamed | Sources/Template.swift:28-37 | a file named with a format's extension, in any case, infers that format |
| Templates.InferFromUrlOther | Sources/Template.swift:28-37 | a file named `stem.ext` whose extension, lowercased, is neither `xml` nor `json` infers `.text` |
| Templates.InferFromUrlNoDot | Sources/Template.swift:28-37 | a file whose last path component has no `.` has no extension and infers `.text` |
| Templates.InferFromUrlHidden | Sources/Template.swift:28-37 | a hidden file named after a format, such as `.json`, infers text |
| Templates.InferDefault | Sources/Template.swift:43-71 | each built-in template is inferred as the format it was built for |
| Templates.MarkerRangeLeftmost | Sources/Template.swift:78-81 | the start and end markers are the leftmost marker preceded by a newline, else the leftmost bare marker, else an empty range at the beginning or the end |
| Templates.SeparatorRangeLeftmost | Sources/Template.swift:82 | the separator marker is the leftmost `$separator`, else an empty range where the end marker begins |
| Templates.SplitTemplateSpec | Sources/Template.swift:83-96 | `render` fails in exactly three cases, each reported by its own error, first violated first; otherwise the template is header, start marker, section, separator marker, separator, end marker and footer, in that order |
| Templates.CutAtSpec | Sources/Template.swift:83-96 | for any three marker ranges, the cut succeeds exactly when they are ordered, and then the template is the seven slices in order; otherwise the first violated order is the error |
| Templates.SplitWithoutMarkers | Sources/Template.swift:78-96 | a template without markers is one section, with empty header, separator and footer |
| Templates.SplitLaidOut | Sources/Template.swift:78-96 | a template laid out as header `$start` section `$separator` separator `$end` footer splits back into those four texts, when no line break runs into a `$` and no part before a marker holds that marker (a header such as `Third-party code:` is allowed) |
| Templates.SplitLaidOutPlain | Sources/Template.swift:78-96 | the same without `$separator`, which then must appear nowhere: the separator is empty |
| Templates.SplitLaidOutExample | Sources/Template.swift:78-96 | the template `Third-party code: $start$name$separator, $end.` splits into the header `Third-party code: `, the section `$name`, the separator `, ` and the footer `.` |
| Templates.SplitDefault | Sources/Template.swift:43-96 | every built-in template passes the order checks and splits where its markers are written |
| Templates.SectionsAppend | Sources/Template.swift:98-119 | the sections of two runs of libraries are those of the first run followed by those of the second |
| Templates.BodyAppend | Sources/Template.swift:98-121 | no libraries give an empty body, so the output is header and footer; one gives its section; each further one adds the separator and its section |
| Templates.RenderDefault | Sources/Template.swift:77-122 | a built-in template renders as its header, the sections joined by its separator, and its footer |
| Templates.RenderText | Sources/Template.swift:43-122 | for library names without `$`, the built-in text template writes each library as name, blank line, license text, blank line, one after another |
| Templates.InstantiateText | Sources/Template.swift:98-118 | for a library name without `$`, the text template's section for one library is its name, a blank line, its license text and a blank line |
| Templates.QuotedPlaceholder | Sources/Template.swift:101-106 | replacing `"p"` by `"v"` before `p` by `v` gives the same text as replacing `p` by `v` alone |
| Templates.FillQuotedKept | Sources/Template.swift:99-118 | in text and XML, filling a placeholder, quoted or not, is replacing it by the escaped value |
| Templates.FillJsonQuoted | Sources/Template.swift:99-136 | in JSON, a placeholder gives the quoted JSON string whether or not the template quotes it |
| Templates.Unquoted | Sources/Template.swift:127 | what is read between the outer quotes re-quotes to the input |
| Templates.JsonUnescapeChar | Sources/Template.swift:128-136 | reading one escaped character gives that character back |
| Templates.JsonRoundTrip | Sources/Template.swift:128-136 | a JSON reader gives back exactly the text the JSON escape wrote |
| Templates.XmlEscapeByChar | Sources/Template.swift:137-145 | the entity escape followed by the `&quot;` replacement amounts to escaping character by character |
| Templates.XmlRoundTrip | Sources/Template.swift:137-145 | an XML reader gives back exactly the text the XML escape wrote |
| Templates.EscapeRoundTrip | Sources/Template.swift:124-147 | every escaped value, in every format, quoted or not, can be read back |
| Tribute.ArgumentNamesListed | Sources/Tribute.swift:173-174 | the raw values of `allCases` list every argument exactly once, starting with the empty raw value of `anonymous` |
| Tribute.ArgumentNamed | Sources/Tribute.swift:181 | `Argument(rawValue:)` gives the argument with that raw value, and nil exactly when there is none |
| Tribute.ArgumentNameRoundTrip | Sources/Tribute.swift:18-26 | raw values and arguments correspond one to one |
| Tribute.Min3 | Sources/Tribute.swift:164 | the minimum of three distances is one of them and no larger than any |
| Tribute.LevStep | Sources/Tribute.swift:158-167 | a cell of the table follows from its three neighbours as the source computes it |
| Tribute.NextRow | Sources/Tribute.swift:160-166 | the inner loop fills row `i` with the distances of the first `i` characters to every prefix |
| Tribute.EditDistance | Sources/Tribute.swift:150-169 | `editDistance` returns the Levenshtein distance, empty strings included |
| Tribute.LevSelf | Sources/Tribute.swift:149-169 | a string is at distance 0 from itself |
| Tribute.LevZero | Sources/Tribute.swift:149-169 | only equal strings are at distance 0 |
| Tribute.LevSymmetric | Sources/Tribute.swift:149-169 | the distance does not depend on the order of the strings |
| Tribute.LevBound | Sources/Tribute.swift:149-169 | the distance is at most the length of the longer string |
| Tribute.LevEmpty | Sources/Tribute.swift:149-169 | an empty string is as far from another as that one is long |
| Tribute.EditDistanceAsWritten | Sources/Tribute.swift:150-169 | as written, `editDistance` traps exactly when a string is empty, and otherwise gives the distance |
| Tribute.UnknownOptionTraps | Sources/Tribute.swift:182 | as written, every unknown `--key` reaches `editDistance` with the empty raw value of `anonymous`, which traps |
| Tribute.UnknownEmptyNameTraps | Sources/Tribute.swift:596-599 | when no library is nameless, the empty name given to `--allow` or `--skip` is unknown, and measuring any library name against it traps |
| Tribute.Suggestions | Sources/Tribute.swift:134-144 | an option is kept exactly when it is within half the query's length of it or shares its first character |
| Tribute.InsertByDistance | Sources/Tribute.swift:145 | inserting into a sequence ordered by distance keeps it ordered and adds exactly that option |
| Tribute.SortByDistance | Sources/Tribute.swift:145 | the sort orders by non-decreasing distance and is a permutation |
| Tribute.BestMatchesSpec | Sources/Tribute.swift:131-147 | `bestMatches` returns exactly the options near the query or sharing its first character, each as often as offered, nearest first |
| Tribute.NeverSuggestsEmpty | Sources/Tribute.swift:138-139 | the empty name of `anonymous` is never suggested for a non-empty query |
| Tribute.FirstWithPrefix | Sources/Tribute.swift:193 | the position found is the first argument whose raw value starts with the flag, or the end |
| Tribute.StripCommaSpec | Sources/Tribute.swift:201-204 | one trailing comma is removed, a lone comma is kept, and a value without one is unchanged |
| Tribute.PreprocessArguments | Sources/Tribute.swift:172-209 | the loop returns the lists built by parsing left to right, or the first error |
| Tribute.PreprocessAppend | Sources/Tribute.swift:177-207 | parsing one more argument is one more step of the loop |
| Tribute.PreprocessStops | Sources/Tribute.swift:182-194 | once an argument fails, parsing fails with that error whatever follows |
| Tribute.PreprocessLongKnown | Sources/Tribute.swift:178-189 | `--key` for a known key makes it current and gives it a list, keeping what it holds; `--` alone selects `anonymous` |
| Tribute.PreprocessLongUnknown | Sources/Tribute.swift:178-186 | `--key` for an unknown key fails with the key and the first suggestion, whatever follows |
| Tribute.PreprocessShort | Sources/Tribute.swift:190-198 | `-f` selects the first argument in declaration order whose raw value starts with `f`, giving it a list, and fails when there is none |
| Tribute.StepShort | Sources/Tribute.swift:190-198 | one step on `-f` is the short-flag branch |
| Tribute.StepValue | Sources/Tribute.swift:200-206 | a value goes to the list of the current argument, comma stripped |
| Tribute.PreprocessValues | Sources/Tribute.swift:200-207 | values are appended in order, comma stripped, to the list of the argument named last; nothing else changes |
| Tribute.PreprocessAnonymous | Sources/Tribute.swift:200-207 | without any flag every value goes to `anonymous`, in order |
| Tribute.AddingTrailingSpace | Sources/Tribute.swift:124-126 | the text padded with spaces to exactly the width |
| Tribute.NameWidth | Sources/Tribute.swift:483-490 | the width counted for a name is the length of the name column written |
| Tribute.MaxOf | Sources/Tribute.swift:483-488 | `.max() ?? 0` is an upper bound reached by some element, and 0 for none |
| Tribute.LineColumns | Sources/Tribute.swift:489-494 | a line is the name padded to the name width, two spaces, the type padded to the type width, two spaces and the license path |
| Tribute.ListLineColumns | Sources/Tribute.swift:483-495 | every line of `list` pads names and types to the same two widths, so types and paths start at the same column on every line |
| Tribute.ListWidthsTight | Sources/Tribute.swift:483-488 | each column is as wide as its widest entry and no wider |
| Tribute.LineOneLine | Sources/Tribute.swift:489-494 | a line holds no line break when the name column and the path hold none |
| Tribute.ListLinesBack | Sources/Tribute.swift:489-495 | the output of `list` splits back into its lines |
| Tribute.LowerAllMembers | Sources/Tribute.swift:544-545 | a name is among the lowercased names exactly when it is the lowercasing of a given name |
| Tribute.LibraryNamesMembers | Sources/Tribute.swift:596 | a name is among the library names exactly when it is some library's lowercased name |
| Tribute.FirstUnknown | Sources/Tribute.swift:598 | the position found is the first name not among the known ones, or the end |
| Tribute.Unskipped | Sources/Tribute.swift:606-609 | exactly the libraries whose lowercased name is not skipped |
| Tribute.FilterLibrariesOk | Sources/Tribute.swift:606-619 | the filter succeeds exactly when no library is rejected, and then keeps the unskipped libraries in order |
| Tribute.FilterLibrariesErr | Sources/Tribute.swift:606-617 | a failing filter names the first rejected library's path and escaped name |
| Tribute.ExportFilterUnknown | Sources/Tribute.swift:598-603 | `export` fails on an unknown library exactly when a name given to `--allow` or `--skip` names no library found, and then reports the first |
| Tribute.ExportFilterOk | Sources/Tribute.swift:598-619 | `export` gets past the filter exactly when every name given is known and every library not skipped is allowed or recognised; it keeps the unskipped libraries in order, all of them admitted |
| Strings.Find | Sources/Template.swift:78-82 | `range(of:)` finds the leftmost occurrence, and nothing exactly when there is none |
| Strings.Split | Sources/Globs.swift:51 | `components(separatedBy:)` gives separator-free pieces that join back into the text |
| Strings.JoinSplit | Sources/Globs.swift:51-52 | splitting at one character and joining with another swaps the characters |
| Strings.ReplaceAllAppend | Sources/Template.swift:101-118 | replacement distributes over a concatenation that no occurrence straddles |
| Strings.Lower | Sources/Tribute.swift:103 | the same length, no upper-case letter left, and text without one unchanged (ASCII) |
| Strings.LowerIdempotent | Sources/Tribute.swift:103 | lowercasing twice is lowercasing once |
| Strings.Trim | Sources/Template.swift:16 | the trimmed text is the slice of the text between a whitespace-only prefix and a whitespace-only suffix, and neither starts nor ends with whitespace |
| Strings.TrimContains | Sources/Template.swift:16-18 | trimming neither adds nor removes an occurrence of a phrase that starts and ends with a character other than whitespace, such as `</` |
| Strings.TrimFirst | Sources/Template.swift:16-17 | the first character of the trimmed text is the first character that is not whitespace |
| Strings.AfterLast | Sources/Template.swift:29 | what follows the last occurrence of a character, and nothing exactly when it is absent |
| Strings.NatToStringInjective | Sources/Globs.swift:70 | different numbers are written differently |

## Left out

- `matchGlobs` and `fetchLibraries`, with the `Package.resolved` decoding and the derived-data lookup: they enumerate directories and read files.
- Regular-expression matching (the `.regex` case of `Glob.matches`): the engine is a parameter, and a `.regex` glob keeps its pattern as text.
- GlobStages.DescriptionRoundTrip: the round trip is proved for absolute globs (starting with `/`) that meet four conditions. Their literal characters avoid the glob, escape, group and placeholder syntax and the character-class brackets (`*?{}()|\^<[]`). Their groups are non-empty, with alternatives free of that syntax and of `+`, so `/{a+b}` is outside. No two of the wildcards `*`, `**` and `**` + `/` come in a row, so `/a***` and `/a/**/*.md` are outside. They do not end in `/`; GlobStages.TrailingSlashDescribed covers a glob with a `/` appended. A relative glob is first made absolute against the directory, so it describes as the expanded path; for other texts `description` does not give the glob back in general.
- Globs.ExpandGlob, Globs.CompiledGlob: `expandGlob` builds the regular expression with `try! NSRegularExpression(pattern:)`, which traps on a pattern the engine rejects, such as one with an unclosed `[` from the glob `/[a`. The model does not check regular-expression syntax and always returns the pattern. GlobStages.CompiledPattern and GlobStages.DescriptionRoundTrip exclude `[` and `]`, so they make no claim about such globs.
- Templates.PathExtension: of Foundation's rules for `pathExtension`, only the hidden-file rule is modelled. Trailing slashes and the validation of extension characters are not.
- Globs.ExpandPath: tilde expansion is left out, so a path starting with `~` is returned unchanged. Of Foundation's `URL` normalisation, only the dropping of trailing `/`s by `URL.path` is modelled. The model drops every trailing `/`; how Foundation treats several trailing or doubled `/`s is not modelled. A relative directory is not resolved against the working directory.
- The token-substitution loop of `expandGlob` walks a Swift dictionary, whose order is unspecified. The model substitutes `<<<0>>>`, `<<<1>>>`, ... in ascending order.
- Tribute.SortByDistance: `sorted(by:)` does not promise an order among options at equal distance. The model keeps them in their input order; `Ranked` and the permutation property hold for any such order.
- Lowercasing and whitespace are ASCII only. String lengths count `char`s, not grapheme clusters.
- The `\s+` replacement is modelled as collapsing each maximal run of ASCII whitespace into one space, not through a regular-expression engine.
- JSON and XML escaping are written out character by character, not taken from `JSONEncoder` and `PropertyListEncoder`. The pre-10.15 branch, which also escapes `/`, is left out, as are the encoders' failure fallbacks. Code points above `U+FFFF` are left out of the JSON reader, which refuses surrogate escapes.
- Tribute.AddingTrailingSpace: requires the width to be at least the text's length. A negative repeat count traps in the source.
- In `export`: template loading from a file, the choice between `--format`, the output file's extension and inference, `render` on the filtered libraries, and writing the output.
- The `check` command, help text, command dispatch and `main.swift`: process I/O outside the modelled logic.

## Findings

| source | as written | input that shows it | evidently intended | confidence | as-written member | corrected member |
|---|---|---|---|---|---|---|
| Sources/Tribute.swift:150-169 | `editDistance` loops over the closed ranges `1 ... rhs.count` and `1 ... lhs.count`, which trap when a string is empty; `bestMatches` measures every unknown option against the argument names, the first of which is the empty raw value of `anonymous` | the argument `--foo`, given to any command that parses options; also `export --allow ""` (or `--skip ""`), which passes the empty name to `bestMatches` as its query (Tribute.UnknownEmptyNameTraps) | the distance of an empty string is the other's length, so `--foo` reports "Unknown option --foo." with a suggestion instead of trapping | not executed | Tribute.EditDistanceAsWritten | Tribute.EditDistance |
