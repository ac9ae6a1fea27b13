# sortimports, modelled in Dafny

sortimports rewrites the first `import ( … )` block of a Go source file. It puts the imports into three tiers:

- standard-library paths (tier 0);
- other paths with a dot in them (tier 1);
- paths under the package's own repository (tier 2).

Within a tier the paths are in byte order. Tiers are separated by a blank line. The comment lines above an import and the comment after it travel with the import.

This project models the part of the tool that does not touch files:

- **The locator** finds the block and splices the sorted text back in. The first "import (" and the first ")" after it bound the block.
- **The resolver** computes the package's *local prefix*: its repository root, found by five path patterns tried in order, the first one that matches winning.
- **The parser** reads the block line by line into import records. It has three error exits.
- **The sort** orders the records by tier, then path, in place on an array.
- **The render loop** writes the sorted records back out.

The modules follow the program's stages:

| module | stage |
|---|---|
| `Types` | shared values |
| `Text` | the string functions the program calls |
| `LocalPrefix` | the resolver |
| `Grouping` | the tier function, the order and the sort |
| `Parser` | the scanner loop |
| `Render` | the output buffer and the render loop |
| `Readback` | what the parser's output and the rendered text contain |
| `Process` | the locator, `sortImportSection` and `process` |

The main results:

- **Round trip.** Parsing the rendered text gives back the records in the order they were written (`Render.RenderThenParse`).
- **Idempotence.** Running `process` on its own output changes nothing when no path repeats in the block (`Process.ProcessTwice`).
- **Exact parser outcome.** The parser succeeds exactly when every import line is well formed and the block does not end in a blank or comment line (`Parser.ParseLinesOutcome`). Otherwise it returns the error of the first bad import line (`Parser.FirstBadLine`), or the dangling-comment error when there is none.
- **Exact resolver outcome.** The local prefix is the capture of the first rule that matches. For each rule, a `…Form` lemma gives the prefix of a path of that rule's form, and a `…Capture` lemma shows that every capture has that form.

Behaviour taken from the code where descriptions of the tool say otherwise:

- **The sort is `sort.Sort`, which is not stable.** The model promises only that the result is sorted and a permutation of the parsed records. Two records with the same path may come out in either order, so idempotence is claimed only for blocks without repeated paths.
- **The render loop starts from tier 0.** A block whose first import is not in the standard-library tier therefore begins with a blank line (`Render.LeadingBlankLine`).
- **Every import line is written as local name, space, quoted path, space, comment.** The spaces are written even when the name or the comment is empty.
- **The comment after an import is split off at the first "//" of the line, quotes or not.**
- **A block whose last line is blank or a comment fails** with the dangling-comment error (`Parser.TrailingBlankFails`).
- **One test expectation is stale.** `sortimports_test.go:17-18` expects an empty prefix for `gopkg.in/juju/foo.v1a/arble/bletch`. Under the code's rule table the generic host rule captures `gopkg.in/juju` for it. The model follows the code and states nothing about that test row.

## Model

| member | source | states |
|---|---|---|
| LocalPrefix.SegmentEnd | sortimports.go:216-220 | the end of a `[^/]+` run: every character before it is not '/', and it is the end of the text or a '/' |
| LocalPrefix.IsVersionedIff | sortimports.go:216 | the digit-scanning test accepts exactly a segment made of a non-empty name, ".v" and one or more digits |
| LocalPrefix.IsHostSegmentIff | sortimports.go:220 | the letter-scanning test accepts exactly a segment of lower-case letters, a dot, and at least one more character |
| LocalPrefix.MatchVersionedGopkg | sortimports.go:216 | a capture starts with "gopkg.in/" and is the package or an ancestor of it |
| LocalPrefix.MatchGitHub | sortimports.go:217 | a capture starts with "github.com/" and is the package or an ancestor of it |
| LocalPrefix.MatchHostThenSegment | sortimports.go:218-219 | the launchpad.net and code.google.com rules, one matcher given the host: a capture starts with the host and is the package or an ancestor of it |
| LocalPrefix.MatchGenericHost | sortimports.go:220 | a capture is non-empty and is the package or an ancestor of it |
| LocalPrefix.Match | sortimports.go:215-228 | whatever rule of the table matches, its capture is a non-empty ancestor-or-self of the package |
| LocalPrefix.FirstMatch | sortimports.go:231-236 | the result is empty exactly when no rule matches; otherwise it is the capture of the first rule that matches |
| LocalPrefix.LocalPackagePrefix | sortimports.go:230-237 | a non-empty local prefix is the package path itself or one of its ancestors |
| LocalPrefix.FirstMatchIsAMatch | sortimports.go:231-236 | a non-empty result is the capture of some rule of the table |
| LocalPrefix.FirstRuleWins | sortimports.go:231-234 | when the gopkg.in rule matches, its capture is the prefix |
| LocalPrefix.RuleWins | sortimports.go:231-234 | the capture of a matching rule is the prefix when no earlier rule matches |
| LocalPrefix.GopkgOwnerForm | sortimports_test.go:11-15 | gopkg.in/OWNER/NAME.vN followed by nothing or "/…" has the prefix gopkg.in/OWNER/NAME.vN |
| LocalPrefix.GopkgNameForm | sortimports.go:216 | the path gopkg.in/NAME.vN is its own prefix |
| LocalPrefix.GopkgNameThenForm | sortimports_test.go:20-21 | gopkg.in/NAME.vN followed by a segment that is not versioned has the prefix gopkg.in/NAME.vN |
| LocalPrefix.GitHubForm | sortimports_test.go:29-33 | github.com/OWNER/REPO and everything below it has the prefix github.com/OWNER/REPO |
| LocalPrefix.LaunchpadForm | sortimports_test.go:35-39 | launchpad.net/NAME and everything below it has the prefix launchpad.net/NAME |
| LocalPrefix.GoogleCodeForm | sortimports_test.go:41-45 | code.google.com/p/NAME and everything below it has the prefix code.google.com/p/NAME |
| LocalPrefix.GenericHostForm | sortimports.go:220 | on any other host of the form letters-dot-anything, HOST/OWNER and everything below it has the prefix HOST/OWNER |
| LocalPrefix.GoogleCodeAlsoGeneric | sortimports.go:219-220 | the generic rule alone would capture only code.google.com/p, so the table's order decides the prefix |
| LocalPrefix.NoDotNoPrefix | sortimports.go:215-221 | a path whose first segment holds no dot, such as a standard-library path, has no local prefix |
| LocalPrefix.GopkgCapture | sortimports.go:216 | converse of the gopkg.in `…Form` lemmas: every capture is "gopkg.in/", an optional owner segment with its "/", and a versioned name ending at "/" or at the end of the path; without an owner segment, the segment after the name is not versioned |
| LocalPrefix.GitHubCapture | sortimports.go:217 | converse of `GitHubForm`: every capture is "github.com/", a non-empty owner, "/" and a non-empty repository, ending at "/" or at the end of the path |
| LocalPrefix.HostThenSegmentCapture | sortimports.go:218-219 | converse of `LaunchpadForm` and `GoogleCodeForm`: every capture is the host and one non-empty segment, ending at "/" or at the end of the path |
| LocalPrefix.GenericHostCapture | sortimports.go:220 | converse of `GenericHostForm`: every capture is a whole first segment of the form letters-dot-anything, "/" and a non-empty segment, ending at "/" or at the end of the path |
| Grouping.Group | sortimports.go:202-213 | the tier is 2 exactly when the path is the local prefix or lies under it at a '/' boundary; it is 1 exactly when it is not and the path holds a dot; otherwise 0 |
| Grouping.OwnPackageIsLocal | sortimports.go:202-208 | a package with a local prefix is in the local tier |
| Grouping.SiblingNotLocal | sortimports.go:204-205 | a path that merely starts with the prefix text, without a '/' after it, is not local |
| Grouping.StrLessIrreflexive | sortimports.go:191 | byte-wise string order is irreflexive |
| Grouping.StrLessTransitive | sortimports.go:191 | byte-wise string order is transitive |
| Grouping.StrLessTotal | sortimports.go:191 | any two distinct strings are ordered one way or the other |
| Grouping.Less | sortimports.go:186-192 | the lower tier first, then the smaller path; two imports of one path are never ordered. It is a strict weak order, as `sort.Sort` requires: see LessIrreflexive, LessTransitive, LessTies and NotLessTransitive |
| Grouping.LessIrreflexive | sortimports.go:186-192 | no import is less than itself |
| Grouping.LessTransitive | sortimports.go:186-192 | Less is transitive |
| Grouping.LessTies | sortimports.go:186-192 | two imports neither of which is less than the other have the same path |
| Grouping.NotLessMeans | sortimports.go:186-192 | y is not less than x exactly when the paths are equal or x is less than y |
| Grouping.NotLessTransitive | sortimports.go:186-192 | not-less is transitive, so Less is a strict weak order |
| Grouping.SortedMeansKeyOrder | sortimports.go:162-166 | in a sorted list tiers never decrease, and within a tier paths never decrease |
| Grouping.SortedUnique | sortimports.go:162-166 | two sorted arrangements of the same records without repeated paths are equal |
| Grouping.Swap | sortimports.go:194-196 | the two slots are exchanged, nothing else changes, and the contents are a permutation of the old ones |
| Grouping.SortByGroup | sortimports.go:162-166 | the array ends up sorted by Less and is a permutation of its old contents |
| Text.TrimSpaceSpec | sortimports.go:129 | the trimmed text is a slice of the line, white space only around it, and starts and ends with a non-space character |
| Text.IndexSpec | sortimports.go:140 | Index finds the first occurrence, or -1 when there is none |
| Text.IndexByteSpec | sortimports.go:107 | IndexByte finds the first occurrence of the character, and -1 exactly when it is absent |
| Text.FieldsWords | sortimports.go:144 | every field is a non-empty run of non-space characters |
| Text.FieldsUnwords | sortimports.go:144 | words joined by single spaces, with trailing white space, split back into the same words |
| Text.FieldsSpace | sortimports.go:144 | a leading white-space character of any kind (space, tab, newline, vertical tab, form feed, carriage return) separates no field |
| Text.FieldsSpaces | sortimports.go:144 | a leading run of white space separates no field |
| Text.FieldsInterleave | sortimports.go:144 | words separated by non-empty runs of any white space, with any white space before and after them, split back into exactly those words |
| Text.FieldsAtTabs | sortimports.go:144 | a tab-indented line with a local name and a quoted path splits into the name and the quoted path |
| Text.ScanLinesNoNewline | sortimports.go:127 | no scanned line holds a newline |
| Text.ScanLinesUnlines | sortimports.go:127 | scanning newline-terminated lines gives those lines back |
| Text.UnlinesScanLines | sortimports.go:127 | joining the scanned lines gives the text back, newline-terminated |
| Text.UnquoteSpec | sortimports.go:148 | a literal that unquotes is the quoted form of the string it yields |
| Text.UnquoteQuote | sortimports.go:148 | unquoting the quoted form of a plain path gives the path back |
| Text.TrimSpace | sortimports.go:129 | strings.TrimSpace; its meaning is stated by TrimSpaceSpec |
| Text.Index | sortimports.go:140 | strings.Index; the result is -1 or a position within the text, and IndexSpec says it is the first occurrence |
| Text.IndexByte | sortimports.go:107 | the search for ")" inside importRegex; the result is -1 or a position in the text, and IndexByteSpec says it is the first occurrence |
| Text.Fields | sortimports.go:144 | strings.Fields; FieldsWords says every field is a word, and FieldsInterleave says the words come back from any text that interleaves them with white-space runs |
| Text.ScanLines | sortimports.go:127 | bufio.ScanLines; ScanLinesNoNewline, ScanLinesUnlines and UnlinesScanLines relate it to joining lines |
| Text.Unquote | sortimports.go:148 | strconv.Unquote on plain literals; UnquoteSpec and UnquoteQuote make it the inverse of Quote |
| Text.Quote | sortimports.go:176 | the `%q` verb on plain paths; UnquoteQuote states that Unquote inverts it |
| Parser.SplitComment | sortimports.go:140-143 | the line is its code part followed by its comment part; the code part holds no "//"; the comment part is empty or starts with "//" |
| Parser.ParseImportLine | sortimports.go:139-160 | an error carries the raw line, and a record keeps the comments gathered above it. ParseImportLineBack makes it the inverse of the rendering, ParsedLine says what each field of a record is, and ParseImportLineAnyPre says the comments above do not decide the outcome |
| Parser.ParseImportLineAnyPre | sortimports.go:144-151 | whether a line parses, and with which error, does not depend on the comments above it |
| Parser.NextCode | sortimports.go:130-138 | the comment loop stops at the first line that is neither blank nor a comment, or at the end of the block |
| Parser.TakeImport | sortimports.go:127-160 | one turn of the scanner loop consumes at least one line and stays within the block |
| Parser.TakeImportAt | sortimports.go:129-160 | one turn gathers the comment lines before the first import line, in order, and parses that line with them |
| Parser.TakeImportDangling | sortimports.go:134-136 | a turn that finds only blank and comment lines ends in the dangling-comment error |
| Parser.ReadImport | sortimports.go:128-160 | the loop over lines computes one turn of the scanner loop |
| Parser.ParseLines | sortimports.go:126-161 | the scanner loop from a given line: a success has at most one record per remaining line. ParseLinesSpec, ParseLinesOutcome and FirstBadLine say what it returns |
| Parser.ParseSection | sortimports.go:126-161 | the scanner over the whole block: a success has at most one record per line. ParseSectionSpec and ParseSectionChunks say what it returns, and RenderThenParse makes it the inverse of the rendering |
| Parser.ParseImports | sortimports.go:126-161 | the scanner loop returns what the line-by-line reading of the block defines |
| Parser.ParseLinesSpec | sortimports.go:126-161 | on success each import line parses to its record, in order, and the records' comments are the block's comment lines in order |
| Parser.ParseSectionSpec | sortimports.go:126-161 | a parsed block yields one record per import line, and each record is what its line parses to |
| Parser.ParseSectionChunks | sortimports.go:126-161 | a block parses to a list of records exactly when its lines split into chunks, each made of blank and comment lines and one import line, that yield those records |
| Parser.ParseLinesOutcome | sortimports.go:126-161 | the loop succeeds exactly when every import line parses and the last line is not blank or a comment; it fails with the dangling-comment error exactly when every import line parses and the last line is blank or a comment |
| Parser.FirstBadLine | sortimports.go:144-151 | when an import line fails and every import line before it parses, the loop returns that line's own error |
| Parser.TrailingBlankFails | sortimports.go:134-136 | a block whose last line is blank or a comment does not parse |
| Render.Buffer.constructor | sortimports.go:115 | a new buffer is empty |
| Render.Buffer.Write | sortimports.go:115-121 | a write appends the text to the buffer's contents |
| Render.ImportLine | sortimports.go:176 | the `"%s %q %s"` line of one import; ParseImportLineBack parses it back to the same import |
| Render.Rendered | sortimports.go:167-177 | the text the render loop writes; WriteImports writes it, RenderThenParse parses it back and LeadingBlankLine describes its first line |
| Render.WriteChunk | sortimports.go:173-176 | writes the import's comment lines and then its import line, each ending in a newline |
| Render.WriteImports | sortimports.go:167-177 | the render loop appends the rendering of the list to the buffer |
| Render.TrimImportLine | sortimports.go:176 | trimming a written import line drops the padding spaces around an empty name or comment |
| Render.SplitImportLine | sortimports.go:176 | the comment split of a written line gives back the import's comment |
| Render.ParseImportLineBack | sortimports.go:139-160 | a written import line is not skipped and parses back to the same import |
| Render.RenderedChunk | sortimports.go:169-176 | what is written for one import, with its blank separator line, is one chunk for that import |
| Render.RenderedOneLine | sortimports.go:167-177 | no written line holds a newline |
| Render.RenderThenParse | sortimports.go:126-177 | parsing the rendering of well-formed imports gives back the same imports, in the same order |
| Render.LeadingBlankLine | sortimports.go:167-172 | the output starts with a blank line exactly when the first import is not in tier 0 |
| Readback.ParsedLine | sortimports.go:139-160 | a parsed record's name, path and comment are pieces of its line: a name of one word, a plain path without white space or "//", a comment that starts with "//" and ends without white space |
| Readback.ParsedWellFormed | sortimports.go:126-161 | every parsed record is written back in a form the parser reads again, and holds no character absent from the block |
| Readback.Rearranged | sortimports.go:162-166 | a rearrangement of the records keeps these properties |
| Readback.RenderedFree | sortimports.go:167-177 | the rendering holds no character, other than space, quote and newline, that the records do not hold |
| Process.Locate | sortimports.go:107-114 | a match lies within the data |
| Process.LocateSpec | sortimports.go:107-114 | the match starts after the first "import (" and ends at the first ")" after it; there is none exactly when no ")" follows any "import (" |
| Process.LocateSplice | sortimports.go:107-121 | after the interior is replaced by text without ")", the match is the new text |
| Process.Processed | sortimports.go:109-123 | what process returns: the data unchanged without a block, the parse error, or the spliced text; ProcessData establishes it and ProcessTwice shows it is idempotent |
| Process.SortImportSection | sortimports.go:125-179 | on a parse error the error is returned and nothing is written; otherwise the sorted arrangement is a permutation of the parsed records and its rendering is appended |
| Process.ProcessData | sortimports.go:109-123 | the data unchanged when there is no block; the parse error; or the text before the interior, the sorted interior and the text from the closing ")" on |
| Process.ProcessTwice | sortimports.go:109-179 | when no path repeats in the block, processing the output again gives the same output |

## Left out

- Reading and writing files, command-line flags, `main`, `warning` and the exit code: these are I/O.
- Running `format.Source` on the output: that is the Go formatter, a foreign library.
- Finding the package path: `gotool.ImportPaths` expands the command-line arguments (sortimports.go:51), and `build.Import(…).ImportPath` gives the path that `process` receives (sortimports.go:58-63). Both are library calls over the file system, so the path is a parameter of `ProcessData`.
- The regular-expression engine: `importRegex` and the five matchers are written out as direct scans. `LocateSpec` ties the locator to the first "import (" and the first ")" after it. For the matchers, the `…Form` lemmas give the capture for every path of a rule's form, and the `…Capture` lemmas show that every capture has that form. Together they state the patterns' meaning in both directions.
- LocalPrefix.Matchers: the rule table of `matchers` is a constant sequence of rule names with no contract of its own. Its content and order are stated through `Match`, `FirstMatch` and `LocalPackagePrefix`.
- Text.Unquote accepts only string literals without escapes, over printable ASCII other than '"' and '\'. The rest of the literal grammar, including back-quoted and escaped literals, is rejected. On that subset Quote is exactly `%q`.
- Text.TrimSpace and Text.Fields treat only ASCII white space as space; Unicode white space is not modelled.
- Text.ScanLines does not model the scanner's token-size limit or its stripping of a '\r' before '\n'.
- Bytes are modelled as characters, and `[]byte` data as a string.
- Grouping.SortByGroup is an insertion sort standing in for `sort.Sort`. Only "sorted and a permutation" is promised, which is all that `sort.Sort` promises; the order it leaves among equal keys is not modelled.
- The `Len` method of the sort interface is the length of the array and has no member of its own.
- Parse errors are datatype values carrying the offending line, not formatted error messages.
- Process.ProcessTwice requires that no path repeats in the block. With a repeated path an unstable sort may order the duplicates differently on a second run, so nothing is claimed then.
- Process.SortImportSection and Process.ProcessData return the arrangement the sort produced as a ghost result. Their contracts name it because the order among records with the same path is not determined.
