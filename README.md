# PageModel front-matter parser, modelled in Dafny

This project models the core of `PageModel`, the page model of the
SolidifyProject static site engine. A page's raw text begins with a
front-matter header of `Name: Value` lines and ends the header at a `---`
line; what follows is the page body. The model has three parts:

- **Parsing the header** (`Parse`, `ParseAttributeLine`, `ParseContent`).
  - The raw text is split into lines.
  - The trimmed, non-blank lines before the separator are attribute lines. Each one sets a fixed field: `Title`, `Url`, `TemplateType`, or `TemplateId` and its aliases.
  - A dotted `Custom.` or `Model.` name adds a branch to one of two free-form trees.
  - The lines after the separator are joined with CRLF into `Content`.
- **Building path trees** (`ParseCustomAttribute`). A dotted name adds one new key to a node. The key is bound to a fresh chain of single-key nodes that ends in the scalar value.
- **Resolving the model tree** (`MapDataToModel`, `mapDataToPageModel`, `getValueFromDataObject`).
  - Every scalar leaf of `Model` is read as a dotted path into a data mapping and replaced, in place, by what the path leads to.
  - A leading `Data` segment is dropped.
  - A scalar met on the way gives null.
  - A missing key is an error.

Layout:

| file | module | contents |
|---|---|---|
| `wrappers.dfy` | `Wrappers` | `Option`, `Result` and one `Error` kind per exception the source raises |
| `text.dfy` | `Text` | the .NET string operations the parser relies on: `Trim`, `Split` on characters and on a string array, `StringSplitOptions.RemoveEmptyEntries`, `Join`, ordinal case-insensitive comparison |
| `trees.dfy` | `Trees` | the `ExpandoObject` trees as a datatype (`Value = Null \| Str \| Node(seq<Entry>)`), branch insertion and path walking |
| `header.dfy` | `Header` | the constants, line selection, the name/value split, name classification, and one line and a sequence of lines applied to the header fields |
| `resolver.dfy` | `Resolver` | path lookup and the resolution pass over a model tree |
| `page_model.dfy` | `PageModels` | `class PageModel`: the fields the parser assigns, and the imperative methods, each proved against the functions above |

Each method of `PageModel` is specified by a function on values:
- `Parse` by `ApplyLines` over `HeaderLines`, with `BodyLines` for the body.
- `ParseAttributeLine` by `ApplyLine`.
- `ParseCustomAttribute` by `Insert`.
- `MapDataToPageModel` by `ResolveEntries`.
- `GetValueFromDataObject` by `LookupPath`.

What the source promises is then proved about those functions as lemmas.

Three behaviours of the code are easy to misread, and the model follows the
code in each:
- **CRLF line endings.** `END_OF_LINE` lists `"\r"` before `"\r\n"`, and `String.Split` tries the separators in array order. So a CRLF pair ends one line and leaves an empty line behind it; nothing de-duplicates the terminators (`Header.SplitLinesOnChars`).
- **Values containing `:`.** The line is split on every `:` and piece 1 is taken, so the value is the text between the first and the second `:`; a value cannot hold a further `:` (`Header.ValueEndsAtSecondColon`).
- **Repeated keys.** A key repeated at the top level of `Custom` or `Model` goes to `ICollection.Add` on an `ExpandoObject`, which throws. The model makes it the error `DuplicateKey`, not a second sibling entry.

## Model

| member | source | states |
|---|---|---|
| Header.SplitLinesOnChars | src/SolidifyProject.Engine.Infrastructure/Models/PageModel.cs:52 | splitting on the array `{"\r", "\n", "\r\n"}` equals splitting on the characters CR and LF, so CRLF yields an extra empty line |
| Header.SplitOnOneChar | src/SolidifyProject.Engine.Infrastructure/Models/PageModel.cs:75 | splitting on a one-entry array holding a one-character string is splitting on that character |
| Header.HeaderLinesBeforeSeparator | src/SolidifyProject.Engine.Infrastructure/Models/PageModel.cs:54-57 | the attribute lines are exactly the trimmed, non-empty lines before the first line whose trimmed form is `---`, in order; every earlier line differs from the separator once trimmed |
| Header.HeaderIgnoresTail | src/SolidifyProject.Engine.Infrastructure/Models/PageModel.cs:54-61 | whatever follows the line that ends the header never changes the attribute lines |
| Header.BodyLinesAfterSeparator | src/SolidifyProject.Engine.Infrastructure/Models/PageModel.cs:63 | the body lines are the untrimmed lines strictly after the first line exactly equal to `---`; with no such line there are none |
| Header.HeaderEndsNoLaterThanBody | src/SolidifyProject.Engine.Infrastructure/Models/PageModel.cs:56-63 | the header ends at or before the line that starts the body |
| Header.PaddedSeparator | src/SolidifyProject.Engine.Infrastructure/Models/PageModel.cs:56-63 | a line that is `---` only once trimmed ends the header but does not start the body |
| Header.AttributeNameAndValue | src/SolidifyProject.Engine.Infrastructure/Models/PageModel.cs:75-78 | a line without `:` fails as malformed; otherwise the name is the trimmed text before the first `:` and the value the trimmed text between the first and the second `:` |
| Header.ValueEndsAtSecondColon | src/SolidifyProject.Engine.Infrastructure/Models/PageModel.cs:75-78 | everything after a second `:` is dropped from the value |
| Header.Classify | src/SolidifyProject.Engine.Infrastructure/Models/PageModel.cs:113-125 | a dotted name sent to `Custom` or `Model` always carries a non-empty path |
| Header.FixedNames | src/SolidifyProject.Engine.Infrastructure/Models/PageModel.cs:80-111 | a name selects `Title`, `Url` or `TemplateType` exactly when it equals that name ignoring case, and the template id exactly when it equals one of `TemplateId`, `Template`, `LayoutId`, `Layout` ignoring case |
| Header.FixedNamesIgnoreCase | src/SolidifyProject.Engine.Infrastructure/Models/PageModel.cs:80-107 | names that differ only in letter case select the same fixed field |
| Header.DottedNames | src/SolidifyProject.Engine.Infrastructure/Models/PageModel.cs:113-152 | a name goes to `Custom` (or `Model`) only if it contains `.` and its non-empty segments, at least two, start with `Custom` (or `Model`) ignoring case; the path is the other segments, each non-empty and free of `.`; any other dotted name is an unknown namespace; a name is unknown exactly when it has no `.` and matches no fixed name |
| Header.ParseTemplateType | src/SolidifyProject.Engine.Infrastructure/Models/PageModel.cs:94-95 | the parsed template type is an enumeration member equal to the value ignoring case, and there is none exactly when no member matches |
| Header.TemplateTypeLine | src/SolidifyProject.Engine.Infrastructure/Models/PageModel.cs:92-105 | a `TemplateType` line fails, with `InvalidTemplateType`, exactly when its value names no member; otherwise it sets the template type to a matching member and changes nothing else |
| Header.ApplyLinesAppend | src/SolidifyProject.Engine.Infrastructure/Models/PageModel.cs:58-61 | applying `a + b` applies `a` and then, unless `a` failed, `b` |
| Header.ApplyTitleLine | src/SolidifyProject.Engine.Infrastructure/Models/PageModel.cs:80-84 | a title line sets the title and nothing else |
| Header.ApplyOtherLine | src/SolidifyProject.Engine.Infrastructure/Models/PageModel.cs:86-152 | an accepted line that does not name the title leaves the title as it was |
| Header.TitleUntouched | src/SolidifyProject.Engine.Infrastructure/Models/PageModel.cs:47-61 | lines that do not name the title leave it as it was, since `Parse` never resets it |
| Header.LastTitleWins | src/SolidifyProject.Engine.Infrastructure/Models/PageModel.cs:58-84 | once the lines before the last title line are accepted, that line decides the title, whether or not a later line fails |
| Header.ApplyAttributeWellFormed | src/SolidifyProject.Engine.Infrastructure/Models/PageModel.cs:113-125 | an accepted attribute keeps every node of both trees free of duplicate keys |
| Header.ApplyLineWellFormed | src/SolidifyProject.Engine.Infrastructure/Models/PageModel.cs:73-153 | an accepted line keeps every node of both trees free of duplicate keys |
| Header.ApplyLinesWellFormed | src/SolidifyProject.Engine.Infrastructure/Models/PageModel.cs:58-61 | any sequence of lines, whether or not one fails, keeps both trees free of duplicate keys |
| Trees.Get | src/SolidifyProject.Engine.Infrastructure/Models/PageModel.cs:219 | the dictionary indexer finds a value exactly when some entry has the key, and the value found is bound to the key |
| Trees.ChainWalk | src/SolidifyProject.Engine.Infrastructure/Models/PageModel.cs:161-170 | the fresh chain built for a path is well formed, and walking the path along it gives back the scalar |
| Trees.InsertAddsOneEntry | src/SolidifyProject.Engine.Infrastructure/Models/PageModel.cs:155-173 | insertion fails with `DuplicateKey` exactly when the first segment is already a key; otherwise it appends exactly one entry, bound to the fresh chain, keeps the earlier entries, adds only that key, and leaves every other key's value unchanged |
| Trees.InsertWellFormed | src/SolidifyProject.Engine.Infrastructure/Models/PageModel.cs:172 | insertion into a node with unique keys keeps every node's keys unique |
| Trees.InsertThenWalk | src/SolidifyProject.Engine.Infrastructure/Models/PageModel.cs:155-173 | what was inserted can be read back: walking the inserted path gives the scalar value |
| Trees.WalkAppend | src/SolidifyProject.Engine.Infrastructure/Models/PageModel.cs:214-225 | a walk along `a + b` is the walk along `a` followed by the walk along `b` |
| Resolver.LookupDataAlone | src/SolidifyProject.Engine.Infrastructure/Models/PageModel.cs:204-209 | the path `Data` on its own gives null |
| Resolver.LookupDropsDataRoot | src/SolidifyProject.Engine.Infrastructure/Models/PageModel.cs:198-212 | a leading `Data` segment is dropped and the rest is walked from the root; prefixing `Data.` to a path that does not start with `Data` changes nothing |
| Resolver.WalkThroughScalar | src/SolidifyProject.Engine.Infrastructure/Models/PageModel.cs:217-224 | a walk that meets a scalar with segments left gives null, not an error |
| Resolver.WalkMissingKey | src/SolidifyProject.Engine.Infrastructure/Models/PageModel.cs:219 | a segment missing from the node reached fails the lookup, naming that segment |
| Resolver.ResolveEntries | src/SolidifyProject.Engine.Infrastructure/Models/PageModel.cs:180-194 | a resolution pass never adds or removes entries, even when it stops early |
| Resolver.ResolveKeepsKeys | src/SolidifyProject.Engine.Infrastructure/Models/PageModel.cs:183-191 | a pass keeps every key of the node at its position, whether or not it fails |
| Resolver.ResolveSound | src/SolidifyProject.Engine.Infrastructure/Models/PageModel.cs:180-194 | a pass that reports no failure returns the tree with the same nodes and keys and every scalar leaf replaced by its lookup |
| Resolver.ResolveComplete | src/SolidifyProject.Engine.Infrastructure/Models/PageModel.cs:180-194 | conversely, any such resolved tree is exactly what the pass returns, without failure |
| Resolver.WalkWellFormed | src/SolidifyProject.Engine.Infrastructure/Models/PageModel.cs:214-227 | walking a well-formed tree ends in a well-formed value |
| Resolver.LookupWellFormed | src/SolidifyProject.Engine.Infrastructure/Models/PageModel.cs:196-228 | a lookup in well-formed data gives a well-formed value, which may be a subtree |
| Resolver.ResolveWellFormed | src/SolidifyProject.Engine.Infrastructure/Models/PageModel.cs:180-194 | resolving a well-formed model against well-formed data keeps every node's keys unique, even when it stops early |
| Resolver.ResolveStep | src/SolidifyProject.Engine.Infrastructure/Models/PageModel.cs:183-193 | overwriting entry `i` with its resolution, after the entries before it were overwritten, either ends the pass on a failure or leaves entries `0..i` replaced |
| PageModels.PageModel.constructor | src/SolidifyProject.Engine.Infrastructure/Models/PageModel.cs:26-45 | a new page model holds the raw text, has no header fields and no content, and both trees are still null |
| PageModels.PageModel.Parse | src/SolidifyProject.Engine.Infrastructure/Models/PageModel.cs:47-66 | gives both trees fresh empty nodes, applies the attribute lines in order and stops at the first failing line, keeping what earlier lines set; only when no line failed does it set the content to the body lines joined with CRLF; both trees keep unique keys |
| PageModels.PageModel.ParseAttributeLine | src/SolidifyProject.Engine.Infrastructure/Models/PageModel.cs:73-153 | the fields afterwards are the line applied to the fields before it; a failing line reports its error and changes nothing |
| PageModels.PageModel.ParseCustomAttribute | src/SolidifyProject.Engine.Infrastructure/Models/PageModel.cs:155-173 | the recursive builder computes `Insert`: one new top-level entry bound to a fresh chain, or `DuplicateKey` |
| PageModels.PageModel.ParseContent | src/SolidifyProject.Engine.Infrastructure/Models/PageModel.cs:175-178 | the content is the lines joined with CRLF |
| PageModels.PageModel.MapDataToModel | src/SolidifyProject.Engine.Infrastructure/Models/PageModel.cs:68-71 | before any parse the model tree is null and the call fails with `NullModel`, changing nothing; otherwise the model tree becomes the result of one resolution pass over it, so a second call resolves the values the first one produced; well-formed trees stay well formed |
| PageModels.PageModel.MapDataToPageModel | src/SolidifyProject.Engine.Infrastructure/Models/PageModel.cs:180-194 | the in-place loop over the entries returns what the resolution pass specifies, including the entries it replaced before a failure |
| PageModels.PageModel.GetValueFromDataObject | src/SolidifyProject.Engine.Infrastructure/Models/PageModel.cs:196-228 | the loop's result is the path lookup: `Data` alone is null, a leading `Data` is dropped, a scalar met on the way gives null, a missing key fails |
| Text.TrimSpec | src/SolidifyProject.Engine.Infrastructure/Models/PageModel.cs:55 | `Trim` removes exactly the white space at both ends |
| Text.TrimIdempotent | src/SolidifyProject.Engine.Infrastructure/Models/PageModel.cs:55 | trimming an already trimmed line changes nothing |
| Text.SplitLength | src/SolidifyProject.Engine.Infrastructure/Models/PageModel.cs:75 | a split has one part more than there are separators, so empty parts are kept |
| Text.SplitHead | src/SolidifyProject.Engine.Infrastructure/Models/PageModel.cs:75-77 | the first part of a split is the text before the first separator |
| Text.SplitTail | src/SolidifyProject.Engine.Infrastructure/Models/PageModel.cs:75-78 | there is a second part exactly when a separator occurs, and the parts after the first split the rest of the text |
| Text.SplitPartsFree | src/SolidifyProject.Engine.Infrastructure/Models/PageModel.cs:115 | no part of a split contains a separator |
| Text.SplitJoinRoundTrip | src/SolidifyProject.Engine.Infrastructure/Models/PageModel.cs:198 | splitting on one character and joining with it gives the text back |
| Text.RemoveEmpty | src/SolidifyProject.Engine.Infrastructure/Models/PageModel.cs:115 | dropping empty entries keeps exactly the non-empty parts |
| Text.RemoveEmptyAppend | src/SolidifyProject.Engine.Infrastructure/Models/PageModel.cs:115 | dropping empty entries keeps the non-empty ones in order, each as often as it occurs: it distributes over concatenation and keeps a single entry exactly when it is not empty |
| Text.EqualsIgnoreCaseIff | src/SolidifyProject.Engine.Infrastructure/Models/PageModel.cs:80 | two strings are equal ignoring case exactly when they have the same length and agree letter by letter after upper-casing |
| Text.AnyEqualsIgnoreCaseIff | src/SolidifyProject.Engine.Infrastructure/Models/PageModel.cs:80 | `Any` holds exactly when some entry of the name array equals the name ignoring case |

## Left out

- The `TextContentModel` base class and how `ContentRaw` is read are not part of this model. The raw text is an input: the class's `ContentRaw`, given to the constructor. No file I/O is modelled.
- The `TemplateType` enumeration is not part of this model. Its member names are an input (`TemplateTypes`), and `Enum.TryParse(value, true, …)` is modelled as a case-insensitive match against them. `TryParse` also accepts numeric strings and comma-separated lists of member names; the model does not.
- Case folding is ordinal and covers only the ASCII letters. `InvariantCultureIgnoreCase` (line 116) and `OrdinalIgnoreCase` are modelled alike; non-ASCII case pairs are not.
- Exceptions are modelled as `Error` values, one kind per exception: message texts and exception types are left out. A failing line stops `Parse`, as the uncaught exception does.
- `ExpandoObject` trees are values, not shared references; aliasing between a model subtree and the data it was resolved from is not modelled.
- Updating `modelDict[key]` while enumerating the same `ExpandoObject` (lines 183-191) is modelled as replacing that key's entry in place and going on with the next key. Whether the runtime's enumerator would object to the update is left out.
- Data values other than nodes, strings and null are not modelled: a model leaf is a string or null, and a data leaf is a string.
- The check `attributeNames.Length == 0` (lines 199-202) is not modelled, because `String.Split` always returns at least one part (`Text.Split` ensures it).
- Parsing is not atomic and the model does not claim it is. `Parse` resets only `Custom` and `Model`. A failing line leaves what earlier lines set, and it leaves `Content` as it was.
- Header.LastTitleWins: last-write-wins is proved for the title only. The other fixed fields follow the same one-step pattern (`ApplyUrlBranch`, `ApplyTemplateIdBranch`) but have no lemma of their own over a sequence of lines.
