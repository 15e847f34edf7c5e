# Documentation server model

A Dafny model of the core of the `mcp-docs-server` (src/mcp_docs_server.py).
The server exposes the markdown files under a documentation root over MCP,
the Model Context Protocol. The model covers four things:

- **Indexing** (`_get_all_components`). The root is walked recursively and
  every `*.md` file becomes a component with a name, category, relative
  path and full path. The components are then sorted by `(category, name)`.
- **Listing** (`list_resources`). The server re-indexes, then lists one
  `docs://{category}/{name}` resource per component.
- **Reading** (`read_resource`). The identifier is parsed and the first
  component with that category and name is found. The reply is its file
  text, or one of the server's four errors.
- **Searching** (`call_tool` with `search_docs`). The server re-indexes,
  optionally filters by category, and does a case-insensitive substring
  search. Each result quotes up to five numbered matching lines. The reply
  is the count-headed result text or the no-results message. Any other tool
  name is an error.

Modules:

- `Results` and `Errors` hold the result and error types. `Message`
  reproduces the text of each raised `ValueError`.
- `Text` holds Python string behaviour: ASCII `lower`, `in`, `startswith`,
  `endswith`, `split` and `join`.
- `Order` is Python's ordering on strings and on pairs of strings.
- `Decimal` is `str(n)` for natural numbers.
- `Seqs` is order-preserving filtering.
- `Indexer`, `Addressing`, `Search` and `Catalog` follow the server's own
  structure. `Catalog.Handle` dispatches the three requests against a
  server state.

The filesystem is a value, `Disk`, with two parts:

- `files` maps each full path to its text as `read_text(encoding="utf-8")`
  returns it (lines 119 and 166): decoded, and with every `\r\n` and lone
  `\r` already turned into `\n` by text mode's newline translation, so the
  lines the search splits at line 171 carry no `\r`;
- `walk` is the recursive walk of the root, as relative paths split into
  components.

A file is present when its full path is in `files`. A walked path that is
missing from `files` is a file that vanished after indexing.

The fallback at line 38 evidently intends a file directly under the root to
get the category `"general"`. But the code compares
`relative_path.parent.name` with `"."`, and for such a file that name is
`""`, never `"."`. So the fallback never fires and the category is the
empty string. The model follows the
code (`Indexer.Category`), and `Indexer.CategoryIsParentName` proves the
consequence.

## Model

| member | source | states |
|---|---|---|
| Indexer.Stem | src/mcp_docs_server.py:36 | `Path.stem` is a prefix of the file name; it is either the whole name, or the name cut at its last dot when that dot is neither the first nor the last character; the whole name is kept only when no dot qualifies |
| Indexer.MarkdownStem | src/mcp_docs_server.py:36 | for a `*.md` file name, the stem plus `.md` gives the name back; the name `.md` alone keeps its stem `.md` |
| Indexer.Describe | src/mcp_docs_server.py:34-48 | a component's name is its file name minus `.md`; a file at the root has category `""`; elsewhere the category is the parent directory's name; neither contains `/` for well-formed paths; `path` splits on `/` back into the relative path; the full path is the root, `/`, then `path` |
| Indexer.PathStringSplits | src/mcp_docs_server.py:45 | `str(relative_path)` splits on `/` back into the path's components |
| Indexer.CategoryIsParentName | src/mcp_docs_server.py:37-39 | `Category` (line 38) always equals `parent.name`, so root-level files get `""`; the category is `"general"` exactly when the parent directory is named `general` |
| Indexer.Discover | src/mcp_docs_server.py:32 | the discovered files are exactly the walk's `*.md` entries, with multiplicity and nothing else |
| Indexer.DescribeAll | src/mcp_docs_server.py:34-48 | one descriptor per discovered file, at the same position |
| Indexer.InsertPermutes | src/mcp_docs_server.py:50 | inserting one component adds exactly that component |
| Indexer.InsertSorted | src/mcp_docs_server.py:50 | inserting into a list sorted by `(category, name)` keeps it sorted |
| Indexer.SortByKeyPermutes | src/mcp_docs_server.py:50 | `SortByKey`, the model of `sorted(..., key=...)`, returns a permutation of its input |
| Indexer.SortByKeySorted | src/mcp_docs_server.py:50 | `SortByKey`'s output is ordered by `(category, name)` under Python's tuple and string ordering |
| Indexer.ScanSortedPermutation | src/mcp_docs_server.py:27-50 | `Scan`, the model of `_get_all_components`, returns a sorted list that is a permutation of the markdown files' descriptors, with one entry per markdown file |
| Indexer.ScanMembers | src/mcp_docs_server.py:32-48 | a component is in `Scan`'s result if and only if it describes some markdown file of the walk |
| Indexer.ScanMemberFromWalk | src/mcp_docs_server.py:32-48 | every indexed component describes a markdown file of the walk |
| Indexer.WalkFileIndexed | src/mcp_docs_server.py:32-48 | every markdown file of the walk is indexed |
| Indexer.ScanWithoutMarkdown | src/mcp_docs_server.py:29-50 | a root without markdown files (an empty one included) indexes to the empty list, not to an error |
| Indexer.SortedSubsequence | src/mcp_docs_server.py:159 | anything selected from the index in order is still sorted by `(category, name)` |
| Order.LexLeReflexive | src/mcp_docs_server.py:50 | string `<=` is reflexive |
| Order.LexLeTotal | src/mcp_docs_server.py:50 | any two strings are comparable |
| Order.LexLeAntisymmetric | src/mcp_docs_server.py:50 | strings that are `<=` each other are equal |
| Order.LexLeTransitive | src/mcp_docs_server.py:50 | string `<=` is transitive |
| Order.KeyLeTotal | src/mcp_docs_server.py:50 | any two `(category, name)` keys are comparable |
| Order.KeyLeTransitive | src/mcp_docs_server.py:50 | key order is transitive, so sorting by it is well defined |
| Text.LowerChar | src/mcp_docs_server.py:152 | lower-casing maps each ASCII capital to its lower-case letter (code point plus 32), leaves no capital, and changes nothing else |
| Text.LowerCharCaseless | src/mcp_docs_server.py:152 | two characters lower-case alike exactly when they are equal or the same ASCII letter in the two cases |
| Text.Lower | src/mcp_docs_server.py:169 | `lower` keeps the length and maps each character on its own |
| Text.LowerCaseless | src/mcp_docs_server.py:169 | two strings lower-case alike exactly when they have the same length and agree character by character up to case |
| Text.Split | src/mcp_docs_server.py:97 | `split` on one character gives at least one piece; no piece contains the separator; there are two or more pieces exactly when the separator occurs |
| Text.JoinSplit | src/mcp_docs_server.py:97 | joining the pieces of a split with the separator gives the string back |
| Text.SplitJoin | src/mcp_docs_server.py:97 | splitting a join of separator-free pieces gives the pieces back |
| Text.SplitAtFirst | src/mcp_docs_server.py:97 | a split cuts at the first separator and continues on the rest |
| Text.SplitFirstTwo | src/mcp_docs_server.py:97-103 | with two or more pieces, the string starts with the first two pieces around a separator, followed by nothing or by another separator |
| Text.SplitPieceOffset | src/mcp_docs_server.py:171 | every line produced by `split("\n")` occurs in the text at the returned offset |
| Text.JoinPieceAt | src/mcp_docs_server.py:193 | in a `sep.join(parts)`, piece `k` occurs at its offset |
| Text.JoinSeparatorAfter | src/mcp_docs_server.py:193 | in a join, a separator follows every piece but the last, and the next piece starts right after it |
| Text.JoinLastEnds | src/mcp_docs_server.py:193 | in a join, the last piece ends the string |
| Text.JoinAppend | src/mcp_docs_server.py:181 | joining two non-empty piece lists is joining each with a separator between |
| Text.ContainsThrough | src/mcp_docs_server.py:169-175 | a substring of a line is a substring of the document holding that line |
| Text.ContainsEmpty | src/mcp_docs_server.py:169 | the empty query occurs in every text |
| Decimal.NatToString | src/mcp_docs_server.py:173 | `str(n)` is a non-empty digit string without a leading zero unless `n` is 0 |
| Decimal.DecimalRoundTrip | src/mcp_docs_server.py:173 | the printed number reads back as the number |
| Errors.Message | src/mcp_docs_server.py:93-117 | each raised message ends with the offending identifier or path, as at lines 94, 100, 112 and 117 (line 196 for tool names) |
| Errors.MessageInjective | src/mcp_docs_server.py:93-117 | different errors never share a message, so the text tells the kind of failure and the offending value |
| Addressing.ParseUri | src/mcp_docs_server.py:93-103 | no `docs://` prefix gives an invalid-scheme error; otherwise parsing succeeds exactly when a `/` follows the scheme and fails with an invalid-format error otherwise; parsed fields contain no `/` |
| Addressing.ParseAfterScheme | src/mcp_docs_server.py:96-103 | an identifier is parsed from the first two `/`-pieces of what follows its scheme |
| Addressing.ParsedUriShape | src/mcp_docs_server.py:96-103 | a parsed identifier starts with the identifier rebuilt from its fields, followed by nothing or a `/` |
| Addressing.ParseBuildRoundTrip | src/mcp_docs_server.py:93-103 | parsing the identifier `BuildUri` makes (line 76) from a `/`-free category and name gives them back |
| Addressing.ParseIgnoresExtraSegments | src/mcp_docs_server.py:97-103 | segments after the second are ignored: `docs://c/n/anything` addresses `c/n` |
| Addressing.Lookup | src/mcp_docs_server.py:106-109 | the found position holds the first component with that category and name; nothing is found exactly when no component matches |
| Search.MatchingLines | src/mcp_docs_server.py:172-176 | the positions of exactly the lines containing the query, strictly ascending |
| Search.MatchCaseless | src/mcp_docs_server.py:152-169 | matching ignores case on both sides: texts that agree up to ASCII case, searched with queries that agree up to ASCII case, match alike |
| Search.MatchIgnoresCase | src/mcp_docs_server.py:152-169 | an instance of the above: the query `INSTALL` finds `Install` |
| Search.Evidence | src/mcp_docs_server.py:171-181 | at most five quoted lines: the first `min(matches, 5)` matching lines, in order, each numbered from 1 |
| Search.EvidenceSingleLines | src/mcp_docs_server.py:171-176 | every quoted evidence entry is a single line |
| Search.DocumentAndLineMatches | src/mcp_docs_server.py:169-176 | a document matches if one of its lines does; conversely, when the query has no line break, a matching document has a matching line |
| Search.EvidencePresence | src/mcp_docs_server.py:169-181 | evidence is non-empty only for a matching document, and always is for a matching document whose query has no line break |
| Search.SpanningQueryHasNoEvidence | src/mcp_docs_server.py:169-181 | a query spanning a line break can match a document while quoting no line |
| Search.Hits | src/mcp_docs_server.py:158-183 | every result passes the filter (`PassesFilter`, line 161), exists and matches, and carries that file's evidence; results keep list order; each emitting component appears as often as in the list, and no other component appears |
| Search.HitOf | src/mcp_docs_server.py:159-183 | every listed component that passes the filter, exists and matches has a result |
| Search.HitSelected | src/mcp_docs_server.py:159-183 | every result belongs to a listed component |
| Search.BlockLines | src/mcp_docs_server.py:178-182 | a `Block` read back line by line gives `## category/name`, `**Path:** path`, an empty line, `**Matches:**`, then the evidence lines, when the fields hold no line break |
| Search.BlockAsJoin | src/mcp_docs_server.py:178-182 | a `Block` is its four head lines and its evidence lines joined by line breaks |
| Search.Format | src/mcp_docs_server.py:185-194 | the no-results message (`NoResults`, line 188) is returned exactly when there are no results; otherwise the reply opens with the header `Found N result(s):` |
| Search.FormatLayout | src/mcp_docs_server.py:191-194 | after the header, result block `k` occurs at its offset; a `\n\n---\n\n` separator follows every block but the last, and the next block starts right after it; the last block ends the reply |
| Search.FormatBody | src/mcp_docs_server.py:193 | after the header, a reply with results is exactly the blocks joined by the separator |
| Search.FormatReportsCount | src/mcp_docs_server.py:191-194 | the number in the header reads back as the number of results |
| Catalog.Refresh | src/mcp_docs_server.py:71 | re-indexing keeps the documentation root |
| Catalog.Start | src/mcp_docs_server.py:203 | the starting server indexes the given root |
| Catalog.ListResources | src/mcp_docs_server.py:67-87 | listing re-indexes and gives `ResourceOf` of each component, in order: a `text/markdown` resource whose identifier is built from its category and name |
| Catalog.ResourceOf | src/mcp_docs_server.py:76-83 | a resource's identifier is the one `BuildUri` builds (line 76) and is the scheme followed by its display name; its description starts `Documentation for {name} in ` |
| Catalog.ReadResource | src/mcp_docs_server.py:89-122 | parse errors are passed through; an identifier matching no component gives resource-not-found; otherwise the first matching component decides: its file's text if the file exists, file-not-found otherwise |
| Catalog.SearchHits | src/mcp_docs_server.py:151-183 | search re-indexes; its results are sorted by `(category, name)`, each passes the filter, exists and matches the lower-cased query; a non-empty category filter admits only that category; every freshly indexed component that passes, exists and matches has a result, as often as it is indexed; the results are exactly `Search.Hits` of the fresh list, so they keep list order and each quotes its file's evidence |
| Catalog.SearchDocs | src/mcp_docs_server.py:151-194 | the search tool re-indexes before answering |
| Catalog.CallTool | src/mcp_docs_server.py:148-196 | `search_docs` re-indexes and always answers; any other name is an unknown-tool error that leaves the state untouched |
| Catalog.Handle | src/mcp_docs_server.py:67-196 | reading never changes the state; listing and searching replace the component list with a fresh index; an unknown tool changes nothing and errors |
| Catalog.ListThenRead | src/mcp_docs_server.py:67-122 | right after a listing of well-formed paths whose files exist, each listed identifier reads the file of the first component with that category and name |
| Catalog.ReadListed | src/mcp_docs_server.py:106-119 | when components `0..k` are well indexed, the identifier of component `k` resolves to the first component with the same key and reads its file |
| Catalog.VanishedFile | src/mcp_docs_server.py:114-117 | reading a component whose file vanished gives file-not-found, and a search leaves that file out |
| Catalog.SearchReportsNoResults | src/mcp_docs_server.py:185-189 | the reply is `NoResults` of the lower-cased query exactly when no freshly indexed component passes the filter, exists and matches |
| Catalog.EmptyQueryMatchesAll | src/mcp_docs_server.py:152-169 | an empty or absent query (`QueryOf` reads an absent one as `""`, line 152) matches every existing document that passes the filter |
| Catalog.EmptyCorpusListsNothing | src/mcp_docs_server.py:67-87 | with no markdown file under the root, the listing is empty |

## Left out

- The MCP framework is not modelled: the `Server` object, handler registration, the stdio transport, `asyncio`, `run` and `main`. `main` creates a missing docs directory; that step is left out too. `Catalog.Handle` stands in for the transport's dispatch.
- `list_tools` is left out. It returns a constant tool description with no behaviour to state.
- Logging is left out. It does not affect any reply.
- The real filesystem is not modelled. The walk order of `rglob`, symbolic links, permissions and UTF-8 decoding errors are all outside the model. `Disk` gives the walk and the file texts as plain values, already decoded and newline-translated.
- A directory whose name ends in `.md` is treated like a vanished file. The server would find that it exists and then fail reading it.
- `lower` is modelled for ASCII only. Python's full Unicode case mapping can also change a string's length; that is not modelled.
- Tool arguments are modelled as absent or a string. A non-string or explicit null query makes the server fail at `.lower()`. A non-string category is compared with each component's string category: a truthy one such as `5` skips every component, and a falsy one such as `0` applies no filter. None of these paths is modelled.
- Full paths are built as root, `/`, then relative path. Path normalisation of the root, such as a trailing `/`, is not modelled.
- The text result is returned bare, without the `TextContent` list around it.
- Catalog.Refresh: the contract states only that the root is kept. The new component list is stated by `Catalog.Handle` and by the `Indexer` scan lemmas.
- Catalog.Start: the contract states only the root. The initial index is the same scan as any refresh.
- Catalog.SearchDocs: the contract states only the re-index. The reply text is described by `Search.Format`, `Search.FormatReportsCount` and `Catalog.SearchReportsNoResults`.
- Catalog.ResourceOf: the description is stated only up to `Documentation for {name} in `; the category and ` category` after it are built but not stated.
- Indexer.SortByKeySorted: sort stability is not proved. `SortByKey` inserts each element after its equal-key predecessors, as Python's stable `sorted` does, but the model only proves sortedness and permutation.
