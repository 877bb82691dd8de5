# cs-trans scripts, modelled in Dafny

This project models the core of the cs-trans scripts. They are five small tools that help translate the text held in JSON documents. All five are built on one JSON tree and its JSON Pointers (RFC 6901):

- **Value search** (`search_json.py`) walks every node of a document in pre-order, containers included. It reports the pointer of each node that equals a target, optionally only where the pointer string passes a regular expression. A failing filter suppresses a report but never prunes the walk.
- **Leaf enumeration** (`pointers_json.py`) prints one line per scalar leaf, depth first. Each line is the path's raw tokens joined by "/", without escaping.
- **Patch filtering** (`patch_filtered_by_pointers.py`) keeps each patch operation whose `path` is exactly one of a list of pointer strings. It keeps at most one copy per operation, in file and operation order. The pointer lines are right-trimmed first.
- **Translation tables** (`trans_table.py`) work in two steps:
  - Collapse each of two patch lists to a `path -> value` dictionary over its "replace" operations. The last value wins, and each repeated path gives a warning.
  - File each value of the first dictionary against the distinct values the second holds at the same paths. Each further distinct candidate gives a warning.
- **Replacement** (`replace_using_table.py`) takes the table entries in order. For each key it searches the document as it now stands, and overwrites every hit with the key's first candidate. The default filter spares pointers whose last token is "id".

Modules:

- `Wrappers` and `Seqs` hold shared helpers:
  - `Option` and `Result`;
  - order-preserving `Filter`, `Map`, `Dedup` and `Flatten`, with the subsequence relation.
- `JsonTree` (json.dfy) defines:
  - the `Json` datatype;
  - raw-token paths and `Resolve` (section 4 of RFC 6901);
  - `Assign` and `SetInPlace` (`JsonPointer.set`);
  - the pre-order walk `NodesAt`;
  - `SameShape`;
  - `Field`, which is `item[key]` with its `KeyError` and `TypeError` cases.
- `JsonPointer` (pointer.dfy) holds `jsonpointer.escape`, the pointer string `Render` (section 3 of RFC 6901), and the `ptr_to_str` loop.
- `SearchJson`, `PointersJson`, `PointerLines` with `PatchFilter`, `TransTable` and `ReplaceUsingTable` model the five scripts.
- `Dicts` (dicts.dfy) models Python dictionaries as insertion-ordered entry lists.

The loops of four scripts are methods, each proved equal to a recursive specification function. The promises of a script are lemmas about that function:

- `SearchFrom`, `SearchChildren` and `Search` against `FoundFrom`, `FoundInChildren` and `Found`;
- `PtrToStr` against `Render`;
- `ParsePatches` and `MatchAny` against `Selected` and `PathIn`;
- `ParseJsonPatch` against `ParsedPatch`;
- `CreateTable` against `Group(Translations(..))`;
- `Replace` against `ReplaceAll`, on a `Document` object whose `root` `Set` updates in place.

The leaf enumeration (`pointers_json.py`) is itself recursive: `_parse`, `parse_list` and `parse_dict` call one another and only print. Its loops are modelled as the recursive functions `ParseAt`, `ParseList` and `ParseDict`, which return the printed lines in order.

Warnings are returned as lists, not written to standard error. Exceptions are returned as `Err` values.

Where a script's own description and its code differ, the model follows the code:

- `pointers_json.py` says at lines 5 and 16 that it lists JSON Pointers. Line 47 joins the raw tokens without escaping them (see Findings).

The table builder raises on an operation without "op", or on a "replace" without "path" or "value" (`trans_table.py:44-48`). The model returns those as `LookupError`s.

## Model

| member | source | states |
|---|---|---|
| JsonPointer.PtrToStr | cs_trans_scripts/search_json.py:54-58 | The loop over the list gives "" for an empty list. Otherwise it gives the escaped first element followed by `Render` of the rest, which is the RFC 6901 pointer string of the path. |
| JsonPointer.Escape | cs_trans_scripts/search_json.py:57 | `jsonpointer.escape` ("~" to "~0", then "/" to "~1") gives a token with no "/" in it. |
| JsonPointer.UnescapeEscape | cs_trans_scripts/search_json.py:57 | Decoding a reference token (section 4 of RFC 6901) recovers the token that was escaped. |
| JsonPointer.EscapeInjective | cs_trans_scripts/search_json.py:57 | Distinct tokens escape to distinct strings. |
| JsonPointer.RenderAppend | cs_trans_scripts/search_json.py:44-48 | Extending a path by a token extends its pointer string by "/" and the escaped token. |
| JsonPointer.RenderInjective | cs_trans_scripts/search_json.py:54-58 | Distinct paths render to distinct pointer strings. |
| JsonPointer.SlashOrEnd | cs_trans_scripts/search_json.py:54-58 | A pointer string is empty (the root) or starts with "/". |
| JsonPointer.RawRenderIsRender | cs_trans_scripts/pointers_json.py:47 | When no token holds "~" or "/", the unescaped line equals the pointer string. |
| JsonTree.Step | cs_trans_scripts/replace_using_table.py:25 | One token selects the first child with that key or array index, or nothing when no child has it. |
| JsonTree.DecimalParses | cs_trans_scripts/search_json.py:44 | `str(num)` reads back as the array index `num`. |
| JsonTree.AssignHere | cs_trans_scripts/replace_using_table.py:25 | After setting a path that resolves, the path resolves to the new value. |
| JsonTree.AssignElsewhere | cs_trans_scripts/replace_using_table.py:25 | Setting a path leaves every path that branches away from it resolving as before. |
| JsonTree.AssignShape | cs_trans_scripts/replace_using_table.py:25 | Overwriting a string with a string keeps the document's shape. |
| JsonTree.NodesSound | cs_trans_scripts/search_json.py:39-49 | Every node of the walk is the node its path resolves to. |
| JsonTree.NodesComplete | cs_trans_scripts/search_json.py:39-49 | Every path that resolves is walked, paired with its node. |
| JsonTree.NodesNoDup | cs_trans_scripts/search_json.py:39-49 | In a document without repeated keys the walk yields each path once. |
| JsonTree.Field | cs_trans_scripts/trans_table.py:44-48 | `item[key]` fails on a non-object or a missing key. Otherwise it yields a member stored under `key`. |
| SearchJson.Compile | cs_trans_scripts/search_json.py:24 | A filter is compiled exactly when a pattern is given and is not empty, and it is then the pattern's search. |
| SearchJson.SearchFrom | cs_trans_scripts/search_json.py:29-51 | `_search` reports exactly `FoundFrom`: this node if its pointer string passes and it matches, then its children's results. A string is not descended into. |
| SearchJson.SearchChildren | cs_trans_scripts/search_json.py:42-49 | The loops over list elements and dictionary members report exactly `FoundInChildren`: each child's results, in index or key order. |
| SearchJson.Search | cs_trans_scripts/search_json.py:22-26 | The search from the root reports exactly `Found`. |
| SearchJson.FoundIsFilteredWalk | cs_trans_scripts/search_json.py:29-51 | The results are the pre-order walk filtered by "passes the filter and equals the value". The filter never prunes a subtree. |
| SearchJson.FoundSound | cs_trans_scripts/search_json.py:36-37 | Every reported pointer resolves to a node equal to the value and passes the filter. |
| SearchJson.FoundComplete | cs_trans_scripts/search_json.py:29-51 | Every path that resolves to the value and passes the filter is reported. |
| SearchJson.FoundNoDup | cs_trans_scripts/search_json.py:29-51 | No pointer is reported twice. |
| SearchJson.FoundExactlyOnce | cs_trans_scripts/search_json.py:29-51 | Reported exactly once, if and only if it resolves to the value and passes the filter. |
| SearchJson.NodesAncestorFirst | cs_trans_scripts/search_json.py:39-49 | In the walk, a node comes before every node below it. |
| SearchJson.FoundPreOrder | cs_trans_scripts/search_json.py:36-49 | In the results, a node comes before every reported node below it. |
| SearchJson.FilteredIsSubseq | cs_trans_scripts/search_json.py:33-37 | A filtered search reports a subsequence of the unfiltered search. |
| SearchJson.EmptyPatternIsNoFilter | cs_trans_scripts/search_json.py:24 | An empty pattern means no filtering. |
| SearchJson.ScalarDocument | cs_trans_scripts/search_json.py:39-41 | A scalar document yields at most the root pointer. |
| PointersJson.ParseAt | cs_trans_scripts/pointers_json.py:40-47 | `_parse`: every line printed below a pointer list starts with the line of that list. |
| PointersJson.ParseList | cs_trans_scripts/pointers_json.py:50-53 | `parse_list`: every line printed for the elements starts with the line of the list's own pointer list. |
| PointersJson.ParseDict | cs_trans_scripts/pointers_json.py:56-59 | `parse_dict`: every line printed for the members starts with the line of the dictionary's own pointer list. |
| PointersJson.Parse | cs_trans_scripts/pointers_json.py:35-37 | `parse`: a scalar document prints the single line "" (the root), and an empty array or object prints nothing. |
| PointersJson.ParseIsLeafWalk | cs_trans_scripts/pointers_json.py:40-59 | The lines printed below a node are the raw lines of the scalar leaves of its walk, in walk order. |
| PointersJson.LinesAreLeaves | cs_trans_scripts/pointers_json.py:35-37 | The output is the raw line of every scalar leaf, in the order of the pre-order walk `NodesAt`, which takes array elements by ascending index and object members in insertion order. |
| PointersJson.LeavesExact | cs_trans_scripts/pointers_json.py:40-47 | Each path to a scalar is listed exactly once, and no container is listed. |
| PointersJson.LinesMatchSearchPointers | cs_trans_scripts/pointers_json.py:47 | When no key holds "~" or "/", every line is the JSON Pointer string of its leaf. |
| PointersJson.RawLinesCollide | cs_trans_scripts/pointers_json.py:47 | The key "a/b" and the nested path a, b print the same line "/a/b". The pointer of "a/b" is "/a~1b". |
| PointersJson.PointerLinesExact | cs_trans_scripts/pointers_json.py:47 | With escaping, the lines have no repeats, and a path reaches a scalar if and only if its pointer string is a line. |
| PointerLines.RStrip | cs_trans_scripts/patch_filtered_by_pointers.py:48 | `rstrip()` gives a prefix whose removed tail is all whitespace, and which is empty or ends in a non-space. |
| PointerLines.PointerList | cs_trans_scripts/patch_filtered_by_pointers.py:48 | The comprehension keeps at most one pointer per line, and no pointer ends in whitespace. |
| PointerLines.PointerListOfLines | cs_trans_scripts/patch_filtered_by_pointers.py:48 | Every line read is kept, trimmed, in order. |
| PointerLines.BlankLineIsRoot | cs_trans_scripts/patch_filtered_by_pointers.py:48 | A blank line becomes the root pointer "" rather than being dropped. |
| PatchFilter.MatchPointerPatch | cs_trans_scripts/patch_filtered_by_pointers.py:66-69 | Fails exactly when the operation has no "path". Otherwise it is true exactly when "path" is the pointer string itself. |
| PatchFilter.MatchAny | cs_trans_scripts/patch_filtered_by_pointers.py:59-62 | No pointers: no match and no lookup. Otherwise it gives the missing-"path" error, or whether some pointer matches. |
| PatchFilter.FirstPathError | cs_trans_scripts/patch_filtered_by_pointers.py:58-60 | None exactly when every operation has a "path". Otherwise it is the error of the first one that has none. |
| PatchFilter.ParsePatches | cs_trans_scripts/patch_filtered_by_pointers.py:53-63 | The nested loops with `break` return exactly `Selected`: the matching operations, files in order and operations in order, or the first lookup error. |
| PatchFilter.NothingKept | cs_trans_scripts/patch_filtered_by_pointers.py:58-62 | An empty pointer list keeps nothing. |
| PatchFilter.SelectedSubseq | cs_trans_scripts/patch_filtered_by_pointers.py:58-62 | The output is a subsequence of the concatenated inputs, with operations unmodified. |
| PatchFilter.SelectedCount | cs_trans_scripts/patch_filtered_by_pointers.py:59-62 | A matching operation occurs in the output as often as in the input; any other operation never occurs. |
| PatchFilter.PointerSetOnly | cs_trans_scripts/patch_filtered_by_pointers.py:59-62 | Pointer lists with the same elements, despite duplicates or reordering, select the same output. |
| PatchFilter.ErrorIff | cs_trans_scripts/patch_filtered_by_pointers.py:59-67 | The filter fails exactly when the pointer list is non-empty and some operation lacks "path". |
| Dicts.Put | cs_trans_scripts/trans_table.py:48 | `d[k] = v`: an existing key keeps its place, and a new key is appended. `k` then maps to `v`. Every other key keeps its presence and value, and keys stay distinct. |
| TransTable.ReplaceEntry | cs_trans_scripts/trans_table.py:44-48 | A non-"replace" operation contributes nothing. A "replace" whose "path" and "value" are strings contributes exactly that pair, and any contribution is such a pair. It is an error exactly when "op" cannot be read, or when a "replace" lacks a string "path" or "value". The error is the first failing lookup, in the order "op", "path", "value". |
| TransTable.ParseJsonPatch | cs_trans_scripts/trans_table.py:42-49 | The loop returns exactly `ParsedPatch`: the collapsed dictionary with its duplicate warnings, or the first error. |
| TransTable.EntriesErrorPersists | cs_trans_scripts/trans_table.py:43-48 | Once an item raises, later items change nothing. |
| TransTable.OtherOpsIgnored | cs_trans_scripts/trans_table.py:44 | Inserting an operation whose "op" is not "replace" changes neither the dictionary nor the warnings. |
| TransTable.CollapseKeys | cs_trans_scripts/trans_table.py:46-48 | The dictionary has each replace path once, at the position of its first occurrence. |
| TransTable.CollapseLastWins | cs_trans_scripts/trans_table.py:48 | A path is present if and only if some entry has it, and then it holds the last such entry's value. |
| TransTable.RepeatCount | cs_trans_scripts/trans_table.py:46-47 | The warnings number the replace items less the distinct paths. |
| TransTable.CreateTable | cs_trans_scripts/trans_table.py:52-63 | The loop returns exactly `Group(Translations(dic1, dic2))`: the table and the conflict warnings. |
| TransTable.TranslationsExact | cs_trans_scripts/trans_table.py:54-57 | The translations met are exactly the (`dic1` value, `dic2` value) pairs of the paths in both with different values. |
| TransTable.GroupKeys | cs_trans_scripts/trans_table.py:58-62 | The table's keys are the translated values, each once, in order of first occurrence. |
| TransTable.GroupCandidates | cs_trans_scripts/trans_table.py:58-62 | A value has an entry if and only if it is translated. Its candidates are its translations in order, repeats removed. |
| TransTable.ConflictCount | cs_trans_scripts/trans_table.py:60-62 | The conflict warnings number the candidates less the entries, which is the sum of (list length - 1). |
| TransTable.TableExact | cs_trans_scripts/trans_table.py:54-62 | `c` is a candidate of `key` exactly when some path has value `key` in `dic1` and a different value `c` in `dic2`. |
| TransTable.TableCandidates | cs_trans_scripts/trans_table.py:58-62 | A candidate list has no repeats and never holds its own key. Its first candidate comes from the earliest translating path in `dic1` order. |
| TransTable.TableKeys | cs_trans_scripts/trans_table.py:58-59 | The table has one entry per distinct translated value, with no repeated keys. |
| TransTable.NoTranslations | cs_trans_scripts/trans_table.py:54-57 | With no shared path of differing values, including an empty `dic1`, the table and the warnings are empty. |
| ReplaceUsingTable.Document.constructor | cs_trans_scripts/replace_using_table.py:21 | The document holder starts with the loaded document. |
| ReplaceUsingTable.Document.Set | cs_trans_scripts/replace_using_table.py:25 | `p.set(doc, v)` overwrites the node in place. It fails, changing nothing, at the root or on a path that leads nowhere. |
| ReplaceUsingTable.Replace | cs_trans_scripts/replace_using_table.py:21-25 | The nested loops leave the document exactly as `ReplaceAll` describes, and report the same error, if any. |
| ReplaceUsingTable.SetAllShape | cs_trans_scripts/replace_using_table.py:24-25 | Setting string hits to a string keeps the shape, however far the loop gets. |
| ReplaceUsingTable.SetAllEffect | cs_trans_scripts/replace_using_table.py:24-25 | With distinct non-root hits the loop does not fail. Every hit holds the new value, and every other scalar keeps its value. |
| ReplaceUsingTable.KeyHits | cs_trans_scripts/replace_using_table.py:23-25 | For an entry with candidates, every pointer found for the key ends up holding the first candidate. Other scalars are untouched. |
| ReplaceUsingTable.KeyShape | cs_trans_scripts/replace_using_table.py:23-25 | An entry keeps array lengths, keys and their order, and non-string scalars. |
| ReplaceUsingTable.KeyErrors | cs_trans_scripts/replace_using_table.py:23-25 | An entry fails exactly when its key is found and there is no candidate, or the document is a bare string. A failing entry changes nothing. |
| ReplaceUsingTable.KeyElsewhere | cs_trans_scripts/replace_using_table.py:23-25 | A scalar the search does not report keeps its value. |
| ReplaceUsingTable.KeyClears | cs_trans_scripts/replace_using_table.py:22-25 | When the first candidate differs from the key, searching again for the key with the same filter right after finds nothing. |
| ReplaceUsingTable.ReplaceShape | cs_trans_scripts/replace_using_table.py:21-25 | The whole replacement preserves the document's shape. |
| ReplaceUsingTable.ReplaceElsewhere | cs_trans_scripts/replace_using_table.py:21-25 | A scalar whose pointer fails the filter, or whose value is no key of the table, is never rewritten. |
| ReplaceUsingTable.DefaultFilter | cs_trans_scripts/replace_using_table.py:21 | The default pattern is not empty, and it passes the pointer string of a path exactly when the path is the root or its last token is not "id". |
| ReplaceUsingTable.DefaultFilterPasses | cs_trans_scripts/replace_using_table.py:21 | The default pattern passes a pointer if and only if it is the root or its last raw token is not "id". |
| ReplaceUsingTable.DefaultFilterKeepsIds | cs_trans_scripts/replace_using_table.py:21-25 | With the default filter, a scalar under a key "id" is never rewritten. |
| ReplaceUsingTable.NoHitsUnchanged | cs_trans_scripts/replace_using_table.py:22-24 | When no key is found, the document is left as it was and nothing fails. |
| ReplaceUsingTable.ChainedEntries | cs_trans_scripts/replace_using_table.py:22-25 | Each entry searches the document the earlier entries left, so {"a": ["b"], "b": ["c"]} turns "a" into "c". |

## Left out

- Command-line parsing, file opening, the UTF-8 byte-order mark, `json.load` and `json.dump`, standard input and output. Inputs are in-memory values, and printed lines are returned sequences.
- The warnings' output to standard error, with colour and bell codes. They are returned as lists of paths or values.
- The regular-expression engine. A filter is its source text plus an abstract "`re.search` finds it" predicate. The default pattern is modelled as a predicate on the pointer string. It ignores Python's treatment of newlines by `.` and `$`, because keys are assumed to hold no newline.
- Floating-point numbers, and Python equality quirks (`True == 1`, `1 == 1.0`). Numbers are integers, and equality is structural. Object equality therefore depends on member order, where Python's dict `==` (as in `search_json.py:36`) ignores it. This matters only for an object search value, and the scripts only ever search for strings.
- The parsing of pointer strings inside `jsonpointer`. A pointer is carried as its raw tokens. `JsonPointer.UnescapeEscape` shows that decoding the escaped string gives the same tokens back.
- `JsonPointer.set`'s "-" token and its creation of missing keys. The replacement only sets paths it has just found.
- TransTable.ReplaceEntry: requires the "path" and "value" of a replace operation to be strings, and returns `NotAString` otherwise, because translation tables hold strings. In Python, an unhashable "path" raises `TypeError` at once at `path in result` (`trans_table.py:46`), and a hashable non-string "path" is stored. A non-string "value" is stored, and fails only later, in `create_table`, if it is unhashable.
- TransTable.ParsedPatch: on an error it returns only the error, and `ParseJsonPatch` does the same. The duplicate-path warnings that Python has already printed by then (`trans_table.py:47`) are dropped. They cover the operations before the failing one, and the failing one itself when only its "value" is missing.
- The replacement's table is a dictionary from strings to string lists, as the table file holds. A non-list candidate value is not modelled.
- A round trip, where the table built from two patch lists is applied to the document the first describes. It relates a document to a patch list the scripts never read together, so it is not modelled.
- The lemmas about search results, enumeration and replacement assume documents without repeated object keys (`WellFormed`), which is how `json.load` builds them.
- `parse_pointer_file`'s reading of the file is not modelled. Only its trimming comprehension is: lines arrive as strings with their line ends, and `rstrip` removes them.

## Findings

| source | as written | input that shows it | evidently intended | confidence | as-written member | corrected member |
|---|---|---|---|---|---|---|
| cs_trans_scripts/pointers_json.py:47 | Each line joins the raw tokens with "/" and does not escape them. | `{"a/b": null}` and `{"a": {"b": null}}` both print "/a/b". The pointer of the first leaf is "/a~1b", so the patch filter never matches it. | Each line is the JSON Pointer string of its leaf, escaped as the value search renders it, so distinct leaves give distinct lines. | not executed | PointersJson.RawLinesCollide | PointersJson.PointerLinesExact |
