# bibli-ls: completion, lookup and field clean-up, modelled in Dafny

bibli-ls is a language server that offers BibTeX citation keys to an author
writing Markdown. It reads the configured bibliography files into a list of
parsed libraries, and answers four requests over that list: completion
(every key, written with the cite prefix such as `@`), go-to-definition
(open the bibliography file at the entry), hover (show the entry) and
references (ripgrep search for the cited word). A helper in `utils.py`
cleans the string fields of an entry before they are displayed.

This project models that core:

- `PyStr` (`pystr.dfy`): the Python string operations the code relies on:
  `str.replace`, slicing `s[:n]` with negative `n`, and the class
  `[A-Za-z_0-9]`.
- `Bib` (`bib.dfy`): parsed data as the server sees it. A library is the
  list of its entries in file order, with unique citation keys; an entry has
  a key, fields and an optional start line. A `Database` pairs a library with
  its file path.
- `Lsp` (`lsp.dfy`): the protocol values that are built (positions, ranges,
  locations, completion items, hovers, show-document requests). It also has
  the completion options object, whose trigger list is changed in place.
- `Utils` (`utils.dfy`): `prefix_word_at_position`, worked out from the
  document's `word_at_position`, and `process_bib_entry` as a method. That
  method mutates an entry object field by field, and the inner replace loop
  is its own method.
- `Server` (`server.dfy`): the server object and its `parse_bibfiles`, and
  the handlers `update_trigger_characters`, `completion`, `goto_definition`,
  `hover` and `find_references`. The loops of `parse_bibfiles`,
  `completion`, `goto_definition` and `find_references` are methods proved
  against specification functions, with lemmas about those functions. The
  loop of `hover` returns on its first turn, so it is modelled as the
  function `HoverAt`.

Completion offers every entry of every library in list order, with no
filtering by the typed text and no de-duplication
(`CompletionKeepsDuplicates`).

Two behaviours of the code are modelled as written:
- Hover's `return None` (bibli_ls/server.py:301) sits inside the loop over
  the libraries, so only the first library is consulted
  (`HoverOnlyFirstLibrary`).
- A reference's range ends at ripgrep's exclusive `end` minus one, so it
  is one character shorter than the match (`LocationOf`). The ranges of
  width 15 expected at tests/lsp_tests/test_references.py:34-51 agree with
  this when the searched word is 16 characters long.

Lookups in a library return the first entry with the key. Because keys are
unique inside a library, that is the only entry with the key
(`Bib.GetFindsTheEntry`).

`Entry.set_field` belongs to bibtexparser, whose source is not part of this
model. It is modelled as replacing the first field with the same key, or
appending when no field has that key; the new field has no start line.

## Model

| member | source | states |
|---|---|---|
| PyStr.ReplaceAll | bibli_ls/utils.py:26-27 | `str.replace` left to right, non-overlapping; removing a non-empty token never lengthens the text |
| PyStr.ReplaceNewlines | bibli_ls/utils.py:29 | replacing "\n" by " " keeps the length, changes exactly the newlines and leaves none |
| PyStr.InsertEverywhere | bibli_ls/server.py:256 | `word.replace("", "")` for an empty prefix: replacing an empty pattern by the empty text leaves the word unchanged |
| PyStr.SliceTo | bibli_ls/utils.py:31 | Python's `v[:n]` is a prefix of `v` of length `min(n, len)`, or `len + n` clamped at 0 for negative `n` |
| PyStr.LeadingWord | bibli_ls/utils.py:15 | the word after the cursor is the longest leading run of `[A-Za-z_0-9]` characters |
| Bib.Get | bibli_ls/server.py:258 | `entries_dict.get(id)` finds an entry exactly when some entry has that key, and the one it finds has that key |
| Bib.GetFindsTheEntry | bibli_ls/server.py:287 | in a library the entry found for a key is the unique entry with that key |
| Utils.MatchAt | bibli_ls/utils.py:12 | the pattern `prefix + "[A-Za-z_0-9]*$"` matches at index p exactly when the text from p is the prefix followed by word characters, up to the end or up to a final newline; the match is that text (without the newline) |
| Utils.FindStart | bibli_ls/utils.py:12-15 | the start word is taken at the least index where the pattern matches; with no match anywhere there is none |
| Utils.Column | bibli_ls/utils.py:15 | the document's position conversion keeps a character offset within the line, turns an offset past the end of a non-empty line into the line's last index, and gives 0 on an empty line |
| Utils.PrefixWordAtPosition | bibli_ls/utils.py:9-19 | a line past the document's end gives the empty word; None (IndexError caught) only arises on an existing line |
| Utils.WordAtCursor | bibli_ls/utils.py:12-19 | a found word is the text from the leftmost match before the cursor up to the cursor (or up to a final newline there), followed by the word characters after the cursor |
| Utils.NoWordAtCursor | bibli_ls/utils.py:12-19 | on an existing line there is no word exactly when the pattern matches at no index of the text before the cursor |
| Utils.PastEndOfLineNoWord | bibli_ls/utils.py:14-19 | on the line `@` with the cursor past its end, the text before the converted column is empty, the pattern cannot match and there is no word |
| Utils.WordShape | bibli_ls/utils.py:12-19 | a word found on a line is the prefix followed by word characters only |
| Utils.WordFoundAfterPrefix | bibli_ls/utils.py:12-19 | when the text just before the cursor is the prefix followed by word characters, a word is found |
| Utils.StripTokens | bibli_ls/utils.py:23-27 | removing the listed tokens in order never lengthens the value |
| Utils.RemoveTokens | bibli_ls/utils.py:26-27 | the replace loop computes the ordered token removal and does not lengthen the value |
| Utils.TokensCanReappear | bibli_ls/utils.py:23-27 | removal can create a token again: `{\}{` becomes `{{` |
| Utils.Truncate | bibli_ls/utils.py:30-31 | a value no longer than the limit is kept; a longer one is its first `limit` characters plus "..."; with limit >= 0 the result has at most limit + 3 characters |
| Utils.WrapUrl | bibli_ls/utils.py:33-34 | the `url` value is the old value between `<` and `>`; any other key keeps its value |
| Utils.CleanValue | bibli_ls/utils.py:25-34 | the reassignments of one string value compute its cleaned value: tokens removed, newlines to spaces, truncation, url wrapping |
| Utils.CleanedHasNoNewline | bibli_ls/utils.py:29-34 | no cleaned value contains a newline |
| Utils.CleanedShape | bibli_ls/utils.py:29-34 | with limit >= 0, a value longer than the limit becomes its first `limit` characters plus "...", a shorter one is kept; only `url` is wrapped in `<...>`; length at most limit + 3, + 2 for url |
| Utils.IndexOfKey | bibli_ls/utils.py:36 | `set_field` targets the first field with the key, or none when no field has it |
| Utils.SetFieldIn | bibli_ls/utils.py:36 | `set_field` with a key already present replaces exactly the first field with that key and keeps the length; with a new key it appends the field |
| Utils.SetFieldKeepsKeys | bibli_ls/utils.py:36 | writing a field back under a key already present changes no key and no length |
| Utils.ProcessStep | bibli_ls/utils.py:24-36 | one turn of the field loop keeps the number of fields and every key |
| Utils.ProcessKeepsKeys | bibli_ls/utils.py:24-36 | the whole field loop keeps the number of fields and every field's key, even with repeated keys |
| Utils.ProcessDistinct | bibli_ls/utils.py:24-36 | with distinct keys each string field ends with its cleaned value (and no start line), every non-string field is untouched |
| Utils.StepCleans | bibli_ls/utils.py:24-36 | one turn of the field loop, with any keys, leaves every string field up to the current one holding a cleaned value under its own key: `set_field` writes at the first field with that key, never after the current one |
| Utils.AllCleaned | bibli_ls/utils.py:24-36 | the rest of the field loop leaves every string field of the entry cleaned |
| Utils.ProcessedFieldsClean | bibli_ls/utils.py:22-36 | with any field keys, repeated ones included, every string field afterwards is a cleaned value under its own key: no newline, and at most limit + 3 characters (+ 2 for url) for a non-negative limit |
| Utils.EntryRef.constructor | bibli_ls/utils.py:22 | the entry object holds the given entry |
| Utils.EntryRef.SetField | bibli_ls/utils.py:36 | `set_field` replaces the entry's fields by the updated list and nothing else |
| Utils.ProcessField | bibli_ls/utils.py:25-36 | one turn of the field loop changes only the fields, to the result of the step function |
| Utils.ProcessBibEntry | bibli_ls/utils.py:22-36 | the entry afterwards is the old one with the field loop applied to its fields; nothing else changes |
| Server.WithTriggerKeeps | bibli_ls/server.py:104-107 | registering the prefix keeps every existing trigger in place, adds one element, and puts the prefix last |
| Server.UpdateTriggerCharacters | bibli_ls/server.py:99-107 | without a completion provider nothing changes; otherwise its list gets the prefix appended, or becomes `[prefix]` when empty or absent |
| Server.ResolvedPathAbsolute | bibli_ls/server.py:153-154 | a resolved bibliography path is absolute when the configured path is, or when the workspace root it is joined under is |
| Server.Join | bibli_ls/server.py:154 | `os.path.join` starts with the root and ends with the relative path |
| Server.ResolvePath | bibli_ls/server.py:153-154 | an absolute path, or any path without a workspace root, is kept; a relative one is joined under the root |
| Server.LoadLibrariesContents | bibli_ls/server.py:151-165 | a completed rebuild holds one library per configured path in order, each the parse of the resolved path; a failed open stops it after the libraries before that path |
| Server.LanguageServer.constructor | bibli_ls/server.py:181-186 | a new server has no libraries and no configured bibliography file |
| Server.LanguageServer.ParseBibfiles | bibli_ls/server.py:148-165 | the library list is cleared and rebuilt from the configured files; nothing of the old list remains |
| Server.LibraryItemsAt | bibli_ls/server.py:319-333 | the inner loop appends one item per entry, in library order |
| Server.CompletionItemsOrder | bibli_ls/server.py:318-333 | item `k` is the prefixed key of the `k`-th entry over all libraries in list order, so there is one item per entry |
| Server.Completion | bibli_ls/server.py:310-339 | None exactly when no library has an entry; otherwise a complete list whose items are, in order, prefix + key with kind Field for every entry |
| Server.CompletionTestOrder | tests/lsp_tests/test_completion.py:30-35 | a library with keys test1, test2, test3, reference_test gives exactly the labels @test1, @test2, @test3, @reference_test |
| Server.CompletionKeepsDuplicates | bibli_ls/server.py:318-333 | a key present in two libraries is offered twice |
| Server.KeyOf | bibli_ls/server.py:256 | the key is the word with the prefix removed: never longer than the word, and the word itself for an empty prefix |
| Server.KeyOfFoundWord | bibli_ls/server.py:256 | for a prefix with a non-word character the key is the word after the prefix |
| Server.DefinitionTargetsAppend | bibli_ls/server.py:257-268 | requests follow library order |
| Server.DefinitionTargetsExact | bibli_ls/server.py:257-268 | each request comes from a library holding the key at a truthy start line, and every such library gives one |
| Server.StartLineZeroSkipped | bibli_ls/server.py:259 | an entry at start line 0, or with none, opens nothing |
| Server.RebuiltDefinitionsComeFromFiles | bibli_ls/server.py:151-165 | after a rebuild every definition points into a configured file whose new parse holds the key |
| Server.GotoDefinition | bibli_ls/server.py:245-268 | no word, no request; otherwise the requests for the key (word without the prefix) in every library, in order |
| Server.HoverAt | bibli_ls/server.py:271-301 | a hover exactly when there is a word and the first library has its key; it spans the cursor's line and shows that entry |
| Server.HoverOnlyFirstLibrary | bibli_ls/server.py:286-301 | libraries after the first never change the hover |
| Server.LocationOf | bibli_ls/server.py:229-239 | a match's location is in `file://` + path, on the 0-based line `line_number - 1`, from the first submatch's start, one character shorter than the submatch |
| Server.MatchLocationsExact | bibli_ls/server.py:226-240 | fails exactly when a match has no submatch; otherwise location `k` belongs to the `k`-th match record: line - 1, first submatch start, end - 1 |
| Server.FindReferences | bibli_ls/server.py:196-242 | None without a root or a word; otherwise the match locations in input order, or IndexError |

## Left out

- Transport and bootstrapping: the pygls server, `lsp_initialize`, `show_message`, and the conversion of UTF-16 positions. Positions count characters; the clamping of a column past the end of the line is modelled (`Utils.Column`).
- Show-document calls are not performed. `GotoDefinition` returns the list of requests it would issue.
- The watchdog file watcher and its one-second debounce (bibli_ls/server.py:109-146) are threaded and clock-based.
- TOML configuration loading (bibli_ls/server.py:70-97). The cite prefix, the character limit (default 400, prefix "@") and the bibliography paths are parameters or fields. The code reads `cite_prefix` and `doc_format`, which the configuration class does not define.
- Reading and parsing a bibliography file is the parameter `load`. It returns the parsed library, or None when opening the file raises.
- Running ripgrep: its JSON records are a parameter of `FindReferences`.
- `build_doc_string` is not part of this model. Documentation strings come from a parameter `docString`.
- Utils.PrefixWordAtPosition: the prefix is taken literally. Regular-expression metacharacters in a configured prefix are not interpreted.
- Utils.ProcessBibEntry: Python object identity is not modelled. A field is a value in the entry's list, and the in-place change of `f.value` is an update of that list position.
- The Zotero and BibTeX backends are network and file I/O over modules not shown.
