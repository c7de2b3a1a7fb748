/**
 * bibli_ls/server.py: the language server's library list and its request
 * handlers for completion, definition, hover and references, plus the
 * registration of the cite prefix as a completion trigger character.
 */
module Server {
  import opened Wrappers
  import opened PyStr
  import opened Bib
  import opened Lsp
  import opened Utils

  // ---------------------------------------------------------------------
  // update_trigger_characters
  // ---------------------------------------------------------------------

  /** The trigger list after registering `prefix`: appended to a non-empty
      list, otherwise the list becomes exactly `[prefix]`. */
  function WithTrigger(triggers: Option<seq<string>>, prefix: string): seq<string> {
    if triggers.Some? && triggers.value != [] then triggers.value + [prefix] else [prefix]
  }

  /** Registering the prefix keeps every existing trigger in its place,
      adds exactly one element, and the prefix is then a trigger. */
  lemma WithTriggerKeeps(triggers: Option<seq<string>>, prefix: string)
    ensures var r := WithTrigger(triggers, prefix);
      && prefix in r && r[|r| - 1] == prefix
      && |r| == (if triggers.Some? then |triggers.value| else 0) + 1
      && (triggers.Some? ==> forall i :: 0 <= i < |triggers.value| ==> r[i] == triggers.value[i])
  {
  }

  /** `update_trigger_characters`: with no completion provider nothing
      changes; otherwise its trigger list is updated in place. */
  method UpdateTriggerCharacters(capabilities: ServerCapabilities, prefix: string)
    modifies capabilities.completionProvider
    ensures capabilities.completionProvider == old(capabilities.completionProvider)
    ensures var provider := capabilities.completionProvider;
      provider != null ==> provider.triggerCharacters == Some(WithTrigger(old(provider.triggerCharacters), prefix))
  {
    var provider := capabilities.completionProvider;
    if provider != null {
      if provider.triggerCharacters.Some? && provider.triggerCharacters.value != [] {
        provider.triggerCharacters := Some(provider.triggerCharacters.value + [prefix]);
      } else {
        provider.triggerCharacters := Some([prefix]);
      }
    }
  }

  // ---------------------------------------------------------------------
  // parse_bibfiles
  // ---------------------------------------------------------------------

  /** `os.path.isabs` on a POSIX path. */
  predicate IsAbs(path: string) {
    |path| > 0 && path[0] == '/'
  }

  /** `os.path.join(root, path)` for a relative `path`. */
  function Join(root: string, path: string): (r: string)
    ensures |root| + |path| <= |r| && r[..|root|] == root && r[|r| - |path|..] == path
  {
    if root == [] || root[|root| - 1] == '/' then root + path else root + "/" + path
  }

  /** A relative bibliography path is taken relative to the workspace root
      when there is one. */
  function ResolvePath(root: Option<string>, path: string): (r: string)
    ensures IsAbs(path) || !Truthy(root) ==> r == path
    ensures !IsAbs(path) && Truthy(root) ==>
      |root.value| + |path| <= |r| && r[..|root.value|] == root.value && r[|r| - |path|..] == path
  {
    if !IsAbs(path) && Truthy(root) then Join(root.value, path) else path
  }

  /** A resolved bibliography path is absolute when the configured path is,
      or when the workspace root it is joined under is. */
  lemma ResolvedPathAbsolute(root: Option<string>, path: string)
    requires IsAbs(path) || (Truthy(root) && IsAbs(root.value))
    ensures IsAbs(ResolvePath(root, path))
  {
    if !IsAbs(path) {
      var r := ResolvePath(root, path);
      assert r[..|root.value|] == root.value;
      assert r[0] == root.value[0];
    }
  }

  /** The library list `parse_bibfiles` builds from the configured paths,
      and whether it finished.  `load(p)` stands for reading and parsing
      the file at `p`; None means that opening it raised, which ends the
      rebuild with the libraries appended so far. */
  function LoadLibraries(paths: seq<string>, root: Option<string>, load: string -> Option<Library>): (bool, seq<Database>) {
    if paths == [] then (true, [])
    else
      var path := ResolvePath(root, paths[0]);
      match load(path)
      case None => (false, [])
      case Some(lib) =>
        var rest := LoadLibraries(paths[1..], root, load);
        (rest.0, [Database(lib, path)] + rest.1)
  }

  /** A completed rebuild holds one library per configured path, in order,
      each the parse of the resolved path; an interrupted one holds those
      before the first path that could not be opened. */
  lemma {:induction false} LoadLibrariesContents(paths: seq<string>, root: Option<string>, load: string -> Option<Library>)
    ensures var (ok, dbs) := LoadLibraries(paths, root, load);
      && |dbs| <= |paths|
      && (ok <==> |dbs| == |paths|)
      && (!ok ==> load(ResolvePath(root, paths[|dbs|])).None?)
      && forall i :: 0 <= i < |dbs| ==>
           && dbs[i].path == ResolvePath(root, paths[i])
           && load(dbs[i].path) == Some(dbs[i].library)
  {
    if paths != [] {
      LoadLibrariesContents(paths[1..], root, load);
    }
  }

  /** One turn of the rebuild loop: when the libraries appended so far,
      followed by the rebuild from path `i` on, make up the whole rebuild,
      then either path `i` cannot be opened and the rebuild ends with those
      libraries, or its library is appended and the same holds from `i + 1`. */
  lemma LoadLibrariesStep(paths: seq<string>, i: nat, root: Option<string>, load: string -> Option<Library>, libs: seq<Database>)
    requires i < |paths|
    requires var rest := LoadLibraries(paths[i..], root, load);
      LoadLibraries(paths, root, load) == (rest.0, libs + rest.1)
    ensures var path := ResolvePath(root, paths[i]);
      var rest := LoadLibraries(paths[i + 1..], root, load);
      if load(path).None? then LoadLibraries(paths, root, load) == (false, libs)
      else LoadLibraries(paths, root, load) == (rest.0, (libs + [Database(load(path).value, path)]) + rest.1)
  {
    assert paths[i..][1..] == paths[i + 1..];
    assert paths[i..][0] == paths[i];
    assert libs + [] == libs;
    var path := ResolvePath(root, paths[i]);
    if load(path).Some? {
      var rest := LoadLibraries(paths[i + 1..], root, load);
      assert libs + ([Database(load(path).value, path)] + rest.1) == (libs + [Database(load(path).value, path)]) + rest.1;
    }
  }

  /** The server: its library list and the configuration it reads. */
  class LanguageServer {
    var libraries: seq<Database>
    var bibfiles: seq<string>
    var rootPath: Option<string>

    /** A fresh server has no libraries and the default configuration,
        which names no bibliography file. */
    constructor (root: Option<string>)
      ensures libraries == [] && bibfiles == [] && rootPath == root
    {
      libraries := [];
      bibfiles := [];
      rootPath := root;
    }

    /** `parse_bibfiles`: clear the library list, then append one library
        per configured file.  Nothing of the old list survives. */
    method ParseBibfiles(load: string -> Option<Library>) returns (ok: bool)
      modifies this`libraries
      ensures (ok, libraries) == LoadLibraries(bibfiles, rootPath, load)
    {
      libraries := [];
      var files, root := bibfiles, rootPath;
      var i := 0;
      assert files[0..] == files;
      assert libraries + LoadLibraries(files, root, load).1 == LoadLibraries(files, root, load).1;
      while i < |files|
        invariant 0 <= i <= |files|
        invariant var rest := LoadLibraries(files[i..], root, load);
          LoadLibraries(files, root, load) == (rest.0, libraries + rest.1)
      {
        var path := files[i];
        if !IsAbs(path) && Truthy(root) {
          path := Join(root.value, path);
        }
        assert path == ResolvePath(root, files[i]);
        var parsed := load(path);
        LoadLibrariesStep(files, i, root, load, libraries);
        if parsed.None? {
          return false;
        }
        libraries := libraries + [Database(parsed.value, path)];
        i := i + 1;
      }
      assert libraries + [] == libraries;
      return true;
    }
  }

  // ---------------------------------------------------------------------
  // completion
  // ---------------------------------------------------------------------

  /** The completion item for one entry: the prefixed key, kind Field, and
      the entry's documentation as Markdown. */
  function ItemFor(e: Entry, prefix: string, docString: Entry -> string): CompletionItem {
    CompletionItem(prefix + e.key, FieldKind, MarkupContent(Markdown, docString(e)))
  }

  /** The items the inner loop appends for one library. */
  function LibraryItems(entries: seq<Entry>, prefix: string, docString: Entry -> string): seq<CompletionItem> {
    if entries == [] then []
    else LibraryItems(entries[..|entries| - 1], prefix, docString) + [ItemFor(entries[|entries| - 1], prefix, docString)]
  }

  /** The items the outer loop has appended after the given libraries. */
  function CompletionItems(libraries: seq<Database>, prefix: string, docString: Entry -> string): seq<CompletionItem> {
    if libraries == [] then []
    else
      (CompletionItems(libraries[..|libraries| - 1], prefix, docString)
       + LibraryItems(libraries[|libraries| - 1].library, prefix, docString))
  }

  /** Every entry of every library, libraries in list order and entries in
      library order, duplicates kept. */
  function AllEntries(libraries: seq<Database>): seq<Entry> {
    if libraries == [] then [] else libraries[0].library + AllEntries(libraries[1..])
  }

  lemma {:induction false} LibraryItemsAt(entries: seq<Entry>, prefix: string, docString: Entry -> string)
    ensures |LibraryItems(entries, prefix, docString)| == |entries|
    ensures forall k :: 0 <= k < |entries| ==>
      LibraryItems(entries, prefix, docString)[k] == ItemFor(entries[k], prefix, docString)
  {
    if entries != [] {
      LibraryItemsAt(entries[..|entries| - 1], prefix, docString);
    }
  }

  lemma {:induction false} AllEntriesAppend(a: seq<Database>, b: seq<Database>)
    ensures AllEntries(a + b) == AllEntries(a) + AllEntries(b)
  {
    if a != [] {
      assert (a + b)[0] == a[0] && (a + b)[1..] == a[1..] + b;
      AllEntriesAppend(a[1..], b);
    } else {
      assert a + b == b;
    }
  }

  /** The completion items are exactly one item per entry, in the order of
      all libraries' entries: item `k` is the `k`-th entry's prefixed key. */
  lemma {:induction false} CompletionItemsOrder(libraries: seq<Database>, prefix: string, docString: Entry -> string)
    ensures |CompletionItems(libraries, prefix, docString)| == |AllEntries(libraries)|
    ensures forall k :: 0 <= k < |AllEntries(libraries)| ==>
      CompletionItems(libraries, prefix, docString)[k] == ItemFor(AllEntries(libraries)[k], prefix, docString)
  {
    if libraries != [] {
      var init, last := libraries[..|libraries| - 1], libraries[|libraries| - 1];
      CompletionItemsOrder(init, prefix, docString);
      LibraryItemsAt(last.library, prefix, docString);
      assert libraries == init + [last];
      AllEntriesAppend(init, [last]);
      assert AllEntries([last]) == last.library + AllEntries([]);
    }
  }

  /** `completion`: one item per entry of every library; None when there is
      no entry at all.  The cursor position and the document play no part. */
  method Completion(libraries: seq<Database>, prefix: string, docString: Entry -> string)
    returns (r: Option<CompletionList>)
    ensures r.None? <==> AllEntries(libraries) == []
    ensures r.Some? ==> !r.value.isIncomplete
    ensures r.Some? ==> |r.value.items| == |AllEntries(libraries)|
    ensures r.Some? ==> forall k :: 0 <= k < |r.value.items| ==>
      r.value.items[k] == ItemFor(AllEntries(libraries)[k], prefix, docString)
  {
    var items: seq<CompletionItem> := [];
    for i := 0 to |libraries|
      invariant items == CompletionItems(libraries[..i], prefix, docString)
    {
      var entries := libraries[i].library;
      for j := 0 to |entries|
        invariant items == CompletionItems(libraries[..i], prefix, docString) + LibraryItems(entries[..j], prefix, docString)
      {
        assert entries[..j + 1][..j] == entries[..j];
        items := items + [ItemFor(entries[j], prefix, docString)];
      }
      assert entries[..|entries|] == entries;
      assert libraries[..i + 1][..i] == libraries[..i];
    }
    assert libraries[..|libraries|] == libraries;
    CompletionItemsOrder(libraries, prefix, docString);
    r := if items != [] then Some(CompletionList(false, items)) else None;
  }

  /** The order pinned by the completion test: a library file declaring
      `test1`, `test2`, `test3`, `reference_test` gives exactly four items
      labelled with the "@" prefix in that order. */
  lemma CompletionTestOrder(lib: Library, path: string, docString: Entry -> string)
    requires |lib| == 4
    requires lib[0].key == "test1" && lib[1].key == "test2" && lib[2].key == "test3"
    requires lib[3].key == "reference_test"
    ensures var items := CompletionItems([Database(lib, path)], "@", docString);
      && |items| == 4
      && items[0].labelText == "@test1" && items[1].labelText == "@test2"
      && items[2].labelText == "@test3" && items[3].labelText == "@reference_test"
      && forall k :: 0 <= k < 4 ==> items[k].kind == FieldKind
  {
    var dbs := [Database(lib, path)];
    CompletionItemsOrder(dbs, "@", docString);
    assert AllEntries(dbs) == lib + AllEntries([]);
  }

  /** A key defined in two libraries is offered twice: completion does not
      remove duplicates across libraries. */
  lemma CompletionKeepsDuplicates(e: Entry, pathA: string, pathB: string, prefix: string, docString: Entry -> string)
    ensures var items := CompletionItems([Database([e], pathA), Database([e], pathB)], prefix, docString);
      |items| == 2 && items[0] == items[1] && items[0].labelText == prefix + e.key
  {
    var dbs := [Database([e], pathA), Database([e], pathB)];
    CompletionItemsOrder(dbs, prefix, docString);
    assert AllEntries(dbs) == [e] + AllEntries(dbs[1..]);
    assert AllEntries(dbs[1..]) == [e] + AllEntries([]);
  }

  // ---------------------------------------------------------------------
  // goto_definition
  // ---------------------------------------------------------------------

  /** The citation key named by a word: the word with every occurrence of
      the prefix removed. */
  function KeyOf(word: string, prefix: string): (key: string)
    ensures prefix != [] ==> |key| <= |word|
    ensures prefix == [] ==> key == word
  {
    ReplaceAll(word, prefix, "")
  }

  /** For a prefix with a character outside `[A-Za-z_0-9]` (such as "@"),
      the key of a found word is the text after the prefix. */
  lemma KeyOfFoundWord(lines: seq<string>, pos: Position, prefix: string)
    requires pos.line >= 0 && pos.character >= 0 && pos.line < |lines|
    requires PrefixWordAtPosition(lines, pos, prefix).Some?
    requires exists j :: 0 <= j < |prefix| && !IsWordChar(prefix[j])
    ensures var w := PrefixWordAtPosition(lines, pos, prefix).value;
      KeyOf(w, prefix) == w[|prefix|..]
  {
    var w := PrefixWordAtPosition(lines, pos, prefix).value;
    WordShape(lines, pos, prefix);
    NotInWord(prefix, w[|prefix|..]);
    ReplaceAbsent(w[|prefix|..], prefix, "");
    assert w[..|prefix|] == prefix;
  }

  /** The request to show a library file with the cursor at the start of `line`. */
  function ShowAt(path: string, line: int): ShowDocumentParams {
    ShowDocumentParams("file://" + path, Range(Position(line, 0), Position(line, 0)))
  }

  /** Whether an entry has a truthy start line (present and not 0). */
  predicate HasStartLine(e: Entry) {
    e.startLine.Some? && e.startLine.value != 0
  }

  /** The show-document request for one library, if it has the key at a
      truthy start line. */
  function TargetIn(db: Database, key: string): Option<ShowDocumentParams> {
    match Get(db.library, key)
    case Some(e) => if HasStartLine(e) then Some(ShowAt(db.path, e.startLine.value)) else None
    case None => None
  }

  /** The show-document requests `goto_definition` issues, in library order. */
  function DefinitionTargets(libraries: seq<Database>, key: string): seq<ShowDocumentParams> {
    if libraries == [] then []
    else
      var rest := DefinitionTargets(libraries[..|libraries| - 1], key);
      match TargetIn(libraries[|libraries| - 1], key)
      case Some(t) => rest + [t]
      case None => rest
  }

  /** The requests for a concatenation of library lists are those of the
      first list followed by those of the second. */
  lemma {:induction false} DefinitionTargetsAppend(a: seq<Database>, b: seq<Database>, key: string)
    ensures DefinitionTargets(a + b, key) == DefinitionTargets(a, key) + DefinitionTargets(b, key)
    decreases |b|
  {
    if b != [] {
      assert (a + b)[..|a + b| - 1] == a + b[..|b| - 1];
      assert (a + b)[|a + b| - 1] == b[|b| - 1];
      DefinitionTargetsAppend(a, b[..|b| - 1], key);
    } else {
      assert a + b == a;
    }
  }

  /** Every request comes from a library holding the key at a truthy start
      line, and every such library yields one. */
  lemma {:induction false} DefinitionTargetsExact(libraries: seq<Database>, key: string)
    ensures |DefinitionTargets(libraries, key)| <= |libraries|
    ensures forall t :: t in DefinitionTargets(libraries, key) ==>
      exists i :: 0 <= i < |libraries| && TargetIn(libraries[i], key) == Some(t)
    ensures forall i :: 0 <= i < |libraries| && TargetIn(libraries[i], key).Some? ==>
      TargetIn(libraries[i], key).value in DefinitionTargets(libraries, key)
  {
    if libraries != [] {
      var init, last := libraries[..|libraries| - 1], libraries[|libraries| - 1];
      DefinitionTargetsExact(init, key);
      var rest := DefinitionTargets(init, key);
      assert DefinitionTargets(libraries, key) == rest + (if TargetIn(last, key).Some? then [TargetIn(last, key).value] else []);
      forall t | t in DefinitionTargets(libraries, key)
        ensures exists i :: 0 <= i < |libraries| && TargetIn(libraries[i], key) == Some(t)
      {
        if t in DefinitionTargets(init, key) {
          var i :| 0 <= i < |init| && TargetIn(init[i], key) == Some(t);
          assert libraries[i] == init[i];
        }
      }
      forall i | 0 <= i < |libraries| && TargetIn(libraries[i], key).Some?
        ensures TargetIn(libraries[i], key).value in DefinitionTargets(libraries, key)
      {
        if i < |init| { assert libraries[i] == init[i]; }
      }
    }
  }

  /** An entry whose start line is 0 is skipped, as is one without a start line. */
  lemma StartLineZeroSkipped(e: Entry, path: string)
    requires e.startLine == Some(0) || e.startLine.None?
    ensures DefinitionTargets([Database([e], path)], e.key) == []
  {
  }

  /** After a completed rebuild, every definition request points into one of
      the configured files, resolved, whose new parse holds the key: keys
      that the files no longer define are not found. */
  lemma RebuiltDefinitionsComeFromFiles(paths: seq<string>, root: Option<string>,
                                        load: string -> Option<Library>, key: string)
    ensures var dbs := LoadLibraries(paths, root, load).1;
      forall t :: t in DefinitionTargets(dbs, key) ==>
        exists i :: (0 <= i < |paths| && t.uri == "file://" + ResolvePath(root, paths[i])
          && load(ResolvePath(root, paths[i])).Some?
          && Get(load(ResolvePath(root, paths[i])).value, key).Some?)
  {
    var dbs := LoadLibraries(paths, root, load).1;
    LoadLibrariesContents(paths, root, load);
    DefinitionTargetsExact(dbs, key);
    forall t | t in DefinitionTargets(dbs, key)
      ensures exists i :: (0 <= i < |paths| && t.uri == "file://" + ResolvePath(root, paths[i])
          && load(ResolvePath(root, paths[i])).Some?
          && Get(load(ResolvePath(root, paths[i])).value, key).Some?)
    {
      var i :| 0 <= i < |dbs| && TargetIn(dbs[i], key) == Some(t);
      assert load(ResolvePath(root, paths[i])) == Some(dbs[i].library);
    }
  }

  /** `goto_definition`: nothing without a word under the cursor; otherwise
      one show-document request per library that holds the key at a truthy
      start line. */
  method GotoDefinition(libraries: seq<Database>, lines: seq<string>, pos: Position, prefix: string)
    returns (shown: seq<ShowDocumentParams>)
    requires pos.line >= 0 && pos.character >= 0
    ensures !Truthy(PrefixWordAtPosition(lines, pos, prefix)) ==> shown == []
    ensures Truthy(PrefixWordAtPosition(lines, pos, prefix)) ==>
      shown == DefinitionTargets(libraries, KeyOf(PrefixWordAtPosition(lines, pos, prefix).value, prefix))
  {
    shown := [];
    var word := PrefixWordAtPosition(lines, pos, prefix);
    if !Truthy(word) {
      return;
    }
    var id := KeyOf(word.value, prefix);
    for i := 0 to |libraries|
      invariant shown == DefinitionTargets(libraries[..i], id)
    {
      var library := libraries[i];
      var entry := Get(library.library, id);
      assert libraries[..i + 1][..i] == libraries[..i];
      if entry.Some? && HasStartLine(entry.value) {
        shown := shown + [ShowAt(library.path, entry.value.startLine.value)];
      }
    }
    assert libraries[..|libraries|] == libraries;
  }

  // ---------------------------------------------------------------------
  // hover
  // ---------------------------------------------------------------------

  /** `hover`: only the first library is consulted.  The hover spans the
      whole line of the cursor and shows the entry's documentation. */
  function HoverAt(libraries: seq<Database>, lines: seq<string>, pos: Position, prefix: string,
                   docString: Entry -> string): (r: Option<Hover>)
    requires pos.line >= 0 && pos.character >= 0
    ensures r.Some? <==>
      && Truthy(PrefixWordAtPosition(lines, pos, prefix))
      && |libraries| > 0
      && Get(libraries[0].library, KeyOf(PrefixWordAtPosition(lines, pos, prefix).value, prefix)).Some?
    ensures r.Some? ==> r.value.range == Range(Position(pos.line, 0), Position(pos.line + 1, 0))
    ensures r.Some? ==> exists e :: (e in libraries[0].library
      && e.key == KeyOf(PrefixWordAtPosition(lines, pos, prefix).value, prefix)
      && r.value.contents == MarkupContent(Markdown, docString(e)))
  {
    var word := PrefixWordAtPosition(lines, pos, prefix);
    if !Truthy(word) || libraries == [] then None
    else
      match Get(libraries[0].library, KeyOf(word.value, prefix))
      case Some(e) =>
        Some(Hover(MarkupContent(Markdown, docString(e)),
                   Range(Position(pos.line, 0), Position(pos.line + 1, 0))))
      case None => None
  }

  /** Libraries after the first never change the hover. */
  lemma HoverOnlyFirstLibrary(libraries: seq<Database>, more: seq<Database>, lines: seq<string>,
                              pos: Position, prefix: string, docString: Entry -> string)
    requires pos.line >= 0 && pos.character >= 0
    requires |libraries| > 0
    ensures HoverAt(libraries + more, lines, pos, prefix, docString)
         == HoverAt(libraries[..1], lines, pos, prefix, docString)
  {
  }

  // ---------------------------------------------------------------------
  // find_references
  // ---------------------------------------------------------------------

  datatype Submatch = Submatch(start: int, end: int)

  /** One record of ripgrep's JSON output; `kind` is its "type" ("begin",
      "match", "end", ...), and the other fields are read only for matches. */
  datatype RgRecord = RgRecord(kind: string, path: string, lineNumber: int, submatches: seq<Submatch>)

  /** What `find_references` returns or raises. */
  datatype ReferencesResult = NoReferences | References(locations: seq<Location>) | IndexError

  /** The location of a match: 0-based line, the first submatch's start,
      and its end minus one. */
  function LocationOf(r: RgRecord): (loc: Location)
    requires r.submatches != []
    ensures loc.uri == "file://" + r.path
    ensures loc.range.start.line == loc.range.end.line == r.lineNumber - 1
    ensures loc.range.start.character == r.submatches[0].start
    ensures loc.range.end.character - loc.range.start.character
         == (r.submatches[0].end - r.submatches[0].start) - 1
  {
    var line := r.lineNumber - 1;
    Location("file://" + r.path,
             Range(Position(line, r.submatches[0].start), Position(line, r.submatches[0].end - 1)))
  }

  /** The locations of the match records, in order; None when a match has
      no submatch, where `submatches[0]` raises IndexError. */
  function MatchLocations(results: seq<RgRecord>): Option<seq<Location>> {
    if results == [] then Some([])
    else
      match MatchLocations(results[..|results| - 1])
      case None => None
      case Some(locs) =>
        var r := results[|results| - 1];
        if r.kind != "match" then Some(locs)
        else if r.submatches == [] then None
        else Some(locs + [LocationOf(r)])
  }

  /** The match records of the output, in order. */
  function Matches(results: seq<RgRecord>): seq<RgRecord> {
    if results == [] then []
    else (if results[0].kind == "match" then [results[0]] else []) + Matches(results[1..])
  }

  lemma {:induction false} MatchesAppend(a: seq<RgRecord>, b: seq<RgRecord>)
    ensures Matches(a + b) == Matches(a) + Matches(b)
  {
    if a != [] {
      assert (a + b)[0] == a[0] && (a + b)[1..] == a[1..] + b;
      MatchesAppend(a[1..], b);
    } else {
      assert a + b == b;
    }
  }

  /** The mapping fails exactly when some match has no submatch; otherwise
      location `k` is that of the `k`-th match record, so there is one
      location per match and the output order follows the input. */
  lemma {:induction false} MatchLocationsExact(results: seq<RgRecord>)
    ensures MatchLocations(results).None? <==> exists m :: m in Matches(results) && m.submatches == []
    ensures MatchLocations(results).Some? ==>
      && |MatchLocations(results).value| == |Matches(results)|
      && forall k :: 0 <= k < |Matches(results)| ==>
           Matches(results)[k].submatches != [] &&
           MatchLocations(results).value[k] == LocationOf(Matches(results)[k])
  {
    if results != [] {
      var init, last := results[..|results| - 1], results[|results| - 1];
      MatchLocationsExact(init);
      assert results == init + [last];
      MatchesAppend(init, [last]);
      assert Matches([last]) == (if last.kind == "match" then [last] else []) + Matches([]);
    }
  }

  /** `find_references`: nothing without a workspace root or without a
      word under the cursor; otherwise the locations of ripgrep's match
      records.  `results` stands for ripgrep's output for that word. */
  method FindReferences(rootPath: Option<string>, lines: seq<string>, pos: Position, prefix: string,
                        results: seq<RgRecord>)
    returns (r: ReferencesResult)
    requires pos.line >= 0 && pos.character >= 0
    ensures !Truthy(rootPath) || !Truthy(PrefixWordAtPosition(lines, pos, prefix)) ==> r == NoReferences
    ensures Truthy(rootPath) && Truthy(PrefixWordAtPosition(lines, pos, prefix)) ==>
      r == (match MatchLocations(results) case None => IndexError case Some(locs) => References(locs))
  {
    if !Truthy(rootPath) {
      return NoReferences;
    }
    var word := PrefixWordAtPosition(lines, pos, prefix);
    if !Truthy(word) {
      return NoReferences;
    }
    var references: seq<Location> := [];
    for i := 0 to |results|
      invariant MatchLocations(results[..i]) == Some(references)
    {
      var res := results[i];
      assert results[..i + 1][..i] == results[..i];
      if res.kind == "match" {
        if res.submatches == [] {
          assert MatchLocations(results[..i + 1]).None?;
          MatchLocationsStayFailed(results[..i + 1], results[i + 1..]);
          assert results[..i + 1] + results[i + 1..] == results;
          return IndexError;
        }
        references := references + [LocationOf(res)];
      }
    }
    assert results[..|results|] == results;
    return References(references);
  }

  /** Once a prefix of the output has failed, the whole output fails. */
  lemma {:induction false} MatchLocationsStayFailed(a: seq<RgRecord>, b: seq<RgRecord>)
    requires MatchLocations(a).None?
    ensures MatchLocations(a + b).None?
    decreases |b|
  {
    if b != [] {
      assert (a + b)[..|a + b| - 1] == a + b[..|b| - 1];
      MatchLocationsStayFailed(a, b[..|b| - 1]);
    } else {
      assert a + b == a;
    }
  }
}
