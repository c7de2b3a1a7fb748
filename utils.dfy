/**
 * bibli_ls/utils.py: the word under the cursor that starts with the cite
 * prefix, and the clean-up of an entry's string fields before display.
 */
module Utils {
  import opened Wrappers
  import opened PyStr
  import opened Bib
  import opened Lsp

  // ---------------------------------------------------------------------
  // prefix_word_at_position
  // ---------------------------------------------------------------------

  /** Whether the pattern `prefix + "[A-Za-z_0-9]*$"` matches `start` at
      index `p`, and if so the matched text.  `$` matches at the end of the
      text or just before a final newline. */
  function MatchAt(start: string, prefix: string, p: nat): (r: Option<string>)
    requires p <= |start|
    ensures r.Some? ==> |prefix| <= |r.value| && r.value[..|prefix|] == prefix
    ensures r.Some? ==> AllWord(r.value[|prefix|..])
    ensures r.Some? ==> (r.value == start[p..]
      || (p < |start| && start[|start| - 1] == '\n' && r.value == start[p..|start| - 1]))
    ensures p + |prefix| <= |start| && start[p..p + |prefix|] == prefix && AllWord(start[p + |prefix|..])
      ==> r == Some(start[p..])
    ensures p + |prefix| < |start| && start[p..p + |prefix|] == prefix && start[|start| - 1] == '\n'
      && AllWord(start[p + |prefix|..|start| - 1])
      ==> r == Some(start[p..|start| - 1])
  {
    var q := p + |prefix|;
    if q <= |start| && start[p..q] == prefix then
      if AllWord(start[q..]) then Some(start[p..])
      else if q < |start| && start[|start| - 1] == '\n' && AllWord(start[q..|start| - 1]) then
        Some(start[p..|start| - 1])
      else None
    else None
  }

  /** The first match found by scanning left to right from index `p`, as
      `re.findall(...)[0]` does: the least index at which the pattern matches. */
  function FindStart(start: string, prefix: string, p: nat): (r: Option<nat>)
    requires p <= |start|
    ensures r.Some? ==> p <= r.value <= |start| && MatchAt(start, prefix, r.value).Some?
    ensures r.Some? ==> forall k :: p <= k < r.value ==> MatchAt(start, prefix, k).None?
    ensures r.None? ==> forall k :: p <= k <= |start| ==> MatchAt(start, prefix, k).None?
    decreases |start| - p
  {
    if MatchAt(start, prefix, p).Some? then Some(p)
    else if p == |start| then None
    else FindStart(start, prefix, p + 1)
  }

  /** The cursor column on `line` after the document's position conversion:
      a character past the end of a non-empty line becomes the line's last
      index, and every column on an empty line is 0. */
  function Column(line: string, character: nat): (col: nat)
    ensures col <= |line|
    ensures character <= |line| ==> col == character
    ensures character > |line| && |line| > 0 ==> col == |line| - 1
  {
    if character <= |line| then character
    else if |line| == 0 then 0
    else |line| - 1
  }

  /** `prefix_word_at_position`: the document's `word_at_position` with the
      start pattern `prefix + "[A-Za-z_0-9]*$"`.  A line past the end of the
      document gives the empty word; a start pattern that does not match
      makes `word_at_position` raise IndexError, which becomes None.
      Otherwise the word is the start match joined with the run of word
      characters that follows the cursor. */
  function PrefixWordAtPosition(lines: seq<string>, pos: Position, prefix: string): (r: Option<string>)
    requires pos.line >= 0 && pos.character >= 0
    ensures pos.line >= |lines| ==> r == Some("")
    ensures r.None? ==> pos.line < |lines|
  {
    if pos.line >= |lines| then Some("")
    else
      var line := lines[pos.line];
      var col := Column(line, pos.character);
      var start := line[..col];
      match FindStart(start, prefix, 0)
      case None => None
      case Some(p) => Some(MatchAt(start, prefix, p).value + LeadingWord(line[col..]))
  }

  /** Python truthiness of an optional string: present and non-empty. */
  predicate Truthy(s: Option<string>) {
    s.Some? && s.value != ""
  }

  /** A word found on a line of the document is the prefix followed by word
      characters: the start match ends at the cursor and the end match is a
      run of word characters after it. */
  lemma WordShape(lines: seq<string>, pos: Position, prefix: string)
    requires pos.line >= 0 && pos.character >= 0
    requires pos.line < |lines|
    requires PrefixWordAtPosition(lines, pos, prefix).Some?
    ensures var w := PrefixWordAtPosition(lines, pos, prefix).value;
      |prefix| <= |w| && w[..|prefix|] == prefix && AllWord(w[|prefix|..])
  {
  }

  /** `w` is the word read at the leftmost match `p` of the text before
      column `col`: the text from `p` to the cursor (without a final newline)
      followed by the word characters after the cursor. */
  ghost predicate AnchoredAt(line: string, col: nat, prefix: string, p: nat, w: string)
    requires col <= |line|
  {
    && p <= col
    && MatchAt(line[..col], prefix, p).Some?
    && (forall k :: 0 <= k < p ==> MatchAt(line[..col], prefix, k).None?)
    && (|| w == line[p..col] + LeadingWord(line[col..])
        || (p < col && line[col - 1] == '\n' && w == line[p..col - 1] + LeadingWord(line[col..])))
  }

  /** The word is anchored at the cursor: on an existing line a found word
      is read at the leftmost match before the cursor. */
  lemma WordAtCursor(lines: seq<string>, pos: Position, prefix: string)
    requires pos.line >= 0 && pos.character >= 0 && pos.line < |lines|
    ensures var line := lines[pos.line];
      var col := Column(line, pos.character);
      var r := PrefixWordAtPosition(lines, pos, prefix);
      r.Some? ==> exists p: nat :: AnchoredAt(line, col, prefix, p, r.value)
  {
    var line := lines[pos.line];
    var col := Column(line, pos.character);
    var start := line[..col];
    var found := FindStart(start, prefix, 0);
    var r := PrefixWordAtPosition(lines, pos, prefix);
    if found.Some? {
      var p := found.value;
      var m := MatchAt(start, prefix, p).value;
      assert r == Some(m + LeadingWord(line[col..]));
      assert start[p..] == line[p..col];
      if p < |start| {
        assert start[p..|start| - 1] == line[p..col - 1];
        assert start[|start| - 1] == line[col - 1];
      }
      assert AnchoredAt(line, col, prefix, p, r.value);
    }
  }

  /** On an existing line there is no word exactly when the pattern matches
      nowhere in the text before the cursor (`word_at_position` raised
      IndexError). */
  lemma NoWordAtCursor(lines: seq<string>, pos: Position, prefix: string)
    requires pos.line >= 0 && pos.character >= 0 && pos.line < |lines|
    ensures var line := lines[pos.line];
      var col := Column(line, pos.character);
      (PrefixWordAtPosition(lines, pos, prefix).None?
       <==> forall k :: 0 <= k <= col ==> MatchAt(line[..col], prefix, k).None?)
  {
    var line := lines[pos.line];
    var col := Column(line, pos.character);
    assert |line[..col]| == col;
  }

  /** A cursor past the end of the line `@` sees only the empty text before
      the last index, where the pattern cannot match: no word. */
  lemma PastEndOfLineNoWord()
    ensures PrefixWordAtPosition(["@"], Position(0, 2), "@").None?
  {
    assert Column("@", 2) == 0;
    assert "@"[..0] == [];
    assert MatchAt([], "@", 0).None?;
  }

  /** When the text just before the cursor is the prefix followed by word
      characters, a word is found. */
  lemma WordFoundAfterPrefix(lines: seq<string>, pos: Position, prefix: string, u: string)
    requires pos.line >= 0 && pos.character >= 0
    requires pos.line < |lines| && pos.character <= |lines[pos.line]|
    requires AllWord(u)
    requires |prefix + u| <= pos.character
    requires lines[pos.line][pos.character - |prefix + u|..pos.character] == prefix + u
    ensures PrefixWordAtPosition(lines, pos, prefix).Some?
  {
    var start := lines[pos.line][..pos.character];
    var p := pos.character - |prefix + u|;
    assert start[p..p + |prefix|] == prefix;
    assert start[p + |prefix|..] == u;
    assert MatchAt(start, prefix, p).Some?;
  }

  // ---------------------------------------------------------------------
  // process_bib_entry
  // ---------------------------------------------------------------------

  /** The brace and LaTeX tokens removed from every string field, in order. */
  const ReplaceList: seq<string> := ["{{", "}}", "\\vphantom", "\\{", "\\}"]

  /** Each token of `tokens` removed in turn with `str.replace`. */
  function StripTokens(v: string, tokens: seq<string>): (r: string)
    ensures (forall t :: t in tokens ==> t != []) ==> |r| <= |v|
    decreases |tokens|
  {
    if tokens == [] then v
    else
      assert tokens[0] in tokens && forall t :: t in tokens[1..] ==> t in tokens;
      StripTokens(ReplaceAll(v, tokens[0], ""), tokens[1..])
  }

  /** `v[:limit] + "..."` when `v` is longer than the limit, else `v`. */
  function Truncate(v: string, limit: int): (r: string)
    ensures |v| <= limit ==> r == v
    ensures 0 <= limit < |v| ==> r == v[..limit] + "..."
    ensures 0 <= limit ==> |r| <= limit + 3
  {
    if |v| > limit then SliceTo(v, limit) + "..." else v
  }

  /** The `url` field is shown between angle brackets. */
  function WrapUrl(key: string, v: string): (r: string)
    ensures key == "url" ==> |r| == |v| + 2 && r[0] == '<' && r[|r| - 1] == '>' && r[1..|r| - 1] == v
    ensures key != "url" ==> r == v
  {
    if key == "url" then "<" + v + ">" else v
  }

  /** The text after token removal and newline replacement. */
  function Flattened(v: string): string {
    ReplaceAll(StripTokens(v, ReplaceList), "\n", " ")
  }

  /** The value `process_bib_entry` writes back for a string field. */
  function CleanedValue(key: string, v: string, limit: int): string {
    WrapUrl(key, Truncate(Flattened(v), limit))
  }

  /** The inner `for r in replace_list` loop. */
  method RemoveTokens(value: string) returns (v: string)
    ensures v == StripTokens(value, ReplaceList)
    ensures |v| <= |value|
  {
    v := value;
    for i := 0 to |ReplaceList|
      invariant StripTokens(v, ReplaceList[i..]) == StripTokens(value, ReplaceList)
      invariant |v| <= |value|
    {
      assert ReplaceList[i..][1..] == ReplaceList[i + 1..];
      v := ReplaceAll(v, ReplaceList[i], "");
    }
  }

  /** The body of the field loop for one string value: the value is
      reassigned step by step. */
  method CleanValue(key: string, value: string, limit: int) returns (v: string)
    ensures v == CleanedValue(key, value, limit)
  {
    v := RemoveTokens(value);
    v := ReplaceAll(v, "\n", " ");
    if |v| > limit {
      v := SliceTo(v, limit) + "...";
    }
    if key == "url" {
      v := "<" + v + ">";
    }
  }

  /** No cleaned value contains a newline. */
  lemma CleanedHasNoNewline(key: string, v: string, limit: int)
    ensures forall i :: 0 <= i < |CleanedValue(key, v, limit)| ==> CleanedValue(key, v, limit)[i] != '\n'
  {
    var f := Flattened(v);
    ReplaceNewlines(StripTokens(v, ReplaceList));
    var t := Truncate(f, limit);
    if |f| > limit {
      var s := SliceTo(f, limit);
      assert forall i :: 0 <= i < |s| ==> s[i] == f[i];
      assert forall i :: 0 <= i < |t| ==> t[i] != '\n' by {
        forall i | 0 <= i < |t| ensures t[i] != '\n' {
          if i < |s| { assert t[i] == s[i]; } else { assert t[i] == "..."[i - |s|]; }
        }
      }
    }
    var w := WrapUrl(key, t);
    if key == "url" {
      forall i | 0 <= i < |w| ensures w[i] != '\n' {
        if 0 < i < |w| - 1 { assert w[i] == t[i - 1]; }
      }
    }
  }

  /** With a non-negative limit: a flattened value longer than the limit is
      cut to its first `limit` characters followed by "...", a shorter one is
      kept whole, and only `url` values are wrapped in angle brackets.  So a
      cleaned value has at most `limit + 3` characters, plus 2 for `url`. */
  lemma CleanedShape(key: string, v: string, limit: int)
    requires limit >= 0
    ensures var f, r := Flattened(v), CleanedValue(key, v, limit);
      var t := if |f| > limit then f[..limit] + "..." else f;
      && (key == "url" ==> r == "<" + t + ">")
      && (key != "url" ==> r == t)
      && |r| <= limit + 3 + (if key == "url" then 2 else 0)
      && |f| <= |v|
  {
    ReplaceNewlines(StripTokens(v, ReplaceList));
  }

  /** The token removal for the listed tokens, written out in their order. */
  lemma StripReplaceList(v: string)
    ensures StripTokens(v, ReplaceList)
      == ReplaceAll(ReplaceAll(ReplaceAll(ReplaceAll(ReplaceAll(v, "{{", ""), "}}", ""), "\\vphantom", ""), "\\{", ""), "\\}", "")
  {
  }

  /** In `{\}{` none of the first four tokens occurs. */
  lemma FirstTokensAbsent()
    ensures var s := "{\\}{";
      && ReplaceAll(s, "{{", "") == s && ReplaceAll(s, "}}", "") == s
      && ReplaceAll(s, "\\vphantom", "") == s && ReplaceAll(s, "\\{", "") == s
  {
    var s := "{\\}{";
    assert s[1..] == "\\}{" && s[1..][1..] == "}{" && s[1..][1..][1..] == "{";
    assert s[..2][0] != "\\{"[0] && s[1..][..2][1] != "\\{"[1] && s[1..][1..][..2][0] != "\\{"[0];
    assert ReplaceAll("}{", "\\{", "") == "}{";
    assert ReplaceAll("\\}{", "\\{", "") == "\\}{";
  }

  /** Removing `\}` from `{\}{` joins the two braces. */
  lemma LastTokenRemoved()
    ensures ReplaceAll("{\\}{", "\\}", "") == "{{"
  {
    var s := "{\\}{";
    assert s[1..] == "\\}{" && s[1..][2..] == "{";
    assert ReplaceAll("\\}{", "\\}", "") == "{";
  }

  /** The token removal can create a token again: removing `\}` from
      `{\}{` leaves `{{`, so the tokens are not guaranteed absent afterwards. */
  lemma TokensCanReappear()
    ensures StripTokens("{\\}{", ReplaceList) == "{{"
  {
    var s := "{\\}{";
    StripReplaceList(s);
    FirstTokensAbsent();
    LastTokenRemoved();
  }

  // ---------------------------------------------------------------------
  // The entry object and its fields
  // ---------------------------------------------------------------------

  /** The index of the first field with key `k`. */
  function IndexOfKey(fields: seq<Field>, k: string): (r: Option<nat>)
    ensures r.Some? ==> r.value < |fields| && fields[r.value].key == k
    ensures r.Some? ==> forall j :: 0 <= j < r.value ==> fields[j].key != k
    ensures r.None? ==> forall j :: 0 <= j < |fields| ==> fields[j].key != k
  {
    if fields == [] then None
    else if fields[0].key == k then Some(0)
    else match IndexOfKey(fields[1..], k)
      case None => None
      case Some(j) => Some(j + 1)
  }

  /** `Entry.set_field`: replace the first field with the same key, or add
      the field at the end when no field has that key. */
  function SetFieldIn(fields: seq<Field>, f: Field): (r: seq<Field>)
    ensures IndexOfKey(fields, f.key).Some? ==>
      var j := IndexOfKey(fields, f.key).value;
      |r| == |fields| && r[j] == f && forall i :: 0 <= i < |fields| && i != j ==> r[i] == fields[i]
    ensures IndexOfKey(fields, f.key).None? ==> r == fields + [f]
  {
    match IndexOfKey(fields, f.key)
    case Some(j) => fields[j := f]
    case None => fields + [f]
  }

  /** The field keys are unchanged when the key set already has the field's key. */
  lemma SetFieldKeepsKeys(fields: seq<Field>, f: Field, i: nat)
    requires i < |fields| && fields[i].key == f.key
    ensures |SetFieldIn(fields, f)| == |fields|
    ensures forall j :: 0 <= j < |fields| ==> SetFieldIn(fields, f)[j].key == fields[j].key
  {
  }

  /** One turn of the field loop at index `i`: a string field gets its
      cleaned value in place, then `set_field` stores a new field (without a
      start line) under the same key. */
  function ProcessStep(fields: seq<Field>, i: nat, limit: int): (r: seq<Field>)
    requires i < |fields|
    ensures |r| == |fields|
    ensures forall j :: 0 <= j < |r| ==> r[j].key == fields[j].key
  {
    var f := fields[i];
    if f.value.Str? then
      var v := CleanedValue(f.key, f.value.s, limit);
      var inPlace := fields[i := Field(f.key, Str(v), f.startLine)];
      SetFieldKeepsKeys(inPlace, Field(f.key, Str(v), None), i);
      SetFieldIn(inPlace, Field(f.key, Str(v), None))
    else fields
  }

  /** The field loop from index `i` to the end. */
  function ProcessFrom(fields: seq<Field>, i: nat, limit: int): seq<Field>
    decreases |fields| - i
  {
    if i >= |fields| then fields
    else ProcessFrom(ProcessStep(fields, i, limit), i + 1, limit)
  }

  predicate DistinctFieldKeys(fields: seq<Field>) {
    forall i, j :: 0 <= i < j < |fields| ==> fields[i].key != fields[j].key
  }

  /** What `process_bib_entry` makes of one field when the keys are distinct. */
  function Processed(f: Field, limit: int): Field {
    if f.value.Str? then Field(f.key, Str(CleanedValue(f.key, f.value.s, limit)), None) else f
  }

  /** Processing keeps the number of fields and every field's key, whatever
      the keys are. */
  lemma {:induction false} ProcessKeepsKeys(fields: seq<Field>, i: nat, limit: int)
    ensures |ProcessFrom(fields, i, limit)| == |fields|
    ensures forall j :: 0 <= j < |fields| ==> ProcessFrom(fields, i, limit)[j].key == fields[j].key
    decreases |fields| - i
  {
    if i < |fields| {
      ProcessKeepsKeys(ProcessStep(fields, i, limit), i + 1, limit);
    }
  }

  /** With distinct keys, every string field ends up holding its cleaned
      value and every other field is untouched. */
  lemma {:induction false} ProcessDistinct(fields: seq<Field>, i: nat, limit: int)
    requires DistinctFieldKeys(fields)
    ensures |ProcessFrom(fields, i, limit)| == |fields|
    ensures forall j :: 0 <= j < |fields| ==>
      ProcessFrom(fields, i, limit)[j] == (if j < i then fields[j] else Processed(fields[j], limit))
    decreases |fields| - i
  {
    if i < |fields| {
      var next := ProcessStep(fields, i, limit);
      assert next == fields[i := Processed(fields[i], limit)] by {
        var f := fields[i];
        if f.value.Str? {
          var v := CleanedValue(f.key, f.value.s, limit);
          var inPlace := fields[i := Field(f.key, Str(v), f.startLine)];
          assert IndexOfKey(inPlace, f.key) == Some(i);
        }
      }
      assert DistinctFieldKeys(next);
      ProcessDistinct(next, i + 1, limit);
    }
  }

  /** Every string field before index `i` holds a cleaned value under its
      own key. */
  ghost predicate CleanedUpTo(fields: seq<Field>, i: nat, limit: int) {
    forall j :: 0 <= j < i && j < |fields| && fields[j].value.Str? ==>
      exists v :: fields[j].value.s == CleanedValue(fields[j].key, v, limit)
  }

  /** One turn of the field loop extends the cleaned part by one field, even
      with repeated keys: `set_field` writes at the first field with the same
      key, which lies at or before the current one. */
  lemma StepCleans(fields: seq<Field>, i: nat, limit: int)
    requires i < |fields| && CleanedUpTo(fields, i, limit)
    ensures CleanedUpTo(ProcessStep(fields, i, limit), i + 1, limit)
  {
    var f := fields[i];
    var r := ProcessStep(fields, i, limit);
    if f.value.Str? {
      var v := CleanedValue(f.key, f.value.s, limit);
      var inPlace := fields[i := Field(f.key, Str(v), f.startLine)];
      assert inPlace[i].key == f.key;
      var j0 := IndexOfKey(inPlace, f.key).value;
      assert j0 <= i;
      assert r == inPlace[j0 := Field(f.key, Str(v), None)];
      forall j | 0 <= j < i + 1 && j < |r| && r[j].value.Str?
        ensures exists w :: r[j].value.s == CleanedValue(r[j].key, w, limit)
      {
        if j == j0 || j == i {
          assert r[j].value.s == CleanedValue(r[j].key, f.value.s, limit);
        } else {
          assert r[j] == fields[j];
        }
      }
    }
  }

  /** The field loop from index `i` on leaves every string field cleaned. */
  lemma {:induction false} AllCleaned(fields: seq<Field>, i: nat, limit: int)
    requires CleanedUpTo(fields, i, limit)
    ensures CleanedUpTo(ProcessFrom(fields, i, limit), |fields|, limit)
    decreases |fields| - i
  {
    if i < |fields| {
      StepCleans(fields, i, limit);
      AllCleaned(ProcessStep(fields, i, limit), i + 1, limit);
    }
  }

  /** Whatever the keys, after `process_bib_entry` every string field is the
      cleaned form of some value under its own key: it holds no newline and,
      for a non-negative limit, at most `limit + 3` characters (+ 2 for `url`). */
  lemma ProcessedFieldsClean(fields: seq<Field>, limit: int)
    ensures var r := ProcessFrom(fields, 0, limit);
      forall j :: 0 <= j < |r| && r[j].value.Str? ==>
        && (exists v :: r[j].value.s == CleanedValue(r[j].key, v, limit))
        && (forall k :: 0 <= k < |r[j].value.s| ==> r[j].value.s[k] != '\n')
        && (limit >= 0 ==> |r[j].value.s| <= limit + 3 + (if r[j].key == "url" then 2 else 0))
  {
    var r := ProcessFrom(fields, 0, limit);
    AllCleaned(fields, 0, limit);
    ProcessKeepsKeys(fields, 0, limit);
    forall j | 0 <= j < |r| && r[j].value.Str?
      ensures forall k :: 0 <= k < |r[j].value.s| ==> r[j].value.s[k] != '\n'
      ensures limit >= 0 ==> |r[j].value.s| <= limit + 3 + (if r[j].key == "url" then 2 else 0)
    {
      var v :| r[j].value.s == CleanedValue(r[j].key, v, limit);
      CleanedHasNoNewline(r[j].key, v, limit);
      if limit >= 0 {
        CleanedShape(r[j].key, v, limit);
      }
    }
  }

  /** A bibtexparser `Entry` object, which `process_bib_entry` mutates. */
  class EntryRef {
    var entry: Entry

    constructor (e: Entry)
      ensures entry == e
    {
      entry := e;
    }

    /** `Entry.set_field`. */
    method SetField(f: Field)
      modifies this
      ensures entry == old(entry).(fields := SetFieldIn(old(entry.fields), f))
    {
      entry := entry.(fields := SetFieldIn(entry.fields, f));
    }
  }

  /** `process_bib_entry`: clean every string field of the entry in place.
      Only the fields change; the result is the field loop run from the
      first field, so keys are kept (ProcessKeepsKeys) and, for distinct
      keys, each string value is replaced by its cleaned form (ProcessDistinct);
      whatever the keys, every string value is a cleaned one (ProcessedFieldsClean). */
  method ProcessBibEntry(e: EntryRef, limit: int)
    modifies e
    ensures e.entry == old(e.entry).(fields := ProcessFrom(old(e.entry.fields), 0, limit))
  {
    var i := 0;
    while i < |e.entry.fields|
      invariant |e.entry.fields| == |old(e.entry.fields)|
      invariant e.entry == old(e.entry).(fields := e.entry.fields)
      invariant ProcessFrom(e.entry.fields, i, limit) == ProcessFrom(old(e.entry.fields), 0, limit)
      decreases |e.entry.fields| - i
    {
      ProcessField(e, i, limit);
      i := i + 1;
    }
  }

  /** One turn of the field loop of `process_bib_entry`: a string field's
      value is reassigned in place, then written back with `set_field`. */
  method ProcessField(e: EntryRef, i: nat, limit: int)
    requires i < |e.entry.fields|
    modifies e
    ensures e.entry == old(e.entry).(fields := ProcessStep(old(e.entry.fields), i, limit))
  {
    var f := e.entry.fields[i];
    if f.value.Str? {
      var v := CleanValue(f.key, f.value.s, limit);
      e.entry := e.entry.(fields := e.entry.fields[i := Field(f.key, Str(v), f.startLine)]);
      e.SetField(Field(f.key, Str(v), None));
    }
  }
}
