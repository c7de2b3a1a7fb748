/**
 * Parsed bibliographies, as the language server receives them from the
 * BibTeX parser: a library is an ordered list of entries whose citation keys
 * are unique, each entry an ordered list of fields.  `Database` pairs a
 * library with the path of the file it was read from.
 */
module Bib {
  import opened Wrappers

  /** A field value: normally a string; a parser middleware may leave
      something else (for instance a list of author names). */
  datatype Value = Str(s: string) | Other(parts: seq<string>)

  datatype Field = Field(key: string, value: Value, startLine: Option<int>)

  datatype Entry = Entry(entryType: string, key: string, fields: seq<Field>, startLine: Option<int>)

  predicate UniqueKeys(entries: seq<Entry>) {
    forall i, j :: 0 <= i < j < |entries| ==> entries[i].key != entries[j].key
  }

  /** The entries of a parsed library in file order; the parser sets aside
      a second entry with an already used key, so keys are unique. */
  type Library = entries: seq<Entry> | UniqueKeys(entries)

  /** One loaded bibliography file. */
  datatype Database = Database(library: Library, path: string)

  /** `library.entries_dict.get(key)`. */
  function Get(entries: seq<Entry>, key: string): (r: Option<Entry>)
    ensures r.Some? <==> exists i :: 0 <= i < |entries| && entries[i].key == key
    ensures r.Some? ==> r.value in entries && r.value.key == key
  {
    if entries == [] then None
    else if entries[0].key == key then Some(entries[0])
    else Get(entries[1..], key)
  }

  /** In a library the entry `Get` finds is the one entry with that key. */
  lemma {:induction false} GetFindsTheEntry(lib: Library, i: nat)
    requires i < |lib|
    ensures Get(lib, lib[i].key) == Some(lib[i])
  {
  }
}
