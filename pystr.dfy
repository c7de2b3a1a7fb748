/**
 * The pieces of Python's `str` behaviour that the language server relies on:
 * `str.replace`, slicing `s[:n]`, and the regular-expression character class
 * `[A-Za-z_0-9]` used to recognise citation keys.
 */
module PyStr {

  /** `s.replace(pat, rep)`: scan left to right and replace every
      non-overlapping occurrence of `pat`.  An empty `pat` matches before
      every character and at the end, as in Python. */
  function ReplaceAll(s: string, pat: string, rep: string): (r: string)
    ensures pat != [] && rep == [] ==> |r| <= |s|
    ensures pat == [] && rep == [] ==> r == s
    decreases |s|
  {
    if pat == [] then InsertEverywhere(s, rep)
    else if |s| < |pat| then s
    else if s[..|pat|] == pat then rep + ReplaceAll(s[|pat|..], pat, rep)
    else [s[0]] + ReplaceAll(s[1..], pat, rep)
  }

  /** `s.replace("", rep)`: `rep` before every character and once at the end. */
  function InsertEverywhere(s: string, rep: string): (r: string)
    ensures rep == [] ==> r == s
  {
    if s == [] then rep else rep + [s[0]] + InsertEverywhere(s[1..], rep)
  }

  /** `pat` occurs somewhere in `s`. */
  predicate Occurs(pat: string, s: string) {
    exists i: nat | i <= |s| :: OccursAt(pat, s, i)
  }

  /** `pat` occurs in `s` starting at index `i`. */
  predicate OccursAt(pat: string, s: string, i: nat) {
    i + |pat| <= |s| && s[i..i + |pat|] == pat
  }

  /** Python's prefix slice `s[:n]`, including negative `n` (counted from the end). */
  function SliceTo(s: string, n: int): (r: string)
    ensures 0 <= n ==> |r| == (if n < |s| then n else |s|)
    ensures n < 0 ==> |r| == (if |s| + n < 0 then 0 else |s| + n)
    ensures r <= s
  {
    if 0 <= n then (if n < |s| then s[..n] else s)
    else if |s| + n < 0 then [] else s[..|s| + n]
  }

  /** The regular-expression class `[A-Za-z_0-9]`. */
  predicate IsWordChar(c: char) {
    ('A' <= c <= 'Z') || ('a' <= c <= 'z') || c == '_' || ('0' <= c <= '9')
  }

  predicate AllWord(s: string) {
    forall i :: 0 <= i < |s| ==> IsWordChar(s[i])
  }

  /** The longest run of word characters at the start of `s`: what
      `re.findall('^[A-Za-z_0-9]*', s)[-1]` returns. */
  function LeadingWord(s: string): (r: string)
    ensures r <= s && AllWord(r)
    ensures |r| < |s| ==> !IsWordChar(s[|r|])
  {
    if s == [] || !IsWordChar(s[0]) then [] else [s[0]] + LeadingWord(s[1..])
  }

  /** Replacing "\n" by " " keeps the length, changes exactly the newlines,
      and leaves no newline behind. */
  lemma {:induction false} ReplaceNewlines(s: string)
    ensures |ReplaceAll(s, "\n", " ")| == |s|
    ensures forall i :: 0 <= i < |s| ==>
      ReplaceAll(s, "\n", " ")[i] == (if s[i] == '\n' then ' ' else s[i])
    ensures forall i :: 0 <= i < |s| ==> ReplaceAll(s, "\n", " ")[i] != '\n'
  {
    if s != [] {
      ReplaceNewlines(s[1..]);
      var r := ReplaceAll(s, "\n", " ");
      var t := ReplaceAll(s[1..], "\n", " ");
      if s[..1] == "\n" {
        assert r == " " + t;
      } else {
        assert r == [s[0]] + t;
      }
    }
  }

  /** A pattern that does not occur is not replaced. */
  lemma {:induction false} ReplaceAbsent(s: string, pat: string, rep: string)
    requires pat != [] && !Occurs(pat, s)
    ensures ReplaceAll(s, pat, rep) == s
  {
    if |s| >= |pat| {
      assert !OccursAt(pat, s, 0);
      forall i: nat ensures !OccursAt(pat, s[1..], i) {
        assert !OccursAt(pat, s, i + 1);
        if i + |pat| <= |s[1..]| {
          assert s[1..][i..i + |pat|] == s[i + 1..i + 1 + |pat|];
        }
      }
      ReplaceAbsent(s[1..], pat, rep);
    }
  }

  /** A pattern holding a non-word character never occurs in a run of word characters. */
  lemma NotInWord(pat: string, w: string)
    requires AllWord(w)
    requires exists j :: 0 <= j < |pat| && !IsWordChar(pat[j])
    ensures !Occurs(pat, w)
  {
  }
}
