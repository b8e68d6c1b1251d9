/** Building blocks for the regular expressions of the parser, each written out with the
    matching semantics of Python's `re`: greedy repetition, leftmost alternatives and
    `re.IGNORECASE` on ASCII letters. */
module Patterns {
  import opened Wrappers
  import opened Text

  /** ASCII lower-casing, the case folding `re.IGNORECASE` applies to ASCII letters. */
  function Lower(c: char): (r: char)
    ensures IsUpper(c) ==> IsLower(r)
    ensures !IsUpper(c) ==> r == c
  {
    if IsUpper(c) then (c as int + 32) as char else c
  }

  /** The lower-case literal `lit` occurs at i, ignoring case. */
  predicate MatchesCi(s: string, i: nat, lit: string) {
    i + |lit| <= |s| && forall k :: 0 <= k < |lit| ==> Lower(s[i + k]) == lit[k]
  }

  lemma MatchesCiAt(s: string, i: nat, lit: string, k: nat)
    requires MatchesCi(s, i, lit) && k < |lit|
    ensures Lower(s[i + k]) == lit[k]
  {
  }

  predicate DigitsBetween(s: string, i: nat, j: nat)
    requires i <= j <= |s|
  {
    forall k :: i <= k < j ==> IsDigit(s[k])
  }

  predicate NonSpacesBetween(s: string, i: nat, j: nat)
    requires i <= j <= |s|
  {
    forall k :: i <= k < j ==> !IsSpace(s[k])
  }

  predicate NoNewlineBetween(s: string, i: nat, j: nat)
    requires i <= j <= |s|
  {
    forall k :: i <= k < j ==> s[k] != '\n'
  }

  /** End of the run of digits that starts at i: greedy `\d*`. */
  function DigitsEnd(s: string, i: nat): (j: nat)
    requires i <= |s|
    ensures i <= j <= |s|
    ensures DigitsBetween(s, i, j)
    ensures j == |s| || !IsDigit(s[j])
    decreases |s| - i
  {
    if i < |s| && IsDigit(s[i]) then DigitsEnd(s, i + 1) else i
  }

  lemma DigitsEndUnique(s: string, i: nat, j: nat)
    requires i <= j <= |s|
    requires DigitsBetween(s, i, j)
    requires j == |s| || !IsDigit(s[j])
    ensures DigitsEnd(s, i) == j
  {
  }

  /** End of the run of lower-case letters that starts at i: greedy `[a-z]*`. */
  function LowersEnd(s: string, i: nat): (j: nat)
    requires i <= |s|
    ensures i <= j <= |s|
    ensures forall k :: i <= k < j ==> IsLower(s[k])
    ensures j == |s| || !IsLower(s[j])
    decreases |s| - i
  {
    if i < |s| && IsLower(s[i]) then LowersEnd(s, i + 1) else i
  }

  /** End of the run of non-whitespace characters that starts at i: greedy `[^\s]*`. */
  function NonSpaceEnd(s: string, i: nat): (j: nat)
    requires i <= |s|
    ensures i <= j <= |s|
    ensures NonSpacesBetween(s, i, j)
    ensures j == |s| || IsSpace(s[j])
    decreases |s| - i
  {
    if i < |s| && !IsSpace(s[i]) then NonSpaceEnd(s, i + 1) else i
  }

  lemma NonSpaceEndUnique(s: string, i: nat, j: nat)
    requires i <= j <= |s|
    requires NonSpacesBetween(s, i, j)
    requires j == |s| || IsSpace(s[j])
    ensures NonSpaceEnd(s, i) == j
  {
  }

  /** The lower-case words `words`, case-insensitively, from i, with `\s*` between
      consecutive words (as in `NAME\s*TITLE`); the end of the match. */
  function CiWords(s: string, i: nat, words: seq<string>): (r: Option<nat>)
    requires i <= |s|
    ensures r.Some? ==> i <= r.value <= |s|
    ensures r.Some? && |words| > 0 ==> MatchesCi(s, i, words[0])
    decreases |words|
  {
    if words == [] then Some(i)
    else if !MatchesCi(s, i, words[0]) then None
    else if |words| == 1 then Some(i + |words[0]|)
    else CiWords(s, SkipSpaces(s, i + |words[0]|), words[1..])
  }

  /** Where `$` (without MULTILINE) can follow a run of `.`: the end of the string, or the
      position of a final newline. */
  function DollarAt(s: string): (e: nat)
    ensures e <= |s|
    ensures e < |s| ==> e == |s| - 1 && s[e] == '\n'
  {
    if |s| > 0 && s[|s| - 1] == '\n' then |s| - 1 else |s|
  }

  /** The group `(.+)$` can start at k: it takes at least one character and runs to the
      end of the line without crossing a newline. */
  predicate RestOfLineAt(s: string, k: nat) {
    k < DollarAt(s) && NoNewlineBetween(s, k, DollarAt(s))
  }

  /** `\s{minSpaces,}(.+)$` matches from p with its group starting at k. */
  predicate TailAt(s: string, p: nat, minSpaces: nat, k: nat) {
    p + minSpaces <= k <= |s| && SpacesBetween(s, p, k) && RestOfLineAt(s, k)
  }

  /** The group of `\s*(.+)$` (minSpaces 0) or `\s+(.+)$` (minSpaces 1) matched from p.
      Greedy whitespace gives back characters only as far as the group needs them, so the
      group starts at the largest possible k. */
  function TailCapture(s: string, p: nat, minSpaces: nat): (r: Option<string>)
    requires p <= |s|
    ensures r.Some? <==> exists k: nat :: TailAt(s, p, minSpaces, k)
    ensures r.Some? ==>
              exists k: nat :: TailAt(s, p, minSpaces, k) && r.value == s[k..DollarAt(s)] &&
                               forall k': nat :: TailAt(s, p, minSpaces, k') ==> k' <= k
  {
    var q := SkipSpaces(s, p);
    var e := DollarAt(s);
    if e == 0 then None
    else
      var k := if q < e then q else e - 1;
      assert k <= q;
      TailLargest(s, p, minSpaces, q, k);
      if p + minSpaces <= k && NoNewlineBetween(s, k, e) then
        assert TailAt(s, p, minSpaces, k);
        Some(s[k..e])
      else
        None
  }

  /** Every start of the group lies at or before k, and the group can start at k if it
      can start anywhere. */
  lemma TailLargest(s: string, p: nat, minSpaces: nat, q: nat, k: nat)
    requires p <= |s| && q == SkipSpaces(s, p)
    requires 0 < DollarAt(s) && k == (if q < DollarAt(s) then q else DollarAt(s) - 1)
    ensures forall k': nat :: TailAt(s, p, minSpaces, k') ==> k' <= k
    ensures (exists k': nat :: TailAt(s, p, minSpaces, k')) ==>
      p + minSpaces <= k && NoNewlineBetween(s, k, DollarAt(s))
  {
    forall k': nat | TailAt(s, p, minSpaces, k') ensures k' <= k && k' <= q {
      assert q < |s| ==> !IsSpace(s[q]);
    }
  }

  /** On a stripped string the group is everything after the whitespace, provided that
      contains no newline. */
  lemma TailOfStripped(s: string, p: nat, minSpaces: nat)
    requires p <= |s| && IsStripped(s)
    ensures TailCapture(s, p, minSpaces) ==
      var q := SkipSpaces(s, p);
      if p + minSpaces <= q < |s| && NoNewlineBetween(s, q, |s|) then Some(s[q..]) else None
  {
    var q := SkipSpaces(s, p);
    if |s| > 0 {
      assert DollarAt(s) == |s|;
      assert !IsSpace(s[|s| - 1]);
      if q < |s| {
        assert s[q..|s|] == s[q..];
      }
    }
  }
}
