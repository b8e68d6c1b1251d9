/** `CitationParser` of app/parser/citation_parser.py: identifier extraction (PMID, PMCID,
    DOI), the citation-line classifier, and splitting a block of text into citations. */
module CitationParser {
  import opened Wrappers
  import opened Text
  import opened Patterns
  import opened Models

  // ---------------------------------------------------------------------------------------
  // re.search

  /** The leftmost position from i on at which `at` matches: where `re.search` stops. */
  function Leftmost(s: string, at: (string, nat) -> Option<string>, i: nat): (r: Option<nat>)
    ensures r.None? <==> forall k: nat :: i <= k <= |s| ==> at(s, k).None?
    ensures r.Some? ==> i <= r.value <= |s| && at(s, r.value).Some? &&
                        forall k: nat :: i <= k < r.value ==> at(s, k).None?
    decreases |s| + 1 - i
  {
    if i > |s| then None
    else if at(s, i).Some? then Some(i)
    else Leftmost(s, at, i + 1)
  }

  /** The group of the leftmost match of `at` in s, as `m.group(1) if m else None`. */
  function SearchGroup(s: string, at: (string, nat) -> Option<string>): (r: Option<string>)
    ensures r.None? <==> forall k: nat :: k <= |s| ==> at(s, k).None?
    ensures r.Some? ==> exists i: nat :: i <= |s| && at(s, i) == r &&
                                         forall k: nat :: k < i ==> at(s, k).None?
  {
    match Leftmost(s, at, 0)
    case None => None
    case Some(i) => at(s, i)
  }

  // ---------------------------------------------------------------------------------------
  // PMID_PATTERN = `PMID:\s*(\d+)`, re.IGNORECASE

  /** `PMID:\s*(\d+)` matches at i with its group running from q to d. */
  ghost predicate PmidMatch(s: string, i: nat, q: nat, d: nat) {
    MatchesCi(s, i, "pmid:") && i + 5 <= q < d <= |s| &&
    SpacesBetween(s, i + 5, q) && DigitsBetween(s, q, d)
  }

  ghost predicate PmidMatchesAt(s: string, i: nat) {
    exists q: nat, d: nat :: PmidMatch(s, i, q, d)
  }

  /** A digit cannot be whitespace, so a match fixes where its group starts. */
  lemma PmidGroupStart(s: string, i: nat)
    ensures forall q: nat, d: nat :: PmidMatch(s, i, q, d) ==> q == SkipSpaces(s, i + 5) && q < DigitsEnd(s, q)
  {
    forall q: nat, d: nat | PmidMatch(s, i, q, d) ensures q == SkipSpaces(s, i + 5) && q < DigitsEnd(s, q) {
      SkipSpacesUnique(s, i + 5, q);
    }
  }

  /** The group of PMID_PATTERN when the match starts at i: the whole digit run. */
  function PmidAt(s: string, i: nat): (r: Option<string>)
    ensures r.Some? <==> PmidMatchesAt(s, i)
    ensures r.Some? ==> exists q: nat, d: nat :: PmidMatch(s, i, q, d) && r.value == s[q..d] &&
                                                 (d == |s| || !IsDigit(s[d]))
    ensures r.Some? ==> |r.value| > 0 && (forall k :: 0 <= k < |r.value| ==> IsDigit(r.value[k])) &&
                        Contains(s, r.value)
  {
    if !MatchesCi(s, i, "pmid:") then None
    else
      PmidGroupStart(s, i);
      var q := SkipSpaces(s, i + 5);
      var d := DigitsEnd(s, q);
      if q < d then
        assert PmidMatch(s, i, q, d);
        assert OccursAt(s, s[q..d], q);
        Some(s[q..d])
      else
        None
  }

  /** `extract_pmid`: the digits after the first `PMID:`, None when there is no match. */
  function ExtractPmid(s: string): (r: Option<string>)
    ensures r.None? <==> forall i: nat :: !PmidMatchesAt(s, i)
    ensures r.Some? ==> exists i: nat :: PmidMatchesAt(s, i) && r == PmidAt(s, i) &&
                                         forall k: nat :: k < i ==> !PmidMatchesAt(s, k)
    ensures r.Some? ==> |r.value| > 0 && (forall k :: 0 <= k < |r.value| ==> IsDigit(r.value[k])) &&
                        Contains(s, r.value)
  {
    assert forall i: nat :: PmidAt(s, i).Some? <==> PmidMatchesAt(s, i);
    SearchGroup(s, PmidAt)
  }

  // ---------------------------------------------------------------------------------------
  // PMCID_PATTERN = `PMCID:\s*(PMC\d+)`, re.IGNORECASE

  /** `PMCID:\s*(PMC\d+)` matches at i with its group running from q to d. */
  ghost predicate PmcidMatch(s: string, i: nat, q: nat, d: nat) {
    MatchesCi(s, i, "pmcid:") && i + 6 <= q && q + 3 < d <= |s| &&
    SpacesBetween(s, i + 6, q) && MatchesCi(s, q, "pmc") && DigitsBetween(s, q + 3, d)
  }

  ghost predicate PmcidMatchesAt(s: string, i: nat) {
    exists q: nat, d: nat :: PmcidMatch(s, i, q, d)
  }

  /** The identifier shape PMCID_PATTERN captures: `PMC` in any case, then digits. */
  ghost predicate PmcidShaped(x: string) {
    |x| > 3 && MatchesCi(x, 0, "pmc") && DigitsBetween(x, 3, |x|)
  }

  /** `p` cannot be whitespace, so a match fixes where its group starts. */
  lemma PmcidGroupStart(s: string, i: nat)
    ensures forall q: nat, d: nat :: PmcidMatch(s, i, q, d) ==>
              q == SkipSpaces(s, i + 6) && q + 3 < DigitsEnd(s, q + 3)
  {
    forall q: nat, d: nat | PmcidMatch(s, i, q, d) ensures q == SkipSpaces(s, i + 6) && q + 3 < DigitsEnd(s, q + 3) {
      MatchesCiAt(s, q, "pmc", 0);
      SkipSpacesUnique(s, i + 6, q);
    }
  }

  function PmcidAt(s: string, i: nat): (r: Option<string>)
    ensures r.Some? <==> PmcidMatchesAt(s, i)
    ensures r.Some? ==> exists q: nat, d: nat :: PmcidMatch(s, i, q, d) && r.value == s[q..d] &&
                                                 (d == |s| || !IsDigit(s[d]))
    ensures r.Some? ==> PmcidShaped(r.value) && Contains(s, r.value)
  {
    if !MatchesCi(s, i, "pmcid:") then None
    else
      PmcidGroupStart(s, i);
      var q := SkipSpaces(s, i + 6);
      if !MatchesCi(s, q, "pmc") then None
      else
        var d := DigitsEnd(s, q + 3);
        if q + 3 < d then
          assert PmcidMatch(s, i, q, d);
          assert OccursAt(s, s[q..d], q);
          assert forall k :: 0 <= k < d - q ==> s[q..d][k] == s[q + k];
          Some(s[q..d])
        else
          None
  }

  /** `extract_pmcid`: `PMC` and its digits after the first `PMCID:`, None when there is
      no match. */
  function ExtractPmcid(s: string): (r: Option<string>)
    ensures r.None? <==> forall i: nat :: !PmcidMatchesAt(s, i)
    ensures r.Some? ==> exists i: nat :: PmcidMatchesAt(s, i) && r == PmcidAt(s, i) &&
                                         forall k: nat :: k < i ==> !PmcidMatchesAt(s, k)
    ensures r.Some? ==> PmcidShaped(r.value) && Contains(s, r.value)
  {
    assert forall i: nat :: PmcidAt(s, i).Some? <==> PmcidMatchesAt(s, i);
    SearchGroup(s, PmcidAt)
  }

  // ---------------------------------------------------------------------------------------
  // DOI_PATTERN = `(?:doi:\s*|https?://doi\.org/)(10\.\d{4,}/[^\s]+)`, re.IGNORECASE

  /** The non-capturing prefix of DOI_PATTERN runs from i to g. */
  ghost predicate DoiPrefix(s: string, i: nat, g: nat) {
    || (MatchesCi(s, i, "doi:") && i + 4 <= g <= |s| && SpacesBetween(s, i + 4, g))
    || (MatchesCi(s, i, "https://doi.org/") && g == i + 16)
    || (MatchesCi(s, i, "http://doi.org/") && g == i + 15)
  }

  /** DOI_PATTERN matches at i; its group runs from g to e, with the `/` at d. */
  ghost predicate DoiMatch(s: string, i: nat, g: nat, d: nat, e: nat) {
    DoiPrefix(s, i, g) && g + 7 <= d && d + 1 < e <= |s| &&
    MatchesCi(s, g, "10.") && DigitsBetween(s, g + 3, d) && s[d] == '/' &&
    NonSpacesBetween(s, d + 1, e)
  }

  ghost predicate DoiMatchesAt(s: string, i: nat) {
    exists g: nat, d: nat, e: nat :: DoiMatch(s, i, g, d, e)
  }

  /** The identifier shape DOI_PATTERN captures: `10.`, at least four digits, `/`, and a
      non-empty run without whitespace. */
  ghost predicate DoiShaped(x: string) {
    exists j: nat :: 7 <= j < |x| - 1 && MatchesCi(x, 0, "10.") && DigitsBetween(x, 3, j) &&
                     x[j] == '/' && NonSpacesBetween(x, j + 1, |x|)
  }

  /** Where the group can start after the prefix at i. The three alternatives exclude each
      other, and a shorter `\s*` would leave whitespace where the group needs `1`. */
  function DoiGroupStart(s: string, i: nat): (r: Option<nat>)
    ensures r.Some? ==> DoiPrefix(s, i, r.value)
    ensures forall g: nat :: DoiPrefix(s, i, g) && g < |s| && !IsSpace(s[g]) ==> r == Some(g)
  {
    if MatchesCi(s, i, "doi:") then
      var g := SkipSpaces(s, i + 4);
      assert forall g': nat :: DoiPrefix(s, i, g') && g' < |s| && !IsSpace(s[g']) ==> g' == g by {
        MatchesCiAt(s, i, "doi:", 0);
        if MatchesCi(s, i, "https://doi.org/") {
          MatchesCiAt(s, i, "https://doi.org/", 0);
        }
        if MatchesCi(s, i, "http://doi.org/") {
          MatchesCiAt(s, i, "http://doi.org/", 0);
        }
        forall g': nat | MatchesCi(s, i, "doi:") && i + 4 <= g' < |s| && SpacesBetween(s, i + 4, g') && !IsSpace(s[g'])
          ensures g' == g
        {
          SkipSpacesUnique(s, i + 4, g');
        }
      }
      Some(g)
    else if MatchesCi(s, i, "https://doi.org/") then
      assert !MatchesCi(s, i, "http://doi.org/") by {
        MatchesCiAt(s, i, "https://doi.org/", 4);
        if MatchesCi(s, i, "http://doi.org/") {
          MatchesCiAt(s, i, "http://doi.org/", 4);
        }
      }
      Some(i + 16)
    else if MatchesCi(s, i, "http://doi.org/") then Some(i + 15)
    else None
  }

  /** `1` cannot be whitespace and `/` is not a digit, so a match fixes its group's start
      and the position of its `/`. */
  lemma DoiGroupFixed(s: string, i: nat)
    ensures forall g: nat, d: nat, e: nat :: DoiMatch(s, i, g, d, e) ==>
              DoiGroupStart(s, i) == Some(g) && d == DigitsEnd(s, g + 3) && d + 1 < NonSpaceEnd(s, d + 1)
  {
    forall g: nat, d: nat, e: nat | DoiMatch(s, i, g, d, e)
      ensures DoiGroupStart(s, i) == Some(g) && d == DigitsEnd(s, g + 3) && d + 1 < NonSpaceEnd(s, d + 1)
    {
      MatchesCiAt(s, g, "10.", 0);
      DigitsEndUnique(s, g + 3, d);
    }
  }

  /** The group of a DOI match is a substring of the DOI shape. */
  lemma DoiCaptured(s: string, i: nat, g: nat, d: nat, e: nat)
    requires DoiMatch(s, i, g, d, e)
    ensures DoiShaped(s[g..e]) && Contains(s, s[g..e])
  {
    var x := s[g..e];
    assert OccursAt(s, x, g);
    assert forall k :: 0 <= k < e - g ==> x[k] == s[g + k];
    assert x[d - g] == '/';
    assert 7 <= d - g < |x| - 1 && MatchesCi(x, 0, "10.") && DigitsBetween(x, 3, d - g) &&
           NonSpacesBetween(x, d - g + 1, |x|);
  }

  function DoiAt(s: string, i: nat): (r: Option<string>)
    ensures r.Some? <==> DoiMatchesAt(s, i)
    ensures r.Some? ==> exists g: nat, d: nat, e: nat :: DoiMatch(s, i, g, d, e) && r.value == s[g..e] &&
                                                         (e == |s| || IsSpace(s[e]))
    ensures r.Some? ==> DoiShaped(r.value) && Contains(s, r.value)
  {
    DoiGroupFixed(s, i);
    match DoiGroupStart(s, i)
    case None => None
    case Some(g) =>
      if !MatchesCi(s, g, "10.") then None
      else
        var d := DigitsEnd(s, g + 3);
        if d < g + 7 || d + 1 >= |s| || s[d] != '/' then None
        else
          var e := NonSpaceEnd(s, d + 1);
          if e == d + 1 then None
          else
            assert DoiMatch(s, i, g, d, e);
            DoiCaptured(s, i, g, d, e);
            Some(s[g..e])
  }

  /** `extract_doi`: the DOI after the first `doi:` or `http(s)://doi.org/`, None when there
      is no match. */
  function ExtractDoi(s: string): (r: Option<string>)
    ensures r.None? <==> forall i: nat :: !DoiMatchesAt(s, i)
    ensures r.Some? ==> exists i: nat :: DoiMatchesAt(s, i) && r == DoiAt(s, i) &&
                                         forall k: nat :: k < i ==> !DoiMatchesAt(s, k)
    ensures r.Some? ==> DoiShaped(r.value) && Contains(s, r.value)
  {
    assert forall i: nat :: DoiAt(s, i).Some? <==> DoiMatchesAt(s, i);
    SearchGroup(s, DoiAt)
  }

  /** If any of the three identifier patterns occurs (the first test of `is_citation_line`). */
  predicate HasIdentifier(s: string) {
    ExtractPmid(s).Some? || ExtractPmcid(s).Some? || ExtractDoi(s).Some?
  }

  // ---------------------------------------------------------------------------------------
  // parse_citation

  /** `parse_citation`: the stripped text with the identifiers found in it. */
  function ParseCitation(text: string): (c: Citation)
    ensures c.text == Strip(text)
    ensures c.pmid == ExtractPmid(c.text) && c.pmcid == ExtractPmcid(c.text) && c.doi == ExtractDoi(c.text)
  {
    var t := Strip(text);
    Citation(t, ExtractPmid(t), ExtractPmcid(t), ExtractDoi(t))
  }

  /** Parsing the text of a parsed citation gives the same citation back. */
  lemma ParseCitationIdempotent(text: string)
    ensures ParseCitation(ParseCitation(text).text) == ParseCitation(text)
  {
    StripIdempotent(text);
  }

  // ---------------------------------------------------------------------------------------
  // is_citation_line

  /** A list marker `\d+\.` or `[a-z]\.` (case-sensitive) occupies s[..e]. */
  ghost predicate MarkerAt(s: string, e: nat) {
    2 <= e <= |s| && s[e - 1] == '.' && (DigitsBetween(s, 0, e - 1) || (e == 2 && IsLower(s[0])))
  }

  /** End of the list marker `^(?:\d+\.|[a-z]\.)` at the start of s. */
  function MarkerEnd(s: string): (r: Option<nat>)
    ensures r.Some? <==> exists e: nat :: MarkerAt(s, e)
    ensures r.Some? ==> MarkerAt(s, r.value) && forall e: nat :: MarkerAt(s, e) ==> e == r.value
  {
    var d := DigitsEnd(s, 0);
    if 0 < d < |s| && s[d] == '.' then
      assert MarkerAt(s, d + 1);
      Some(d + 1)
    else if |s| >= 2 && IsLower(s[0]) && s[1] == '.' then
      assert MarkerAt(s, 2);
      Some(2)
    else
      None
  }

  /** `[A-Z][a-z]+\s+[A-Z]{1,2}[\s,]` matches at the start of x: the surname ends at l, the
      whitespace at q and the initials at u. */
  ghost predicate AuthorAt(x: string, l: nat, q: nat, u: nat) {
    2 <= l < q < u < |x| && u <= q + 2 && IsUpper(x[0]) &&
    (forall k :: 1 <= k < l ==> IsLower(x[k])) && SpacesBetween(x, l, q) &&
    (forall k :: q <= k < u ==> IsUpper(x[k])) && (IsSpace(x[u]) || x[u] == ',')
  }

  /** A lower-case letter is not whitespace and an upper-case one is neither, so a match
      fixes where the surname and the whitespace end. */
  lemma AuthorAtFixed(x: string)
    ensures forall l: nat, q: nat, u: nat :: AuthorAt(x, l, q, u) ==> l == LowersEnd(x, 1) && q == SkipSpaces(x, l)
  {
    forall l: nat, q: nat, u: nat | AuthorAt(x, l, q, u) ensures l == LowersEnd(x, 1) && q == SkipSpaces(x, l) {
      SkipSpacesUnique(x, l, q);
    }
  }

  function SpaceOrComma(x: string, k: nat): bool {
    k < |x| && (IsSpace(x[k]) || x[k] == ',')
  }

  /** `re.match(r'^[A-Z][a-z]+\s+[A-Z]{1,2}[\s,]', x)`: an author-like name and initials. */
  function LooksLikeAuthor(x: string): (b: bool)
    ensures b <==> exists l: nat, q: nat, u: nat :: AuthorAt(x, l, q, u)
  {
    AuthorAtFixed(x);
    if |x| < 2 || !IsUpper(x[0]) then false
    else
      var l := LowersEnd(x, 1);
      var q := SkipSpaces(x, l);
      if l < 2 || q == l || q == |x| || !IsUpper(x[q]) then
        false
      else if SpaceOrComma(x, q + 1) then
        assert AuthorAt(x, l, q, q + 1);
        true
      else if q + 1 < |x| && IsUpper(x[q + 1]) && SpaceOrComma(x, q + 2) then
        assert AuthorAt(x, l, q, q + 2);
        true
      else
        false
  }

  /** `is_citation_line`. */
  function IsCitationLine(text: string): (b: bool)
    ensures IsBlank(text) ==> !b
    ensures !IsBlank(text) && HasIdentifier(Strip(text)) ==> b
    ensures !HasIdentifier(Strip(text)) ==>
              (b <==> exists e: nat :: MarkerAt(Strip(text), e) &&
                                     LooksLikeAuthor(Strip(text)[SkipSpaces(Strip(text), e)..]))
  {
    var t := Strip(text);
    if t == "" then false
    else if HasIdentifier(t) then true
    else
      match MarkerEnd(t)
      case None => false
      case Some(e) => LooksLikeAuthor(t[SkipSpaces(t, e)..])
  }

  /** A line without an identifier and without a list marker is never a citation. */
  lemma UnmarkedLineIsNotCitation(text: string)
    requires !HasIdentifier(Strip(text))
    requires forall e: nat :: !MarkerAt(Strip(text), e)
    ensures !IsCitationLine(text)
  {
  }

  // ---------------------------------------------------------------------------------------
  // split_citations

  /** `re.match(r'^(?:\d+\.|[a-z]\.)\s+', line)`: the line opens a new numbered or lettered
      item. */
  function StartsNewItem(line: string): (b: bool)
    ensures b <==> exists e: nat :: MarkerAt(line, e) && e < |line| && IsSpace(line[e])
  {
    match MarkerEnd(line)
    case None => false
    case Some(e) => e < |line| && IsSpace(line[e])
  }

  /** The current group, if non-empty, as a list of groups. */
  function Flush(current: seq<string>): (r: seq<seq<string>>)
    ensures current == [] ==> r == []
    ensures current != [] ==> r == [current]
  {
    if current == [] then [] else [current]
  }

  /** How the loop of `split_citations` treats a line once stripped. */
  datatype LineKind = Blank | Opens(line: string) | Continues(line: string)

  function Classify(raw: string): LineKind
  {
    var line := Strip(raw);
    if line == "" then Blank
    else if StartsNewItem(line) then Opens(line)
    else Continues(line)
  }

  /** The groups the loop of `split_citations` forms from `lines`, after `done` have been
      emitted and with `current` buffered: a blank line flushes the buffer, a new-item line
      flushes it and starts a new one, any other line joins the buffer; the last buffer is
      flushed at the end. */
  function GroupsFrom(lines: seq<string>, current: seq<string>, done: seq<seq<string>>): seq<seq<string>>
    decreases |lines|
  {
    if lines == [] then done + Flush(current)
    else
      match Classify(lines[0])
      case Blank => GroupsFrom(lines[1..], [], done + Flush(current))
      case Opens(line) => GroupsFrom(lines[1..], [line], done + Flush(current))
      case Continues(line) => GroupsFrom(lines[1..], current + [line], done)
  }

  /** One iteration of the loop of `split_citations`. */
  lemma GroupsFromStep(lines: seq<string>, i: nat, current: seq<string>, done: seq<seq<string>>)
    requires i < |lines|
    ensures GroupsFrom(lines[i..], current, done) ==
      match Classify(lines[i])
      case Blank => GroupsFrom(lines[i + 1..], [], done + Flush(current))
      case Opens(line) => GroupsFrom(lines[i + 1..], [line], done + Flush(current))
      case Continues(line) => GroupsFrom(lines[i + 1..], current + [line], done)
  {
    assert lines[i..][0] == lines[i] && lines[i..][1..] == lines[i + 1..];
  }

  /** Each group joined with single spaces, as `' '.join(current_citation)`. */
  function JoinEach(groups: seq<seq<string>>): (r: seq<string>)
    ensures |r| == |groups| && forall k :: 0 <= k < |groups| ==> r[k] == Join(groups[k], " ")
  {
    seq(|groups|, k requires 0 <= k < |groups| => Join(groups[k], " "))
  }

  lemma JoinEachAppend(groups: seq<seq<string>>, g: seq<string>)
    ensures JoinEach(groups + [g]) == JoinEach(groups) + [Join(g, " ")]
  {
    assert forall k :: 0 <= k < |groups| ==> (groups + [g])[k] == groups[k];
  }

  /** The lines `split_citations` iterates over. */
  function BlockLines(text: string): seq<string> {
    Split(Strip(text), '\n')
  }

  /** The groups of lines `split_citations` joins into citations. */
  function CitationGroups(text: string): seq<seq<string>> {
    GroupsFrom(BlockLines(text), [], [])
  }

  /** `split_citations`. */
  method SplitCitations(text: string) returns (citations: seq<string>)
    ensures citations == JoinEach(CitationGroups(text))
  {
    var lines := BlockLines(text);
    citations := [];
    var current: seq<string> := [];
    ghost var groups: seq<seq<string>> := [];
    var i := 0;
    while i < |lines|
      invariant 0 <= i <= |lines|
      invariant GroupsFrom(lines[i..], current, groups) == GroupsFrom(lines, [], [])
      invariant citations == JoinEach(groups)
    {
      GroupsFromStep(lines, i, current, groups);
      var line := Strip(lines[i]);
      if line == "" {
        if current != [] {
          JoinEachAppend(groups, current);
          citations := citations + [Join(current, " ")];
          groups := groups + [current];
          current := [];
        } else {
          assert groups + Flush(current) == groups;
        }
      } else if StartsNewItem(line) {
        if current != [] {
          JoinEachAppend(groups, current);
          citations := citations + [Join(current, " ")];
          groups := groups + [current];
        } else {
          assert groups + Flush(current) == groups;
        }
        current := [line];
      } else {
        current := current + [line];
      }
      i := i + 1;
    }
    assert lines[i..] == [];
    if current != [] {
      JoinEachAppend(groups, current);
      citations := citations + [Join(current, " ")];
      groups := groups + [current];
    } else {
      assert groups + Flush(current) == groups;
    }
  }

  // ---------------------------------------------------------------------------------------
  // Properties of the grouping

  lemma AppendAssoc<T>(a: seq<T>, b: seq<T>, c: seq<T>)
    ensures (a + b) + c == a + (b + c)
  {
  }

  /** Groups already emitted stay in front, unchanged. */
  lemma {:induction false} GroupsKeepDone(lines: seq<string>, current: seq<string>, done: seq<seq<string>>)
    ensures GroupsFrom(lines, current, done) == done + GroupsFrom(lines, current, [])
    decreases |lines|
  {
    var f := Flush(current);
    assert [] + f == f;
    if lines != [] {
      match Classify(lines[0])
      case Blank =>
        GroupsKeepDone(lines[1..], [], done + f);
        GroupsKeepDone(lines[1..], [], f);
        AppendAssoc(done, f, GroupsFrom(lines[1..], [], []));
      case Opens(line) =>
        GroupsKeepDone(lines[1..], [line], done + f);
        GroupsKeepDone(lines[1..], [line], f);
        AppendAssoc(done, f, GroupsFrom(lines[1..], [line], []));
      case Continues(line) =>
        GroupsKeepDone(lines[1..], current + [line], done);
    }
  }

  /** A non-blank stripped line. */
  predicate IsContentLine(line: string) {
    line != "" && IsStripped(line)
  }

  /** What a group looks like: non-empty, made of content lines, and only its first line
      may open a new item. */
  ghost predicate WellFormedGroup(g: seq<string>) {
    |g| > 0 && (forall k :: 0 <= k < |g| ==> IsContentLine(g[k])) &&
    forall k :: 1 <= k < |g| ==> !StartsNewItem(g[k])
  }

  ghost predicate AllWellFormed(groups: seq<seq<string>>) {
    forall k :: 0 <= k < |groups| ==> WellFormedGroup(groups[k])
  }

  lemma AppendWellFormed(groups: seq<seq<string>>, current: seq<string>)
    requires AllWellFormed(groups) && (current == [] || WellFormedGroup(current))
    ensures AllWellFormed(groups + Flush(current))
  {
    assert forall k :: 0 <= k < |groups| ==> (groups + Flush(current))[k] == groups[k];
  }

  /** `split_citations` never emits an empty group, and every group is well formed. */
  lemma {:induction false} GroupsWellFormed(lines: seq<string>, current: seq<string>, done: seq<seq<string>>)
    requires AllWellFormed(done) && (current == [] || WellFormedGroup(current))
    ensures AllWellFormed(GroupsFrom(lines, current, done))
    decreases |lines|
  {
    if lines == [] {
      AppendWellFormed(done, current);
    } else {
      match Classify(lines[0])
      case Blank =>
        AppendWellFormed(done, current);
        GroupsWellFormed(lines[1..], [], done + Flush(current));
      case Opens(line) =>
        AppendWellFormed(done, current);
        GroupsWellFormed(lines[1..], [line], done + Flush(current));
      case Continues(line) =>
        GroupsWellFormed(lines[1..], current + [line], done);
    }
  }

  /** The non-blank lines, stripped, in order. */
  function ContentLines(lines: seq<string>): (r: seq<string>)
    ensures |r| <= |lines|
    ensures forall k :: 0 <= k < |r| ==> IsContentLine(r[k])
  {
    if lines == [] then []
    else
      var line := Strip(lines[0]);
      (if line == "" then [] else [line]) + ContentLines(lines[1..])
  }

  /** All the lines of all the groups, in order. */
  function Flatten(groups: seq<seq<string>>): seq<string> {
    if groups == [] then [] else groups[0] + Flatten(groups[1..])
  }

  lemma FlattenAppend(a: seq<seq<string>>, b: seq<seq<string>>)
    ensures Flatten(a + b) == Flatten(a) + Flatten(b)
  {
    if a == [] {
      assert a + b == b;
    } else {
      assert (a + b)[0] == a[0] && (a + b)[1..] == a[1..] + b;
      FlattenAppend(a[1..], b);
    }
  }

  lemma FlattenFlush(done: seq<seq<string>>, current: seq<string>)
    ensures Flatten(done + Flush(current)) == Flatten(done) + current
  {
    FlattenAppend(done, Flush(current));
    assert Flatten(Flush(current)) == current;
  }

  /** Every non-blank stripped line lands in exactly one group, in input order. */
  lemma {:induction false} GroupsCoverLines(lines: seq<string>, current: seq<string>, done: seq<seq<string>>)
    ensures Flatten(GroupsFrom(lines, current, done)) == Flatten(done) + current + ContentLines(lines)
    decreases |lines|
  {
    FlattenFlush(done, current);
    var fd := Flatten(done);
    if lines == [] {
      assert fd + current + [] == fd + current;
    } else {
      var rest := ContentLines(lines[1..]);
      match Classify(lines[0])
      case Blank =>
        GroupsCoverLines(lines[1..], [], done + Flush(current));
        assert ContentLines(lines) == rest;
        assert fd + current + [] == fd + current;
      case Opens(line) =>
        GroupsCoverLines(lines[1..], [line], done + Flush(current));
        assert ContentLines(lines) == [line] + rest;
        AppendAssoc(fd + current, [line], rest);
      case Continues(line) =>
        GroupsCoverLines(lines[1..], current + [line], done);
        assert ContentLines(lines) == [line] + rest;
        AppendAssoc(fd, current, [line]);
        AppendAssoc(fd + current, [line], rest);
    }
  }

  /** The lines of the citations of a block are its non-blank lines, stripped, in order. */
  lemma CitationGroupsCoverLines(text: string)
    ensures Flatten(CitationGroups(text)) == ContentLines(BlockLines(text))
  {
    GroupsCoverLines(BlockLines(text), [], []);
  }

  lemma {:induction false} BlankLineSeparatesFrom(before: seq<string>, blank: string, after: seq<string>,
                                                 current: seq<string>, done: seq<seq<string>>)
    requires IsBlank(blank)
    ensures GroupsFrom(before + [blank] + after, current, done) ==
            GroupsFrom(after, [], GroupsFrom(before, current, done))
    decreases |before|
  {
    var all := before + [blank] + after;
    if before == [] {
      assert all[0] == blank && all[1..] == after;
    } else {
      assert all[0] == before[0] && all[1..] == before[1..] + [blank] + after;
      match Classify(before[0])
      case Blank =>
        BlankLineSeparatesFrom(before[1..], blank, after, [], done + Flush(current));
      case Opens(line) =>
        BlankLineSeparatesFrom(before[1..], blank, after, [line], done + Flush(current));
      case Continues(line) =>
        BlankLineSeparatesFrom(before[1..], blank, after, current + [line], done);
    }
  }

  /** A blank line ends a citation: the lines on either side are grouped independently. */
  lemma BlankLineSeparates(before: seq<string>, blank: string, after: seq<string>)
    requires IsBlank(blank)
    ensures GroupsFrom(before + [blank] + after, [], []) == GroupsFrom(before, [], []) + GroupsFrom(after, [], [])
  {
    BlankLineSeparatesFrom(before, blank, after, [], []);
    GroupsKeepDone(after, [], GroupsFrom(before, [], []));
  }

  lemma {:induction false} NewItemSeparatesFrom(before: seq<string>, item: string, after: seq<string>,
                                               current: seq<string>, done: seq<seq<string>>)
    requires Strip(item) != "" && StartsNewItem(Strip(item))
    ensures GroupsFrom(before + [item] + after, current, done) ==
            GroupsFrom([item] + after, [], GroupsFrom(before, current, done))
    decreases |before|
  {
    var all := before + [item] + after;
    if before == [] {
      assert all == [item] + after;
      assert done + Flush(current) + Flush([]) == done + Flush(current);
    } else {
      assert all[0] == before[0] && all[1..] == before[1..] + [item] + after;
      match Classify(before[0])
      case Blank =>
        NewItemSeparatesFrom(before[1..], item, after, [], done + Flush(current));
      case Opens(line) =>
        NewItemSeparatesFrom(before[1..], item, after, [line], done + Flush(current));
      case Continues(line) =>
        NewItemSeparatesFrom(before[1..], item, after, current + [line], done);
    }
  }

  /** A line opening a numbered or lettered item ends the citation before it and starts the
      next one. */
  lemma NewItemSeparates(before: seq<string>, item: string, after: seq<string>)
    requires Strip(item) != "" && StartsNewItem(Strip(item))
    ensures GroupsFrom(before + [item] + after, [], []) == GroupsFrom(before, [], []) + GroupsFrom([item] + after, [], [])
  {
    NewItemSeparatesFrom(before, item, after, [], []);
    GroupsKeepDone([item] + after, [], GroupsFrom(before, [], []));
  }

  /** A group of content lines joins to a string that is not blank. */
  lemma JoinedGroupNotBlank(g: seq<string>)
    requires WellFormedGroup(g)
    ensures !IsBlank(Join(g, " "))
  {
    JoinStartsWithFirst(g, " ");
    assert Join(g, " ")[0] == g[0][0];
  }

  /** Every citation text `split_citations` returns is non-blank. */
  lemma CitationTextsNotBlank(text: string)
    ensures forall k :: 0 <= k < |JoinEach(CitationGroups(text))| ==> !IsBlank(JoinEach(CitationGroups(text))[k])
  {
    var groups := CitationGroups(text);
    GroupsWellFormed(BlockLines(text), [], []);
    forall k | 0 <= k < |groups| ensures !IsBlank(JoinEach(groups)[k]) {
      JoinedGroupNotBlank(groups[k]);
    }
  }

  // ---------------------------------------------------------------------------------------
  // parse_citation_block

  /** The texts the filter `if ct.strip()` keeps, in order. */
  function NonBlank(texts: seq<string>): (kept: seq<string>)
    ensures |kept| <= |texts|
    decreases |texts|
  {
    if texts == [] then [] else (if Strip(texts[0]) != "" then [texts[0]] else []) + NonBlank(texts[1..])
  }

  /** Only non-blank texts are kept, and when every text is non-blank all are kept. */
  lemma {:induction false} NonBlankKeeps(texts: seq<string>)
    ensures forall k :: 0 <= k < |NonBlank(texts)| ==> Strip(NonBlank(texts)[k]) != ""
    ensures (forall k :: 0 <= k < |texts| ==> Strip(texts[k]) != "") ==> NonBlank(texts) == texts
    decreases |texts|
  {
    if texts != [] {
      NonBlankKeeps(texts[1..]);
      assert forall k :: 1 <= k < |texts| ==> texts[k] == texts[1..][k - 1];
    }
  }

  /** The filter decides every text by itself: a text is kept in place exactly when it is
      not blank, so exactly the blank texts are dropped. */
  lemma {:induction false} NonBlankFilter(a: seq<string>, t: string, b: seq<string>)
    ensures NonBlank(a + [t] + b) == NonBlank(a) + (if Strip(t) != "" then [t] else []) + NonBlank(b)
    decreases |a|
  {
    if a == [] {
      assert a + [t] + b == [t] + b;
      assert ([t] + b)[1..] == b;
    } else {
      assert (a + [t] + b)[0] == a[0];
      assert (a + [t] + b)[1..] == a[1..] + [t] + b;
      NonBlankFilter(a[1..], t, b);
      var head := if Strip(a[0]) != "" then [a[0]] else [];
      AppendAssoc(head, NonBlank(a[1..]), (if Strip(t) != "" then [t] else []) + NonBlank(b));
      AppendAssoc(NonBlank(a[1..]), if Strip(t) != "" then [t] else [], NonBlank(b));
      AppendAssoc(head + NonBlank(a[1..]), if Strip(t) != "" then [t] else [], NonBlank(b));
    }
  }

  /** `[parse_citation(ct) for ct in texts if ct.strip()]`: the kept texts, each parsed, in
      order. */
  function ParseNonBlank(texts: seq<string>): (cs: seq<Citation>)
    ensures |cs| == |NonBlank(texts)|
    ensures forall k :: 0 <= k < |cs| ==> cs[k] == ParseCitation(NonBlank(texts)[k])
    decreases |texts|
  {
    if texts == [] then []
    else if Strip(texts[0]) == "" then
      assert NonBlank(texts) == NonBlank(texts[1..]);
      ParseNonBlank(texts[1..])
    else
      var rest := ParseNonBlank(texts[1..]);
      assert NonBlank(texts) == [texts[0]] + NonBlank(texts[1..]);
      MapCons(ParseCitation, texts[0], NonBlank(texts[1..]), rest);
      [ParseCitation(texts[0])] + rest
  }

  /** A pointwise image of xs, extended by the image of x in front, is the pointwise image
      of x in front of xs. */
  lemma MapCons<A, B>(f: A -> B, x: A, xs: seq<A>, ys: seq<B>)
    requires |ys| == |xs| && forall k :: 0 <= k < |xs| ==> ys[k] == f(xs[k])
    ensures forall k :: 0 <= k < |xs| + 1 ==> ([f(x)] + ys)[k] == f(([x] + xs)[k])
  {
  }

  /** When no text is blank, the filter drops nothing and every text is parsed, in order. */
  lemma ParseNonBlankKeepsAll(texts: seq<string>)
    requires forall k :: 0 <= k < |texts| ==> !IsBlank(texts[k])
    ensures |ParseNonBlank(texts)| == |texts|
    ensures forall k :: 0 <= k < |texts| ==> ParseNonBlank(texts)[k] == ParseCitation(texts[k])
  {
    assert forall k :: 0 <= k < |texts| ==> Strip(texts[k]) != "";
    NonBlankKeeps(texts);
  }

  /** `parse_citation_block`: one Citation per group of `split_citations`, in order; the
      blank-text filter drops nothing. */
  method ParseCitationBlock(text: string) returns (citations: seq<Citation>)
    ensures |citations| == |CitationGroups(text)|
    ensures forall k :: 0 <= k < |citations| ==>
              citations[k] == ParseCitation(Join(CitationGroups(text)[k], " "))
  {
    var texts := SplitCitations(text);
    CitationTextsNotBlank(text);
    ParseNonBlankKeepsAll(texts);
    citations := ParseNonBlank(texts);
  }
}
