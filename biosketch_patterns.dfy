/** The regular expressions of the biosketch parser, each written out as a string predicate
    or extractor. All are used with `re.match`, so they are anchored at the start of the line
    and need not reach its end unless they say `$`; they ignore case unless noted. */
module BiosketchPatterns {
  import opened Wrappers
  import opened Text
  import opened Patterns
  import opened Models
  import CitationParser

  /** The position after the optional literal `lit?` at i: greedy, so taken whenever present. */
  function OptionalCi(s: string, i: nat, lit: string): (j: nat)
    requires i <= |s|
    ensures j <= |s|
  {
    if MatchesCi(s, i, lit) then i + |lit| else i
  }

  /** A case-insensitive literal fixes the first character up to case. */
  lemma FirstLetter(s: string, lit: string)
    requires MatchesCi(s, 0, lit) && |lit| > 0
    ensures |s| > 0 && Lower(s[0]) == lit[0]
  {
    MatchesCiAt(s, 0, lit, 0);
  }

  // ---------------------------------------------------------------------------------------
  // Section headers

  datatype Section = SectionA | SectionB | SectionC

  /** SECTION_A_PATTERN, `^A\.\s*Personal\s*Statement`. */
  predicate IsSectionAHeader(t: string) {
    CiWords(t, 0, ["a.", "personal", "statement"]).Some?
  }

  /** SECTION_B_PATTERN, `^B\.\s*Positions`. */
  predicate IsSectionBHeader(t: string) {
    CiWords(t, 0, ["b.", "positions"]).Some?
  }

  /** SECTION_C_PATTERN, `^C\.\s*Contributions?\s*to\s*Science`. The optional `s` is taken
      whenever present: left out, `\s*to` would have to match at that `s`. */
  predicate IsSectionCHeader(t: string) {
    MatchesCi(t, 0, "c.") &&
    var q := SkipSpaces(t, 2);
    MatchesCi(t, q, "contribution") &&
    var p := OptionalCi(t, q + 12, "s");
    CiWords(t, SkipSpaces(t, p), ["to", "science"]).Some?
  }

  /** The section a line opens, trying A, then B, then C, as `_parse_sections` does. */
  function HeaderSection(t: string): (r: Option<Section>)
    ensures r == Some(SectionA) <==> IsSectionAHeader(t)
    ensures r == Some(SectionB) <==> IsSectionBHeader(t)
    ensures r == Some(SectionC) <==> IsSectionCHeader(t)
    ensures r.None? <==> !IsSectionAHeader(t) && !IsSectionBHeader(t) && !IsSectionCHeader(t)
  {
    SectionHeadersExclusive(t);
    if IsSectionAHeader(t) then Some(SectionA)
    else if IsSectionBHeader(t) then Some(SectionB)
    else if IsSectionCHeader(t) then Some(SectionC)
    else None
  }

  /** The three headers start with different letters, so a line opens at most one section. */
  lemma SectionHeadersExclusive(t: string)
    ensures !(IsSectionAHeader(t) && IsSectionBHeader(t))
    ensures !(IsSectionAHeader(t) && IsSectionCHeader(t))
    ensures !(IsSectionBHeader(t) && IsSectionCHeader(t))
  {
    if IsSectionAHeader(t) { FirstLetter(t, "a."); }
    if IsSectionBHeader(t) { FirstLetter(t, "b."); }
    if IsSectionCHeader(t) { FirstLetter(t, "c."); }
  }

  // ---------------------------------------------------------------------------------------
  // Header fields

  /** The group of `\s*(.+)$` (minSpaces 0) or `\s+(.+)$` (minSpaces 1) from p, stripped. */
  function StrippedTail(t: string, p: nat, minSpaces: nat): (r: Option<string>)
    requires p <= |t|
    ensures r.Some? <==> exists k: nat :: TailAt(t, p, minSpaces, k)
    ensures r.Some? ==> IsStripped(r.value)
    ensures r.Some? ==> exists k: nat :: TailAt(t, p, minSpaces, k) && r.value == Strip(t[k..DollarAt(t)])
  {
    match TailCapture(t, p, minSpaces)
    case None => None
    case Some(g) => Some(Strip(g))
  }

  /** NAME_PATTERN, `^NAME:\s*(.+)$`: the stripped name. */
  function NameField(t: string): (r: Option<string>)
    ensures r.Some? ==> MatchesCi(t, 0, "name:") && r == StrippedTail(t, 5, 0)
    ensures (MatchesCi(t, 0, "name:") && StrippedTail(t, 5, 0).Some?) ==> r.Some?
  {
    if MatchesCi(t, 0, "name:") then StrippedTail(t, 5, 0) else None
  }

  /** The words of `eRA\s*COMMONS\s*USER\s*NAME`, lower-cased. */
  const EraLabel: seq<string> := ["era", "commons", "user", "name"]

  /** ERA_COMMONS_PATTERN, `^eRA\s*COMMONS\s*USER\s*NAME[^:]*:\s*(.+)$`. `[^:]*` cannot
      cross a colon, so the `:` of the pattern is the first colon after the label. */
  function EraField(t: string): (r: Option<string>)
    ensures r.Some? ==> exists p: nat :: CiWords(t, 0, EraLabel) == Some(p) && r == ColonTail(t, p)
    ensures (CiWords(t, 0, EraLabel).Some? && ColonTail(t, CiWords(t, 0, EraLabel).value).Some?) ==> r.Some?
  {
    match CiWords(t, 0, EraLabel)
    case None => None
    case Some(p) => ColonTail(t, p)
  }

  /** `[^:]*:\s*(.+)$` from p: the stripped tail after the first colon at or after p. */
  function ColonTail(t: string, p: nat): (r: Option<string>)
    requires p <= |t|
    ensures IndexOf(t, ':', p) == |t| ==> r.None?
    ensures IndexOf(t, ':', p) < |t| ==> r == StrippedTail(t, IndexOf(t, ':', p) + 1, 0)
  {
    if IndexOf(t, ':', p) < |t| then StrippedTail(t, IndexOf(t, ':', p) + 1, 0) else None
  }

  /** The `:` of ERA_COMMONS_PATTERN is the first colon after the label, since `[^:]*` cannot
      cross one; the user name is the stripped tail after it. */
  lemma EraFieldColon(t: string, p: nat)
    requires EraField(t).Some?
    requires CiWords(t, 0, EraLabel) == Some(p)
    ensures IndexOf(t, ':', p) < |t|
    ensures EraField(t) == StrippedTail(t, IndexOf(t, ':', p) + 1, 0)
  {
    assert EraField(t) == ColonTail(t, p);
  }

  /** POSITION_TITLE_PATTERN, `^POSITION\s*TITLE:\s*(.+)$`. */
  function PositionTitleField(t: string): (r: Option<string>)
    ensures r.Some? ==>
              exists p: nat :: CiWords(t, 0, ["position", "title:"]) == Some(p) && r == StrippedTail(t, p, 0)
    ensures (CiWords(t, 0, ["position", "title:"]).Some? &&
             StrippedTail(t, CiWords(t, 0, ["position", "title:"]).value, 0).Some?) ==> r.Some?
  {
    match CiWords(t, 0, ["position", "title:"])
    case None => None
    case Some(p) => StrippedTail(t, p, 0)
  }

  /** The three labels start with different letters, so a line fills at most one field. */
  lemma HeaderFieldsExclusive(t: string)
    ensures NameField(t).Some? ==> EraField(t).None? && PositionTitleField(t).None?
    ensures EraField(t).Some? ==> PositionTitleField(t).None?
  {
    if NameField(t).Some? { FirstLetter(t, "name:"); }
    if EraField(t).Some? { FirstLetter(t, "era"); }
    if PositionTitleField(t).Some? { FirstLetter(t, "position"); }
  }

  // ---------------------------------------------------------------------------------------
  // Mode headers of section A

  /** `^Current\s*(and\s*recently\s*completed)?\s*research\s*support`. The optional group
      starts with `a` and the rest with `r`, so at most one of the two readings applies. */
  predicate IsResearchSupportHeader(t: string) {
    MatchesCi(t, 0, "current") &&
    var q := SkipSpaces(t, 7);
    (CiWords(t, q, ["and", "recently", "completed", "research", "support"]).Some? ||
     CiWords(t, q, ["research", "support"]).Some?)
  }

  /** `^Citations?:?\s*$`. */
  predicate IsCitationsHeader(t: string) {
    MatchesCi(t, 0, "citation") &&
    var p := OptionalCi(t, OptionalCi(t, 8, "s"), ":");
    SpacesBetween(t, p, |t|)
  }

  /** The two mode headers differ in their second letter, so a line switches to at most one
      mode. */
  lemma ModeHeadersExclusive(t: string)
    ensures !(IsResearchSupportHeader(t) && IsCitationsHeader(t))
  {
    if IsResearchSupportHeader(t) {
      MatchesCiAt(t, 0, "current", 1);
    }
  }

  // ---------------------------------------------------------------------------------------
  // Section B

  /** `^Honors?\s*$`. Whitespace up to `$` (before a final newline or at the end) is
      whitespace up to the end, since a newline is whitespace. */
  predicate IsHonorsHeader(t: string) {
    MatchesCi(t, 0, "honor") && SpacesBetween(t, OptionalCi(t, 5, "s"), |t|)
  }

  /** `^Positions?\s*(and\s*Scientific\s*Appointments?)?\s*$`. */
  predicate IsPositionsHeader(t: string) {
    MatchesCi(t, 0, "position") &&
    var p := OptionalCi(t, 8, "s");
    (SpacesBetween(t, p, |t|) ||
     match CiWords(t, SkipSpaces(t, p), ["and", "scientific", "appointment"])
     case Some(e) => SpacesBetween(t, OptionalCi(t, e, "s"), |t|)
     case None => false)
  }

  /** `^(\d{4})\s+(.+)$`, case-sensitive: an honor with its year and stripped description. */
  function HonorEntry(t: string): (r: Option<Honor>)
    ensures r.Some? <==> |t| >= 4 && DigitsBetween(t, 0, 4) && exists k: nat :: TailAt(t, 4, 1, k)
    ensures r.Some? ==> |r.value.year| == 4 && r.value.year == t[..4]
    ensures r.Some? ==> Some(r.value.description) == StrippedTail(t, 4, 1)
  {
    if |t| >= 4 && DigitsBetween(t, 0, 4) then
      match StrippedTail(t, 4, 1)
      case None => None
      case Some(d) => Some(Honor(t[..4], d))
    else None
  }

  /** A hyphen or an en dash, the class `[-–]`. */
  predicate IsDash(c: char) {
    c == '-' || c == '–'
  }

  /** The group `(\d{4}[-–]\d{4}|\d{4}[-–]Present)` at the start: where it ends. */
  function DatesEnd(t: string): (r: Option<nat>)
    ensures r == Some(9) <==> |t| >= 9 && DigitsBetween(t, 0, 4) && IsDash(t[4]) && DigitsBetween(t, 5, 9)
    ensures r == Some(12) <==> |t| >= 12 && DigitsBetween(t, 0, 4) && IsDash(t[4]) && MatchesCi(t, 5, "present")
    ensures r.Some? ==> r.value == 9 || r.value == 12
  {
    PresentIsNotDigits(t);
    if |t| >= 9 && DigitsBetween(t, 0, 4) && IsDash(t[4]) && DigitsBetween(t, 5, 9) then Some(9)
    else if |t| >= 12 && DigitsBetween(t, 0, 4) && IsDash(t[4]) && MatchesCi(t, 5, "present") then Some(12)
    else None
  }

  /** `Present` starts with a letter, so the two date forms exclude each other. */
  lemma PresentIsNotDigits(t: string)
    ensures MatchesCi(t, 5, "present") ==> !IsDigit(t[5])
  {
    if MatchesCi(t, 5, "present") {
      MatchesCiAt(t, 5, "present", 0);
    }
  }

  /** The title and institution of a position from the text after its dates: with more
      than one comma-separated part (exactly when there is a comma, by `SplitCount`), the
      parts but the last, rejoined, and the last part, each stripped, that is the text on
      either side of the last comma; otherwise the whole text is the title. */
  function SplitTitle(dates: string, rest: string): (p: Position)
    ensures p.dates == dates
    ensures ',' in rest ==> p.title == Strip(rest[..LastIndexOf(rest, ',')])
    ensures ',' in rest ==> p.institution == Strip(rest[LastIndexOf(rest, ',') + 1..])
    ensures ',' !in rest ==> p.title == rest && p.institution == ""
  {
    if ',' in rest then
      Position(dates, Strip(SplitInit(rest, ',')), Strip(SplitLast(rest, ',')))
    else
      Position(dates, rest, "")
  }

  /** `^(\d{4}[-–]\d{4}|\d{4}[-–]Present)\s+(.+)$`. The two alternatives differ at the
      sixth character, so backtracking into the second never rescues a failed first. */
  function PositionEntry(t: string): (r: Option<Position>)
    ensures r.Some? <==> DatesEnd(t).Some? && exists k: nat :: TailAt(t, DatesEnd(t).value, 1, k)
    ensures r.Some? ==>
              var e := DatesEnd(t).value;
              r.value == SplitTitle(t[..e], StrippedTail(t, e, 1).value)
  {
    match DatesEnd(t)
    case None => None
    case Some(e) =>
      match StrippedTail(t, e, 1)
      case None => None
      case Some(rest) => Some(SplitTitle(t[..e], rest))
  }

  /** No header of section B reads as an entry: entries start with a digit. */
  lemma SectionBHeadersAreNotEntries(t: string)
    requires IsHonorsHeader(t) || IsPositionsHeader(t)
    ensures HonorEntry(t).None? && PositionEntry(t).None?
  {
    if IsHonorsHeader(t) { FirstLetter(t, "honor"); } else { FirstLetter(t, "position"); }
    assert !IsDigit(t[0]);
  }

  // ---------------------------------------------------------------------------------------
  // Section C

  /** `^(\d+\.?\s+)?[A-Z]` with its optional group present: digits up to d, an optional dot
      up to p, whitespace up to q, then a capital. */
  ghost predicate NumberedHeaderAt(t: string, d: nat, p: nat, q: nat) {
    0 < d <= p < q < |t| && DigitsBetween(t, 0, d) &&
    (p == d || (p == d + 1 && t[d] == '.')) && SpacesBetween(t, p, q) && IsUpper(t[q])
  }

  /** A capital is neither whitespace nor a digit, and a dot is not a digit, so a match with
      the group present fixes all three positions. */
  lemma NumberedHeaderFixed(t: string)
    ensures forall d: nat, p: nat, q: nat :: NumberedHeaderAt(t, d, p, q) ==>
              d == DigitsEnd(t, 0) && p == (if t[d] == '.' then d + 1 else d) && q == SkipSpaces(t, p)
  {
    forall d: nat, p: nat, q: nat | NumberedHeaderAt(t, d, p, q)
      ensures d == DigitsEnd(t, 0) && p == (if t[d] == '.' then d + 1 else d) && q == SkipSpaces(t, p)
    {
      assert !IsDigit(t[d]);
      DigitsEndUnique(t, 0, d);
      SkipSpacesUnique(t, p, q);
    }
  }

  /** The `contribution_header` pattern `^(\d+\.?\s+)?[A-Z]`, case-sensitive. */
  function ContributionHeader(t: string): (b: bool)
    ensures b <==> (|t| > 0 && IsUpper(t[0])) || exists d: nat, p: nat, q: nat :: NumberedHeaderAt(t, d, p, q)
  {
    NumberedHeaderFixed(t);
    if |t| > 0 && IsUpper(t[0]) then true
    else
      var d := DigitsEnd(t, 0);
      var p := if d < |t| && t[d] == '.' then d + 1 else d;
      var q := SkipSpaces(t, p);
      if 0 < d && p < q < |t| && IsUpper(t[q]) then
        assert NumberedHeaderAt(t, d, p, q);
        true
      else
        false
  }

  /** The test of `_parse_section_c` for a line that opens a new contribution. */
  predicate IsContributionBoundary(line: string) {
    && ContributionHeader(line)
    && !CitationParser.IsCitationLine(line)
    && |line| > 20
    && !StartsWith(line, "Role:")
  }

  /** The link line to the complete bibliography, which section C skips. */
  predicate IsPublishedWorkLink(line: string) {
    Contains(line, "Complete List of Published Work")
  }
}
