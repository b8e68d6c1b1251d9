# NIH biosketch parser, modelled in Dafny

This project models the extraction engine of an NIH biosketch importer. The engine turns
the text of a biosketch Word document into a typed record. Its three parts appear here
with their own names.

- **`CitationParser`** (`citation_parser.dfy`). It finds PMID, PMCID and DOI identifiers
  in a line and decides whether a line is a citation. It also splits a block of text into
  individual citations, using blank lines and `1.` / `a.` list markers as separators.
- **`BiosketchParser`** (`biosketch_parser.dfy`), a class that fills its `data` record in
  place. The parse runs in this order:
  1. The first 15 paragraphs are read for the name, eRA Commons user name and position title.
  2. The first table becomes education entries.
  3. The paragraphs are split into sections A, B and C by their header lines.
  4. Each section goes to its own mode machine:
     - A: narrative, research support or citations;
     - B: positions or honors;
     - C: contributions bounded by header-like lines.

  Each method is proved against a specification function in `biosketch_spec.dfy`. The
  properties the parser promises are lemmas about those functions.
- **The record model** (`models.dfy`). These are the dataclasses `Citation`, `Education`,
  `Position`, `Honor`, `Grant`, `PersonalStatement`, `Contribution` and `BiosketchData`.
  Their `to_dict`/`from_dict` go through a JSON-like `Plain` value. Round trips are proved
  for every record. `from_dict` reports the exceptions Python raises as a `ModelError`.

Every regular expression the code uses is written out as a predicate or an extractor over
`string`, with Python's `re` semantics:
- `IGNORECASE` where the code passes it;
- leftmost `search`;
- anchored `match`;
- greedy `\s*` that backtracks only as far as a group needs;
- `$` before a final newline.

`patterns.dfy` holds the shared pieces and `biosketch_patterns.dfy` the biosketch patterns.
`text.dfy` models the `str` methods the code uses: `strip`, `split`, `join`, `in` and
`startswith`.

Behaviour of the code that a reader might not expect:

- **Section A.** `_parse_section_a` calls `PersonalStatement(text=..., research_support=...,
  citations=...)`, but the dataclass has no `research_support` field. The call therefore
  always raises `TypeError`, and no personal statement or grant is ever stored.
  - The model binds keyword arguments the way a dataclass constructor does. The call
    yields `Failure(UnexpectedKeywords({"research_support"}))` (`SectionAAlwaysRaises`).
  - `parse` stops there. `ParseFailsIffSectionA` proves that the whole parse fails exactly
    when some paragraph is a section-A header.
- **Header fields.** Later matches overwrite earlier ones, so the last match wins.
- **Education rows.** A row with fewer than four cells is dropped.
- **Grants.** There is no grant recognizer in the code. `grants` is only ever `[]` or what
  `from_dict` reads.

## Model

| member | source | states |
|---|---|---|
| Text.Strip | app/parser/citation_parser.py:41 | `str.strip()`: the result has no whitespace at either end, is empty exactly when the input is blank, and is never longer |
| Text.StripBounds | app/parser/citation_parser.py:41 | the input is its leading whitespace, then the stripped text, then its trailing whitespace |
| Text.StripIdempotent | app/parser/citation_parser.py:41 | stripping twice is the same as stripping once |
| Text.Split | app/parser/citation_parser.py:86 | `s.split(sep)`: at least one part, and joining the parts with the separator gives `s` back |
| Text.SplitPartsFree | app/parser/citation_parser.py:86 | no part of `s.split(sep)` holds the separator |
| Text.SplitJoin | app/parser/citation_parser.py:86 | splitting a join of separator-free parts gives the parts back, so split and join are inverse |
| Text.SplitCount | app/parser/biosketch_parser.py:228-229 | `rest.split(',')` has two or more parts exactly when `rest` contains a comma |
| Text.SplitAtLast | app/parser/biosketch_parser.py:228-232 | with two or more parts, the last part is the text after the last separator, and the other parts rejoined are the text before it |
| Text.LastIndexOf | app/parser/biosketch_parser.py:228-232 | the index of the last occurrence of a character: it holds that character and no later index does |
| Text.SplitAtLastIndex | app/parser/biosketch_parser.py:228-232 | when the separator occurs, `s.split(sep)` has two or more parts, its last part is the text after the last separator and the others rejoined are the text before it |
| Text.SplitInit | app/parser/biosketch_parser.py:232 | `sep.join(s.split(sep)[:-1])`: the text before the last separator, or "" when there is none |
| Text.SplitLast | app/parser/biosketch_parser.py:231 | `s.split(sep)[-1]`: the text after the last separator, or all of `s` when there is none |
| Text.JoinSnoc | app/parser/biosketch_parser.py:232 | joining one more part adds the separator and that part |
| Patterns.TailCapture | app/parser/biosketch_parser.py:36 | the group of `\s*(.+)$` / `\s+(.+)$`: present exactly when some group start matches, and it starts at the largest such position |
| Patterns.TailOfStripped | app/parser/biosketch_parser.py:69-76 | on a stripped line the group is everything after the whitespace, unless that contains a newline |
| Patterns.CiWords | app/parser/biosketch_parser.py:31-38 | case-insensitive words separated by `\s*`: a match ends inside the string and begins with the first word |
| CitationParser.Leftmost | app/parser/citation_parser.py:23 | the leftmost start at which a pattern matches, and no match anywhere when it is absent |
| CitationParser.SearchGroup | app/parser/citation_parser.py:23-24 | `pattern.search(text).group(1)`: None exactly when nothing matches; otherwise the group of the leftmost match |
| CitationParser.PmidAt | app/parser/citation_parser.py:13 | `PMID:\s*(\d+)` matched at one position: a non-empty, maximal run of digits that occurs in the text |
| CitationParser.ExtractPmid | app/parser/citation_parser.py:13-24 | None exactly when no case-insensitive `PMID:` is followed by digits; otherwise the digits after the leftmost such match |
| CitationParser.PmcidAt | app/parser/citation_parser.py:14 | `PMCID:\s*(PMC\d+)` matched at one position: `PMC` in any case followed by a maximal run of digits |
| CitationParser.ExtractPmcid | app/parser/citation_parser.py:14-30 | None exactly when no `PMCID:` is followed by `PMC` and digits; otherwise that identifier from the leftmost match, which starts with `PMC` (ignoring case) |
| CitationParser.DoiGroupStart | app/parser/citation_parser.py:15 | the three DOI prefixes exclude each other, and the group starts right after the whitespace that follows the prefix |
| CitationParser.DoiAt | app/parser/citation_parser.py:15 | a DOI match at one position: `10.`, four or more digits, `/` and a non-empty run without whitespace, ending at whitespace or the end |
| CitationParser.ExtractDoi | app/parser/citation_parser.py:15-36 | None exactly when no `doi:` / `http(s)://doi.org/` prefix is followed by a DOI; otherwise the DOI-shaped group of the leftmost match |
| CitationParser.HasIdentifier | app/parser/citation_parser.py:64 | the identifier test: one of the three searches finds a match; its cases are stated by ExtractPmid, ExtractPmcid and ExtractDoi |
| CitationParser.ParseCitation | app/parser/citation_parser.py:39-47 | the citation's text is the stripped input, and each identifier is its extractor applied to that stripped text |
| CitationParser.ParseCitationIdempotent | app/parser/citation_parser.py:39-47 | parsing a citation's own text again gives the same citation |
| CitationParser.MarkerEnd | app/parser/citation_parser.py:68 | the list marker (`\d+.` or `[a-z].`) at the start: present exactly when a marker exists; the marker is unique and this is its end |
| CitationParser.LooksLikeAuthor | app/parser/citation_parser.py:72 | true exactly when the text starts with a capital, lower-case letters, whitespace, one or two capitals, then whitespace or a comma |
| CitationParser.IsCitationLine | app/parser/citation_parser.py:50-75 | false on blank lines; true whenever an identifier occurs; with no identifier, true exactly when a list marker is followed by an author-like name |
| CitationParser.UnmarkedLineIsNotCitation | app/parser/citation_parser.py:68-75 | a line with no identifier and no list marker is never a citation |
| CitationParser.StartsNewItem | app/parser/citation_parser.py:99 | true exactly when the line starts with a list marker followed by whitespace |
| CitationParser.GroupsFrom | app/parser/citation_parser.py:87-109 | the grouping loop from any buffered state; its behaviour is stated by GroupsFromStep, GroupsWellFormed, BlankLineSeparates and NewItemSeparates |
| CitationParser.CitationGroups | app/parser/citation_parser.py:86-109 | the groups of the stripped text's lines; stated by CitationGroupsCoverLines and GroupsWellFormed |
| CitationParser.GroupsFromStep | app/parser/citation_parser.py:90-105 | one loop step: a blank line flushes, an opening line flushes and starts a new group, any other line extends the current group |
| CitationParser.SplitCitations | app/parser/citation_parser.py:78-111 | the loop returns the groups of the line-by-line grouping, each joined with single spaces |
| CitationParser.GroupsWellFormed | app/parser/citation_parser.py:92-109 | no group is empty, every line in a group is non-blank and stripped, and only a group's first line can open an item |
| CitationParser.CitationGroupsCoverLines | app/parser/citation_parser.py:86-109 | the groups, concatenated, are exactly the non-blank stripped lines in input order, so each line is in exactly one group |
| CitationParser.BlankLineSeparates | app/parser/citation_parser.py:92-96 | a blank line splits the grouping: the lines before and after it are grouped independently |
| CitationParser.NewItemSeparates | app/parser/citation_parser.py:99-102 | a line opening an item ends the group before it and starts the grouping afresh |
| CitationParser.CitationTextsNotBlank | app/parser/citation_parser.py:108-111 | no citation text that `split_citations` returns is blank |
| CitationParser.NonBlank | app/parser/citation_parser.py:117 | the `if ct.strip()` filter: never longer than its input |
| CitationParser.NonBlankKeeps | app/parser/citation_parser.py:117 | every kept text is non-blank, and when no text is blank the filter keeps them all |
| CitationParser.NonBlankFilter | app/parser/citation_parser.py:117 | each text is kept in its place exactly when it is not blank, so exactly the blank texts are dropped |
| CitationParser.ParseNonBlank | app/parser/citation_parser.py:117 | one citation per text the filter keeps, each the parse of that text, in order |
| CitationParser.ParseNonBlankKeepsAll | app/parser/citation_parser.py:117 | when no text is blank, every text is parsed, in order |
| CitationParser.ParseCitationBlock | app/parser/citation_parser.py:114-117 | one citation per split group, in order, each parsed from its group's joined text |
| Models.BindKeywords | app/parser/models.py:9-27 | a dataclass `cls(**kwargs)` succeeds exactly when every keyword is declared and every required field is given; unknown keywords are reported first |
| Models.Truthy | app/parser/models.py:185 | Python truthiness of a JSON value: null, false, 0 and empty strings, lists and dicts are false; used by StatementField |
| Models.OptionalField | app/parser/models.py:25-27 | an optional string field: absent or null is None, a string is that string, any other value is an error |
| Models.Elements | app/parser/models.py:192-196 | what `for x in data.get(key, [])` iterates: a list gives its items, and an empty string or dict gives nothing |
| Models.ListField | app/parser/models.py:192-196 | a list-valued key decoded element by element; absent gives []; stated by ListFieldOfArr |
| Models.DecodeAll | app/parser/models.py:192-196 | a list comprehension of `from_dict` succeeds exactly when every element decodes, and then keeps length and order |
| Models.EncodeAll | app/parser/models.py:122-123 | a list comprehension of `to_dict` keeps length and order |
| Models.ListFieldOfArr | app/parser/models.py:192-196 | reading a list field that holds a list decodes exactly its elements |
| Models.ListRoundTrip | app/parser/models.py:122-129 | when each element round-trips, the list round-trips with its order and length |
| Models.CitationToDict | app/parser/models.py:17-23 | the dict has exactly the keys `text`, `pmid`, `pmcid`, `doi` |
| Models.CitationFromDict | app/parser/models.py:25-27 | `cls(**data)`: succeeds only on a dict with `text` and no undeclared key; absent identifiers become None |
| Models.CitationRoundTrip | app/parser/models.py:17-27 | `from_dict(to_dict(c)) == c`, with absent identifiers null and back |
| Models.EducationToDict | app/parser/models.py:38-44 | exactly the four declared keys |
| Models.EducationFromDict | app/parser/models.py:46-48 | succeeds only on a dict whose keys are exactly the four declared fields |
| Models.EducationRoundTrip | app/parser/models.py:38-48 | an education entry round-trips field for field |
| Models.PositionToDict | app/parser/models.py:58-63 | exactly the keys `dates`, `title`, `institution` |
| Models.PositionFromDict | app/parser/models.py:65-67 | succeeds only on a dict whose keys are exactly the declared fields |
| Models.PositionRoundTrip | app/parser/models.py:58-67 | a position round-trips field for field |
| Models.HonorToDict | app/parser/models.py:76-80 | exactly the keys `year`, `description` |
| Models.HonorFromDict | app/parser/models.py:82-84 | succeeds only on a dict whose keys are exactly the declared fields |
| Models.HonorRoundTrip | app/parser/models.py:76-84 | an honor round-trips field for field |
| Models.GrantToDict | app/parser/models.py:97-105 | exactly the six declared keys |
| Models.GrantFromDict | app/parser/models.py:89-109 | accepts only declared keys, and an empty dict gives the grant whose fields are all "" |
| Models.GrantRoundTrip | app/parser/models.py:97-109 | a grant round-trips field for field |
| Models.PersonalStatementToDict | app/parser/models.py:119-124 | exactly the keys `text`, `grants`, `citations` |
| Models.PersonalStatementFromDict | app/parser/models.py:126-134 | needs `text`; missing `grants` or `citations` become empty lists |
| Models.PersonalStatementRoundTrip | app/parser/models.py:119-134 | a personal statement round-trips, with both lists in order |
| Models.CitationListRoundTrip | app/parser/models.py:123-128 | a citation list round-trips with its order and length |
| Models.GrantListRoundTrip | app/parser/models.py:122-129 | a grant list round-trips with its order and length |
| Models.NewPersonalStatement | app/parser/models.py:112-117 | `PersonalStatement(**kwargs)`: an undeclared keyword is the error, reported first; otherwise it succeeds when `text` is given, and the model also demands that each argument has its field's type, which the dataclass does not check |
| Models.ContributionToDict | app/parser/models.py:143-147 | exactly the keys `narrative`, `citations` |
| Models.ContributionFromDict | app/parser/models.py:149-152 | needs `narrative`; missing `citations` becomes an empty list |
| Models.ContributionRoundTrip | app/parser/models.py:143-152 | a contribution round-trips, with its citations in order |
| Models.EducationListRoundTrip | app/parser/models.py:192 | an education list round-trips with its order and length |
| Models.PositionListRoundTrip | app/parser/models.py:194 | a position list round-trips with its order and length |
| Models.HonorListRoundTrip | app/parser/models.py:195 | an honor list round-trips with its order and length |
| Models.ContributionListRoundTrip | app/parser/models.py:196 | a contribution list round-trips with its order and length |
| Models.BiosketchToDict | app/parser/models.py:167-177 | exactly the eight listed keys; `personal_statement` is null exactly when there is none |
| Models.StatementField | app/parser/models.py:184-186 | the personal statement is None exactly when the key is absent or its value is falsy |
| Models.BiosketchFromDict | app/parser/models.py:182-197 | missing name, user name and title become ""; missing lists become []; a missing or falsy `personal_statement` becomes None |
| Models.BiosketchDictEntries | app/parser/models.py:167-177 | each key of the dict holds its field's encoding, and `personal_statement` holds the statement's dict or null |
| Models.BiosketchFromParts | app/parser/models.py:182-197 | when each of the eight fields reads back, `from_dict` builds the record from exactly those values |
| Models.BiosketchRoundTrip | app/parser/models.py:167-197 | `from_dict(to_dict(v)) == v` for every record |
| Models.BiosketchStatementRoundTrip | app/parser/models.py:173-186 | the personal statement survives the round trip, None as null and back |
| Models.BiosketchListsRoundTrip | app/parser/models.py:172-196 | the four lists survive the round trip in order |
| Models.BiosketchFromEmptyDict | app/parser/models.py:182-197 | an empty dict gives the default record |
| BiosketchPatterns.IsSectionAHeader | app/parser/biosketch_parser.py:31 | `^A\.\s*Personal\s*Statement` with IGNORECASE; HeaderSection and SectionHeadersExclusive state its relation to the other headers |
| BiosketchPatterns.IsSectionBHeader | app/parser/biosketch_parser.py:32 | `^B\.\s*Positions` with IGNORECASE |
| BiosketchPatterns.IsSectionCHeader | app/parser/biosketch_parser.py:33 | `^C\.\s*Contributions?\s*to\s*Science` with IGNORECASE, the optional `s` taken whenever present |
| BiosketchPatterns.HeaderSection | app/parser/biosketch_parser.py:117-134 | each section is chosen exactly when its header pattern matches, and none when no pattern matches |
| BiosketchPatterns.SectionHeadersExclusive | app/parser/biosketch_parser.py:31-33 | no line matches two section header patterns |
| BiosketchPatterns.StrippedTail | app/parser/biosketch_parser.py:36-38 | `group(1).strip()` of a `\s*(.+)$` tail: present exactly when the tail matches, and stripped |
| BiosketchPatterns.NameField | app/parser/biosketch_parser.py:74-77 | a name only after a case-insensitive `NAME:`, and always when the tail after it matches |
| BiosketchPatterns.EraField | app/parser/biosketch_parser.py:79-82 | a user name only after the case-insensitive label `eRA COMMONS USER NAME`, equal to the tail after the first colon that follows it; always when that tail matches |
| BiosketchPatterns.ColonTail | app/parser/biosketch_parser.py:37 | `[^:]*:\s*(.+)$`: no match without a colon; otherwise the stripped tail after the first colon |
| BiosketchPatterns.EraFieldColon | app/parser/biosketch_parser.py:79-82 | when the user name is present, a colon follows the label and the name is the stripped tail after the first such colon |
| BiosketchPatterns.PositionTitleField | app/parser/biosketch_parser.py:84-87 | a title only after `POSITION\s*TITLE:`, and always when the tail after it matches |
| BiosketchPatterns.HeaderFieldsExclusive | app/parser/biosketch_parser.py:74-86 | a line sets at most one header field |
| BiosketchPatterns.IsResearchSupportHeader | app/parser/biosketch_parser.py:164 | `^Current\s*(and\s*recently\s*completed)?\s*research\s*support` with IGNORECASE; ModeHeaderSwitches states its effect |
| BiosketchPatterns.IsCitationsHeader | app/parser/biosketch_parser.py:170 | `^Citations?:?\s*$` with IGNORECASE |
| BiosketchPatterns.ModeHeadersExclusive | app/parser/biosketch_parser.py:164-173 | no line is both a research support header and a citations header |
| BiosketchPatterns.IsHonorsHeader | app/parser/biosketch_parser.py:199 | `^Honors?\s*$` with IGNORECASE; SectionBSplit and SectionBHeadersAreNotEntries state its effect |
| BiosketchPatterns.IsPositionsHeader | app/parser/biosketch_parser.py:205 | `^Positions?\s*(and\s*Scientific\s*Appointments?)?\s*$` with IGNORECASE |
| BiosketchPatterns.HonorEntry | app/parser/biosketch_parser.py:210-215 | an honor exactly for a line of four digits, whitespace and a tail; the year is those digits and the description the stripped tail |
| BiosketchPatterns.DatesEnd | app/parser/biosketch_parser.py:221 | the dates group `dddd-dddd` or `dddd-Present` (hyphen or en dash) ends at 9 or 12 exactly when that form is present |
| BiosketchPatterns.SplitTitle | app/parser/biosketch_parser.py:223-235 | the dates are kept; with a comma, the title is the stripped text before the last comma and the institution the stripped text after it; otherwise the title is the whole rest and the institution "" |
| BiosketchPatterns.PositionEntry | app/parser/biosketch_parser.py:221-241 | a position exactly for a line of dates, whitespace and a tail, built from the dates and the stripped tail |
| BiosketchPatterns.SectionBHeadersAreNotEntries | app/parser/biosketch_parser.py:199-206 | an honors or positions sub-header line is never an honor or a position entry |
| BiosketchPatterns.ContributionHeader | app/parser/biosketch_parser.py:250 | `^(\d+\.?\s+)?[A-Z]`: true exactly when the line starts with a capital, or with digits, an optional dot, whitespace and a capital |
| BiosketchPatterns.IsContributionBoundary | app/parser/biosketch_parser.py:262-267 | the new-contribution test: a header-like line that is not a citation, longer than 20 characters and not starting with `Role:`; BoundaryStartsContribution states its effect |
| BiosketchPatterns.IsPublishedWorkLink | app/parser/biosketch_parser.py:254 | the line contains `Complete List of Published Work`; PublishedWorkLinkSkipped states its effect |

| BiosketchSpec.HeaderWindow | app/parser/biosketch_parser.py:68 | `paragraphs[:15]`: the first fifteen paragraphs, or all of them when there are fewer |
| BiosketchSpec.HeaderStep | app/parser/biosketch_parser.py:69-87 | one paragraph of the header loop: blank is skipped, then NAME, eRA COMMONS and POSITION TITLE are tried in order; stated by HeaderStepFrame and HeaderStepField |
| BiosketchSpec.HeaderStepFrame | app/parser/biosketch_parser.py:69-87 | one paragraph changes only the name, user name and title |
| BiosketchSpec.HeaderStepField | app/parser/biosketch_parser.py:69-87 | one paragraph sets a field exactly when that field's pattern matches it, and leaves the field alone otherwise |
| BiosketchSpec.HeaderScan | app/parser/biosketch_parser.py:68-87 | the header loop, one step per paragraph in order; stated by HeaderScanFrame, HeaderScanLast and HeaderLastMatchWins |
| BiosketchSpec.HeaderScanFrame | app/parser/biosketch_parser.py:68-87 | the header scan changes only the three header fields |
| BiosketchSpec.HeaderScanSnoc | app/parser/biosketch_parser.py:68-69 | the scan of one more paragraph is one more step after the scan of the earlier ones |
| BiosketchSpec.HeaderScanLast | app/parser/biosketch_parser.py:68-87 | the last paragraph sets a field exactly when that field's pattern matches it; otherwise the field is what the earlier paragraphs left |
| BiosketchSpec.HeaderLastMatchWins | app/parser/biosketch_parser.py:68-87 | each field holds the capture of the last paragraph that matches its pattern |
| BiosketchSpec.HeaderUnmatchedUnchanged | app/parser/biosketch_parser.py:68-87 | a field no paragraph matches keeps its value ("" in a fresh record) |
| BiosketchSpec.HeaderIgnoresLaterParagraphs | app/parser/biosketch_parser.py:68 | paragraphs after the fifteenth do not affect the header |
| BiosketchSpec.EducationRows | app/parser/biosketch_parser.py:97-106 | the entries the data rows yield, in row order; stated by EducationRowsAppend and EducationRowFilter |
| BiosketchSpec.EducationRowsSnoc | app/parser/biosketch_parser.py:97-106 | one more row appends exactly the entry that row yields |
| BiosketchSpec.EducationRowsAppend | app/parser/biosketch_parser.py:97-106 | entries come out in row order |
| BiosketchSpec.EducationRowFilter | app/parser/biosketch_parser.py:97-106 | a row yields one entry exactly when it has four or more cells and a non-empty first cell, with cells 0 to 3 as institution, degree, completion date and field of study |
| BiosketchSpec.SegmentsFrom | app/parser/biosketch_parser.py:113-142 | the `_parse_sections` loop from any state: a header closes the open section and opens its own, other non-blank lines are collected |
| BiosketchSpec.Segments | app/parser/biosketch_parser.py:108-142 | the sections in order with their lines, from no open section; stated by SectionReceivesItsLines, SegmentsAtBoundary and PreambleDiscarded |
| BiosketchSpec.ContentOf | app/parser/biosketch_parser.py:137-138 | the collected lines are non-empty and stripped |
| BiosketchSpec.SegmentsOfBody | app/parser/biosketch_parser.py:136-138 | inside a section, each non-header paragraph adds its stripped text when it is not blank |
| BiosketchSpec.SegmentsAtBoundary | app/parser/biosketch_parser.py:117-142 | a header or the end of input closes the current section before anything after it |
| BiosketchSpec.PreambleDiscarded | app/parser/biosketch_parser.py:110-137 | paragraphs before the first section header are discarded |
| BiosketchSpec.SegmentsOfHeader | app/parser/biosketch_parser.py:117-134 | a header paragraph opens its section with no lines, and belongs to no section itself |
| BiosketchSpec.SectionReceivesItsLines | app/parser/biosketch_parser.py:113-142 | a section's processor receives exactly the non-blank stripped lines between its header and the next header or the end |
| BiosketchSpec.StatementStep | app/parser/biosketch_parser.py:162-184 | one line of the section-A loop: a mode header switches the mode, other lines go to the mode's list; stated by ModeHeaderSwitches and StatementRun |
| BiosketchSpec.StatementFrom | app/parser/biosketch_parser.py:162-184 | the section-A loop over the lines in order; stated by StatementCompose and StatementRun |
| BiosketchSpec.StatementCompose | app/parser/biosketch_parser.py:162-184 | the section-A loop over two runs of lines is the loop over the first, continued over the second |
| BiosketchSpec.ModeHeaderSwitches | app/parser/biosketch_parser.py:164-173 | a mode header only switches the mode and is not kept |
| BiosketchSpec.StatementRun | app/parser/biosketch_parser.py:175-184 | lines without mode headers go to the current mode's list, and in citations mode each line yields exactly one citation, in order |
| BiosketchSpec.StatementArguments | app/parser/biosketch_parser.py:186-190 | the keywords `text` (the joined narrative), `research_support` and `citations` of the call |
| BiosketchSpec.SectionAResult | app/parser/biosketch_parser.py:186-190 | the `PersonalStatement` call on the section's buffers; SectionAAlwaysRaises states its outcome |
| BiosketchSpec.SectionAAlwaysRaises | app/parser/biosketch_parser.py:186-190 | the `PersonalStatement` call on the three lists always fails with the unexpected keyword `research_support` |
| BiosketchSpec.SectionBStep | app/parser/biosketch_parser.py:197-241 | one line of the section-B loop: the honors header switches to honors, a positions header is skipped, others may add an honor or a position; stated by HonorsModeIsFinal and PositionsModeUntilHonors |
| BiosketchSpec.SectionBFrom | app/parser/biosketch_parser.py:194-241 | the section-B loop over the lines in order; stated by SectionBCompose and SectionBSplit |
| BiosketchSpec.SectionBFromSnoc | app/parser/biosketch_parser.py:197-198 | the loop over one more line is one more step after the loop over the earlier lines |
| BiosketchSpec.SectionBCompose | app/parser/biosketch_parser.py:197-241 | the section-B loop over two runs of lines is the loop over the first, continued over the second |
| BiosketchSpec.HonorsModeIsFinal | app/parser/biosketch_parser.py:199-215 | once in honors mode, every later line adds at most an honor, in order, and positions never change |
| BiosketchSpec.PositionsModeUntilHonors | app/parser/biosketch_parser.py:197-241 | before any honors header, lines add only positions, in order |
| BiosketchSpec.SectionBSplit | app/parser/biosketch_parser.py:194-241 | before the first honors header lines yield positions; after it, honors |
| BiosketchSpec.ContributionStep | app/parser/biosketch_parser.py:252-283 | one line of the section-C loop; stated by BoundaryStartsContribution and PublishedWorkLinkSkipped |
| BiosketchSpec.ContributionFrom | app/parser/biosketch_parser.py:245-283 | the section-C loop over the lines in order; stated by ContributionBuffersNonEmpty |
| BiosketchSpec.ContributionsOf | app/parser/biosketch_parser.py:243-292 | the saved contributions, then the last buffer when it has narrative; stated by ContributionNarrativesNonEmpty |
| BiosketchSpec.BoundaryStartsContribution | app/parser/biosketch_parser.py:269-277 | a boundary saves the buffer (discarding citations that have no narrative) and starts a new narrative with itself |
| BiosketchSpec.PublishedWorkLinkSkipped | app/parser/biosketch_parser.py:254-255 | a line containing `Complete List of Published Work` changes nothing |
| BiosketchSpec.ContributionBuffersNonEmpty | app/parser/biosketch_parser.py:269-283 | over non-empty lines, every saved contribution and every narrative line is non-empty |
| BiosketchSpec.ContributionNarrativesNonEmpty | app/parser/biosketch_parser.py:252-290 | every contribution of a section has a non-empty narrative |
| BiosketchSpec.SegmentsFromLinesNonEmpty | app/parser/biosketch_parser.py:113-142 | from collected lines that are non-empty, every segment the loop emits has only non-empty lines |
| BiosketchSpec.SegmentsLinesNonEmpty | app/parser/biosketch_parser.py:136-138 | every section processor receives only non-empty lines |
| BiosketchSpec.ProcessSegment | app/parser/biosketch_parser.py:144-151 | `_process_section`: A stores its statement if the call succeeds, B appends, C replaces the contributions; stated by ProcessSegmentOutcome |
| BiosketchSpec.ProcessSegmentOutcome | app/parser/biosketch_parser.py:144-151 | processing A raises and leaves the record unchanged; B and C never raise |
| BiosketchSpec.RunSegments | app/parser/biosketch_parser.py:113-142 | the sections processed in order, the first exception ending the run; stated by RunSnoc, RunStopsAtFailure and RunOutcome |
| BiosketchSpec.RunSnoc | app/parser/biosketch_parser.py:113-142 | after sections that all passed, the next section is processed on the record they left |
| BiosketchSpec.RunStopsAtFailure | app/parser/biosketch_parser.py:59-64 | once a section raises, no later section is processed |
| BiosketchSpec.HasSectionAAppend | app/parser/biosketch_parser.py:113-142 | a list of segments has an A segment exactly when one of its parts does |
| BiosketchSpec.RunOutcome | app/parser/biosketch_parser.py:59-64 | the sections raise exactly when one of them is section A, and then with the `PersonalStatement` error |
| BiosketchSpec.SectionsKeepHeader | app/parser/biosketch_parser.py:144-292 | section processing never changes the header fields or the education list |
| BiosketchSpec.SegmentsSectionA | app/parser/biosketch_parser.py:117-142 | the segments contain an A section exactly when some paragraph is a section-A header (or one was already open) |
| BiosketchSpec.ParseDocument | app/parser/biosketch_parser.py:59-64 | `parse` on a fresh record: header, education table, then sections; stated by ParseFailsIffSectionA, ParseKeepsHeader and ParseContributionsNonEmpty |
| BiosketchSpec.ParseFailsIffSectionA | app/parser/biosketch_parser.py:59-64 | the parse fails exactly when a paragraph is a section-A header, and then with the `PersonalStatement` error |
| BiosketchSpec.ParseKeepsHeader | app/parser/biosketch_parser.py:59-64 | a successful parse returns the header fields of the header scan and the entries of the education table |
| BiosketchSpec.RunContributionsNonEmpty | app/parser/biosketch_parser.py:144-151 | sections over non-empty lines only store contributions with a non-empty narrative |
| BiosketchSpec.ParseContributionsNonEmpty | app/parser/biosketch_parser.py:59-64 | every contribution of a successful parse has a non-empty narrative |
| Biosketch.BiosketchParser.constructor | app/parser/biosketch_parser.py:40-43 | a parser over the given paragraphs and tables, with an empty record |
| Biosketch.BiosketchParser.Parse | app/parser/biosketch_parser.py:59-64 | header, education, then sections; the record and the result are those of the specification run, and a raising section becomes a Failure |
| Biosketch.BiosketchParser.ParseHeader | app/parser/biosketch_parser.py:66-87 | the record becomes the header scan of the first fifteen paragraphs |
| Biosketch.BiosketchParser.HeaderParagraph | app/parser/biosketch_parser.py:69-87 | one paragraph of the header loop: the record becomes the header step on it |
| Biosketch.BiosketchParser.ParseEducationTable | app/parser/biosketch_parser.py:89-106 | only the education list changes, and the entries of the first table are appended to it |
| Biosketch.BiosketchParser.EducationRow | app/parser/biosketch_parser.py:97-106 | one row of the table loop: only the education list changes, and it gains exactly the entry the row yields |
| Biosketch.BiosketchParser.ParseSections | app/parser/biosketch_parser.py:108-142 | the record and the outcome are those of processing the segments of the paragraphs in order, stopping at the first that raises |
| Biosketch.BiosketchParser.ProcessSection | app/parser/biosketch_parser.py:144-151 | dispatches to the section's parser, with the effect of processing that segment |
| Biosketch.BiosketchParser.ParseSectionA | app/parser/biosketch_parser.py:153-190 | the two flags `in_research_support`/`in_citations` name the mode (citations first, then research support, else narrative); the three buffers follow the section-A specification and the constructor call's outcome decides the result |
| Biosketch.BiosketchParser.ParseSectionB | app/parser/biosketch_parser.py:192-241 | only positions and honors change, and the section's positions and honors are appended in line order |
| Biosketch.BiosketchParser.ParseSectionC | app/parser/biosketch_parser.py:243-292 | only the contributions change, and they are replaced by the section's contributions |
| Biosketch.ParseBiosketch | app/parser/biosketch_parser.py:295-298 | a fresh parser's result is the specification's result for the document |

## Left out

- Reading the Word document (`BiosketchParser.__init__` loading a file, `iter_block_items`, python-docx): the model takes the paragraph texts and, for each table, the cell texts of each row. How python-docx reports merged cells is not modelled.
- `to_json` and `from_json` are thin wrappers over the `json` library. Only the dict layer (`to_dict`/`from_dict` over `Plain`) is modelled.
- Unicode regex semantics: `\d` and `[A-Z]`/`[a-z]` are ASCII only and case folding is ASCII lower-casing. The en dash of the positions pattern is a literal extra character. Whitespace follows Python's `str.isspace`.
- `NUMBERED_CITATION_PATTERN` is declared but never used by the code, so it has no model.
- Grant recognition: the code has none, so section A never produces grants.
- Models.CitationFromDict, Models.EducationFromDict, Models.PositionFromDict, Models.HonorFromDict, Models.GrantFromDict, Models.PersonalStatementFromDict, Models.ContributionFromDict, Models.BiosketchFromDict: the typed model returns `WrongType` where Python would store a value of the wrong JSON type unchecked.
- Models.NewPersonalStatement: the typed model returns `WrongType` for an argument of the wrong type, such as `text=["a"]`, which the dataclass constructor stores unchecked. Its only call fails earlier, on the undeclared `research_support`, so no reachable outcome differs.
- Biosketch.BiosketchParser: the record is a datatype value in a field that the methods reassign. The Python lists inside it are shared objects appended in place, and aliasing between them is not modelled.
- BiosketchSpec.SectionBStep: `in_positions` is always the negation of `in_honors`, so the specification keeps one flag. The method keeps both and proves that relation as a loop invariant.
