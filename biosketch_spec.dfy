/** What `BiosketchParser` computes, as functions over the paragraph texts and table cells of
    a document, and the properties of those functions. The class in biosketch_parser.dfy is
    proved to agree with them. */
module BiosketchSpec {
  import opened Wrappers
  import opened Text
  import opened Models
  import opened BiosketchPatterns
  import CitationParser

  // ---------------------------------------------------------------------------------------
  // _parse_header

  /** The three labelled header fields. */
  datatype HeaderField = NameLabel | UsernameLabel | TitleLabel

  /** The value a stripped paragraph gives a field, by that field's pattern. */
  function FieldOf(f: HeaderField, t: string): Option<string> {
    match f
    case NameLabel => NameField(t)
    case UsernameLabel => EraField(t)
    case TitleLabel => PositionTitleField(t)
  }

  function Get(d: BiosketchData, f: HeaderField): string {
    match f
    case NameLabel => d.name
    case UsernameLabel => d.eraCommonsUsername
    case TitleLabel => d.positionTitle
  }

  /** Only the first 15 paragraphs are scanned: `paragraphs[:15]`. */
  function HeaderWindow(paragraphs: seq<string>): (w: seq<string>)
    ensures |w| == if |paragraphs| < 15 then |paragraphs| else 15
    ensures w == paragraphs[..|w|]
  {
    if |paragraphs| < 15 then paragraphs else paragraphs[..15]
  }

  /** One paragraph of the header loop: NAME is tried first, then eRA COMMONS, then
      POSITION TITLE, and the first that matches sets its field. */
  function HeaderStep(d: BiosketchData, para: string): (r: BiosketchData)
  {
    var t := Strip(para);
    if t == "" then d
    else
      match NameField(t)
      case Some(n) => d.(name := n)
      case None =>
        match EraField(t)
        case Some(u) => d.(eraCommonsUsername := u)
        case None =>
          match PositionTitleField(t)
          case Some(p) => d.(positionTitle := p)
          case None => d
  }

  /** The labels exclude each other, so the order in which the patterns are tried does not
      matter: each field is set exactly when its own pattern matches. */
  lemma HeaderStepField(d: BiosketchData, para: string, f: HeaderField)
    ensures Get(HeaderStep(d, para), f) ==
            if FieldOf(f, Strip(para)).Some? then FieldOf(f, Strip(para)).value else Get(d, f)
  {
    var t := Strip(para);
    HeaderFieldsExclusive(t);
    if t == "" {
      assert NameField(t).None? && EraField(t).None? && PositionTitleField(t).None?;
    }
  }

  /** The header loop over the paragraphs ps, one step per paragraph in order. */
  function HeaderScan(d: BiosketchData, ps: seq<string>): (r: BiosketchData)
    decreases |ps|
  {
    if ps == [] then d else HeaderStep(HeaderScan(d, ps[..|ps| - 1]), ps[|ps| - 1])
  }

  /** A header step touches the three header fields and nothing else. */
  lemma HeaderStepFrame(d: BiosketchData, para: string)
    ensures var r := HeaderStep(d, para);
            r == d.(name := r.name, eraCommonsUsername := r.eraCommonsUsername, positionTitle := r.positionTitle)
  {
  }

  /** Nor does the whole header scan. */
  lemma {:induction false} HeaderScanFrame(d: BiosketchData, ps: seq<string>)
    ensures var r := HeaderScan(d, ps);
            r == d.(name := r.name, eraCommonsUsername := r.eraCommonsUsername, positionTitle := r.positionTitle)
    decreases |ps|
  {
    if ps != [] {
      HeaderScanFrame(d, ps[..|ps| - 1]);
      HeaderStepFrame(HeaderScan(d, ps[..|ps| - 1]), ps[|ps| - 1]);
    }
  }

  /** One more paragraph is one more step. */
  lemma HeaderScanSnoc(d: BiosketchData, ps: seq<string>, i: nat)
    requires i < |ps|
    ensures HeaderScan(d, ps[..i + 1]) == HeaderStep(HeaderScan(d, ps[..i]), ps[i])
  {
    assert ps[..i + 1][..i] == ps[..i];
  }

  /** The last paragraph of a scan sets a field exactly when that field's pattern matches it;
      otherwise the field is what the scan before it left. */
  lemma HeaderScanLast(d: BiosketchData, ps: seq<string>, f: HeaderField)
    requires ps != []
    ensures Get(HeaderScan(d, ps), f) ==
            if FieldOf(f, Strip(ps[|ps| - 1])).Some? then FieldOf(f, Strip(ps[|ps| - 1])).value
            else Get(HeaderScan(d, ps[..|ps| - 1]), f)
  {
    HeaderStepField(HeaderScan(d, ps[..|ps| - 1]), ps[|ps| - 1], f);
  }

  /** Later matches overwrite earlier ones: a field holds the stripped capture of the last
      paragraph whose pattern for that field matches. */
  lemma {:induction false} HeaderLastMatchWins(d: BiosketchData, ps: seq<string>, f: HeaderField, k: nat)
    requires k < |ps| && FieldOf(f, Strip(ps[k])).Some?
    requires forall j :: k < j < |ps| ==> FieldOf(f, Strip(ps[j])).None?
    ensures Get(HeaderScan(d, ps), f) == FieldOf(f, Strip(ps[k])).value
    decreases |ps|
  {
    var init := ps[..|ps| - 1];
    HeaderScanLast(d, ps, f);
    if k < |ps| - 1 {
      assert init[k] == ps[k];
      forall j | k < j < |init| ensures FieldOf(f, Strip(init[j])).None? {
        assert init[j] == ps[j];
      }
      HeaderLastMatchWins(d, init, f, k);
    }
  }

  /** A field no paragraph matches keeps its value ("" for a fresh record). */
  lemma {:induction false} HeaderUnmatchedUnchanged(d: BiosketchData, ps: seq<string>, f: HeaderField)
    requires forall j :: 0 <= j < |ps| ==> FieldOf(f, Strip(ps[j])).None?
    ensures Get(HeaderScan(d, ps), f) == Get(d, f)
    decreases |ps|
  {
    if ps != [] {
      var init := ps[..|ps| - 1];
      HeaderScanLast(d, ps, f);
      forall j | 0 <= j < |init| ensures FieldOf(f, Strip(init[j])).None? {
        assert init[j] == ps[j];
      }
      HeaderUnmatchedUnchanged(d, init, f);
    }
  }

  /** Paragraphs after the fifteenth never affect the header. */
  lemma HeaderIgnoresLaterParagraphs(ps: seq<string>, more: seq<string>)
    requires |ps| >= 15
    ensures HeaderWindow(ps + more) == HeaderWindow(ps)
  {
    assert (ps + more)[..15] == ps[..15];
  }

  // ---------------------------------------------------------------------------------------
  // _parse_education_table

  /** `[cell.text.strip() for cell in row.cells]` */
  function StripCells(row: seq<string>): seq<string>
  {
    seq(|row|, j requires 0 <= j < |row| => Strip(row[j]))
  }

  /** A row is kept when it has at least four cells and a non-empty first cell. */
  predicate KeepsRow(cells: seq<string>) {
    |cells| >= 4 && cells[0] != ""
  }

  /** The entry a row yields: its stripped cells 0 to 3, by position. */
  function RowEntry(row: seq<string>): seq<Education> {
    var cells := StripCells(row);
    if KeepsRow(cells) then [Education(cells[0], cells[1], cells[2], cells[3])] else []
  }

  /** The entries of the data rows, in row order. */
  function EducationRows(rows: seq<seq<string>>): seq<Education>
    decreases |rows|
  {
    if rows == [] then [] else EducationRows(rows[..|rows| - 1]) + RowEntry(rows[|rows| - 1])
  }

  /** One more row adds the entry of that row. */
  lemma EducationRowsSnoc(rows: seq<seq<string>>, i: nat)
    requires i < |rows|
    ensures EducationRows(rows[..i + 1]) == EducationRows(rows[..i]) + RowEntry(rows[i])
  {
    assert rows[..i + 1][..i] == rows[..i];
  }

  /** The entries of the first table, skipping its header row; none without a table. */
  function EducationOf(tables: seq<seq<seq<string>>>): seq<Education>
  {
    if tables == [] || tables[0] == [] then [] else EducationRows(tables[0][1..])
  }

  lemma {:induction false} EducationRowsAppend(a: seq<seq<string>>, b: seq<seq<string>>)
    ensures EducationRows(a + b) == EducationRows(a) + EducationRows(b)
    decreases |b|
  {
    if b == [] {
      assert a + b == a;
    } else {
      var init := b[..|b| - 1];
      assert (a + b)[..|a + b| - 1] == a + init;
      assert (a + b)[|a + b| - 1] == b[|b| - 1];
      EducationRowsAppend(a, init);
      CitationParser.AppendAssoc(EducationRows(a), EducationRows(init), RowEntry(b[|b| - 1]));
    }
  }

  /** Every row contributes, in place, exactly the entry it yields by itself: the rows with
      at least four cells and a non-empty first cell, mapped positionally, in row order. */
  lemma EducationRowFilter(a: seq<seq<string>>, row: seq<string>, b: seq<seq<string>>)
    ensures EducationRows(a + [row] + b) ==
            EducationRows(a) +
            (if |row| >= 4 && Strip(row[0]) != ""
             then [Education(Strip(row[0]), Strip(row[1]), Strip(row[2]), Strip(row[3]))]
             else []) +
            EducationRows(b)
  {
    EducationRowsAppend(a + [row], b);
    EducationRowsAppend(a, [row]);
    assert [row][..0] == [];
  }

  // ---------------------------------------------------------------------------------------
  // _parse_sections

  /** A section of the document with the lines collected for it. */
  datatype Segment = Segment(section: Section, lines: seq<string>)

  /** The section being collected, if there is one, closed into a segment. */
  function Close(current: Option<Section>, content: seq<string>): seq<Segment>
  {
    if current.None? then [] else [Segment(current.value, content)]
  }

  /** The loop of `_parse_sections` from paragraph list ps on, with the section being
      collected, its lines so far and the segments already closed: a header line closes the
      current section and opens its own; any other non-blank stripped line is collected
      when a section is open. The last section is closed at the end. */
  function SegmentsFrom(ps: seq<string>, current: Option<Section>, content: seq<string>, done: seq<Segment>): seq<Segment>
    decreases |ps|
  {
    if ps == [] then done + Close(current, content)
    else
      var t := Strip(ps[0]);
      match HeaderSection(t)
      case Some(s) => SegmentsFrom(ps[1..], Some(s), [], done + Close(current, content))
      case None => SegmentsFrom(ps[1..], current, if current.Some? && t != "" then content + [t] else content, done)
  }

  /** The sections of a document in order, each with the lines its processor receives. */
  function Segments(ps: seq<string>): seq<Segment> {
    SegmentsFrom(ps, None, [], [])
  }

  predicate IsHeaderParagraph(p: string) {
    HeaderSection(Strip(p)).Some?
  }

  /** The non-blank paragraphs of ps, stripped, in order. */
  function ContentOf(ps: seq<string>): (lines: seq<string>)
    ensures forall k :: 0 <= k < |lines| ==> lines[k] != "" && IsStripped(lines[k])
    decreases |ps|
  {
    if ps == [] then [] else (if Strip(ps[0]) != "" then [Strip(ps[0])] else []) + ContentOf(ps[1..])
  }

  lemma {:induction false} SegmentsKeepDone(ps: seq<string>, current: Option<Section>, content: seq<string>, done: seq<Segment>)
    ensures SegmentsFrom(ps, current, content, done) == done + SegmentsFrom(ps, current, content, [])
    decreases |ps|
  {
    if ps == [] {
    } else {
      var t := Strip(ps[0]);
      match HeaderSection(t)
      case Some(s) =>
        SegmentsKeepDone(ps[1..], Some(s), [], done + Close(current, content));
        SegmentsKeepDone(ps[1..], Some(s), [], [] + Close(current, content));
        assert [] + Close(current, content) == Close(current, content);
        CitationParser.AppendAssoc(done, Close(current, content), SegmentsFrom(ps[1..], Some(s), [], []));
      case None =>
        var content' := if current.Some? && t != "" then content + [t] else content;
        SegmentsKeepDone(ps[1..], current, content', done);
        SegmentsKeepDone(ps[1..], current, content', []);
    }
  }

  /** Inside a section, paragraphs that are not headers only add their non-blank stripped
      texts to the section's lines. */
  lemma {:induction false} SegmentsOfBody(body: seq<string>, rest: seq<string>, s: Section, content: seq<string>, done: seq<Segment>)
    requires forall k :: 0 <= k < |body| ==> !IsHeaderParagraph(body[k])
    ensures SegmentsFrom(body + rest, Some(s), content, done) == SegmentsFrom(rest, Some(s), content + ContentOf(body), done)
    decreases |body|
  {
    if body == [] {
      assert body + rest == rest;
      assert content + ContentOf(body) == content;
    } else {
      assert (body + rest)[0] == body[0];
      assert (body + rest)[1..] == body[1..] + rest;
      assert !IsHeaderParagraph(body[0]);
      var t := Strip(body[0]);
      var single := if t != "" then [t] else [];
      var content' := if t != "" then content + [t] else content;
      assert content' == content + single;
      SegmentsOfBody(body[1..], rest, s, content', done);
      CitationParser.AppendAssoc(content, single, ContentOf(body[1..]));
    }
  }

  /** At a header or at the end, the open section is closed and collection starts afresh. */
  lemma SegmentsAtBoundary(rest: seq<string>, current: Option<Section>, content: seq<string>, done: seq<Segment>)
    requires rest == [] || IsHeaderParagraph(rest[0])
    ensures SegmentsFrom(rest, current, content, done) == done + Close(current, content) + Segments(rest)
  {
    if rest != [] {
      var s := HeaderSection(Strip(rest[0])).value;
      SegmentsKeepDone(rest[1..], Some(s), [], done + Close(current, content));
      assert [] + Close(None, []) == [];
    }
  }

  /** Lines before the first header belong to no section. */
  lemma {:induction false} PreambleDiscarded(pre: seq<string>, rest: seq<string>)
    requires forall k :: 0 <= k < |pre| ==> !IsHeaderParagraph(pre[k])
    ensures Segments(pre + rest) == Segments(rest)
    decreases |pre|
  {
    if pre == [] {
      assert pre + rest == rest;
    } else {
      assert (pre + rest)[0] == pre[0];
      assert (pre + rest)[1..] == pre[1..] + rest;
      assert !IsHeaderParagraph(pre[0]);
      PreambleDiscarded(pre[1..], rest);
    }
  }

  /** A header paragraph opens its section with no lines yet. */
  lemma SegmentsOfHeader(h: string, tail: seq<string>, s: Section)
    requires HeaderSection(Strip(h)) == Some(s)
    ensures Segments([h] + tail) == SegmentsFrom(tail, Some(s), [], [])
  {
    var ps := [h] + tail;
    assert ps[0] == h && ps[1..] == tail;
    assert [] + Close(None, []) == [];
    assert Segments(ps) == SegmentsFrom(ps[1..], Some(s), [], [] + Close(None, []));
  }

  /** An open section collects the body and is closed at the boundary that follows. */
  lemma SectionBodyCloses(body: seq<string>, rest: seq<string>, s: Section)
    requires forall k :: 0 <= k < |body| ==> !IsHeaderParagraph(body[k])
    requires rest == [] || IsHeaderParagraph(rest[0])
    ensures SegmentsFrom(body + rest, Some(s), [], []) == [Segment(s, ContentOf(body))] + Segments(rest)
  {
    var lines := ContentOf(body);
    SegmentsOfBody(body, rest, s, [], []);
    assert [] + lines == lines;
    SegmentsAtBoundary(rest, Some(s), lines, []);
    assert [] + Close(Some(s), lines) == [Segment(s, lines)];
  }

  /** Dispatch: a section's processor receives exactly the non-blank stripped lines between
      its header and the next header (or the end of the document). */
  lemma SectionReceivesItsLines(h: string, body: seq<string>, rest: seq<string>)
    requires IsHeaderParagraph(h)
    requires forall k :: 0 <= k < |body| ==> !IsHeaderParagraph(body[k])
    requires rest == [] || IsHeaderParagraph(rest[0])
    ensures Segments([h] + body + rest) ==
            [Segment(HeaderSection(Strip(h)).value, ContentOf(body))] + Segments(rest)
  {
    var s := HeaderSection(Strip(h)).value;
    CitationParser.AppendAssoc([h], body, rest);
    SegmentsOfHeader(h, body + rest, s);
    SectionBodyCloses(body, rest, s);
  }

  // ---------------------------------------------------------------------------------------
  // _parse_section_a

  /** Which list a non-header line of section A goes to; the source keeps the two flags
      `in_research_support` and `in_citations`, never both set. */
  datatype StatementMode = NarrativeMode | SupportMode | CitationsMode

  datatype StatementBuffers = StatementBuffers(
    mode: StatementMode,
    text: seq<string>,
    support: seq<string>,
    citations: seq<Citation>)

  const NoStatement := StatementBuffers(NarrativeMode, [], [], [])

  predicate IsModeHeader(line: string) {
    IsResearchSupportHeader(line) || IsCitationsHeader(line)
  }

  /** One line of the section-A loop. */
  function StatementStep(b: StatementBuffers, line: string): StatementBuffers {
    if IsResearchSupportHeader(line) then b.(mode := SupportMode)
    else if IsCitationsHeader(line) then b.(mode := CitationsMode)
    else
      match b.mode
      case CitationsMode => b.(citations := b.citations + [CitationParser.ParseCitation(line)])
      case SupportMode => b.(support := b.support + [line])
      case NarrativeMode => b.(text := b.text + [line])
  }

  function StatementFrom(b: StatementBuffers, lines: seq<string>): StatementBuffers
    decreases |lines|
  {
    if lines == [] then b else StatementStep(StatementFrom(b, lines[..|lines| - 1]), lines[|lines| - 1])
  }

  /** f applied to every element. */
  function Map<A, B>(f: A -> B, xs: seq<A>): (ys: seq<B>)
    ensures |ys| == |xs|
    ensures forall k :: 0 <= k < |xs| ==> ys[k] == f(xs[k])
  {
    seq(|xs|, k requires 0 <= k < |xs| => f(xs[k]))
  }

  lemma MapSnoc<A, B>(f: A -> B, init: seq<A>, last: A)
    ensures Map(f, init + [last]) == Map(f, init) + [f(last)]
  {
    var xs := init + [last];
    assert forall k :: 0 <= k < |init| ==> xs[k] == init[k];
  }

  /** `parse_citation` applied to every line. */
  function ParseAll(lines: seq<string>): seq<Citation>
  {
    Map(CitationParser.ParseCitation, lines)
  }

  /** The buffers after lines free of mode headers were added to the list of the mode. */
  function Extend(b: StatementBuffers, lines: seq<string>): StatementBuffers {
    match b.mode
    case NarrativeMode => b.(text := b.text + lines)
    case SupportMode => b.(support := b.support + lines)
    case CitationsMode => b.(citations := b.citations + ParseAll(lines))
  }

  lemma {:induction false} StatementCompose(b: StatementBuffers, a: seq<string>, c: seq<string>)
    ensures StatementFrom(b, a + c) == StatementFrom(StatementFrom(b, a), c)
    decreases |c|
  {
    if c == [] {
      assert a + c == a;
    } else {
      assert (a + c)[..|a + c| - 1] == a + c[..|c| - 1];
      assert (a + c)[|a + c| - 1] == c[|c| - 1];
      StatementCompose(b, a, c[..|c| - 1]);
    }
  }

  /** A mode header is consumed: it switches the mode and is kept in no list. */
  lemma ModeHeaderSwitches(b: StatementBuffers, line: string)
    ensures IsResearchSupportHeader(line) ==> StatementStep(b, line) == b.(mode := SupportMode)
    ensures IsCitationsHeader(line) ==> StatementStep(b, line) == b.(mode := CitationsMode)
  {
    ModeHeadersExclusive(line);
  }

  /** Between mode headers every line goes, unchanged, to the list of the current mode;
      in citations mode each line becomes exactly one citation, in order. */
  lemma {:induction false} StatementRun(b: StatementBuffers, lines: seq<string>)
    requires forall k :: 0 <= k < |lines| ==> !IsModeHeader(lines[k])
    ensures StatementFrom(b, lines) == Extend(b, lines)
    decreases |lines|
  {
    if lines == [] {
      assert b.text + lines == b.text && b.support + lines == b.support;
      assert b.citations + ParseAll(lines) == b.citations;
    } else {
      var init, last := lines[..|lines| - 1], lines[|lines| - 1];
      assert lines == init + [last];
      assert !IsModeHeader(last);
      StatementRun(b, init);
      match b.mode
      case NarrativeMode =>
        CitationParser.AppendAssoc(b.text, init, [last]);
      case SupportMode =>
        CitationParser.AppendAssoc(b.support, init, [last]);
      case CitationsMode =>
        MapSnoc(CitationParser.ParseCitation, init, last);
        CitationParser.AppendAssoc(b.citations, ParseAll(init), [CitationParser.ParseCitation(last)]);
    }
  }

  /** The keyword arguments `_parse_section_a` passes to `PersonalStatement(...)`. */
  function StatementArguments(b: StatementBuffers): map<string, Argument> {
    map["text" := TextArg(Join(b.text, " ")),
        "research_support" := LinesArg(b.support),
        "citations" := CitationsArg(b.citations)]
  }

  /** `research_support` is not a field of `PersonalStatement`. */
  const StatementError: ModelError := UnexpectedKeywords({"research_support"})

  /** What `_parse_section_a` ends with: the constructor call on the three lists. */
  function SectionAResult(lines: seq<string>): Result<PersonalStatement, ModelError> {
    NewPersonalStatement(StatementArguments(StatementFrom(NoStatement, lines)))
  }

  /** The constructor call always raises, whatever the section holds, so no personal
      statement is ever stored. */
  lemma SectionAAlwaysRaises(lines: seq<string>)
    ensures SectionAResult(lines) == Failure(StatementError)
  {
    var kwargs := StatementArguments(StatementFrom(NoStatement, lines));
    assert kwargs.Keys == {"text", "research_support", "citations"};
    assert kwargs.Keys - PersonalStatementFields == {"research_support"};
  }

  // ---------------------------------------------------------------------------------------
  // _parse_section_b

  /** The mode of the section-B loop and what it has appended. The source keeps the two
      flags `in_positions` and `in_honors`, always opposite; inHonors stands for both. */
  datatype SectionBState = SectionBState(inHonors: bool, positions: seq<Position>, honors: seq<Honor>)

  const PositionsMode := SectionBState(false, [], [])

  /** One line of the section-B loop. */
  function SectionBStep(st: SectionBState, line: string): SectionBState {
    if IsHonorsHeader(line) then st.(inHonors := true)
    else if IsPositionsHeader(line) then st
    else if st.inHonors then
      match HonorEntry(line)
      case Some(h) => st.(honors := st.honors + [h])
      case None => st
    else
      match PositionEntry(line)
      case Some(p) => st.(positions := st.positions + [p])
      case None => st
  }

  function SectionBFrom(st: SectionBState, lines: seq<string>): SectionBState
    decreases |lines|
  {
    if lines == [] then st else SectionBStep(SectionBFrom(st, lines[..|lines| - 1]), lines[|lines| - 1])
  }

  /** One more line is one more step. */
  lemma SectionBFromSnoc(st: SectionBState, lines: seq<string>, i: nat)
    requires i < |lines|
    ensures SectionBFrom(st, lines[..i + 1]) == SectionBStep(SectionBFrom(st, lines[..i]), lines[i])
  {
    assert lines[..i + 1][..i] == lines[..i];
  }

  /** The honor entries among lines, in order. */
  function HonorsOf(lines: seq<string>): seq<Honor>
    decreases |lines|
  {
    if lines == [] then []
    else
      HonorsOf(lines[..|lines| - 1]) +
      match HonorEntry(lines[|lines| - 1]) case Some(h) => [h] case None => []
  }

  /** The position entries among lines, in order. */
  function PositionsOf(lines: seq<string>): seq<Position>
    decreases |lines|
  {
    if lines == [] then []
    else
      PositionsOf(lines[..|lines| - 1]) +
      match PositionEntry(lines[|lines| - 1]) case Some(p) => [p] case None => []
  }

  lemma {:induction false} SectionBCompose(st: SectionBState, a: seq<string>, c: seq<string>)
    ensures SectionBFrom(st, a + c) == SectionBFrom(SectionBFrom(st, a), c)
    decreases |c|
  {
    if c == [] {
      assert a + c == a;
    } else {
      assert (a + c)[..|a + c| - 1] == a + c[..|c| - 1];
      assert (a + c)[|a + c| - 1] == c[|c| - 1];
      SectionBCompose(st, a, c[..|c| - 1]);
    }
  }

  /** Honors mode is permanent: from then on no position is added, and the honors are the
      lines that read as honor entries, in order; headers and other lines are dropped. */
  lemma {:induction false} HonorsModeIsFinal(st: SectionBState, lines: seq<string>)
    requires st.inHonors
    ensures SectionBFrom(st, lines) == st.(honors := st.honors + HonorsOf(lines))
    decreases |lines|
  {
    if lines == [] {
      assert st.honors + HonorsOf(lines) == st.honors;
    } else {
      var init, last := lines[..|lines| - 1], lines[|lines| - 1];
      HonorsModeIsFinal(st, init);
      if IsHonorsHeader(last) || IsPositionsHeader(last) {
        SectionBHeadersAreNotEntries(last);
      }
      var h := match HonorEntry(last) case Some(x) => [x] case None => [];
      CitationParser.AppendAssoc(st.honors, HonorsOf(init), h);
    }
  }

  /** Until an `Honors` line, the positions are the lines that read as position entries, in
      order; sub-headers and other lines are dropped and no honor is added. */
  lemma {:induction false} PositionsModeUntilHonors(st: SectionBState, lines: seq<string>)
    requires !st.inHonors
    requires forall k :: 0 <= k < |lines| ==> !IsHonorsHeader(lines[k])
    ensures SectionBFrom(st, lines) == st.(positions := st.positions + PositionsOf(lines))
    decreases |lines|
  {
    if lines == [] {
      assert st.positions + PositionsOf(lines) == st.positions;
    } else {
      var init, last := lines[..|lines| - 1], lines[|lines| - 1];
      assert !IsHonorsHeader(last);
      forall k | 0 <= k < |init| ensures !IsHonorsHeader(init[k]) {
        assert init[k] == lines[k];
      }
      PositionsModeUntilHonors(st, init);
      if IsPositionsHeader(last) {
        SectionBHeadersAreNotEntries(last);
      }
      var p := match PositionEntry(last) case Some(x) => [x] case None => [];
      CitationParser.AppendAssoc(st.positions, PositionsOf(init), p);
    }
  }

  /** Section B in full: the positions before the first `Honors` line and the honors after
      it. */
  lemma SectionBSplit(a: seq<string>, h: string, c: seq<string>)
    requires forall k :: 0 <= k < |a| ==> !IsHonorsHeader(a[k])
    requires IsHonorsHeader(h)
    ensures SectionBFrom(PositionsMode, a + [h] + c) == SectionBState(true, PositionsOf(a), HonorsOf(c))
  {
    SectionBCompose(PositionsMode, a + [h], c);
    SectionBCompose(PositionsMode, a, [h]);
    PositionsModeUntilHonors(PositionsMode, a);
    assert [h][..0] == [];
    var st := SectionBFrom(PositionsMode, a + [h]);
    assert st == SectionBState(true, PositionsOf(a), []);
    HonorsModeIsFinal(st, c);
  }

  // ---------------------------------------------------------------------------------------
  // _parse_section_c

  /** The contributions saved so far and the two buffers of the section-C loop. */
  datatype ContributionBuffers = ContributionBuffers(
    done: seq<Contribution>,
    narrative: seq<string>,
    citations: seq<Citation>)

  const NoContributions := ContributionBuffers([], [], [])

  /** The contribution the buffers hold: saved only when the narrative is non-empty. */
  function Flushed(b: ContributionBuffers): seq<Contribution>
  {
    if b.narrative != [] then [Contribution(Join(b.narrative, " "), b.citations)] else []
  }

  /** One line of the section-C loop. */
  function ContributionStep(b: ContributionBuffers, line: string): ContributionBuffers {
    if IsPublishedWorkLink(line) then b
    else if IsContributionBoundary(line) && (b.narrative != [] || b.citations != []) then
      ContributionBuffers(b.done + Flushed(b), [line], [])
    else if CitationParser.IsCitationLine(line) then
      b.(citations := b.citations + [CitationParser.ParseCitation(line)])
    else
      b.(narrative := b.narrative + [line])
  }

  function ContributionFrom(b: ContributionBuffers, lines: seq<string>): ContributionBuffers
    decreases |lines|
  {
    if lines == [] then b else ContributionStep(ContributionFrom(b, lines[..|lines| - 1]), lines[|lines| - 1])
  }

  /** The contributions of section C: those saved in the loop, then the last one. */
  function ContributionsOf(lines: seq<string>): seq<Contribution> {
    var b := ContributionFrom(NoContributions, lines);
    b.done + Flushed(b)
  }

  /** A boundary always starts the new narrative buffer with itself and empties the citation
      buffer; what was buffered is saved only if it had a narrative, so citations buffered
      without one are discarded. */
  lemma BoundaryStartsContribution(b: ContributionBuffers, line: string)
    requires !IsPublishedWorkLink(line) && IsContributionBoundary(line)
    ensures ContributionStep(b, line) == ContributionBuffers(b.done + Flushed(b), [line], [])
  {
    if b.narrative == [] && b.citations == [] {
      assert b.done + Flushed(b) == b.done;
      assert b.narrative + [line] == [line];
    }
  }

  /** The link to the complete list of published work changes nothing. */
  lemma PublishedWorkLinkSkipped(b: ContributionBuffers, line: string)
    requires IsPublishedWorkLink(line)
    ensures ContributionStep(b, line) == b
  {
  }

  predicate NonEmptyNarratives(cs: seq<Contribution>) {
    forall k :: 0 <= k < |cs| ==> cs[k].narrative != ""
  }

  predicate NonEmptyLines(lines: seq<string>) {
    forall k :: 0 <= k < |lines| ==> lines[k] != ""
  }

  /** A narrative built from non-empty lines is non-empty. */
  lemma FlushedNonEmpty(b: ContributionBuffers)
    requires NonEmptyLines(b.narrative)
    ensures NonEmptyNarratives(Flushed(b))
  {
    if b.narrative != [] {
      JoinStartsWithFirst(b.narrative, " ");
    }
  }

  lemma {:induction false} ContributionBuffersNonEmpty(lines: seq<string>)
    requires NonEmptyLines(lines)
    ensures NonEmptyNarratives(ContributionFrom(NoContributions, lines).done)
    ensures NonEmptyLines(ContributionFrom(NoContributions, lines).narrative)
    decreases |lines|
  {
    if lines != [] {
      var init, last := lines[..|lines| - 1], lines[|lines| - 1];
      assert last == lines[|lines| - 1];
      forall k | 0 <= k < |init| ensures init[k] != "" {
        assert init[k] == lines[k];
      }
      ContributionBuffersNonEmpty(init);
      var b := ContributionFrom(NoContributions, init);
      FlushedNonEmpty(b);
    }
  }

  /** Every saved contribution has a non-empty narrative (section lines are never blank). */
  lemma ContributionNarrativesNonEmpty(lines: seq<string>)
    requires NonEmptyLines(lines)
    ensures NonEmptyNarratives(ContributionsOf(lines))
  {
    ContributionBuffersNonEmpty(lines);
    FlushedNonEmpty(ContributionFrom(NoContributions, lines));
  }

  /** Every segment's lines are non-empty. */
  predicate SegmentLinesNonEmpty(segs: seq<Segment>) {
    forall k :: 0 <= k < |segs| ==> NonEmptyLines(segs[k].lines)
  }

  /** `_parse_sections` hands every processor only non-empty lines, since blank paragraphs
      are never collected. */
  lemma {:induction false} SegmentsFromLinesNonEmpty(ps: seq<string>, current: Option<Section>, content: seq<string>, done: seq<Segment>)
    requires NonEmptyLines(content) && SegmentLinesNonEmpty(done)
    ensures SegmentLinesNonEmpty(SegmentsFrom(ps, current, content, done))
    decreases |ps|
  {
    var closed := done + Close(current, content);
    forall k | 0 <= k < |closed| ensures NonEmptyLines(closed[k].lines) {
      if k < |done| { assert closed[k] == done[k]; }
    }
    if ps != [] {
      var t := Strip(ps[0]);
      match HeaderSection(t)
      case Some(s) =>
        SegmentsFromLinesNonEmpty(ps[1..], Some(s), [], closed);
      case None =>
        var content' := if current.Some? && t != "" then content + [t] else content;
        forall k | 0 <= k < |content'| ensures content'[k] != "" {
          if k < |content| { assert content'[k] == content[k]; }
        }
        SegmentsFromLinesNonEmpty(ps[1..], current, content', done);
    }
  }

  lemma SegmentsLinesNonEmpty(ps: seq<string>)
    ensures SegmentLinesNonEmpty(Segments(ps))
  {
    SegmentsFromLinesNonEmpty(ps, None, [], []);
  }

  // ---------------------------------------------------------------------------------------
  // _process_section and parse

  /** The record so far and whether the last step raised. */
  datatype Run = Run(data: BiosketchData, outcome: Outcome<ModelError>)

  /** `_process_section`: section A builds its statement and stores it if the constructor
      succeeds; B appends its positions and honors; C replaces the contributions. */
  function ProcessSegment(d: BiosketchData, seg: Segment): Run {
    match seg.section
    case SectionA =>
      (match SectionAResult(seg.lines)
       case Failure(e) => Run(d, Fail(e))
       case Success(statement) => Run(d.(personalStatement := Some(statement)), Pass))
    case SectionB =>
      var b := SectionBFrom(PositionsMode, seg.lines);
      Run(d.(positions := d.positions + b.positions, honors := d.honors + b.honors), Pass)
    case SectionC =>
      Run(d.(contributions := ContributionsOf(seg.lines)), Pass)
  }

  /** Processing a section-A segment raises and leaves the record as it was; the other
      sections never raise. */
  lemma ProcessSegmentOutcome(d: BiosketchData, seg: Segment)
    ensures seg.section == SectionA ==> ProcessSegment(d, seg) == Run(d, Fail(StatementError))
    ensures seg.section != SectionA ==> ProcessSegment(d, seg).outcome == Pass
  {
    SectionAAlwaysRaises(seg.lines);
  }

  /** The segments processed in order; the first exception ends the run. */
  function RunSegments(d: BiosketchData, segs: seq<Segment>): Run
    decreases |segs|
  {
    if segs == [] then Run(d, Pass)
    else
      var prev := RunSegments(d, segs[..|segs| - 1]);
      if prev.outcome.Fail? then prev else ProcessSegment(prev.data, segs[|segs| - 1])
  }

  /** Until a segment raises, each segment is processed on the record the earlier ones left. */
  lemma RunSnoc(d: BiosketchData, done: seq<Segment>, seg: Segment)
    requires RunSegments(d, done).outcome == Pass
    ensures RunSegments(d, done + [seg]) == ProcessSegment(RunSegments(d, done).data, seg)
  {
    assert (done + [seg])[..|done|] == done;
  }

  /** Once a segment has raised, later segments are never processed. */
  lemma {:induction false} RunStopsAtFailure(d: BiosketchData, done: seq<Segment>, more: seq<Segment>)
    requires RunSegments(d, done).outcome.Fail?
    ensures RunSegments(d, done + more) == RunSegments(d, done)
    decreases |more|
  {
    if more == [] {
      assert done + more == done;
    } else {
      assert (done + more)[..|done + more| - 1] == done + more[..|more| - 1];
      RunStopsAtFailure(d, done, more[..|more| - 1]);
    }
  }

  predicate HasSectionA(segs: seq<Segment>) {
    exists k :: 0 <= k < |segs| && segs[k].section == SectionA
  }

  lemma HasSectionAAppend(a: seq<Segment>, b: seq<Segment>)
    ensures HasSectionA(a + b) <==> HasSectionA(a) || HasSectionA(b)
  {
    var ab := a + b;
    if HasSectionA(ab) {
      var k :| 0 <= k < |ab| && ab[k].section == SectionA;
      if k >= |a| { assert b[k - |a|] == ab[k]; }
    }
    if HasSectionA(a) {
      var k :| 0 <= k < |a| && a[k].section == SectionA;
      assert ab[k] == a[k];
    }
    if HasSectionA(b) {
      var k :| 0 <= k < |b| && b[k].section == SectionA;
      assert ab[|a| + k] == b[k];
    }
  }

  /** A run raises exactly when there is a section-A segment, and then with the error of the
      `PersonalStatement` call. */
  lemma {:induction false} RunOutcome(d: BiosketchData, segs: seq<Segment>)
    ensures RunSegments(d, segs).outcome == if HasSectionA(segs) then Fail(StatementError) else Pass
    decreases |segs|
  {
    if segs != [] {
      var init, last := segs[..|segs| - 1], segs[|segs| - 1];
      assert segs == init + [last];
      HasSectionAAppend(init, [last]);
      RunOutcome(d, init);
      ProcessSegmentOutcome(RunSegments(d, init).data, last);
      assert HasSectionA([last]) <==> last.section == SectionA;
    }
  }

  /** Sections never change the header fields or the education entries. */
  lemma {:induction false} SectionsKeepHeader(d: BiosketchData, segs: seq<Segment>)
    ensures RunSegments(d, segs).data.name == d.name
    ensures RunSegments(d, segs).data.eraCommonsUsername == d.eraCommonsUsername
    ensures RunSegments(d, segs).data.positionTitle == d.positionTitle
    ensures RunSegments(d, segs).data.education == d.education
    decreases |segs|
  {
    if segs != [] {
      SectionsKeepHeader(d, segs[..|segs| - 1]);
    }
  }

  predicate HasHeaderA(ps: seq<string>) {
    exists i :: 0 <= i < |ps| && IsSectionAHeader(Strip(ps[i]))
  }

  lemma HasHeaderAUncons(ps: seq<string>)
    requires ps != []
    ensures HasHeaderA(ps) <==> IsSectionAHeader(Strip(ps[0])) || HasHeaderA(ps[1..])
  {
    if HasHeaderA(ps) {
      var i :| 0 <= i < |ps| && IsSectionAHeader(Strip(ps[i]));
      if i > 0 { assert ps[1..][i - 1] == ps[i]; }
    }
    if HasHeaderA(ps[1..]) {
      var i :| 0 <= i < |ps[1..]| && IsSectionAHeader(Strip(ps[1..][i]));
      assert ps[i + 1] == ps[1..][i];
    }
  }

  /** The segments hold a section-A segment exactly when a paragraph is a section-A header
      (or one was already closed or open). */
  lemma {:induction false} SegmentsSectionA(ps: seq<string>, current: Option<Section>, content: seq<string>, done: seq<Segment>)
    ensures HasSectionA(SegmentsFrom(ps, current, content, done)) <==>
            HasSectionA(done) || current == Some(SectionA) || HasHeaderA(ps)
    decreases |ps|
  {
    HasSectionAAppend(done, Close(current, content));
    if current.Some? {
      assert Close(current, content)[0].section == current.value;
    }
    assert HasSectionA(Close(current, content)) <==> current == Some(SectionA);
    if ps != [] {
      var t := Strip(ps[0]);
      HasHeaderAUncons(ps);
      match HeaderSection(t)
      case Some(s) =>
        SegmentsSectionA(ps[1..], Some(s), [], done + Close(current, content));
      case None =>
        var content' := if current.Some? && t != "" then content + [t] else content;
        SegmentsSectionA(ps[1..], current, content', done);
    }
  }

  /** `parse` from a record d: the header, then the education table, then the sections. */
  function ParseRun(d: BiosketchData, paragraphs: seq<string>, tables: seq<seq<seq<string>>>): Run {
    var withHeader := HeaderScan(d, HeaderWindow(paragraphs));
    var withEducation := withHeader.(education := withHeader.education + EducationOf(tables));
    RunSegments(withEducation, Segments(paragraphs))
  }

  /** The record `parse` returns, or the exception it raises. */
  function ResultOf(run: Run): Result<BiosketchData, ModelError> {
    match run.outcome
    case Pass => Success(run.data)
    case Fail(e) => Failure(e)
  }

  /** `parse_biosketch` on a document's paragraph texts and table cells. */
  function ParseDocument(paragraphs: seq<string>, tables: seq<seq<seq<string>>>): Result<BiosketchData, ModelError> {
    ResultOf(ParseRun(EmptyBiosketch, paragraphs, tables))
  }

  /** Parsing fails exactly when some paragraph is a section-A header, and then with the
      error of the `PersonalStatement` call. */
  lemma ParseFailsIffSectionA(paragraphs: seq<string>, tables: seq<seq<seq<string>>>)
    ensures ParseDocument(paragraphs, tables).Failure? <==> HasHeaderA(paragraphs)
    ensures HasHeaderA(paragraphs) ==> ParseDocument(paragraphs, tables) == Failure(StatementError)
  {
    var withHeader := HeaderScan(EmptyBiosketch, HeaderWindow(paragraphs));
    var withEducation := withHeader.(education := withHeader.education + EducationOf(tables));
    SegmentsSectionA(paragraphs, None, [], []);
    RunOutcome(withEducation, Segments(paragraphs));
  }

  /** A successful parse returns the header fields of the header scan and the entries of
      the education table. */
  lemma ParseKeepsHeader(paragraphs: seq<string>, tables: seq<seq<seq<string>>>)
    requires ParseDocument(paragraphs, tables).Success?
    ensures ParseDocument(paragraphs, tables).value.name ==
            HeaderScan(EmptyBiosketch, HeaderWindow(paragraphs)).name
    ensures ParseDocument(paragraphs, tables).value.eraCommonsUsername ==
            HeaderScan(EmptyBiosketch, HeaderWindow(paragraphs)).eraCommonsUsername
    ensures ParseDocument(paragraphs, tables).value.positionTitle ==
            HeaderScan(EmptyBiosketch, HeaderWindow(paragraphs)).positionTitle
    ensures ParseDocument(paragraphs, tables).value.education == EducationOf(tables)
  {
    var withHeader := HeaderScan(EmptyBiosketch, HeaderWindow(paragraphs));
    HeaderScanFrame(EmptyBiosketch, HeaderWindow(paragraphs));
    var withEducation := withHeader.(education := withHeader.education + EducationOf(tables));
    assert withEducation.education == EducationOf(tables);
    SectionsKeepHeader(withEducation, Segments(paragraphs));
  }

  /** Sections whose lines are non-empty only ever store contributions with a non-empty
      narrative. */
  lemma {:induction false} RunContributionsNonEmpty(d: BiosketchData, segs: seq<Segment>)
    requires NonEmptyNarratives(d.contributions) && SegmentLinesNonEmpty(segs)
    ensures NonEmptyNarratives(RunSegments(d, segs).data.contributions)
    decreases |segs|
  {
    if segs != [] {
      var init, last := segs[..|segs| - 1], segs[|segs| - 1];
      forall k | 0 <= k < |init| ensures NonEmptyLines(init[k].lines) {
        assert init[k] == segs[k];
      }
      RunContributionsNonEmpty(d, init);
      if RunSegments(d, init).outcome.Pass? && last.section == SectionC {
        ContributionNarrativesNonEmpty(last.lines);
      }
    }
  }

  /** Every contribution of a successful parse has a non-empty narrative. */
  lemma ParseContributionsNonEmpty(paragraphs: seq<string>, tables: seq<seq<seq<string>>>)
    requires ParseDocument(paragraphs, tables).Success?
    ensures NonEmptyNarratives(ParseDocument(paragraphs, tables).value.contributions)
  {
    var withHeader := HeaderScan(EmptyBiosketch, HeaderWindow(paragraphs));
    HeaderScanFrame(EmptyBiosketch, HeaderWindow(paragraphs));
    var withEducation := withHeader.(education := withHeader.education + EducationOf(tables));
    assert withEducation.contributions == [];
    SegmentsLinesNonEmpty(paragraphs);
    RunContributionsNonEmpty(withEducation, Segments(paragraphs));
  }
}
