/** `BiosketchParser`, the object that fills a `BiosketchData` record from an NIH biosketch
    one pass at a time. The document is given as the texts of its paragraphs and, for each
    table, the texts of the cells of each row. */
module Biosketch {
  import opened Wrappers
  import opened Text
  import opened Models
  import opened BiosketchPatterns
  import opened BiosketchSpec
  import CitationParser

  /** The mode of section A as the two flags of `_parse_section_a` encode it. */
  function ModeOf(inResearchSupport: bool, inCitations: bool): StatementMode {
    if inCitations then CitationsMode else if inResearchSupport then SupportMode else NarrativeMode
  }

  class BiosketchParser {
    const paragraphs: seq<string>
    const tables: seq<seq<seq<string>>>
    var data: BiosketchData

    constructor (paragraphs: seq<string>, tables: seq<seq<seq<string>>>)
      ensures this.paragraphs == paragraphs && this.tables == tables
      ensures data == EmptyBiosketch
    {
      this.paragraphs := paragraphs;
      this.tables := tables;
      data := EmptyBiosketch;
    }

    /** `parse`: the header, the education table, then the sections. An exception raised by
        a section ends the parse; it is returned as a Failure. */
    method Parse() returns (r: Result<BiosketchData, ModelError>)
      modifies this
      ensures data == ParseRun(old(data), paragraphs, tables).data
      ensures r == ResultOf(ParseRun(old(data), paragraphs, tables))
    {
      ParseHeader();
      ParseEducationTable();
      var outcome := ParseSections();
      match outcome
      case Fail(e) => r := Failure(e);
      case Pass => r := Success(data);
    }

    /** `_parse_header`: the labelled fields among the first 15 paragraphs. */
    method ParseHeader()
      modifies this
      ensures data == HeaderScan(old(data), HeaderWindow(paragraphs))
    {
      var window := HeaderWindow(paragraphs);
      for i := 0 to |window|
        invariant data == HeaderScan(old(data), window[..i])
      {
        HeaderScanSnoc(old(data), window, i);
        HeaderParagraph(window[i]);
      }
      assert window[..|window|] == window;
    }

    /** One iteration of the `_parse_header` loop: the first of NAME, eRA COMMONS and
        POSITION TITLE whose pattern matches the stripped paragraph sets its field. */
    method HeaderParagraph(para: string)
      modifies this
      ensures data == HeaderStep(old(data), para)
    {
      var text := Strip(para);
      if text == "" {
        return;
      }
      var nameMatch := NameField(text);
      if nameMatch.Some? {
        data := data.(name := nameMatch.value);
        return;
      }
      var eraMatch := EraField(text);
      if eraMatch.Some? {
        data := data.(eraCommonsUsername := eraMatch.value);
        return;
      }
      var positionMatch := PositionTitleField(text);
      if positionMatch.Some? {
        data := data.(positionTitle := positionMatch.value);
      }
    }

    /** `_parse_education_table`: one entry per kept data row of the first table. */
    method ParseEducationTable()
      modifies this
      ensures data == old(data).(education := old(data).education + EducationOf(tables))
    {
      if tables == [] {
        assert old(data).education + [] == old(data).education;
        return;
      }
      var table := tables[0];
      var rows := if |table| > 0 then table[1..] else [];
      assert EducationOf(tables) == EducationRows(rows);
      for i := 0 to |rows|
        invariant data == old(data).(education := data.education)
        invariant data.education == old(data).education + EducationRows(rows[..i])
      {
        EducationRowsSnoc(rows, i);
        CitationParser.AppendAssoc(old(data).education, EducationRows(rows[..i]), RowEntry(rows[i]));
        EducationRow(rows[i]);
      }
      assert rows[..|rows|] == rows;
    }

    /** One iteration of the `_parse_education_table` loop: a row with at least four cells
        and a non-empty first cell appends its entry. */
    method EducationRow(row: seq<string>)
      modifies this
      ensures data == old(data).(education := old(data).education + RowEntry(row))
    {
      var cells := StripCells(row);
      if |cells| >= 4 && cells[0] != "" {
        var education := Education(
          cells[0],
          if |cells| > 1 then cells[1] else "",
          if |cells| > 2 then cells[2] else "",
          if |cells| > 3 then cells[3] else "");
        data := data.(education := data.education + [education]);
      } else {
        assert old(data).education + [] == old(data).education;
      }
    }

    /** `_parse_sections`: collect each section's lines and process the section when the
        next header, or the end of the document, closes it. */
    method ParseSections() returns (outcome: Outcome<ModelError>)
      modifies this
      ensures Run(data, outcome) == RunSegments(old(data), Segments(paragraphs))
    {
      var current: Option<Section> := None;
      var content: seq<string> := [];
      ghost var done: seq<Segment> := [];
      for i := 0 to |paragraphs|
        invariant SegmentsFrom(paragraphs[i..], current, content, done) == Segments(paragraphs)
        invariant RunSegments(old(data), done) == Run(data, Pass)
      {
        assert paragraphs[i..][0] == paragraphs[i] && paragraphs[i..][1..] == paragraphs[i + 1..];
        var text := Strip(paragraphs[i]);
        var header := HeaderSection(text);
        if header.Some? {
          assert SegmentsFrom(paragraphs[i + 1..], header, [], done + Close(current, content)) == Segments(paragraphs);
          if current.Some? {
            var seg := Segment(current.value, content);
            RunSnoc(old(data), done, seg);
            outcome := ProcessSection(current.value, content);
            assert RunSegments(old(data), done + [seg]) == Run(data, outcome);
            if outcome.Fail? {
              SegmentsKeepDone(paragraphs[i + 1..], header, [], done + [seg]);
              RunStopsAtFailure(old(data), done + [seg], SegmentsFrom(paragraphs[i + 1..], header, [], []));
              return;
            }
          } else {
            assert done + Close(current, content) == done;
          }
          done := done + Close(current, content);
          current := header;
          content := [];
          continue;
        }
        if current.Some? && text != "" {
          content := content + [text];
        }
      }
      if current.Some? {
        var seg := Segment(current.value, content);
        RunSnoc(old(data), done, seg);
        outcome := ProcessSection(current.value, content);
      } else {
        assert done + [] == done;
        outcome := Pass;
      }
    }

    /** `_process_section`. */
    method ProcessSection(section: Section, content: seq<string>) returns (outcome: Outcome<ModelError>)
      modifies this
      ensures Run(data, outcome) == ProcessSegment(old(data), Segment(section, content))
    {
      match section
      case SectionA =>
        outcome := ParseSectionA(content);
      case SectionB =>
        ParseSectionB(content);
        outcome := Pass;
      case SectionC =>
        ParseSectionC(content);
        outcome := Pass;
    }

    /** `_parse_section_a`: narrative, research-support and citation lines, then the
        `PersonalStatement(...)` call, which can raise before anything is stored. */
    method ParseSectionA(content: seq<string>) returns (outcome: Outcome<ModelError>)
      modifies this
      ensures Run(data, outcome) == ProcessSegment(old(data), Segment(SectionA, content))
    {
      var personalText: seq<string> := [];
      var researchSupport: seq<string> := [];
      var citations: seq<Citation> := [];
      var inResearchSupport := false;
      var inCitations := false;
      for i := 0 to |content|
        invariant !(inResearchSupport && inCitations)
        invariant StatementFrom(NoStatement, content[..i]) ==
                  StatementBuffers(ModeOf(inResearchSupport, inCitations), personalText, researchSupport, citations)
      {
        assert content[..i + 1][..i] == content[..i] && content[..i + 1][i] == content[i];
        var line := content[i];
        if IsResearchSupportHeader(line) {
          inResearchSupport := true;
          inCitations := false;
          continue;
        }
        if IsCitationsHeader(line) {
          inResearchSupport := false;
          inCitations := true;
          continue;
        }
        if inCitations {
          citations := citations + [CitationParser.ParseCitation(line)];
        } else if inResearchSupport {
          researchSupport := researchSupport + [line];
        } else {
          personalText := personalText + [line];
        }
      }
      assert content[..|content|] == content;
      var kwargs := map["text" := TextArg(Join(personalText, " ")),
                        "research_support" := LinesArg(researchSupport),
                        "citations" := CitationsArg(citations)];
      var statement := NewPersonalStatement(kwargs);
      match statement
      case Failure(e) =>
        outcome := Fail(e);
      case Success(s) =>
        data := data.(personalStatement := Some(s));
        outcome := Pass;
    }

    /** `_parse_section_b`: positions until an `Honors` line, honors after it, appended to
        the record in line order. */
    method ParseSectionB(content: seq<string>)
      modifies this
      ensures data == old(data).(positions := old(data).positions + SectionBFrom(PositionsMode, content).positions,
                                 honors := old(data).honors + SectionBFrom(PositionsMode, content).honors)
    {
      var inPositions := true;
      var inHonors := false;
      ghost var b := PositionsMode;
      for i := 0 to |content|
        invariant b == SectionBFrom(PositionsMode, content[..i])
        invariant inHonors == b.inHonors && inPositions == !inHonors
        invariant data == old(data).(positions := old(data).positions + b.positions,
                                     honors := old(data).honors + b.honors)
      {
        SectionBFromSnoc(PositionsMode, content, i);
        ghost var prev := b;
        var line := content[i];
        b := SectionBStep(b, line);
        if IsHonorsHeader(line) {
          inPositions := false;
          inHonors := true;
          continue;
        }
        if IsPositionsHeader(line) {
          continue;
        }
        if inHonors {
          var honorMatch := HonorEntry(line);
          if honorMatch.Some? {
            CitationParser.AppendAssoc(old(data).honors, prev.honors, [honorMatch.value]);
            data := data.(honors := data.honors + [honorMatch.value]);
          }
        } else if inPositions {
          var positionMatch := PositionEntry(line);
          if positionMatch.Some? {
            CitationParser.AppendAssoc(old(data).positions, prev.positions, [positionMatch.value]);
            data := data.(positions := data.positions + [positionMatch.value]);
          }
        }
      }
      assert content[..|content|] == content;
    }

    /** `_parse_section_c`: contributions delimited by boundary lines; the result replaces
        the record's contributions. */
    method ParseSectionC(content: seq<string>)
      modifies this
      ensures data == old(data).(contributions := ContributionsOf(content))
    {
      var contributions: seq<Contribution> := [];
      var currentNarrative: seq<string> := [];
      var currentCitations: seq<Citation> := [];
      for i := 0 to |content|
        invariant ContributionFrom(NoContributions, content[..i]) ==
                  ContributionBuffers(contributions, currentNarrative, currentCitations)
      {
        assert content[..i + 1][..i] == content[..i] && content[..i + 1][i] == content[i];
        ghost var prev := ContributionBuffers(contributions, currentNarrative, currentCitations);
        assert ContributionFrom(NoContributions, content[..i + 1]) == ContributionStep(prev, content[i]);
        var line := content[i];
        if IsPublishedWorkLink(line) {
          continue;
        }
        var isCitation := CitationParser.IsCitationLine(line);
        var isNewContribution := ContributionHeader(line) && !isCitation && |line| > 20 && !StartsWith(line, "Role:");
        if isNewContribution && (currentNarrative != [] || currentCitations != []) {
          if currentNarrative != [] {
            contributions := contributions + [Contribution(Join(currentNarrative, " "), currentCitations)];
          }
          currentNarrative := [line];
          currentCitations := [];
        } else if isCitation {
          currentCitations := currentCitations + [CitationParser.ParseCitation(line)];
        } else {
          currentNarrative := currentNarrative + [line];
        }
      }
      assert content[..|content|] == content;
      if currentNarrative != [] {
        contributions := contributions + [Contribution(Join(currentNarrative, " "), currentCitations)];
      }
      data := data.(contributions := contributions);
    }
  }

  /** `parse_biosketch`: a fresh parser over the document, then `parse`. */
  method ParseBiosketch(paragraphs: seq<string>, tables: seq<seq<seq<string>>>)
    returns (r: Result<BiosketchData, ModelError>)
    ensures r == ParseDocument(paragraphs, tables)
  {
    var parser := new BiosketchParser(paragraphs, tables);
    r := parser.Parse();
  }
}
