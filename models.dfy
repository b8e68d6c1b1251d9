/** The records the parser produces (the dataclasses of app/parser/models.py) and their
    conversion to and from plain JSON-like values (`to_dict` / `from_dict`). */
module Models {
  import opened Wrappers

  datatype Citation = Citation(text: string, pmid: Option<string>, pmcid: Option<string>, doi: Option<string>)

  datatype Education = Education(institution: string, degree: string, completionDate: string, fieldOfStudy: string)

  datatype Position = Position(dates: string, title: string, institution: string)

  datatype Honor = Honor(year: string, description: string)

  datatype Grant = Grant(funder: string, number: string, pi: string, dates: string, title: string, role: string)

  datatype PersonalStatement = PersonalStatement(text: string, grants: seq<Grant>, citations: seq<Citation>)

  datatype Contribution = Contribution(narrative: string, citations: seq<Citation>)

  datatype BiosketchData = BiosketchData(
    name: string,
    eraCommonsUsername: string,
    positionTitle: string,
    education: seq<Education>,
    personalStatement: Option<PersonalStatement>,
    positions: seq<Position>,
    honors: seq<Honor>,
    contributions: seq<Contribution>)

  /** `Grant()`: every field defaults to the empty string. */
  const DefaultGrant := Grant("", "", "", "", "", "")

  /** `BiosketchData()`: empty strings, empty lists, no personal statement. */
  const EmptyBiosketch := BiosketchData("", "", "", [], None, [], [], [])

  /** The plain values `to_dict` produces and `from_dict` consumes (JSON's data model). */
  datatype Plain =
    | Null
    | Bool(b: bool)
    | Num(n: int)
    | Str(s: string)
    | Arr(items: seq<Plain>)
    | Obj(fields: map<string, Plain>)

  /** Python truthiness of a plain value, as `if data.get(...)` tests it. */
  predicate Truthy(p: Plain) {
    match p
    case Null => false
    case Bool(b) => b
    case Num(n) => n != 0
    case Str(s) => s != ""
    case Arr(xs) => xs != []
    case Obj(m) => m != map[]
  }

  /** The exceptions `from_dict` and the dataclass constructors can raise. */
  datatype ModelError =
    | NotAMapping                            // `cls(**x)`, `x.get` or `x[k]` on a value that is not a dict
    | NotIterable                            // a list-valued key holding null, a bool or a number
    | UnexpectedKeywords(names: set<string>) // `__init__() got an unexpected keyword argument`
    | MissingArguments(names: set<string>)   // `__init__() missing required argument`
    | MissingKey(key: string)                // `KeyError` from `data[key]`
    | WrongType(key: string)                 // a value this typed model cannot hold in that field

  /** Binding keyword arguments `given` to a dataclass `__init__` whose fields are `declared`,
      of which `required` have no default. Python reports unexpected keywords first. */
  function BindKeywords(declared: set<string>, required: set<string>, given: set<string>): (r: Option<ModelError>)
    ensures r.None? <==> given <= declared && required <= given
    ensures r.Some? && !(given <= declared) ==> r.value == UnexpectedKeywords(given - declared)
  {
    if !(given <= declared) then Some(UnexpectedKeywords(given - declared))
    else if !(required <= given) then Some(MissingArguments(required - given))
    else None
  }

  const CitationFields: set<string> := {"text", "pmid", "pmcid", "doi"}
  const EducationFields: set<string> := {"institution", "degree", "completion_date", "field_of_study"}
  const PositionFields: set<string> := {"dates", "title", "institution"}
  const HonorFields: set<string> := {"year", "description"}
  const GrantFields: set<string> := {"funder", "number", "pi", "dates", "title", "role"}
  const PersonalStatementFields: set<string> := {"text", "grants", "citations"}
  const ContributionFields: set<string> := {"narrative", "citations"}
  const BiosketchFields: set<string> :=
    {"name", "era_commons_username", "position_title", "education", "personal_statement",
     "positions", "honors", "contributions"}

  // ---------------------------------------------------------------------------------------
  // Field access helpers

  /** `m.get(key, default)` for a string field. */
  function StrField(m: map<string, Plain>, key: string, default: string): Result<string, ModelError>
  {
    if key !in m then Success(default)
    else match m[key]
      case Str(s) => Success(s)
      case _ => Failure(WrongType(key))
  }

  function OptionalToPlain(o: Option<string>): (p: Plain)
    ensures p.Null? || p.Str?
  {
    match o
    case None => Null
    case Some(s) => Str(s)
  }

  /** An optional string field: absent or null is None. */
  function OptionalField(m: map<string, Plain>, key: string): (r: Result<Option<string>, ModelError>)
    ensures key !in m ==> r == Success(None)
    ensures forall o :: key in m && m[key] == OptionalToPlain(o) ==> r == Success(o)
  {
    if key !in m then Success(None)
    else match m[key]
      case Null => Success(None)
      case Str(s) => Success(Some(s))
      case _ => Failure(WrongType(key))
  }

  /** The values Python's `for` yields from the value of a list-valued key. A string or a
      dict yields strings, and every `from_dict` rejects a string, so only the empty ones
      go through. */
  function Elements(p: Plain): (r: Result<seq<Plain>, ModelError>)
    ensures p.Arr? ==> r == Success(p.items)
  {
    match p
    case Arr(xs) => Success(xs)
    case Str(s) => if s == "" then Success([]) else Failure(NotAMapping)
    case Obj(m) => if m == map[] then Success([]) else Failure(NotAMapping)
    case _ => Failure(NotIterable)
  }

  /** `[decode(x) for x in items]`, stopping at the first exception. */
  function DecodeAll<T>(items: seq<Plain>, decode: Plain -> Result<T, ModelError>): (r: Result<seq<T>, ModelError>)
    ensures r.Success? <==> forall k :: 0 <= k < |items| ==> decode(items[k]).Success?
    ensures r.Success? ==> |r.value| == |items| &&
                           forall k :: 0 <= k < |items| ==> decode(items[k]) == Success(r.value[k])
    decreases |items|
  {
    if items == [] then Success([])
    else
      match decode(items[0])
      case Failure(e) => Failure(e)
      case Success(x) =>
        match DecodeAll(items[1..], decode)
        case Failure(e) =>
          assert exists k :: 1 <= k < |items| && decode(items[k]).Failure? by {
            var k :| 0 <= k < |items[1..]| && decode(items[1..][k]).Failure?;
            assert items[1..][k] == items[k + 1];
          }
          Failure(e)
        case Success(xs) =>
          assert forall k :: 1 <= k < |items| ==> items[k] == items[1..][k - 1];
          Success([x] + xs)
  }

  /** `[encode(x) for x in xs]` */
  function EncodeAll<T>(xs: seq<T>, encode: T -> Plain): (p: Plain)
    ensures p.Arr? && |p.items| == |xs|
    ensures forall k :: 0 <= k < |xs| ==> p.items[k] == encode(xs[k])
  {
    Arr(seq(|xs|, k requires 0 <= k < |xs| => encode(xs[k])))
  }

  /** A list survives encoding and decoding element by element, in order, whenever its
      elements do. */
  lemma ListRoundTrip<T>(xs: seq<T>, encode: T -> Plain, decode: Plain -> Result<T, ModelError>)
    requires forall x :: decode(encode(x)) == Success(x)
    ensures DecodeAll(EncodeAll(xs, encode).items, decode) == Success(xs)
  {
    var items := EncodeAll(xs, encode).items;
    var r := DecodeAll(items, decode);
    assert forall k :: 0 <= k < |items| ==> decode(items[k]) == Success(xs[k]);
    assert r.value == xs;
  }

  /** `[decode(x) for x in m.get(key, [])]` */
  function ListField<T>(m: map<string, Plain>, key: string, decode: Plain -> Result<T, ModelError>): (r: Result<seq<T>, ModelError>)
    ensures key !in m ==> r == Success([])
  {
    var items :- if key in m then Elements(m[key]) else Success([]);
    DecodeAll(items, decode)
  }

  /** A list-valued key holding a list decodes that list's elements. */
  lemma ListFieldOfArr<T>(m: map<string, Plain>, key: string, decode: Plain -> Result<T, ModelError>)
    requires key in m && m[key].Arr?
    ensures ListField(m, key, decode) == DecodeAll(m[key].items, decode)
  {
  }

  // ---------------------------------------------------------------------------------------
  // Citation

  function CitationToDict(c: Citation): (p: Plain)
    ensures p.Obj? && p.fields.Keys == CitationFields
  {
    Obj(map["text" := Str(c.text), "pmid" := OptionalToPlain(c.pmid),
            "pmcid" := OptionalToPlain(c.pmcid), "doi" := OptionalToPlain(c.doi)])
  }

  /** `Citation(**data)`: `text` is required, absent identifiers are None. */
  function CitationFromDict(p: Plain): (r: Result<Citation, ModelError>)
    ensures r.Success? ==> p.Obj? && "text" in p.fields && p.fields.Keys <= CitationFields
    ensures p.Obj? && r.Success? ==>
              ("pmid" !in p.fields ==> r.value.pmid == None) &&
              ("pmcid" !in p.fields ==> r.value.pmcid == None) &&
              ("doi" !in p.fields ==> r.value.doi == None)
  {
    if !p.Obj? then Failure(NotAMapping)
    else
      var m := p.fields;
      var bound := BindKeywords(CitationFields, {"text"}, m.Keys);
      if bound.Some? then Failure(bound.value)
      else
      var text :- StrField(m, "text", "");
      var pmid :- OptionalField(m, "pmid");
      var pmcid :- OptionalField(m, "pmcid");
      var doi :- OptionalField(m, "doi");
      Success(Citation(text, pmid, pmcid, doi))
  }

  lemma CitationRoundTrip(c: Citation)
    ensures CitationFromDict(CitationToDict(c)) == Success(c)
  {
  }

  // ---------------------------------------------------------------------------------------
  // Education, Position, Honor, Grant

  function EducationToDict(e: Education): (p: Plain)
    ensures p.Obj? && p.fields.Keys == EducationFields
  {
    Obj(map["institution" := Str(e.institution), "degree" := Str(e.degree),
            "completion_date" := Str(e.completionDate), "field_of_study" := Str(e.fieldOfStudy)])
  }

  /** `Education(**data)`: exactly the four fields, all required. */
  function EducationFromDict(p: Plain): (r: Result<Education, ModelError>)
    ensures r.Success? ==> p.Obj? && p.fields.Keys == EducationFields
  {
    if !p.Obj? then Failure(NotAMapping)
    else
      var m := p.fields;
      var bound := BindKeywords(EducationFields, EducationFields, m.Keys);
      if bound.Some? then Failure(bound.value)
      else
      var institution :- StrField(m, "institution", "");
      var degree :- StrField(m, "degree", "");
      var completionDate :- StrField(m, "completion_date", "");
      var fieldOfStudy :- StrField(m, "field_of_study", "");
      Success(Education(institution, degree, completionDate, fieldOfStudy))
  }

  lemma EducationRoundTrip(e: Education)
    ensures EducationFromDict(EducationToDict(e)) == Success(e)
  {
  }

  function PositionToDict(x: Position): (p: Plain)
    ensures p.Obj? && p.fields.Keys == PositionFields
  {
    Obj(map["dates" := Str(x.dates), "title" := Str(x.title), "institution" := Str(x.institution)])
  }

  /** `Position(**data)`: exactly the three fields, all required. */
  function PositionFromDict(p: Plain): (r: Result<Position, ModelError>)
    ensures r.Success? ==> p.Obj? && p.fields.Keys == PositionFields
  {
    if !p.Obj? then Failure(NotAMapping)
    else
      var m := p.fields;
      var bound := BindKeywords(PositionFields, PositionFields, m.Keys);
      if bound.Some? then Failure(bound.value)
      else
      var dates :- StrField(m, "dates", "");
      var title :- StrField(m, "title", "");
      var institution :- StrField(m, "institution", "");
      Success(Position(dates, title, institution))
  }

  lemma PositionRoundTrip(x: Position)
    ensures PositionFromDict(PositionToDict(x)) == Success(x)
  {
  }

  function HonorToDict(h: Honor): (p: Plain)
    ensures p.Obj? && p.fields.Keys == HonorFields
  {
    Obj(map["year" := Str(h.year), "description" := Str(h.description)])
  }

  /** `Honor(**data)`: exactly the two fields, both required. */
  function HonorFromDict(p: Plain): (r: Result<Honor, ModelError>)
    ensures r.Success? ==> p.Obj? && p.fields.Keys == HonorFields
  {
    if !p.Obj? then Failure(NotAMapping)
    else
      var m := p.fields;
      var bound := BindKeywords(HonorFields, HonorFields, m.Keys);
      if bound.Some? then Failure(bound.value)
      else
      var year :- StrField(m, "year", "");
      var description :- StrField(m, "description", "");
      Success(Honor(year, description))
  }

  lemma HonorRoundTrip(h: Honor)
    ensures HonorFromDict(HonorToDict(h)) == Success(h)
  {
  }

  function GrantToDict(g: Grant): (p: Plain)
    ensures p.Obj? && p.fields.Keys == GrantFields
  {
    Obj(map["funder" := Str(g.funder), "number" := Str(g.number), "pi" := Str(g.pi),
            "dates" := Str(g.dates), "title" := Str(g.title), "role" := Str(g.role)])
  }

  /** `Grant(**data)`: any subset of the six fields; each absent one is "". */
  function GrantFromDict(p: Plain): (r: Result<Grant, ModelError>)
    ensures r.Success? ==> p.Obj? && p.fields.Keys <= GrantFields
    ensures p == Obj(map[]) ==> r == Success(DefaultGrant)
  {
    if !p.Obj? then Failure(NotAMapping)
    else
      var m := p.fields;
      var bound := BindKeywords(GrantFields, {}, m.Keys);
      if bound.Some? then Failure(bound.value)
      else
      var funder :- StrField(m, "funder", "");
      var number :- StrField(m, "number", "");
      var pi :- StrField(m, "pi", "");
      var dates :- StrField(m, "dates", "");
      var title :- StrField(m, "title", "");
      var role :- StrField(m, "role", "");
      Success(Grant(funder, number, pi, dates, title, role))
  }

  lemma GrantRoundTrip(g: Grant)
    ensures GrantFromDict(GrantToDict(g)) == Success(g)
  {
  }

  // ---------------------------------------------------------------------------------------
  // PersonalStatement and Contribution

  function PersonalStatementToDict(s: PersonalStatement): (p: Plain)
    ensures p.Obj? && p.fields.Keys == PersonalStatementFields
  {
    Obj(map["text" := Str(s.text),
            "grants" := EncodeAll(s.grants, GrantToDict),
            "citations" := EncodeAll(s.citations, CitationToDict)])
  }

  /** `PersonalStatement.from_dict`: `data['text']` is required, the lists default to []
      and other keys are ignored. */
  function PersonalStatementFromDict(p: Plain): (r: Result<PersonalStatement, ModelError>)
    ensures r.Success? ==> p.Obj? && "text" in p.fields
    ensures p.Obj? && r.Success? ==>
              ("grants" !in p.fields ==> r.value.grants == []) &&
              ("citations" !in p.fields ==> r.value.citations == [])
  {
    if !p.Obj? then Failure(NotAMapping)
    else
      var m := p.fields;
      var citations :- ListField(m, "citations", CitationFromDict);
      var grants :- ListField(m, "grants", GrantFromDict);
      if "text" !in m then Failure(MissingKey("text"))
      else
        var text :- StrField(m, "text", "");
        Success(PersonalStatement(text, grants, citations))
  }

  lemma {:induction false} PersonalStatementRoundTrip(s: PersonalStatement)
    ensures PersonalStatementFromDict(PersonalStatementToDict(s)) == Success(s)
  {
    var m := PersonalStatementToDict(s).fields;
    CitationListRoundTrip(s.citations);
    GrantListRoundTrip(s.grants);
    assert ListField(m, "citations", CitationFromDict) == Success(s.citations);
    assert ListField(m, "grants", GrantFromDict) == Success(s.grants);
    assert StrField(m, "text", "") == Success(s.text);
  }

  lemma CitationListRoundTrip(cs: seq<Citation>)
    ensures DecodeAll(EncodeAll(cs, CitationToDict).items, CitationFromDict) == Success(cs)
  {
    forall c ensures CitationFromDict(CitationToDict(c)) == Success(c) {
      CitationRoundTrip(c);
    }
    ListRoundTrip(cs, CitationToDict, CitationFromDict);
  }

  lemma GrantListRoundTrip(gs: seq<Grant>)
    ensures DecodeAll(EncodeAll(gs, GrantToDict).items, GrantFromDict) == Success(gs)
  {
    forall g ensures GrantFromDict(GrantToDict(g)) == Success(g) {
      GrantRoundTrip(g);
    }
    ListRoundTrip(gs, GrantToDict, GrantFromDict);
  }

  /** An argument of the keyword call the section-A parser makes to `PersonalStatement(...)`. */
  datatype Argument =
    | TextArg(text: string)
    | LinesArg(lines: seq<string>)
    | GrantsArg(grants: seq<Grant>)
    | CitationsArg(citations: seq<Citation>)

  /** `PersonalStatement(**kwargs)`: the dataclass constructor called with keyword arguments.
      `text` is required, `grants` and `citations` default to []. */
  function NewPersonalStatement(kwargs: map<string, Argument>): (r: Result<PersonalStatement, ModelError>)
    ensures r.Success? <==> kwargs.Keys <= PersonalStatementFields && "text" in kwargs &&
                            kwargs["text"].TextArg? &&
                            ("grants" in kwargs ==> kwargs["grants"].GrantsArg?) &&
                            ("citations" in kwargs ==> kwargs["citations"].CitationsArg?)
    ensures !(kwargs.Keys <= PersonalStatementFields) ==>
              r == Failure(UnexpectedKeywords(kwargs.Keys - PersonalStatementFields))
  {
    match BindKeywords(PersonalStatementFields, {"text"}, kwargs.Keys)
    case Some(e) => Failure(e)
    case None =>
      var text :- if kwargs["text"].TextArg? then Success(kwargs["text"].text) else Failure(WrongType("text"));
      var grants :-
        if "grants" !in kwargs then Success([])
        else if kwargs["grants"].GrantsArg? then Success(kwargs["grants"].grants)
        else Failure(WrongType("grants"));
      var citations :-
        if "citations" !in kwargs then Success([])
        else if kwargs["citations"].CitationsArg? then Success(kwargs["citations"].citations)
        else Failure(WrongType("citations"));
      Success(PersonalStatement(text, grants, citations))
  }

  function ContributionToDict(c: Contribution): (p: Plain)
    ensures p.Obj? && p.fields.Keys == ContributionFields
  {
    Obj(map["narrative" := Str(c.narrative), "citations" := EncodeAll(c.citations, CitationToDict)])
  }

  /** `Contribution.from_dict`: `data['narrative']` is required, `citations` defaults to []. */
  function ContributionFromDict(p: Plain): (r: Result<Contribution, ModelError>)
    ensures r.Success? ==> p.Obj? && "narrative" in p.fields
    ensures p.Obj? && r.Success? && "citations" !in p.fields ==> r.value.citations == []
  {
    if !p.Obj? then Failure(NotAMapping)
    else
      var m := p.fields;
      var citations :- ListField(m, "citations", CitationFromDict);
      if "narrative" !in m then Failure(MissingKey("narrative"))
      else
        var narrative :- StrField(m, "narrative", "");
        Success(Contribution(narrative, citations))
  }

  lemma {:induction false} ContributionRoundTrip(c: Contribution)
    ensures ContributionFromDict(ContributionToDict(c)) == Success(c)
  {
    var m := ContributionToDict(c).fields;
    CitationListRoundTrip(c.citations);
    ListFieldOfArr(m, "citations", CitationFromDict);
    assert StrField(m, "narrative", "") == Success(c.narrative);
  }

  // ---------------------------------------------------------------------------------------
  // BiosketchData

  function BiosketchToDict(v: BiosketchData): (p: Plain)
    ensures p.Obj? && p.fields.Keys == BiosketchFields
    ensures p.fields["personal_statement"].Null? <==> v.personalStatement.None?
  {
    Obj(map[
      "name" := Str(v.name),
      "era_commons_username" := Str(v.eraCommonsUsername),
      "position_title" := Str(v.positionTitle),
      "education" := EncodeAll(v.education, EducationToDict),
      "personal_statement" := (match v.personalStatement
                               case None => Null
                               case Some(s) => PersonalStatementToDict(s)),
      "positions" := EncodeAll(v.positions, PositionToDict),
      "honors" := EncodeAll(v.honors, HonorToDict),
      "contributions" := EncodeAll(v.contributions, ContributionToDict)])
  }

  /** `PersonalStatement.from_dict(data['personal_statement'])` when that value is truthy,
      None otherwise. */
  function StatementField(m: map<string, Plain>): (r: Result<Option<PersonalStatement>, ModelError>)
    ensures r.Success? ==>
              (r.value.None? <==> "personal_statement" !in m || !Truthy(m["personal_statement"]))
  {
    if "personal_statement" in m && Truthy(m["personal_statement"]) then
      var s :- PersonalStatementFromDict(m["personal_statement"]);
      Success(Some(s))
    else
      Success(None)
  }

  /** `BiosketchData.from_dict`: every key is optional; a missing, null or otherwise falsy
      `personal_statement` is None; other keys are ignored. */
  function BiosketchFromDict(p: Plain): (r: Result<BiosketchData, ModelError>)
    ensures r.Success? ==> p.Obj?
    ensures p.Obj? && r.Success? ==>
              var m := p.fields;
              ("name" !in m ==> r.value.name == "") &&
              ("era_commons_username" !in m ==> r.value.eraCommonsUsername == "") &&
              ("position_title" !in m ==> r.value.positionTitle == "") &&
              ("education" !in m ==> r.value.education == []) &&
              ("positions" !in m ==> r.value.positions == []) &&
              ("honors" !in m ==> r.value.honors == []) &&
              ("contributions" !in m ==> r.value.contributions == []) &&
              (r.value.personalStatement.None? <==> "personal_statement" !in m || !Truthy(m["personal_statement"]))
  {
    if !p.Obj? then Failure(NotAMapping)
    else
      var m := p.fields;
      var statement :- StatementField(m);
      var name :- StrField(m, "name", "");
      var username :- StrField(m, "era_commons_username", "");
      var title :- StrField(m, "position_title", "");
      var education :- ListField(m, "education", EducationFromDict);
      var positions :- ListField(m, "positions", PositionFromDict);
      var honors :- ListField(m, "honors", HonorFromDict);
      var contributions :- ListField(m, "contributions", ContributionFromDict);
      Success(BiosketchData(name, username, title, education, statement, positions, honors, contributions))
  }

  /** `from_dict(to_dict(v)) == v`: names, every list in order and the optional statement
      all come back. */
  lemma BiosketchRoundTrip(v: BiosketchData)
    ensures BiosketchFromDict(BiosketchToDict(v)) == Success(v)
  {
    var m := BiosketchToDict(v).fields;
    BiosketchDictEntries(v);
    BiosketchStatementRoundTrip(v);
    BiosketchListsRoundTrip(v);
    BiosketchFromParts(m);
  }

  /** The entries of `to_dict`, one per field. */
  lemma BiosketchDictEntries(v: BiosketchData)
    ensures var m := BiosketchToDict(v).fields;
            && m["name"] == Str(v.name)
            && m["era_commons_username"] == Str(v.eraCommonsUsername)
            && m["position_title"] == Str(v.positionTitle)
            && m["education"] == EncodeAll(v.education, EducationToDict)
            && m["personal_statement"] == (match v.personalStatement
                                           case None => Null
                                           case Some(s) => PersonalStatementToDict(s))
            && m["positions"] == EncodeAll(v.positions, PositionToDict)
            && m["honors"] == EncodeAll(v.honors, HonorToDict)
            && m["contributions"] == EncodeAll(v.contributions, ContributionToDict)
  {
  }

  /** `from_dict` on a dict whose every field decodes is the record of the decoded fields. */
  lemma BiosketchFromParts(m: map<string, Plain>)
    requires StatementField(m).Success?
    requires StrField(m, "name", "").Success? && StrField(m, "era_commons_username", "").Success?
    requires StrField(m, "position_title", "").Success?
    requires ListField(m, "education", EducationFromDict).Success?
    requires ListField(m, "positions", PositionFromDict).Success?
    requires ListField(m, "honors", HonorFromDict).Success?
    requires ListField(m, "contributions", ContributionFromDict).Success?
    ensures BiosketchFromDict(Obj(m)) ==
            Success(BiosketchData(StrField(m, "name", "").value, StrField(m, "era_commons_username", "").value,
                                  StrField(m, "position_title", "").value,
                                  ListField(m, "education", EducationFromDict).value, StatementField(m).value,
                                  ListField(m, "positions", PositionFromDict).value,
                                  ListField(m, "honors", HonorFromDict).value,
                                  ListField(m, "contributions", ContributionFromDict).value))
  {
  }

  /** The `personal_statement` entry of `to_dict` decodes back to the optional statement. */
  lemma BiosketchStatementRoundTrip(v: BiosketchData)
    ensures StatementField(BiosketchToDict(v).fields) == Success(v.personalStatement)
  {
    BiosketchDictEntries(v);
    if v.personalStatement.Some? {
      var s := v.personalStatement.value;
      PersonalStatementRoundTrip(s);
      assert "text" in PersonalStatementToDict(s).fields;
    }
  }

  /** The four list-valued entries of `to_dict` decode back to the lists, in order. */
  lemma BiosketchListsRoundTrip(v: BiosketchData)
    ensures var m := BiosketchToDict(v).fields;
            && ListField(m, "education", EducationFromDict) == Success(v.education)
            && ListField(m, "positions", PositionFromDict) == Success(v.positions)
            && ListField(m, "honors", HonorFromDict) == Success(v.honors)
            && ListField(m, "contributions", ContributionFromDict) == Success(v.contributions)
  {
    var m := BiosketchToDict(v).fields;
    BiosketchDictEntries(v);
    EducationListRoundTrip(v.education);
    ListFieldOfArr(m, "education", EducationFromDict);
    PositionListRoundTrip(v.positions);
    ListFieldOfArr(m, "positions", PositionFromDict);
    HonorListRoundTrip(v.honors);
    ListFieldOfArr(m, "honors", HonorFromDict);
    ContributionListRoundTrip(v.contributions);
    ListFieldOfArr(m, "contributions", ContributionFromDict);
  }

  lemma EducationListRoundTrip(es: seq<Education>)
    ensures DecodeAll(EncodeAll(es, EducationToDict).items, EducationFromDict) == Success(es)
  {
    forall e ensures EducationFromDict(EducationToDict(e)) == Success(e) {
      EducationRoundTrip(e);
    }
    ListRoundTrip(es, EducationToDict, EducationFromDict);
  }

  lemma PositionListRoundTrip(xs: seq<Position>)
    ensures DecodeAll(EncodeAll(xs, PositionToDict).items, PositionFromDict) == Success(xs)
  {
    forall x ensures PositionFromDict(PositionToDict(x)) == Success(x) {
      PositionRoundTrip(x);
    }
    ListRoundTrip(xs, PositionToDict, PositionFromDict);
  }

  lemma HonorListRoundTrip(hs: seq<Honor>)
    ensures DecodeAll(EncodeAll(hs, HonorToDict).items, HonorFromDict) == Success(hs)
  {
    forall h ensures HonorFromDict(HonorToDict(h)) == Success(h) {
      HonorRoundTrip(h);
    }
    ListRoundTrip(hs, HonorToDict, HonorFromDict);
  }

  lemma ContributionListRoundTrip(cs: seq<Contribution>)
    ensures DecodeAll(EncodeAll(cs, ContributionToDict).items, ContributionFromDict) == Success(cs)
  {
    forall c ensures ContributionFromDict(ContributionToDict(c)) == Success(c) {
      ContributionRoundTrip(c);
    }
    ListRoundTrip(cs, ContributionToDict, ContributionFromDict);
  }

  /** An empty dict decodes to `BiosketchData()`. */
  lemma BiosketchFromEmptyDict()
    ensures BiosketchFromDict(Obj(map[])) == Success(EmptyBiosketch)
  {
  }
}
