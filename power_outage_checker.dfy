/**
 * The outage checker of main.py: the session tokens read from the homepage,
 * the search form posted back to the site, the extraction of outage records
 * from the rows of the response, and the raw presence check of keywords.
 *
 * The HTTP session and BeautifulSoup are not modelled: the homepage is given
 * as its status and the hidden inputs it holds, a search response as its raw
 * text and the trimmed cell texts of its table rows.
 */
module PowerOutageChecker {
  import opened Optional
  import opened Text

  // ---------------------------------------------------------------------------
  // Session tokens (get_initial_data)
  // ---------------------------------------------------------------------------

  const ViewStateField := "__VIEWSTATE"
  const ViewStateGeneratorField := "__VIEWSTATEGENERATOR"
  const EventValidationField := "__EVENTVALIDATION"

  /** The three hidden-field values the server wants back with a search. */
  datatype SessionTokens = SessionTokens(viewState: string, viewStateGenerator: string, eventValidation: string)

  /**
   * The answer to the homepage request. `hiddenInputs` maps an input name to
   * the first `<input>` element of that name: `Some(v)` when it carries a
   * `value` attribute `v`, `None` when it has none.
   */
  datatype HomePage =
    | Unreachable
    | Page(status: int, hiddenInputs: map<string, Option<string>>)

  /** The value of a hidden input, or `""` when the page has no input of that name. */
  function TokenValue(inputs: map<string, Option<string>>, name: string): string
    requires name in inputs ==> inputs[name].Some?
  {
    if name in inputs then inputs[name].value else ""
  }

  /** An input of that name exists but has no `value` attribute: reading it raises. */
  predicate LacksValue(inputs: map<string, Option<string>>, name: string) {
    name in inputs && inputs[name].None?
  }

  /**
   * get_initial_data: the tokens, with `""` for a hidden input the page does
   * not have; `None` when the page cannot be fetched, the status is not 200,
   * or an input is present without a value (the `KeyError` is caught).
   */
  function InitialData(page: HomePage): (r: Option<SessionTokens>)
    ensures r.Some? <==>
              && page.Page? && page.status == 200
              && !LacksValue(page.hiddenInputs, ViewStateField)
              && !LacksValue(page.hiddenInputs, ViewStateGeneratorField)
              && !LacksValue(page.hiddenInputs, EventValidationField)
    ensures r.Some? ==>
              && (ViewStateField in page.hiddenInputs ==> r.value.viewState == page.hiddenInputs[ViewStateField].value)
              && (ViewStateField !in page.hiddenInputs ==> r.value.viewState == "")
              && (ViewStateGeneratorField in page.hiddenInputs ==> r.value.viewStateGenerator == page.hiddenInputs[ViewStateGeneratorField].value)
              && (ViewStateGeneratorField !in page.hiddenInputs ==> r.value.viewStateGenerator == "")
              && (EventValidationField in page.hiddenInputs ==> r.value.eventValidation == page.hiddenInputs[EventValidationField].value)
              && (EventValidationField !in page.hiddenInputs ==> r.value.eventValidation == "")
  {
    match page
    case Unreachable => None
    case Page(status, inputs) =>
      if status != 200 then None
      else if LacksValue(inputs, ViewStateField) || LacksValue(inputs, ViewStateGeneratorField)
              || LacksValue(inputs, EventValidationField) then None
      else Some(SessionTokens(TokenValue(inputs, ViewStateField),
                              TokenValue(inputs, ViewStateGeneratorField),
                              TokenValue(inputs, EventValidationField)))
  }

  // ---------------------------------------------------------------------------
  // The search form (search_outages)
  // ---------------------------------------------------------------------------

  /** The selectors search_outages uses when its caller gives none. */
  const DefaultCityCode := "990090345"
  const DefaultAreaCode := "61"

  /** The fields of the search form. */
  datatype FormField =
    | ScriptManager
    | SubscriberCode
    | SearchMode
    | City
    | Area
    | DateFrom
    | DateTo
    | Address
    | EventTarget
    | EventArgument
    | LastFocus
    | ViewState
    | ViewStateGenerator
    | EventValidation
    | AsyncPost
    | SearchButton
  {
    /** The name the field is posted under. */
    function Name(): string {
      match this
      case ScriptManager => "ctl00$ScriptManager1"
      case SubscriberCode => "ctl00$ContentPlaceHolder1$txtSubscriberCode"
      case SearchMode => "ctl00$ContentPlaceHolder1$outage"
      case City => "ctl00$ContentPlaceHolder1$ddlCity"
      case Area => "ctl00$ContentPlaceHolder1$ddlArea"
      case DateFrom => "ctl00$ContentPlaceHolder1$txtPDateFrom"
      case DateTo => "ctl00$ContentPlaceHolder1$txtPDateTo"
      case Address => "ctl00$ContentPlaceHolder1$txtAddress"
      case EventTarget => "__EVENTTARGET"
      case EventArgument => "__EVENTARGUMENT"
      case LastFocus => "__LASTFOCUS"
      case ViewState => ViewStateField
      case ViewStateGenerator => ViewStateGeneratorField
      case EventValidation => EventValidationField
      case AsyncPost => "__ASYNCPOST"
      case SearchButton => "ctl00$ContentPlaceHolder1$btnSearchOutage"
    }
  }

  /** No two fields are posted under the same name, so the form is a dictionary of sixteen entries. */
  lemma FieldNamesDistinct(f: FormField, g: FormField)
    requires f != g
    ensures f.Name() != g.Name()
  {
  }

  /** The partial-update marker: the update panel and the control that triggers the search. */
  const PanelTrigger := "ctl00$ContentPlaceHolder1$upOutage|ctl00$ContentPlaceHolder1$btnSearchOutage"
  const AddressMode := "rbIsAddress"
  /** The caption of the search button ("search"). */
  const SearchButtonCaption := "جستجو"

  /** The fields of the form that are always sent empty. */
  const BlankFields: set<FormField> :=
    {SubscriberCode, DateFrom, DateTo, Address, EventTarget, EventArgument, LastFocus}

  /** Every field of the form. */
  const AllFields: set<FormField> :=
    BlankFields + {ScriptManager, SearchMode, City, Area, ViewState, ViewStateGenerator, EventValidation,
                   AsyncPost, SearchButton}

  /** What search_outages sends in each field. */
  function FieldValue(f: FormField, tokens: SessionTokens, cityCode: string, areaCode: string): string {
    match f
    case ScriptManager => PanelTrigger
    case SubscriberCode => ""
    case SearchMode => AddressMode
    case City => cityCode
    case Area => areaCode
    case DateFrom => ""
    case DateTo => ""
    case Address => ""
    case EventTarget => ""
    case EventArgument => ""
    case LastFocus => ""
    case ViewState => tokens.viewState
    case ViewStateGenerator => tokens.viewStateGenerator
    case EventValidation => tokens.eventValidation
    case AsyncPost => "true"
    case SearchButton => SearchButtonCaption
  }

  /**
   * The form posted by search_outages: the selectors, the three tokens copied
   * unchanged, the protocol markers, and empty subscriber code, date range and
   * address. Every field is sent.
   */
  function SearchForm(tokens: SessionTokens, cityCode: string := DefaultCityCode, areaCode: string := DefaultAreaCode)
    : (form: map<FormField, string>)
    ensures form.Keys == AllFields
    ensures form[City] == cityCode && form[Area] == areaCode
    ensures form[ViewState] == tokens.viewState
    ensures form[ViewStateGenerator] == tokens.viewStateGenerator
    ensures form[EventValidation] == tokens.eventValidation
    ensures forall f | f in BlankFields :: form[f] == ""
    ensures form[ScriptManager] == PanelTrigger && form[AsyncPost] == "true"
    ensures form[SearchMode] == AddressMode && form[SearchButton] == SearchButtonCaption
  {
    map f | f in AllFields :: FieldValue(f, tokens, cityCode, areaCode)
  }

  /** The query and tokens a form was built from, read back from its fields. */
  function FormQuery(form: map<FormField, string>): Option<(SessionTokens, string, string)> {
    if City in form && Area in form && ViewState in form && ViewStateGenerator in form && EventValidation in form
    then Some((SessionTokens(form[ViewState], form[ViewStateGenerator], form[EventValidation]),
               form[City], form[Area]))
    else None
  }

  /** Nothing the caller passes is lost: the form gives back its tokens and selectors. */
  lemma SearchFormRoundTrip(tokens: SessionTokens, cityCode: string, areaCode: string)
    ensures FormQuery(SearchForm(tokens, cityCode, areaCode)) == Some((tokens, cityCode, areaCode))
  {
  }

  /**
   * search_outages up to the POST: no request at all when the tokens cannot
   * be read, otherwise the form for the given selectors.
   */
  function SearchRequest(page: HomePage, cityCode: string := DefaultCityCode, areaCode: string := DefaultAreaCode)
    : (r: Option<map<FormField, string>>)
    ensures r.None? <==> InitialData(page).None?
    ensures r.Some? ==> r.value == SearchForm(InitialData(page).value, cityCode, areaCode)
    ensures r.Some? ==> FormQuery(r.value) == Some((InitialData(page).value, cityCode, areaCode))
  {
    match InitialData(page)
    case None => None
    case Some(tokens) =>
      SearchFormRoundTrip(tokens, cityCode, areaCode);
      Some(SearchForm(tokens, cityCode, areaCode))
  }

  // ---------------------------------------------------------------------------
  // Outage records (parse_outages)
  // ---------------------------------------------------------------------------

  /**
   * A search response: its raw text and, in document order, the rows of the
   * markup (every `<tr>`, with the trimmed text of each of its `<td>` cells).
   */
  datatype Response = Response(text: string, rows: seq<seq<string>>)

  /**
   * One outage record. A field is `None` when its cell was empty; the present
   * fields are the dictionary's keys, in this order.
   */
  datatype Outage = Outage(
    date: Option<string>,
    startTime: Option<string>,
    endTime: Option<string>,
    region: Option<string>,
    description: Option<string>)
  {
    predicate HasField() {
      date.Some? || startTime.Some? || endTime.Some? || region.Some? || description.Some?
    }

    /** Field `k` in the column order date, start_time, end_time, region, description. */
    function Field(k: nat): Option<string>
      requires k < 5
    {
      if k == 0 then date
      else if k == 1 then startTime
      else if k == 2 then endTime
      else if k == 3 then region
      else description
    }

    /** The values of the present fields, in column order (`outage.values()`). */
    function Values(): seq<string> {
      (if date.Some? then [date.value] else [])
      + (if startTime.Some? then [startTime.value] else [])
      + (if endTime.Some? then [endTime.value] else [])
      + (if region.Some? then [region.value] else [])
      + (if description.Some? then [description.value] else [])
    }
  }

  const NoFields := Outage(None, None, None, None, None)

  /** A row is a candidate when it has at least this many cells. */
  const MinCells := 5

  /** The field a cell gives: absent when its trimmed text is empty. */
  function CellField(text: string): Option<string> {
    if text == "" then None else Some(text)
  }

  /** The record of a candidate row: cell k gives column k; cells past the fifth are not read. */
  function RowRecord(cells: seq<string>): Outage
    requires |cells| >= MinCells
  {
    Outage(CellField(cells[0]), CellField(cells[1]), CellField(cells[2]), CellField(cells[3]), CellField(cells[4]))
  }

  /** The row adds a record: it has five cells and one of the first five is not empty. */
  predicate Contributes(cells: seq<string>) {
    |cells| >= MinCells && RowRecord(cells).HasField()
  }

  /** The records of a sequence of rows, in row order. */
  function RowRecords(rows: seq<seq<string>>): seq<Outage> {
    if rows == [] then []
    else (if Contributes(rows[0]) then [RowRecord(rows[0])] else []) + RowRecords(rows[1..])
  }

  /** What parse_outages returns for a response, or for none. */
  function Outages(content: Option<Response>): seq<Outage> {
    if content.None? || content.value.text == "" then [] else RowRecords(content.value.rows)
  }

  /**
   * parse_outages: walks the rows, fills a record field by field from the
   * first five cells of each row that has at least five, and keeps the
   * records that got a field.
   */
  method ParseOutages(content: Option<Response>) returns (outages: seq<Outage>)
    ensures outages == Outages(content)
    ensures content.None? || content.value.text == "" ==> outages == []
  {
    if content.None? || content.value.text == "" {
      return [];
    }
    var rows := content.value.rows;
    outages := [];
    for i := 0 to |rows|
      invariant outages == RowRecords(rows[..i])
    {
      var cells := rows[i];
      if |cells| >= MinCells {
        var info := NoFields;
        if |cells| > 0 && cells[0] != "" {
          info := info.(date := Some(cells[0]));
        }
        if |cells| > 1 && cells[1] != "" {
          info := info.(startTime := Some(cells[1]));
        }
        if |cells| > 2 && cells[2] != "" {
          info := info.(endTime := Some(cells[2]));
        }
        if |cells| > 3 && cells[3] != "" {
          info := info.(region := Some(cells[3]));
        }
        if |cells| > 4 && cells[4] != "" {
          info := info.(description := Some(cells[4]));
        }
        if info.HasField() {
          outages := outages + [info];
        }
      }
      RowRecordsAppend(rows[..i], [rows[i]]);
      assert rows[..i + 1] == rows[..i] + [rows[i]];
    }
    assert rows[..|rows|] == rows;
  }

  /** Rows are processed one after another: parsing distributes over concatenation. */
  lemma {:induction false} RowRecordsAppend(a: seq<seq<string>>, b: seq<seq<string>>)
    ensures RowRecords(a + b) == RowRecords(a) + RowRecords(b)
  {
    if a == [] {
      assert a + b == b;
    } else {
      assert (a + b)[1..] == a[1..] + b;
      RowRecordsAppend(a[1..], b);
    }
  }

  /** A single row gives its record when it contributes and nothing otherwise. */
  lemma RowRecordsSingle(row: seq<string>)
    ensures RowRecords([row]) == if Contributes(row) then [RowRecord(row)] else []
  {
    assert [row][1..] == [];
  }

  /** A row with fewer than five cells contributes nothing, wherever it stands. */
  lemma ShortRowIgnored(before: seq<seq<string>>, row: seq<string>, after: seq<seq<string>>)
    requires |row| < MinCells
    ensures RowRecords(before + [row] + after) == RowRecords(before + after)
  {
    RowRecordsAppend(before + [row], after);
    RowRecordsAppend(before, [row]);
    RowRecordsAppend(before, after);
    RowRecordsSingle(row);
  }

  /**
   * For a row with at least five cells, field k of its record is present
   * exactly when cell k is not empty, and then it is that cell's text.
   */
  lemma RowRecordFields(cells: seq<string>, k: nat)
    requires |cells| >= MinCells && k < 5
    ensures RowRecord(cells).Field(k).Some? <==> cells[k] != ""
    ensures RowRecord(cells).Field(k).Some? ==> RowRecord(cells).Field(k).value == cells[k]
  {
  }

  /** Two rows agree on what parsing reads: both short, or the same first five cells. */
  predicate SameLeadingCells(a: seq<string>, b: seq<string>) {
    || (|a| < MinCells && |b| < MinCells)
    || (|a| >= MinCells && |b| >= MinCells && a[..MinCells] == b[..MinCells])
  }

  /** Cells past the fifth never change the records parsed from a document. */
  lemma {:induction false} ExtraCellsIgnored(rows: seq<seq<string>>, rows': seq<seq<string>>)
    requires |rows| == |rows'|
    requires forall i | 0 <= i < |rows| :: SameLeadingCells(rows[i], rows'[i])
    ensures RowRecords(rows) == RowRecords(rows')
  {
    if rows != [] {
      var a, b := rows[0], rows'[0];
      assert SameLeadingCells(a, b);
      if |a| >= MinCells {
        assert forall k | 0 <= k < MinCells :: a[k] == a[..MinCells][k] == b[..MinCells][k] == b[k];
      }
      ExtraCellsIgnored(rows[1..], rows'[1..]);
    }
  }

  /** The number of rows with at least five cells. */
  function CandidateRows(rows: seq<seq<string>>): nat {
    if rows == [] then 0 else (if |rows[0]| >= MinCells then 1 else 0) + CandidateRows(rows[1..])
  }

  /**
   * Every parsed record has a field, and there are at most as many records as
   * candidate rows.
   */
  lemma {:induction false} RowRecordsBounded(rows: seq<seq<string>>)
    ensures |RowRecords(rows)| <= CandidateRows(rows)
    ensures forall k | 0 <= k < |RowRecords(rows)| :: RowRecords(rows)[k].HasField()
  {
    if rows != [] {
      RowRecordsBounded(rows[1..]);
    }
  }

  /** An empty or missing response parses to no records. */
  lemma EmptyContentNoOutages(rows: seq<seq<string>>)
    ensures Outages(None) == [] && Outages(Some(Response("", rows))) == []
  {
  }

  // ---------------------------------------------------------------------------
  // Raw presence check (check_specific_outage)
  // ---------------------------------------------------------------------------

  /** The keywords of check_specific_outage: one bare string, or a list of them. */
  datatype SearchTerms = Single(term: string) | TermList(terms: seq<string>)

  /** A bare string is a list of one term. */
  function TermsOf(searchTerms: SearchTerms): (ts: seq<string>)
    ensures searchTerms.Single? ==> ts == [searchTerms.term]
    ensures searchTerms.TermList? ==> ts == searchTerms.terms
  {
    match searchTerms
    case Single(t) => [t]
    case TermList(ts) => ts
  }

  /** Some term occurs, case-sensitively, in the raw text. */
  predicate AnyTermIn(text: string, terms: seq<string>) {
    exists i | 0 <= i < |terms| :: Contains(text, terms[i])
  }

  /**
   * check_specific_outage: false for a missing or empty response, otherwise
   * true exactly when some term is a substring of the raw text.
   */
  method CheckSpecificOutage(content: Option<string>, searchTerms: SearchTerms) returns (found: bool)
    ensures found <==> content.Some? && content.value != "" && AnyTermIn(content.value, TermsOf(searchTerms))
  {
    if content.None? || content.value == "" {
      return false;
    }
    var terms := TermsOf(searchTerms);
    for i := 0 to |terms|
      invariant forall j | 0 <= j < i :: !Contains(content.value, terms[j])
    {
      if Contains(content.value, terms[i]) {
        return true;
      }
    }
    return false;
  }

}
