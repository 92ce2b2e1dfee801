/**
 * The query handling of the Telegram bot (telegram_bot.py): the registry of
 * areas, finding the area a free-text query names, the keywords left once
 * area names are removed, filtering parsed outages by those keywords, the
 * shape of the reply, and the decision `perform_search` takes on a response.
 *
 * Handlers, keyboards and message texts are not modelled; the replies are the
 * datatype `SearchReply`, one constructor per outcome.
 */
module BlackoutTelegramBot {
  import opened Optional
  import opened Text
  import opened PowerOutageChecker

  // ---------------------------------------------------------------------------
  // The area registry (default_areas)
  // ---------------------------------------------------------------------------

  datatype AreaCodes = AreaCodes(cityCode: string, areaCode: string)

  /** An ordered dictionary from area name to its selectors, in declaration order. */
  type Registry = seq<(string, AreaCodes)>

  const Sari := "ساری"
  const Amol := "آمل"
  const Babol := "بابل"
  /** The name holds a zero-width non-joiner (U+200C) between its two parts. */
  const Qaemshahr := "قائم\U{200C}شهر"
  const Nowshahr := "نوشهر"

  /** `default_areas`. */
  const DefaultAreas: Registry := [
    (Sari, AreaCodes("990090345", "61")),
    (Amol, AreaCodes("990090346", "62")),
    (Babol, AreaCodes("990090347", "63")),
    (Qaemshahr, AreaCodes("990090348", "64")),
    (Nowshahr, AreaCodes("990090349", "65"))
  ]

  predicate DistinctNames(areas: Registry) {
    forall i, j | 0 <= i < j < |areas| :: areas[i].0 != areas[j].0
  }

  /** The registry is a dictionary: no name is declared twice. */
  lemma DefaultAreasDistinct()
    ensures DistinctNames(DefaultAreas)
  {
  }

  // ---------------------------------------------------------------------------
  // detect_area_from_query
  // ---------------------------------------------------------------------------

  /** The area detect_area_from_query returns: its name and its two selectors. */
  datatype AreaInfo = AreaInfo(areaName: string, cityCode: string, areaCode: string)

  function InfoOf(entry: (string, AreaCodes)): AreaInfo {
    AreaInfo(entry.0, entry.1.cityCode, entry.1.areaCode)
  }

  /** The area name occurs in the query, ignoring case. */
  predicate NameOccurs(name: string, query: string) {
    Contains(Lower(query), Lower(name))
  }

  /** Entry `i` is the first, in declaration order, whose name occurs in the query. */
  predicate FirstOccurring(areas: Registry, query: string, i: int) {
    && 0 <= i < |areas|
    && NameOccurs(areas[i].0, query)
    && forall j | 0 <= j < i :: !NameOccurs(areas[j].0, query)
  }

  /** The area of the first registered name that occurs in the query. */
  function DetectedArea(areas: Registry, query: string): Option<AreaInfo> {
    if areas == [] then None
    else if NameOccurs(areas[0].0, query) then Some(InfoOf(areas[0]))
    else DetectedArea(areas[1..], query)
  }

  /**
   * No area is detected exactly when no registered name occurs; otherwise the
   * area is the first entry whose name occurs, with that entry's selectors.
   */
  lemma {:induction false} DetectedAreaIsFirstMatch(areas: Registry, query: string)
    ensures DetectedArea(areas, query).None? <==> forall i | 0 <= i < |areas| :: !NameOccurs(areas[i].0, query)
    ensures DetectedArea(areas, query).Some? ==>
              exists i :: FirstOccurring(areas, query, i) && DetectedArea(areas, query).value == InfoOf(areas[i])
  {
    if areas != [] {
      DetectedAreaIsFirstMatch(areas[1..], query);
      if NameOccurs(areas[0].0, query) {
        assert FirstOccurring(areas, query, 0);
      } else {
        if DetectedArea(areas[1..], query).Some? {
          var i :| FirstOccurring(areas[1..], query, i) && DetectedArea(areas[1..], query).value == InfoOf(areas[1..][i]);
          assert FirstOccurring(areas, query, i + 1);
        }
        assert forall i | 1 <= i < |areas| :: areas[i] == areas[1..][i - 1];
      }
    }
  }

  /**
   * detect_area_from_query: lower-cases the query, then walks the registry in
   * order and returns the first entry whose lower-cased name occurs in it.
   */
  method DetectAreaFromQuery(areas: Registry, query: string) returns (info: Option<AreaInfo>)
    ensures info == DetectedArea(areas, query)
  {
    var queryLower := Lower(query);
    for i := 0 to |areas|
      invariant DetectedArea(areas[i..], query) == DetectedArea(areas, query)
    {
      var (name, codes) := areas[i];
      if Contains(queryLower, Lower(name)) {
        return Some(AreaInfo(name, codes.cityCode, codes.areaCode));
      }
      assert areas[i..][1..] == areas[i + 1..];
    }
    return None;
  }

  // ---------------------------------------------------------------------------
  // extract_search_terms
  // ---------------------------------------------------------------------------

  /** The query once every registered name, in order, is removed and the rest stripped. */
  function CleanQuery(query: string, areas: Registry): string
    decreases |areas|
  {
    if areas == [] then query
    else CleanQuery(Strip(RemoveAll(query, areas[0].0)), areas[1..])
  }

  /** `[t.strip() for t in words if t.strip()]`. */
  function StrippedTerms(words: seq<string>): seq<string> {
    if words == [] then []
    else (if Strip(words[0]) != "" then [Strip(words[0])] else []) + StrippedTerms(words[1..])
  }

  /** The comprehension leaves the words of `split()` as they are. */
  lemma {:induction false} StrippedTermsOfWords(words: seq<string>)
    requires forall k | 0 <= k < |words| :: words[k] != [] && NoSpace(words[k])
    ensures StrippedTerms(words) == words
  {
    if words != [] {
      var w := words[0];
      assert !IsSpace(w[0]) && !IsSpace(w[|w| - 1]) by {
        assert NoSpace(w);
      }
      StripUnchanged(w);
      assert forall k | 0 <= k < |words[1..]| :: words[1..][k] == words[k + 1];
      StrippedTermsOfWords(words[1..]);
    }
  }

  /**
   * What extract_search_terms returns: `None` exactly when nothing but
   * whitespace is left of the query, otherwise non-empty terms without
   * whitespace.
   */
  function SearchTermsOf(areas: Registry, query: string): (r: Option<seq<string>>)
    ensures r.None? <==> AllSpace(CleanQuery(query, areas))
    ensures r.Some? ==> r.value != [] && forall k | 0 <= k < |r.value| :: r.value[k] != "" && NoSpace(r.value[k])
    ensures r.Some? ==> r.value == Words(CleanQuery(query, areas))
  {
    var words := Words(CleanQuery(query, areas));
    StrippedTermsOfWords(words);
    var terms := StrippedTerms(words);
    if terms == [] then None else Some(terms)
  }

  /**
   * extract_search_terms: removes each registered name in turn (stripping
   * after each), splits what is left and keeps the non-empty terms.
   */
  method ExtractSearchTerms(areas: Registry, query: string) returns (terms: Option<seq<string>>)
    ensures terms == SearchTermsOf(areas, query)
  {
    var queryClean := query;
    for i := 0 to |areas|
      invariant CleanQuery(queryClean, areas[i..]) == CleanQuery(query, areas)
    {
      assert areas[i..][1..] == areas[i + 1..];
      queryClean := Strip(RemoveAll(queryClean, areas[i].0));
    }
    var words := Words(queryClean);
    var kept := StrippedTerms(words);
    terms := if kept == [] then None else Some(kept);
  }

  /** `strip()` keeps a slice of the string, so it adds no occurrence. */
  lemma StripNoNewOccurrence(s: string, t: string)
    requires !Contains(s, t)
    ensures !Contains(Strip(s), t)
  {
    StripAt(s);
    var r, lo := Strip(s), StripStart(s);
    if Contains(r, t) {
      ContainsSlice(s, lo, lo + |r|, t);
    }
  }

  /** Removing names the query does not hold leaves its words as they are. */
  lemma {:induction false} CleanQueryAbsent(query: string, areas: Registry)
    requires forall i | 0 <= i < |areas| :: !Contains(query, areas[i].0)
    ensures Words(CleanQuery(query, areas)) == Words(query)
  {
    if areas != [] {
      RemoveAllAbsent(query, areas[0].0);
      var next := Strip(query);
      WordsStrip(query);
      forall i | 0 <= i < |areas[1..]|
        ensures !Contains(next, areas[1..][i].0)
      {
        StripNoNewOccurrence(query, areas[i + 1].0);
      }
      CleanQueryAbsent(next, areas[1..]);
    }
  }

  /**
   * A query that holds no registered name (case-sensitively, as `replace`
   * matches) gives exactly its whitespace-separated words, in order.
   */
  lemma NoAreaNameGivesWords(areas: Registry, query: string)
    requires forall i | 0 <= i < |areas| :: !Contains(query, areas[i].0)
    ensures SearchTermsOf(areas, query) == if Words(query) == [] then None else Some(Words(query))
  {
    CleanQueryAbsent(query, areas);
  }

  // ---------------------------------------------------------------------------
  // filter_outages_by_terms
  // ---------------------------------------------------------------------------

  /** `' '.join(str(v) for v in outage.values()).lower()`. */
  function OutageText(o: Outage): string {
    Lower(JoinSpace(o.Values()))
  }

  /** `term.lower() in text`. */
  predicate TermOccurs(text: string, term: string) {
    Contains(text, Lower(term))
  }

  /** Some term, lower-cased, occurs in the outage's text. */
  predicate MatchesSomeTerm(o: Outage, terms: seq<string>) {
    exists i | 0 <= i < |terms| :: TermOccurs(OutageText(o), terms[i])
  }

  /** The outages that match some term, in input order. */
  function MatchingOutages(outages: seq<Outage>, terms: seq<string>): seq<Outage> {
    if outages == [] then []
    else (if MatchesSomeTerm(outages[0], terms) then [outages[0]] else []) + MatchingOutages(outages[1..], terms)
  }

  lemma {:induction false} MatchingOutagesAppend(a: seq<Outage>, b: seq<Outage>, terms: seq<string>)
    ensures MatchingOutages(a + b, terms) == MatchingOutages(a, terms) + MatchingOutages(b, terms)
  {
    if a == [] {
      assert a + b == b;
    } else {
      var c := a + b;
      assert c != [] && c[0] == a[0] && c[1..] == a[1..] + b;
      assert MatchingOutages(c, terms)
             == (if MatchesSomeTerm(a[0], terms) then [a[0]] else []) + MatchingOutages(a[1..] + b, terms);
      MatchingOutagesAppend(a[1..], b, terms);
    }
  }

  /** One more record: it is appended exactly when it matches. */
  lemma MatchingOutagesStep(outages: seq<Outage>, i: nat, terms: seq<string>)
    requires i < |outages|
    ensures MatchingOutages(outages[..i + 1], terms)
            == MatchingOutages(outages[..i], terms) + if MatchesSomeTerm(outages[i], terms) then [outages[i]] else []
  {
    MatchingOutagesAppend(outages[..i], [outages[i]], terms);
    assert outages[..i + 1] == outages[..i] + [outages[i]];
  }

  /**
   * filter_outages_by_terms: for each outage, tries the terms in turn and
   * appends the outage at the first one that occurs in its text.
   */
  method FilterOutagesByTerms(outages: seq<Outage>, searchTerms: seq<string>) returns (filtered: seq<Outage>)
    ensures filtered == MatchingOutages(outages, searchTerms)
  {
    filtered := [];
    for i := 0 to |outages|
      invariant filtered == MatchingOutages(outages[..i], searchTerms)
    {
      var outage := outages[i];
      var outageText := OutageText(outage);
      ghost var before, matched := filtered, false;
      var j := 0;
      while j < |searchTerms|
        invariant 0 <= j <= |searchTerms|
        invariant forall k | 0 <= k < j :: !TermOccurs(outageText, searchTerms[k])
        invariant filtered == before && !matched
      {
        if TermOccurs(outageText, searchTerms[j]) {
          filtered := filtered + [outage];
          matched := true;
          assert MatchesSomeTerm(outage, searchTerms);
          break;
        }
        j := j + 1;
      }
      assert matched == MatchesSomeTerm(outage, searchTerms);
      MatchingOutagesStep(outages, i, searchTerms);
    }
    assert outages[..|outages|] == outages;
  }

  /** `xs` is `ys` with some elements left out, the rest in their order. */
  predicate IsSubsequence<T(==)>(xs: seq<T>, ys: seq<T>)
    decreases |ys|
  {
    || xs == []
    || (ys != [] && ((xs[0] == ys[0] && IsSubsequence(xs[1..], ys[1..])) || IsSubsequence(xs, ys[1..])))
  }

  /**
   * The filter keeps an order-preserving subsequence of its input, and a
   * record is in it exactly when it is in the input and matches some term.
   */
  lemma {:induction false} MatchingOutagesSubsequence(outages: seq<Outage>, terms: seq<string>)
    ensures IsSubsequence(MatchingOutages(outages, terms), outages)
    ensures forall o :: o in MatchingOutages(outages, terms) <==> o in outages && MatchesSomeTerm(o, terms)
  {
    if outages != [] {
      MatchingOutagesSubsequence(outages[1..], terms);
      var rest := MatchingOutages(outages[1..], terms);
      var xs := MatchingOutages(outages, terms);
      if MatchesSomeTerm(outages[0], terms) {
        assert xs == [outages[0]] + rest;
        assert xs[0] == outages[0] && xs[1..] == rest;
      } else {
        assert xs == rest;
        assert xs == [] || IsSubsequence(xs, outages[1..]);
      }
      assert forall o :: o in outages <==> o == outages[0] || o in outages[1..];
    }
  }

  /** Every record is kept as often as it occurs in the input when it matches, and never otherwise. */
  lemma {:induction false} MatchingOutagesCount(outages: seq<Outage>, terms: seq<string>, o: Outage)
    ensures multiset(MatchingOutages(outages, terms))[o] == if MatchesSomeTerm(o, terms) then multiset(outages)[o] else 0
  {
    if outages != [] {
      MatchingOutagesCount(outages[1..], terms, o);
      assert outages == [outages[0]] + outages[1..];
    }
  }

  /** With no terms, nothing is kept. */
  lemma {:induction false} MatchingOutagesNoTerms(outages: seq<Outage>)
    ensures MatchingOutages(outages, []) == []
  {
    if outages != [] {
      MatchingOutagesNoTerms(outages[1..]);
    }
  }

  // ---------------------------------------------------------------------------
  // send_outages_result: truncation and splitting
  // ---------------------------------------------------------------------------

  const MaxResults := 10
  const MaxMessageLength := 4096

  /** The outages rendered: the first ten. */
  function ShownOutages(outages: seq<Outage>): (shown: seq<Outage>)
    ensures |shown| <= MaxResults && |shown| <= |outages|
    ensures shown == outages[..|shown|]
    ensures |outages| <= MaxResults ==> shown == outages
    ensures |outages| > MaxResults ==> |shown| == MaxResults
  {
    if |outages| > MaxResults then outages[..MaxResults] else outages
  }

  /**
   * The layout of a result message: the outages rendered, whether the title
   * says only the first ten are shown, and whether the closing warning says so.
   */
  datatype Layout = Layout(shown: seq<Outage>, titleNote: bool, footerNote: bool)

  /** The layout as the source computes it: the warning is added whenever ten outages are rendered. */
  function ResultLayoutAsWritten(outages: seq<Outage>): (l: Layout)
    ensures l.shown == ShownOutages(outages)
    ensures l.titleNote <==> l.shown != outages
    ensures l.footerNote <==> |outages| >= MaxResults
  {
    var shown := ShownOutages(outages);
    Layout(shown, |outages| > MaxResults, |shown| == MaxResults)
  }

  /** With exactly ten outages nothing is left out, yet the warning says it was. */
  lemma FooterNoteMisfires(outages: seq<Outage>)
    requires |outages| == MaxResults
    ensures ResultLayoutAsWritten(outages).shown == outages
    ensures ResultLayoutAsWritten(outages).footerNote && !ResultLayoutAsWritten(outages).titleNote
  {
  }

  /** The layout with the warning added under the same condition as the title note. */
  function ResultLayout(outages: seq<Outage>): (l: Layout)
    ensures l.shown == ShownOutages(outages)
    ensures |l.shown| <= MaxResults && |l.shown| <= |outages| && l.shown == outages[..|l.shown|]
    ensures l.titleNote <==> l.shown != outages
    ensures l.footerNote <==> l.shown != outages
  {
    var shown := ShownOutages(outages);
    Layout(shown, |outages| > MaxResults, |outages| > MaxResults)
  }

  function Min(a: int, b: int): int {
    if a <= b then a else b
  }

  /** The number of pieces `range(0, len(text), 4096)` gives. */
  function ChunkCount(n: nat): nat {
    (n + MaxMessageLength - 1) / MaxMessageLength
  }

  /** `[text[i:i+4096] for i in range(0, len(text), 4096)]`. */
  function Chunks(text: string): seq<string> {
    seq(ChunkCount(|text|), i requires 0 <= i < ChunkCount(|text|) =>
      text[i * MaxMessageLength .. Min(i * MaxMessageLength + MaxMessageLength, |text|)])
  }

  /** The messages sent for a rendered text: the text itself, or its pieces when it is too long. */
  function ReplyChunks(text: string): seq<string> {
    if |text| > MaxMessageLength then Chunks(text) else [text]
  }

  function Concat(parts: seq<string>): string {
    if parts == [] then "" else parts[0] + Concat(parts[1..])
  }

  lemma ChunksUnfold(text: string)
    requires |text| > MaxMessageLength
    ensures Chunks(text) == [text[..MaxMessageLength]] + Chunks(text[MaxMessageLength..])
  {
    var rest := text[MaxMessageLength..];
    assert ChunkCount(|text|) == 1 + ChunkCount(|rest|);
    var a, b := Chunks(text), [text[..MaxMessageLength]] + Chunks(rest);
    forall i | 0 <= i < |a|
      ensures a[i] == b[i]
    {
      if i > 0 {
        var k := i - 1;
        var lo, hi := k * MaxMessageLength, Min(k * MaxMessageLength + MaxMessageLength, |rest|);
        assert i * MaxMessageLength == MaxMessageLength + lo;
        assert Min(i * MaxMessageLength + MaxMessageLength, |text|) == MaxMessageLength + hi;
        assert b[i] == Chunks(rest)[k] == rest[lo..hi];
        assert a[i] == text[MaxMessageLength + lo..MaxMessageLength + hi];
        SliceOfSuffix(text, MaxMessageLength, lo, hi);
      }
    }
  }

  lemma {:induction false} ChunksRoundTrip(text: string)
    ensures Concat(Chunks(text)) == text
    ensures forall k | 0 <= k < |Chunks(text)| :: 0 < |Chunks(text)[k]| <= MaxMessageLength
    decreases |text|
  {
    if |text| > MaxMessageLength {
      ChunksUnfold(text);
      ChunksRoundTrip(text[MaxMessageLength..]);
      assert text == text[..MaxMessageLength] + text[MaxMessageLength..];
    } else if text == "" {
      assert ChunkCount(0) == 0;
    } else {
      assert ChunkCount(|text|) == 1;
      assert Chunks(text)[0] == text[0..|text|] == text;
      assert Chunks(text) == [text];
    }
  }

  /**
   * Every message sent is at most 4096 characters, and the messages put back
   * together are exactly the rendered text.
   */
  lemma ReplyChunksSound(text: string)
    ensures Concat(ReplyChunks(text)) == text
    ensures forall k | 0 <= k < |ReplyChunks(text)| :: |ReplyChunks(text)[k]| <= MaxMessageLength
  {
    if |text| > MaxMessageLength {
      ChunksRoundTrip(text);
    } else {
      assert Concat([text]) == text + Concat([]);
    }
  }

  // ---------------------------------------------------------------------------
  // perform_search
  // ---------------------------------------------------------------------------

  /** The area perform_search reports when the query names none. */
  const DefaultAreaName := Sari

  /** The outcome of a search, one constructor per reply perform_search sends. */
  datatype SearchReply =
    | FetchFailed
      /** The raw response holds none of the terms; nothing was parsed. */
    | NotPresent(terms: seq<string>, areaName: string)
      /** Outages were parsed, but none matches a term. */
    | NoneMatched(terms: seq<string>, areaName: string)
    | NoOutages(areaName: string)
    | Matching(outages: seq<Outage>, areaName: string)
    | AllOutages(outages: seq<Outage>, areaName: string)

  /** The area searched: the one the query names, or Sari with search_outages' default selectors. */
  function SearchTarget(areas: Registry, query: string): AreaInfo {
    match DetectedArea(areas, query)
    case Some(info) => info
    case None => AreaInfo(DefaultAreaName, DefaultCityCode, DefaultAreaCode)
  }

  /** The reply perform_search sends for the response to its search. */
  function ReplyFor(areas: Registry, query: string, areaName: string, response: Option<Response>): (r: SearchReply)
    ensures r.FetchFailed? <==> response.None? || response.value.text == ""
    ensures !r.FetchFailed? ==> r.areaName == areaName
    ensures r.NotPresent? <==>
              && !r.FetchFailed? && SearchTermsOf(areas, query).Some?
              && !AnyTermIn(response.value.text, SearchTermsOf(areas, query).value)
    ensures r.NotPresent? || r.NoneMatched? ==> Some(r.terms) == SearchTermsOf(areas, query)
    ensures r.NoOutages? <==> !r.FetchFailed? && !r.NotPresent? && Outages(response) == []
    ensures r.Matching? ==>
              && SearchTermsOf(areas, query).Some?
              && r.outages == MatchingOutages(Outages(response), SearchTermsOf(areas, query).value) != []
    ensures r.NoneMatched? <==>
              && !r.FetchFailed? && !r.NotPresent? && Outages(response) != [] && SearchTermsOf(areas, query).Some?
              && MatchingOutages(Outages(response), SearchTermsOf(areas, query).value) == []
    ensures r.AllOutages? <==> !r.FetchFailed? && SearchTermsOf(areas, query).None? && Outages(response) != []
    ensures r.AllOutages? ==> r.outages == Outages(response)
  {
    if response.None? || response.value.text == "" then FetchFailed
    else
      var terms := SearchTermsOf(areas, query);
      if terms.Some? && !AnyTermIn(response.value.text, terms.value) then NotPresent(terms.value, areaName)
      else
        var outages := Outages(response);
        if outages == [] then NoOutages(areaName)
        else if terms.Some? then
          var filtered := MatchingOutages(outages, terms.value);
          if filtered != [] then Matching(filtered, areaName) else NoneMatched(terms.value, areaName)
        else AllOutages(outages, areaName)
  }

  /**
   * perform_search: searches the target area, `server` standing for
   * search_outages (the response, or `None` when the site cannot be reached).
   */
  function PerformSearch(areas: Registry, query: string, server: (string, string) -> Option<Response>): (r: SearchReply)
    ensures var target := SearchTarget(areas, query);
            var response := server(target.cityCode, target.areaCode);
            && (r.FetchFailed? <==> response.None? || response.value.text == "")
            && (!r.FetchFailed? ==> r.areaName == target.areaName)
            && (r.NotPresent? <==> !r.FetchFailed? && SearchTermsOf(areas, query).Some?
                                   && !AnyTermIn(response.value.text, SearchTermsOf(areas, query).value))
  {
    var target := SearchTarget(areas, query);
    var response := server(target.cityCode, target.areaCode);
    ReplyFor(areas, query, target.areaName, response)
  }

  /**
   * When the query leaves terms and none occurs in the raw response, the
   * reply is "not found" whatever rows the response holds: they are never
   * parsed.
   */
  lemma PresenceShortCircuit(areas: Registry, query: string, areaName: string, text: string, rows: seq<seq<string>>)
    requires text != ""
    requires SearchTermsOf(areas, query).Some?
    requires !AnyTermIn(text, SearchTermsOf(areas, query).value)
    ensures ReplyFor(areas, query, areaName, Some(Response(text, rows)))
            == NotPresent(SearchTermsOf(areas, query).value, areaName)
  {
  }

  /**
   * The search goes to the detected area's selectors; with no area in the
   * query it goes to search_outages' defaults, which are Sari's registry entry.
   */
  lemma SearchTargetSelectors(query: string)
    ensures DetectedArea(DefaultAreas, query).Some? ==> SearchTarget(DefaultAreas, query) == DetectedArea(DefaultAreas, query).value
    ensures DetectedArea(DefaultAreas, query).None? ==> SearchTarget(DefaultAreas, query) == InfoOf(DefaultAreas[0])
  {
  }

  /**
   * A reply that lists outages never lists none, so the "no result" branch of
   * send_outages_result is unreachable from perform_search; and every listed
   * outage came from the response and, when filtered, matches a term.
   */
  lemma ListedOutagesSound(areas: Registry, query: string, areaName: string, response: Option<Response>)
    ensures ReplyFor(areas, query, areaName, response).Matching? ==>
              && ReplyFor(areas, query, areaName, response).outages != []
              && SearchTermsOf(areas, query).Some?
              && forall o | o in ReplyFor(areas, query, areaName, response).outages ::
                   o in Outages(response) && MatchesSomeTerm(o, SearchTermsOf(areas, query).value)
    ensures ReplyFor(areas, query, areaName, response).AllOutages? ==>
              && SearchTermsOf(areas, query).None?
              && ReplyFor(areas, query, areaName, response).outages == Outages(response) != []
  {
    var terms := SearchTermsOf(areas, query);
    if terms.Some? {
      MatchingOutagesSubsequence(Outages(response), terms.value);
    }
  }

  /**
   * The presence short-circuit seen from perform_search: whatever the server
   * sends for the target area, when it is non-empty, its raw text holds none of
   * the query's terms, the reply is "not found" and the rows are never parsed.
   */
  lemma PerformSearchShortCircuit(areas: Registry, query: string, server: (string, string) -> Option<Response>,
                                  text: string, rows: seq<seq<string>>)
    requires server(SearchTarget(areas, query).cityCode, SearchTarget(areas, query).areaCode) == Some(Response(text, rows))
    requires text != ""
    requires SearchTermsOf(areas, query).Some?
    requires !AnyTermIn(text, SearchTermsOf(areas, query).value)
    ensures PerformSearch(areas, query, server)
            == NotPresent(SearchTermsOf(areas, query).value, SearchTarget(areas, query).areaName)
  {
    PresenceShortCircuit(areas, query, SearchTarget(areas, query).areaName, text, rows);
  }

  /** Every outage perform_search lists was parsed from the target area's response. */
  lemma PerformSearchListsParsed(areas: Registry, query: string, server: (string, string) -> Option<Response>)
    ensures var target := SearchTarget(areas, query);
            var response := server(target.cityCode, target.areaCode);
            var r := PerformSearch(areas, query, server);
            && (r.Matching? ==> forall o | o in r.outages ::
                                  o in Outages(response) && MatchesSomeTerm(o, SearchTermsOf(areas, query).value))
            && (r.AllOutages? ==> r.outages == Outages(response) != [])
  {
    var target := SearchTarget(areas, query);
    ListedOutagesSound(areas, query, target.areaName, server(target.cityCode, target.areaCode));
  }

}
