/**
 * Worked queries against the registry `default_areas`: the area found and the
 * keywords left, and the filter on a record of the kind the checker looks
 * for ("53- شهاب نیا").
 */
module QueryScenarios {
  import opened Optional
  import opened Text
  import opened PowerOutageChecker
  import opened BlackoutTelegramBot

  // ---------------------------------------------------------------------------
  // Steps on concrete strings
  // ---------------------------------------------------------------------------

  /** A string no position of which starts with the first three characters of `t` does not hold `t`. */
  lemma AbsentByPrefix(s: string, t: string)
    requires |t| >= 3
    requires forall i | 0 <= i && i + |t| <= |s| :: s[i] != t[0] || s[i + 1] != t[1] || s[i + 2] != t[2]
    ensures !Contains(s, t)
  {
    forall i: nat | i <= |s|
      ensures !OccursAt(s, t, i)
    {
      if i + |t| <= |s| {
        var w := s[i..i + |t|];
        assert w[0] == s[i] && w[1] == s[i + 1] && w[2] == s[i + 2];
      }
    }
  }

  /** Removing a string that starts `s` and does not occur after it leaves the rest. */
  lemma RemoveLeading(s: string, t: string)
    requires t != [] && |t| <= |s| && s[..|t|] == t && !Contains(s[|t|..], t)
    ensures RemoveAll(s, t) == s[|t|..]
  {
    RemoveAllAbsent(s[|t|..], t);
  }

  /** `strip()` of a string with one leading space and no other space at its ends. */
  lemma StripOneLeading(s: string)
    requires |s| >= 2 && IsSpace(s[0]) && !IsSpace(s[1]) && !IsSpace(s[|s| - 1])
    ensures Strip(s) == s[1..]
  {
    assert TrimLeft(s[1..]) == s[1..];
    StripUnchanged(s[1..]);
  }

  /** The words of a string of two words separated by one space. */
  lemma TwoWords(s: string, a: string, b: string)
    requires a != "" && b != "" && NoSpace(a) && NoSpace(b)
    requires s == a + " " + b
    ensures Words(s) == [a, b]
  {
    assert s == a + [' '] + b;
    WordsSplitAtSpace(a, ' ', b);
    WordsOfWord(a);
    WordsOfWord(b);
  }

  /** The query has no whitespace-only remainder when its remainder has words. */
  lemma TermsFromWords(query: string, words: seq<string>)
    requires Words(CleanQuery(query, DefaultAreas)) == words && words != []
    ensures SearchTermsOf(DefaultAreas, query) == Some(words)
  {
  }

  /** The registry after Sari. */
  lemma AfterSari()
    ensures DefaultAreas[1..] == [(Amol, AreaCodes("990090346", "62")), (Babol, AreaCodes("990090347", "63")),
                                  (Qaemshahr, AreaCodes("990090348", "64")), (Nowshahr, AreaCodes("990090349", "65"))]
  {
  }

  // ---------------------------------------------------------------------------
  // "ساری شهاب نیا"
  // ---------------------------------------------------------------------------

  lemma SariQueryNamesSari(query: string)
    requires query == "ساری شهاب نیا"
    ensures NameOccurs(Sari, query)
  {
    LowerUnchanged(query);
    LowerUnchanged(Sari);
    assert query[0..4] == Sari;
    assert OccursAt(Lower(query), Lower(Sari), 0);
  }

  lemma SariQueryFirstStep(query: string, rest: string)
    requires query == "ساری شهاب نیا" && rest == "شهاب نیا"
    ensures CleanQuery(query, DefaultAreas) == CleanQuery(rest, DefaultAreas[1..])
  {
    var tail := query[4..];
    assert query[..4] == Sari && tail == " " + rest;
    AbsentByPrefix(tail, Sari);
    RemoveLeading(query, Sari);
    StripOneLeading(tail);
    assert tail[1..] == rest;
  }

  lemma SariRemainderHoldsNoName(rest: string)
    requires rest == "شهاب نیا"
    ensures forall i | 0 <= i < |DefaultAreas[1..]| :: !Contains(rest, DefaultAreas[1..][i].0)
  {
    AbsentByPrefix(rest, Amol);
    AbsentByPrefix(rest, Babol);
    AbsentByPrefix(rest, Qaemshahr);
    AbsentByPrefix(rest, Nowshahr);
    AfterSari();
  }

  lemma SariRemainderWords(rest: string)
    requires rest == "شهاب نیا"
    ensures Words(CleanQuery(rest, DefaultAreas[1..])) == Words(rest)
  {
    SariRemainderHoldsNoName(rest);
    CleanQueryAbsent(rest, DefaultAreas[1..]);
  }

  lemma SariRemainderTwoWords(rest: string)
    requires rest == "شهاب نیا"
    ensures Words(rest) == ["شهاب", "نیا"]
  {
    TwoWords(rest, "شهاب", "نیا");
  }

  /** "ساری شهاب نیا" searches Sari for the two words after the name. */
  lemma SariWithKeywords(query: string)
    requires query == "ساری شهاب نیا"
    ensures DetectedArea(DefaultAreas, query) == Some(AreaInfo(Sari, "990090345", "61"))
    ensures SearchTermsOf(DefaultAreas, query) == Some(["شهاب", "نیا"])
  {
    SariQueryNamesSari(query);
    var rest := "شهاب نیا";
    SariQueryFirstStep(query, rest);
    SariRemainderWords(rest);
    SariRemainderTwoWords(rest);
    TermsFromWords(query, ["شهاب", "نیا"]);
  }

  // ---------------------------------------------------------------------------
  // "آمل"
  // ---------------------------------------------------------------------------

  lemma AmolQueryDetection(query: string)
    requires query == Amol
    ensures !NameOccurs(Sari, query) && NameOccurs(Amol, query)
  {
    LowerUnchanged(query);
    LowerUnchanged(Sari);
    AbsentByPrefix(query, Sari);
    assert OccursAt(query, Amol, 0);
  }

  lemma AmolQueryPassesSari(query: string)
    requires query == Amol
    ensures CleanQuery(query, DefaultAreas) == CleanQuery(query, DefaultAreas[1..])
  {
    assert RemoveAll(query, Sari) == query;
    StripUnchanged(query);
  }

  lemma AmolQueryRemovesAmol(query: string)
    requires query == Amol
    ensures CleanQuery(query, DefaultAreas[1..]) == CleanQuery("", DefaultAreas[2..])
  {
    assert query[..|Amol|] == Amol && query[|Amol|..] == "";
    RemoveLeading(query, Amol);
    assert Strip("") == "";
    assert DefaultAreas[1..][1..] == DefaultAreas[2..];
  }

  lemma NothingLeft()
    ensures Words(CleanQuery("", DefaultAreas[2..])) == []
  {
    CleanQueryAbsent("", DefaultAreas[2..]);
  }

  /** "آمل" alone selects Amol and leaves no keyword. */
  lemma AmolAlone(query: string)
    requires query == "آمل"
    ensures DetectedArea(DefaultAreas, query) == Some(AreaInfo(Amol, "990090346", "62"))
    ensures SearchTermsOf(DefaultAreas, query) == None
  {
    AmolQueryDetection(query);
    AmolQueryPassesSari(query);
    AmolQueryRemovesAmol(query);
    NothingLeft();
  }

  // ---------------------------------------------------------------------------
  // "خیابان امام"
  // ---------------------------------------------------------------------------

  lemma StreetQueryHoldsNoName(query: string)
    requires query == "خیابان امام"
    ensures forall i | 0 <= i < |DefaultAreas| :: !Contains(query, DefaultAreas[i].0)
  {
    AbsentByPrefix(query, Sari);
    AbsentByPrefix(query, Amol);
    AbsentByPrefix(query, Babol);
    AbsentByPrefix(query, Qaemshahr);
    AbsentByPrefix(query, Nowshahr);
  }

  lemma StreetQueryNamesNoArea(query: string)
    requires query == "خیابان امام"
    ensures forall i | 0 <= i < |DefaultAreas| :: !NameOccurs(DefaultAreas[i].0, query)
  {
    StreetQueryHoldsNoName(query);
    LowerUnchanged(query);
    LowerUnchanged(Sari);
    LowerUnchanged(Amol);
    LowerUnchanged(Babol);
    LowerUnchanged(Qaemshahr);
    LowerUnchanged(Nowshahr);
  }

  lemma StreetQueryDetection(query: string)
    requires query == "خیابان امام"
    ensures DetectedArea(DefaultAreas, query) == None
  {
    StreetQueryNamesNoArea(query);
    DetectedAreaIsFirstMatch(DefaultAreas, query);
  }

  /** The street query splits at its one space into two words. */
  lemma StreetQueryWords(query: string)
    requires query == "خیابان امام"
    ensures Words(query) == ["خیابان", "امام"]
  {
    var street, name := query[..6], query[7..];
    assert street == "خیابان" && name == "امام";
    TwoWords(query, street, name);
  }

  lemma StreetQueryTerms(query: string)
    requires query == "خیابان امام"
    ensures SearchTermsOf(DefaultAreas, query) == if Words(query) == [] then None else Some(Words(query))
  {
    StreetQueryHoldsNoName(query);
    NoAreaNameGivesWords(DefaultAreas, query);
  }

  /** "خیابان امام" names no area; its two words are the keywords. */
  lemma NoAreaInQuery(query: string)
    requires query == "خیابان امام"
    ensures DetectedArea(DefaultAreas, query) == None
    ensures SearchTermsOf(DefaultAreas, query) == Some(["خیابان", "امام"])
  {
    StreetQueryDetection(query);
    StreetQueryTerms(query);
    StreetQueryWords(query);
  }

  // ---------------------------------------------------------------------------
  // Filtering a record
  // ---------------------------------------------------------------------------

  /** A record whose description is `text`, every other field missing. */
  function DescriptionOnly(text: string): (o: Outage)
    ensures o.Values() == [text]
  {
    Outage(None, None, None, None, Some(text))
  }

  /** A term is matched anywhere in the record's text; a different area name is not. */
  lemma FilterSample(text: string, term: string)
    requires text == "53- شهاب نیا" && term == "شهاب نیا"
    ensures MatchingOutages([DescriptionOnly(text)], [term]) == [DescriptionOnly(text)]
    ensures MatchingOutages([DescriptionOnly(text)], [Nowshahr]) == []
  {
    var o := DescriptionOnly(text);
    LowerUnchanged(text);
    assert OutageText(o) == text;
    LowerUnchanged(term);
    LowerUnchanged(Nowshahr);
    assert text[4..12] == term;
    assert OccursAt(text, term, 4);
    assert Contains(OutageText(o), Lower([term][0]));
    AbsentByPrefix(text, Nowshahr);
    assert !MatchesSomeTerm(o, [Nowshahr]);
    assert [o][1..] == [];
  }

}
