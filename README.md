# Power outage discovery, modelled in Dafny

This project models how a scheduled power-outage checker and its Telegram bot find outages. It has two parts.

The checker (`main.py`):
- reads the three ASP.NET session tokens from the homepage;
- builds the search form it posts back;
- turns the table rows of the response into outage records;
- tells whether a keyword occurs anywhere in the raw response.

The Telegram bot (`telegram_bot.py`) resolves a free-text query against its registry of five areas:
- it detects the area the query names;
- it extracts the keywords left once area names are removed;
- it filters the parsed outages by those keywords;
- it decides which reply a search gets, and how the reply is truncated and split into messages.

Modules:

- `Optional` (optional.dfy): Python's `None` next to a value.
- `Text` (text.dfy): the Python string operations the code relies on, on `seq<char>`:
  - `str.isspace` with Python's whitespace set;
  - `strip()` and `split()`;
  - the substring test `t in s`;
  - `replace(t, '')`;
  - `lower()`;
  - `' '.join`.
- `PowerOutageChecker` (power_outage_checker.dfy): the checker's tokens, form, record extraction and presence check.
- `BlackoutTelegramBot` (blackout_telegram_bot.dfy): the registry, the query helpers, the filter, the result layout and chunking, and the `perform_search` decision.
- `QueryScenarios` (query_scenarios.dfy): concrete inputs against the real registry. The query scenarios fix the area detected and the keywords extracted; `FilterSample` fixes which terms a sample record matches.

Each modelled loop of the source is a method whose postcondition ties its result to a specification function or predicate. The properties are lemmas about those specifications. Covered loops:
- `parse_outages`, `check_specific_outage`;
- `detect_area_from_query`, `extract_search_terms`;
- `filter_outages_by_terms`.

The form map, the token dictionary, the term comprehension and the chunk comprehension are functions.

The inputs stand in for the I/O:
- The homepage is given as its status code and the hidden inputs it holds.
- A search response is given as its raw text and the trimmed texts of the cells of each `<tr>`, in document order.
- In `PerformSearch`, the call to `search_outages` is a function parameter `server` from (city code, area code) to the response, or `None`.

## Model

| member | source | states |
|---|---|---|
| PowerOutageChecker.InitialData | main.py:40-61 | Tokens are returned exactly when the page answered 200 and no hidden input is present without a value (a `KeyError` inside the `try` gives `None`). Each token is the input's value, or `""` when the page has no such input. |
| PowerOutageChecker.SearchForm | main.py:63-87 | The form has exactly the sixteen fields. `ddlCity`/`ddlArea` hold the selectors (default 990090345 and 61). The three tokens are copied unchanged. Subscriber code, dates, address and the three event fields are `""`. The script-manager target, `rbIsAddress`, `__ASYNCPOST = true` and the button caption `جستجو` are fixed. |
| PowerOutageChecker.FieldNamesDistinct | main.py:69-86 | The sixteen wire names of the form are pairwise distinct, so the dictionary literal loses no field. |
| PowerOutageChecker.SearchFormRoundTrip | main.py:63-87 | The tokens and both selectors can be read back from the form unchanged. |
| PowerOutageChecker.SearchRequest | main.py:63-87 | No form is built exactly when `get_initial_data` fails. Otherwise the posted form is the sixteen-field search form for the page's tokens and the requested selectors, and both can be read back from it. |
| PowerOutageChecker.ParseOutages | main.py:102-139 | The loop returns the records of the rows, in row order. It returns `[]` when the content is `None` or empty. |
| PowerOutageChecker.EmptyContentNoOutages | main.py:104-105 | Missing or empty content yields no records, whatever rows are given. |
| PowerOutageChecker.ShortRowIgnored | main.py:117 | Inserting a row with fewer than five cells anywhere changes nothing. |
| PowerOutageChecker.RowRecordFields | main.py:121-130 | Field k of a kept row's record is present exactly when cell k is non-empty, and then equals that cell's text. |
| PowerOutageChecker.ExtraCellsIgnored | main.py:121-130 | Replacing rows by rows that are likewise short, or have the same first five cells, gives the same records. Cells past the fifth never matter. |
| PowerOutageChecker.RowRecordsBounded | main.py:132-133 | There are at most as many records as rows with five or more cells, and every record has at least one field. |
| PowerOutageChecker.RowRecordsAppend | main.py:115-133 | The records of concatenated rows are the concatenated records. Order is kept; nothing is sorted or merged. |
| PowerOutageChecker.RowRecordsSingle | main.py:115-133 | A single row gives its record when it has five cells and a non-empty one among the first five, and nothing otherwise. |
| PowerOutageChecker.TermsOf | main.py:147-148 | A bare string is searched as a one-term list; a list as itself. |
| PowerOutageChecker.CheckSpecificOutage | main.py:141-157 | The result is true exactly when the content is present, non-empty, and some term is a case-sensitive substring of it. |
| BlackoutTelegramBot.DefaultAreasDistinct | telegram_bot.py:25-31 | The five registry names are distinct. |
| BlackoutTelegramBot.DetectedAreaIsFirstMatch | telegram_bot.py:262-274 | `None` exactly when no lower-cased name occurs in the lower-cased query. Otherwise the result is the first entry in declaration order whose name occurs, with exactly that entry's city and area codes. |
| BlackoutTelegramBot.DetectAreaFromQuery | telegram_bot.py:262-274 | The early-return loop computes the detected area. |
| BlackoutTelegramBot.SearchTermsOf | telegram_bot.py:276-285 | `None` exactly when only whitespace is left of the cleaned query. Otherwise the terms are non-empty, contain no whitespace, and are the words of the cleaned query. |
| BlackoutTelegramBot.ExtractSearchTerms | telegram_bot.py:276-285 | The loop that removes every name and strips the rest computes those terms. |
| BlackoutTelegramBot.StrippedTermsOfWords | telegram_bot.py:284 | The comprehension `[t.strip() for t in words if t.strip()]` leaves the words of `split()` unchanged. |
| BlackoutTelegramBot.StripNoNewOccurrence | telegram_bot.py:281 | `strip()` cannot create an occurrence of an area name. |
| BlackoutTelegramBot.CleanQueryAbsent | telegram_bot.py:279-284 | Removing names the query does not hold leaves its words unchanged. |
| BlackoutTelegramBot.NoAreaNameGivesWords | telegram_bot.py:279-285 | A query holding no registered name yields exactly its whitespace-separated words, in order, or `None` when it has none. |
| BlackoutTelegramBot.FilterOutagesByTerms | telegram_bot.py:287-298 | The nested loop with `break` computes the records that match some term, in input order. |
| BlackoutTelegramBot.MatchingOutagesAppend | telegram_bot.py:289-298 | Filtering commutes with concatenation. |
| BlackoutTelegramBot.MatchingOutagesSubsequence | telegram_bot.py:289-298 | The result is an order-preserving subsequence of the input. A record is in it exactly when it is in the input and some lower-cased term occurs in its lower-cased, space-joined values. |
| BlackoutTelegramBot.MatchingOutagesCount | telegram_bot.py:293-296 | A matching record occurs as often as in the input, never more (the `break`). A non-matching one never occurs. |
| BlackoutTelegramBot.MatchingOutagesNoTerms | telegram_bot.py:293-296 | An empty term list keeps nothing. |
| BlackoutTelegramBot.ShownOutages | telegram_bot.py:307-310 | At most ten outages are rendered: a prefix, all of them when there are ten or fewer, exactly ten otherwise. |
| BlackoutTelegramBot.FooterNoteMisfires | telegram_bot.py:307-324 | As written, exactly ten outages are all shown, yet the closing warning still says only the first ten were shown. |
| BlackoutTelegramBot.ResultLayoutAsWritten | telegram_bot.py:307-324 | The layout as written: the first ten outages are shown, and the title note appears exactly when some were left out. The closing warning appears whenever there are ten or more outages. |
| BlackoutTelegramBot.ResultLayout | telegram_bot.py:307-324 | Corrected layout: the same first ten outages are shown, a prefix of at most ten. Both the title note and the warning appear exactly when outages were left out. |
| BlackoutTelegramBot.ChunksRoundTrip | telegram_bot.py:327-330 | The 4096-character pieces concatenate back to the text, and each is non-empty and at most 4096 long. |
| BlackoutTelegramBot.ReplyChunksSound | telegram_bot.py:327-332 | Every message sent is at most 4096 characters, and together they are exactly the rendered text. |
| BlackoutTelegramBot.SearchTargetSelectors | telegram_bot.py:211-223 | The search goes to the detected area's codes. With no area named, it goes to `search_outages`' defaults, which are Sari's registry entry. |
| BlackoutTelegramBot.PresenceShortCircuit | telegram_bot.py:226-236 | With terms present and none of them in the raw response, the reply is "not found", whatever rows the response has; they are never parsed. |
| BlackoutTelegramBot.ReplyFor | telegram_bot.py:226-256 | The reply for a response, case by case:<br>- fetch failed exactly when the response is missing or empty;<br>- "not found" before parsing exactly when terms exist and none is in the raw text;<br>- "no outages" exactly when nothing parses;<br>- a filtered list of the matching parsed records when any match;<br>- "none matched" when none do;<br>- the full parsed list exactly when there are no terms.<br>Every reply except the failure names the searched area. |
| BlackoutTelegramBot.PerformSearch | telegram_bot.py:206-256 | The search queries the server at the target area's codes. The reply is a failure exactly when that response is missing or empty, names the target area otherwise, and is "not found" without parsing exactly when terms exist and none is in the raw text. |
| BlackoutTelegramBot.PerformSearchShortCircuit | telegram_bot.py:226-236 | For any server: when the target area's response is non-empty and holds none of the query's terms, the reply is "not found" with those terms and that area. |
| BlackoutTelegramBot.PerformSearchListsParsed | telegram_bot.py:238-252 | For any server: a filtered reply lists only records parsed from the target area's response that match a term. An unfiltered one lists all of them, and never none. |
| BlackoutTelegramBot.ListedOutagesSound | telegram_bot.py:238-252 | A filtered reply lists a non-empty set of parsed records, each matching a term. An unfiltered reply happens only without terms and lists all parsed records, and never none. |
| Text.TrimLeft | telegram_bot.py:281 | The leading-whitespace part of `strip()`: it keeps a suffix, drops only whitespace, and the result does not start with whitespace. |
| Text.TrimRight | telegram_bot.py:281 | The trailing-whitespace part of `strip()`: it keeps a prefix, drops only whitespace, and the result does not end with whitespace. |
| Text.Strip | telegram_bot.py:281 | `strip()`: the result neither starts nor ends with whitespace. |
| Text.StripAt | telegram_bot.py:281 | The result of `strip()` sits at the offset where the leading whitespace ends, with only whitespace before and after it. |
| Text.StripSlice | telegram_bot.py:281 | `strip()` is a slice of the string with only whitespace around it, and it is empty exactly when the string is all whitespace. |
| Text.Words | telegram_bot.py:284 | `split()`: no word is empty or holds whitespace, and there is no word exactly when the string is all whitespace. |
| Text.WordsOfWord | telegram_bot.py:284 | A non-empty run without whitespace splits into exactly itself. |
| Text.WordsSplitAtSpace | telegram_bot.py:284 | A whitespace character separates: the words of `a + c + b` are the words of `a` followed by those of `b`. Together with the previous row this fixes what `split()` returns, not only its shape. |
| Text.WordsStrip | telegram_bot.py:281-284 | `s.strip().split() == s.split()`. |
| Text.Contains | main.py:151 | `t in s`: an occurrence fits only in a string at least as long, the empty string occurs everywhere, and a prefix occurrence counts. |
| Text.RemoveAll | telegram_bot.py:281 | `replace(t, '')`: it never lengthens the string, an empty or longer `t` changes nothing, and a leading occurrence is dropped before the rest is scanned. |
| Text.RemoveAllShrinks | telegram_bot.py:281 | When a non-empty `t` occurs, `replace(t, '')` removes at least one whole occurrence: the result is shorter by at least `len(t)`. |
| Text.Lower | telegram_bot.py:264 | `lower()` restricted to ASCII: the length is kept, each capital `A`-`Z` becomes the letter 32 code points above it, in place, no capital is left, and every other character stays unchanged. |
| Text.JoinSpace | telegram_bot.py:292 | `' '.join`: empty for no values, the value itself for one, and every value occurs in the joined text. |
| Text.JoinSpaceAppend | telegram_bot.py:292 | Joining two non-empty lists end to end is joining each and putting one space between them. |
| Text.RemoveAllAbsent | telegram_bot.py:281 | `replace(name, '')` on a string without `name` changes nothing. |
| QueryScenarios.SariWithKeywords | telegram_bot.py:262-285 | "ساری شهاب نیا" is resolved to Sari (990090345, 61) with keywords ["شهاب", "نیا"]. |
| QueryScenarios.AmolAlone | telegram_bot.py:262-285 | "آمل" is resolved to Amol (990090346, 62) with no keywords. |
| QueryScenarios.NoAreaInQuery | telegram_bot.py:262-285 | "خیابان امام" names no area, and its two words are the keywords. |
| QueryScenarios.FilterSample | telegram_bot.py:287-298 | A record whose description is "53- شهاب نیا" matches the term "شهاب نیا" and does not match "نوشهر". |

## Left out

- HTTP: the session, its headers, and the GET and POST requests with their status handling. The homepage is an input; the POST response is the `server` parameter of `PerformSearch`.
- BeautifulSoup: `find`, `find_all` and `get_text(strip=True)`. The rows arrive as trimmed cell texts, and the hidden inputs as a map from name to the first input's value attribute.
- The `try`/`except` blocks: nothing in the model raises. In `parse_outages` (main.py:137-139) the handler only logs and returns `[]`; in `perform_search` (telegram_bot.py:258-260) it sends an error reply. Neither path is modelled.
- `save_to_csv`, `save_raw_html` and `run_check`: these are file export and logging-driven orchestration.
- The Telegram layer:
  - the handlers, keyboards and `Application`;
  - `latest_command`, `search_command`, `areas_command`, `button_callback` and `handle_message`;
  - the Markdown text of every message.
  `SearchReply` stands for the reply sent.
- The rendering of each outage line in `send_outages_result`: `ReplyChunks` takes the rendered text as its input.
- Logging everywhere.
- `setup_bot.py`, `test_bot.py` and `example_usage.py`: installation, environment checks and demos.
- Text.Lower: maps only ASCII letters, not the full Unicode `str.lower()`. Persian letters have no case, which is why the concrete scenarios hold.
- `PowerOutageChecker` and `BlackoutTelegramBot` are not classes: the modelled operations update no fields. The registry is passed to the helpers as a parameter, with `DefaultAreas` as its value.

## Findings

| source | as written | input that shows it | evidently intended | confidence | as-written member | corrected member |
|---|---|---|---|---|---|---|
| telegram_bot.py:323-324 | The closing warning is added when `len(outages) == max_results`, tested after truncation. | Exactly ten outages: all ten are shown, and the message still says only the first ten are shown. | Warn only when outages were left out (`len > 10` before truncation), as the title note does at 308-310. | not executed | BlackoutTelegramBot.FooterNoteMisfires | BlackoutTelegramBot.ResultLayout |
