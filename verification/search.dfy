/** The sources list sent after a Perplexity answer: which results the
    response carries (`_extract_search_results`) and how each is shown as a
    numbered line (`_format_search_results`), in pplx_api/pplx_api.py. */
module Search {
  import opened Wrappers
  import opened Text

  /** A value read with `result.get(key, '')`: the key is missing (giving
      `''`), holds `null` (giving `None`), or holds a string. */
  datatype Field = Missing | Null | Str(s: string)

  /** One search result as the API returns it. */
  datatype SearchResult = SearchResult(url: Field, title: Field, date: Field)

  /** The two attributes of a response that carry sources; `None` when the
      attribute is absent or `None`. */
  datatype ApiResponse = ApiResponse(searchResults: Option<seq<SearchResult>>, citations: Option<seq<string>>)

  /** Python truthiness of a field. */
  predicate Truthy(f: Field) {
    f.Str? && f.s != ""
  }

  /** The field as an f-string shows it. */
  function Show(f: Field): string {
    match f
    case Missing => ""
    case Null => "None"
    case Str(s) => s
  }

  /** The attribute is present and holds at least one element. */
  predicate NonEmpty<T>(o: Option<seq<T>>) {
    o.Some? && |o.value| > 0
  }

  /** `_extract_search_results`: the search results when there are any, else
      one url-only result per citation, else nothing. */
  function ExtractSearchResults(r: ApiResponse): (results: seq<SearchResult>)
    ensures |results| > 0 <==> NonEmpty(r.searchResults) || NonEmpty(r.citations)
  {
    if r.searchResults.Some? && |r.searchResults.value| > 0 then r.searchResults.value
    else if r.citations.Some? && |r.citations.value| > 0 then
      var c := r.citations.value;
      seq(|c|, i requires 0 <= i < |c| => SearchResult(Str(c[i]), Str(""), Str("")))
    else []
  }

  /** The line for the result at 1-based position `n`, or `None` when it has
      neither a title nor a url. `parseDate` stands for
      `datetime.fromisoformat(date.replace('Z', '+00:00')).strftime('%Y-%m-%d')`,
      `None` where that raises. */
  function FormatEntry(n: nat, r: SearchResult, parseDate: string -> Option<string>): Option<string> {
    var prefix := Numbered(n);
    if Truthy(r.title) && Truthy(r.date) then
      match parseDate(r.date.s)
      case Some(d) => Some(prefix + "\"" + r.title.s + "\" (" + d + ") - <" + Show(r.url) + ">")
      case None => Some(prefix + "\"" + r.title.s + "\" - <" + Show(r.url) + ">")
    else if Truthy(r.title) then Some(prefix + "\"" + r.title.s + "\" - <" + Show(r.url) + ">")
    else if Truthy(r.url) then Some(prefix + "<" + r.url.s + ">")
    else None
  }

  /** `f"{i}. "`. */
  function Numbered(n: nat): string {
    NatToString(n) + ". "
  }

  /** A result gets a line exactly when it has a title or a url. */
  predicate Shown(r: SearchResult) {
    Truthy(r.title) || Truthy(r.url)
  }

  /** `_format_search_results`: one line per shown result, numbered by the
      result's position in the input. */
  function FormatSearchResults(results: seq<SearchResult>, parseDate: string -> Option<string>): (lines: seq<string>)
    ensures |lines| <= |results|
  {
    if |results| == 0 then []
    else
      var n := |results|;
      FormatSearchResults(results[..n - 1], parseDate) +
        (match FormatEntry(n, results[n - 1], parseDate) case Some(l) => [l] case None => [])
  }

  /** The 1-based positions of the shown results, in order. */
  function ShownPositions(results: seq<SearchResult>): (ps: seq<nat>)
    ensures |ps| <= |results|
    ensures forall j :: 0 <= j < |ps| ==> 1 <= ps[j] <= |results| && Shown(results[ps[j] - 1])
  {
    if |results| == 0 then []
    else
      var n := |results|;
      ShownPositions(results[..n - 1]) + (if Shown(results[n - 1]) then [n] else [])
  }

  /** Every shown result appears among the positions. */
  lemma {:induction false} ShownPositionsComplete(results: seq<SearchResult>, i: nat)
    requires i < |results| && Shown(results[i])
    ensures i + 1 in ShownPositions(results)
    decreases |results|
  {
    var n := |results|;
    var init := results[..n - 1];
    assert ShownPositions(results) == ShownPositions(init) + (if Shown(results[n - 1]) then [n] else []);
    if i < n - 1 {
      assert init[i] == results[i];
      ShownPositionsComplete(init, i);
    }
  }

  /** The positions strictly increase, so the numbers on the lines do too. */
  lemma {:induction false} ShownPositionsIncrease(results: seq<SearchResult>)
    ensures forall j, k :: 0 <= j < k < |ShownPositions(results)| ==>
              ShownPositions(results)[j] < ShownPositions(results)[k]
    decreases |results|
  {
    if |results| > 0 {
      ShownPositionsIncrease(results[..|results| - 1]);
    }
  }

  lemma FormatEntryShown(n: nat, r: SearchResult, parseDate: string -> Option<string>)
    ensures FormatEntry(n, r, parseDate).Some? <==> Shown(r)
    ensures FormatEntry(n, r, parseDate).Some? ==> StartsWith(FormatEntry(n, r, parseDate).value, Numbered(n))
  {
    var prefix := Numbered(n);
    if Shown(r) {
      var l := FormatEntry(n, r, parseDate).value;
      assert l[..|prefix|] == prefix;
    }
  }

  /** Line `j` of the sources is the line of the `j`-th shown result, numbered
      with that result's position in the input; results without title and url
      are skipped and their numbers left out. */
  lemma {:induction false} FormatSearchResultsNumbering(results: seq<SearchResult>, parseDate: string -> Option<string>)
    ensures |FormatSearchResults(results, parseDate)| == |ShownPositions(results)|
    ensures forall j :: 0 <= j < |ShownPositions(results)| ==>
              Some(FormatSearchResults(results, parseDate)[j]) ==
              FormatEntry(ShownPositions(results)[j], results[ShownPositions(results)[j] - 1], parseDate)
    ensures forall j :: 0 <= j < |ShownPositions(results)| ==>
              StartsWith(FormatSearchResults(results, parseDate)[j], Numbered(ShownPositions(results)[j]))
    decreases |results|
  {
    if |results| > 0 {
      var n := |results|;
      var init := results[..n - 1];
      FormatSearchResultsNumbering(init, parseDate);
      FormatEntryShown(n, results[n - 1], parseDate);
      var lines := FormatSearchResults(results, parseDate);
      var ps := ShownPositions(results);
      forall j | 0 <= j < |ps|
        ensures Some(lines[j]) == FormatEntry(ps[j], results[ps[j] - 1], parseDate)
        ensures StartsWith(lines[j], Numbered(ps[j]))
      {
        if j < |ShownPositions(init)| {
          assert ps[j] == ShownPositions(init)[j];
          assert lines[j] == FormatSearchResults(init, parseDate)[j];
          assert init[ps[j] - 1] == results[ps[j] - 1];
        } else {
          assert ps[j] == n;
        }
        FormatEntryShown(ps[j], results[ps[j] - 1], parseDate);
      }
    }
  }

  /** Which search results the response carries: the search results win
      whenever there are any, an empty list counting as absent; otherwise the
      citations become url-only results, one per citation in order. */
  lemma ExtractSearchResultsSpec(r: ApiResponse, citations: Option<seq<string>>)
    ensures NonEmpty(r.searchResults) ==>
              ExtractSearchResults(r) == r.searchResults.value &&
              ExtractSearchResults(r) == ExtractSearchResults(r.(citations := citations))
    ensures !NonEmpty(r.searchResults) ==>
              ExtractSearchResults(r) == ExtractSearchResults(ApiResponse(None, r.citations))
    ensures !NonEmpty(r.searchResults) ==>
              |ExtractSearchResults(r)| == (if r.citations.Some? then |r.citations.value| else 0)
    ensures !NonEmpty(r.searchResults) ==>
              forall i :: 0 <= i < |ExtractSearchResults(r)| ==>
                Show(ExtractSearchResults(r)[i].url) == r.citations.value[i] &&
                !Truthy(ExtractSearchResults(r)[i].title) && !Truthy(ExtractSearchResults(r)[i].date)
  {
  }

  /** The shape of a result's line: numbered; the title in double quotes
      exactly when it is truthy, then the date in parentheses exactly when it
      is truthy and parses; and always the url in angle brackets at the end. */
  lemma FormatEntryCases(n: nat, r: SearchResult, parseDate: string -> Option<string>)
    ensures FormatEntry(n, r, parseDate).Some? <==> Shown(r)
    ensures Shown(r) ==> StartsWith(FormatEntry(n, r, parseDate).value, Numbered(n))
    ensures Shown(r) ==> EndsWith(FormatEntry(n, r, parseDate).value, "<" + Show(r.url) + ">")
    ensures Shown(r) ==> (FormatEntry(n, r, parseDate).value[|Numbered(n)|] == '"' <==> Truthy(r.title))
    ensures Truthy(r.title) ==>
              OccursAt(FormatEntry(n, r, parseDate).value, "\"" + r.title.s + "\" ", |Numbered(n)|)
    ensures Truthy(r.title) ==>
              (FormatEntry(n, r, parseDate).value[|Numbered(n)| + |r.title.s| + 3] == '(' <==>
                 Truthy(r.date) && parseDate(r.date.s).Some?)
    ensures Truthy(r.title) && Truthy(r.date) && parseDate(r.date.s).Some? ==>
              OccursAt(FormatEntry(n, r, parseDate).value, "(" + parseDate(r.date.s).value + ") ",
                       |Numbered(n)| + |r.title.s| + 3)
    ensures !Truthy(r.title) && Truthy(r.url) ==>
              FormatEntry(n, r, parseDate).value == Numbered(n) + "<" + Show(r.url) + ">"
  {
    if Truthy(r.title) && Truthy(r.date) && parseDate(r.date.s).Some? {
      DatedEntry(Numbered(n), r.title.s, parseDate(r.date.s).value, Show(r.url));
    } else if Truthy(r.title) {
      UndatedEntry(Numbered(n), r.title.s, Show(r.url));
    } else if Truthy(r.url) {
      UrlOnlyEntry(Numbered(n), r.url.s);
    }
  }

  /** The parts of a titled line with a date. */
  lemma DatedEntry(prefix: string, title: string, d: string, url: string)
    ensures var line := prefix + "\"" + title + "\" (" + d + ") - <" + url + ">";
            StartsWith(line, prefix) &&
            EndsWith(line, "<" + url + ">") &&
            line[|prefix|] == '"' &&
            OccursAt(line, "\"" + title + "\" ", |prefix|) &&
            OccursAt(line, "(" + d + ") ", |prefix| + |title| + 3) &&
            line[|prefix| + |title| + 3] == '('
  {
    var line := prefix + "\"" + title + "\" (" + d + ") - <" + url + ">";
    var head := "\"" + title + "\" ";
    var datePart := "(" + d + ") ";
    assert "\" (" == "\" " + "(" && ") - <" == ") " + "- <";
    assert line == prefix + head + datePart + "- " + ("<" + url + ">");
    assert line[..|prefix|] == prefix;
    assert line[|prefix|..|prefix| + |head|] == head;
    assert line[|prefix| + |head|..|prefix| + |head| + |datePart|] == datePart;
    assert line[|line| - |url| - 2..] == "<" + url + ">";
  }

  /** The parts of a titled line without a date. */
  lemma UndatedEntry(prefix: string, title: string, url: string)
    ensures var line := prefix + "\"" + title + "\" - <" + url + ">";
            StartsWith(line, prefix) &&
            EndsWith(line, "<" + url + ">") &&
            line[|prefix|] == '"' &&
            OccursAt(line, "\"" + title + "\" ", |prefix|) &&
            line[|prefix| + |title| + 3] == '-'
  {
    var line := prefix + "\"" + title + "\" - <" + url + ">";
    var head := "\"" + title + "\" ";
    assert "\" - <" == "\" " + "- <";
    assert line == prefix + head + "- " + ("<" + url + ">");
    assert line[..|prefix|] == prefix;
    assert line[|prefix|..|prefix| + |head|] == head;
    assert line[|line| - |url| - 2..] == "<" + url + ">";
  }

  /** The parts of a url-only line. */
  lemma UrlOnlyEntry(prefix: string, url: string)
    ensures var line := prefix + "<" + url + ">";
            StartsWith(line, prefix) && EndsWith(line, "<" + url + ">") && line[|prefix|] == '<'
  {
    var line := prefix + "<" + url + ">";
    assert line == prefix + ("<" + url + ">");
    assert line[..|prefix|] == prefix;
    assert line[|prefix|..] == "<" + url + ">";
  }

  /** With only citations, the sources are the citation urls in order, each
      on a line `i. <url>`, whatever the date parser does. */
  lemma {:induction false} CitationsFormatted(urls: seq<string>, parseDate: string -> Option<string>)
    requires forall i :: 0 <= i < |urls| ==> urls[i] != ""
    ensures var lines := FormatSearchResults(ExtractSearchResults(ApiResponse(None, Some(urls))), parseDate);
            |lines| == |urls| &&
            forall i :: 0 <= i < |urls| ==> lines[i] == Numbered(i + 1) + "<" + urls[i] + ">"
    decreases |urls|
  {
    if |urls| > 0 {
      var n := |urls|;
      var init := urls[..n - 1];
      CitationsFormatted(init, parseDate);
      var rs := ExtractSearchResults(ApiResponse(None, Some(urls)));
      var rsInit := ExtractSearchResults(ApiResponse(None, Some(init)));
      CitationResults(urls);
      CitationResults(init);
      assert rs[..n - 1] == rsInit;
      assert rs[n - 1] == SearchResult(Str(urls[n - 1]), Str(""), Str(""));
    }
  }

  /** Citations alone become url-only results, one per citation, in order. */
  lemma CitationResults(urls: seq<string>)
    ensures |ExtractSearchResults(ApiResponse(None, Some(urls)))| == |urls|
    ensures forall i :: 0 <= i < |urls| ==>
              ExtractSearchResults(ApiResponse(None, Some(urls)))[i] == SearchResult(Str(urls[i]), Str(""), Str(""))
  {
  }
}
