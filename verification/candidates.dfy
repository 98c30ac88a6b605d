/** `Searcher._compute_candidates`: the articles whose titles match the query in the
    full-text index, each with its summary, its cleaned URL and its two relevance scores. */
module Candidates {
  import opened Outcomes
  import opened Text
  import opened Numerals
  import opened Archive
  import opened Extractor

  /** `Candidate`: an article that may answer the query. */
  datatype Candidate = Candidate(rowId: int, summary: string, url: string, embScore: real, bm25Score: real)

  /** A candidate before its BM25 score is known. */
  datatype Scored = Scored(rowId: int, summary: string, url: string, embScore: real)

  /** More matches than this are not ranked. */
  const MaxCandidates := 2000

  /** The prefix of the message that replaces the candidates of a query matching too much. */
  const TooManyPrefix := "Query had too many candidates to sort through: "

  /** `"* ".join(query.split(" ")) + "*"`: the full-text expression. */
  function MatchExpression(query: string): string {
    Join(Split(query, " "), "* ") + "*"
  }

  /** Each word with the prefix-match star appended. */
  function Starred(words: seq<string>): (r: seq<string>)
    ensures |r| == |words|
    ensures forall k :: 0 <= k < |words| ==> r[k] == words[k] + "*"
  {
    seq(|words|, k requires 0 <= k < |words| => words[k] + "*")
  }

  /** Joining with `"* "` and appending `"*"` is making every word a prefix pattern. */
  lemma {:induction false} JoinStarred(words: seq<string>)
    requires |words| >= 1
    ensures Join(words, "* ") + "*" == Join(Starred(words), " ")
    decreases |words|
  {
    if |words| > 1 {
      JoinStarred(words[1..]);
      assert Starred(words)[1..] == Starred(words[1..]);
      assert words == [words[0]] + words[1..];
      JoinCons(words[0], words[1..], "* ");
      assert Starred(words) == [words[0] + "*"] + Starred(words[1..]);
      JoinCons(words[0] + "*", Starred(words[1..]), " ");
    }
  }

  /** The expression asks for titles with a word starting with each word of the query. */
  lemma MatchExpressionWords(query: string)
    ensures MatchExpression(query) == Join(Starred(Split(query, " ")), " ")
  {
    JoinStarred(Split(query, " "));
  }

  /** The URL with underscores, the `(disambiguation)` suffix and parentheses removed. */
  function CleanUrl(url: string): string {
    var noUnderscore := Replace(url, "_", "");
    var noSuffix := Replace(noUnderscore, "(disambiguation)", "");
    var noOpen := Replace(noSuffix, "(", "");
    Replace(noOpen, ")", "")
  }

  /** A cleaned URL holds no underscore or parenthesis and no character the URL lacks. */
  lemma CleanUrlChars(url: string)
    ensures '_' !in CleanUrl(url) && '(' !in CleanUrl(url) && ')' !in CleanUrl(url)
    ensures forall c :: c in CleanUrl(url) ==> c in url
  {
    var noUnderscore := Replace(url, "_", "");
    var noSuffix := Replace(noUnderscore, "(disambiguation)", "");
    var noOpen := Replace(noSuffix, "(", "");
    DeleteCharRemovesIt(url, '_');
    DeleteKeepsChars(url, "_");
    DeleteKeepsChars(noUnderscore, "(disambiguation)");
    DeleteCharRemovesIt(noSuffix, '(');
    DeleteKeepsChars(noSuffix, "(");
    DeleteCharRemovesIt(noOpen, ')');
    DeleteKeepsChars(noOpen, ")");
  }

  /** A URL without underscores and parentheses is already clean. */
  lemma CleanUrlOfClean(url: string)
    requires '_' !in url && '(' !in url && ')' !in url
    ensures CleanUrl(url) == url
  {
    ContainsChar(url, '_');
    DeleteAbsent(url, "_");
    forall i | 0 <= i <= |url| - 16
      ensures !OccursAt(url, "(disambiguation)", i)
    {
      assert url[i..i + 16][0] == url[i] && url[i] in url;
    }
    DeleteAbsent(url, "(disambiguation)");
    ContainsChar(url, '(');
    DeleteAbsent(url, "(");
    ContainsChar(url, ')');
    DeleteAbsent(url, ")");
  }

  /** Deleting the underscores of a title with one appended `_`-prefixed suffix. */
  lemma DeleteUnderscoreBeforeSuffix(base: string, suffix: string)
    requires '_' !in base && '_' !in suffix
    ensures Replace(base + "_" + suffix, "_", "") == base + suffix
  {
    assert base + "_" + suffix == base + ['_'] + suffix;
    SplitAtChar(base, '_', suffix);
    ContainsChar(suffix, '_');
    SplitNoSeparator(suffix, "_");
    JoinCons(base, [suffix], "");
  }

  /** Deleting a suffix that starts with a character the title lacks. */
  lemma DeleteSuffix(base: string, suffix: string)
    requires |suffix| > 0 && suffix[0] !in base
    ensures Replace(base + suffix, suffix, "") == base
  {
    var short := base + suffix[..|suffix| - 1];
    forall i | 0 <= i <= |short| - |suffix|
      ensures !OccursAt(short, suffix, i)
    {
      assert short[i..i + |suffix|][0] == base[i] && base[i] in base;
    }
    SplitFirstOccurrence(base, suffix, "");
    assert base + suffix + "" == base + suffix;
    SplitNoSeparator("", suffix);
    JoinCons(base, [""], "");
  }

  /** Two URLs that agree once underscores and the suffix are gone clean alike. */
  lemma CleanUrlAfterSuffix(u: string, v: string)
    requires Replace(Replace(u, "_", ""), "(disambiguation)", "") == Replace(Replace(v, "_", ""), "(disambiguation)", "")
    ensures CleanUrl(u) == CleanUrl(v)
  {
  }

  /** The disambiguation page of a clean title cleans to the title: the `_(disambiguation)`
      suffix goes as a whole, not letter by letter. */
  lemma CleanDisambiguation(base: string)
    requires '_' !in base && '(' !in base && ')' !in base
    ensures CleanUrl(base + "_(disambiguation)") == base
  {
    var d := "(disambiguation)";
    var url := base + "_" + d;
    assert url == base + "_(disambiguation)";
    DeleteUnderscoreBeforeSuffix(base, d);
    DeleteSuffix(base, d);
    ContainsChar(base, '_');
    DeleteAbsent(base, "_");
    CleanUrlAfterSuffix(url, base);
    CleanUrlOfClean(base);
  }

  /** The candidate standing in for the ranking when a query matches too many titles. */
  function Diagnostic(count: nat): Candidate {
    Candidate(-1, TooManyPrefix + NatToString(count), "na", 0.0, 0.0)
  }

  /** The diagnostic's count can be read back from its text. */
  lemma DiagnosticCount(count: nat)
    ensures |Diagnostic(count).summary| > |TooManyPrefix|
    ensures Diagnostic(count).summary[..|TooManyPrefix|] == TooManyPrefix
    ensures DigitsValue(Diagnostic(count).summary[|TooManyPrefix|..]) == count
  {
    var s := Diagnostic(count).summary;
    assert s[|TooManyPrefix|..] == NatToString(count);
    NatToStringValue(count);
  }

  /** What the extractor makes of each index row's article. */
  type Summarizer = int -> Outcome<Option<string>>

  /** The summary extracted from the article of an index row. */
  function SummaryAt(a: Archive, row: int): Outcome<Option<string>> {
    Extract(a.pageAt(row))
  }

  /** The extractor applied to the archive's rows. */
  function SummarizerOf(a: Archive): (r: Summarizer)
    ensures forall row :: r(row) == SummaryAt(a, row)
    ensures OnlyIndexErrors(r)
  {
    row => SummaryAt(a, row)
  }

  /** The extractor raises nothing but `IndexError`. */
  ghost predicate OnlyIndexErrors(summary: Summarizer) {
    forall row :: summary(row).Raised? ==> summary(row).exception == IndexError
  }

  /** A row whose article yields a non-empty summary. */
  predicate Usable(summary: Summarizer, row: int) {
    summary(row).Ok? && summary(row).value.Some? && |summary(row).value.value| > 0
  }

  /** The usable rows, in index order. */
  function UsableRows(summary: Summarizer, rows: seq<int>): (r: seq<int>)
    ensures |r| <= |rows|
    ensures forall row :: row in r <==> row in rows && Usable(summary, row)
    decreases |rows|
  {
    if |rows| == 0 then []
    else (if Usable(summary, rows[0]) then [rows[0]] else []) + UsableRows(summary, rows[1..])
  }

  /** Some row's article makes the extractor raise. */
  predicate SomeRowRaises(summary: Summarizer, rows: seq<int>) {
    exists i :: 0 <= i < |rows| && summary(rows[i]).Raised?
  }

  /** The loop over the rows: every usable row in order, with its embedding score. */
  function Gather(a: Archive, summary: Summarizer, query: string, rows: seq<int>): (r: Outcome<seq<Scored>>)
    ensures r.Raised? && OnlyIndexErrors(summary) ==> r.exception == IndexError
    ensures r.Ok? ==> |r.value| <= |rows|
    decreases |rows|
  {
    if |rows| == 0 then Ok([])
    else
      var row := rows[0];
      var url := CleanUrl(a.urlAt(row));
      var s :- summary(row);
      var rest :- Gather(a, summary, query, rows[1..]);
      if s.Some? && |s.value| > 0 then
        Ok([Scored(row, s.value, url, a.similarity(query, url))] + rest)
      else Ok(rest)
  }

  /** The loop raises exactly when some row's article makes the extractor raise. */
  lemma {:induction false} GatherRaises(a: Archive, summary: Summarizer, query: string, rows: seq<int>)
    ensures Gather(a, summary, query, rows).Raised? <==> SomeRowRaises(summary, rows)
    decreases |rows|
  {
    if |rows| > 0 {
      GatherRaises(a, summary, query, rows[1..]);
      if SomeRowRaises(summary, rows[1..]) {
        var i :| 0 <= i < |rows[1..]| && summary(rows[1..][i]).Raised?;
        assert summary(rows[i + 1]).Raised?;
      }
      if SomeRowRaises(summary, rows) && !summary(rows[0]).Raised? {
        var i :| 0 <= i < |rows| && summary(rows[i]).Raised?;
        assert summary(rows[1..][i - 1]).Raised?;
      }
    }
  }

  /** `e` is the entry the loop makes for `row`: its summary, its cleaned URL and the
      similarity of that URL to the query. */
  predicate EntryOf(a: Archive, summary: Summarizer, query: string, e: Scored, row: int) {
    && e.rowId == row
    && summary(row) == Ok(Some(e.summary))
    && e.url == CleanUrl(a.urlAt(row))
    && e.embScore == a.similarity(query, e.url)
  }

  /** The entries are the usable rows in index order, each with its summary, its cleaned URL
      and the similarity of that URL to the query. */
  lemma {:induction false} GatherEntries(a: Archive, summary: Summarizer, query: string, rows: seq<int>)
    requires Gather(a, summary, query, rows).Ok?
    ensures var entries := Gather(a, summary, query, rows).value;
      var usable := UsableRows(summary, rows);
      && |entries| == |usable|
      && forall k :: 0 <= k < |entries| ==> EntryOf(a, summary, query, entries[k], usable[k])
    decreases |rows|
  {
    if |rows| > 0 {
      var row := rows[0];
      var entries := Gather(a, summary, query, rows).value;
      var rest := Gather(a, summary, query, rows[1..]).value;
      var usableRest := UsableRows(summary, rows[1..]);
      GatherEntries(a, summary, query, rows[1..]);
      if Usable(summary, row) {
        var url := CleanUrl(a.urlAt(row));
        var e := Scored(row, summary(row).value.value, url, a.similarity(query, url));
        assert entries == [e] + rest;
        assert UsableRows(summary, rows) == [row] + usableRest;
        assert EntryOf(a, summary, query, e, row);
      } else {
        assert entries == rest;
        assert UsableRows(summary, rows) == usableRest;
      }
    }
  }

  function Summaries(entries: seq<Scored>): (r: seq<string>)
    ensures |r| == |entries|
    ensures forall k :: 0 <= k < |entries| ==> r[k] == entries[k].summary
  {
    seq(|entries|, k requires 0 <= k < |entries| => entries[k].summary)
  }

  /** `Searcher._compute_candidates(query)`. */
  function Compute(a: Archive, query: string): Outcome<seq<Candidate>> {
    var rows := a.matches(MatchExpression(query));
    if |rows| == 0 then Ok([])
    else if |rows| > MaxCandidates then Ok([Diagnostic(|rows|)])
    else
      var entries :- Gather(a, SummarizerOf(a), query, rows);
      if |entries| == 0 then Ok([])
      else
        var scores := a.bm25(Split(query, " "), Summaries(entries));
        if |scores| < |entries| then Raised(IndexError)
        else
          Ok(seq(|entries|, k requires 0 <= k < |entries| =>
            Candidate(entries[k].rowId, entries[k].summary, entries[k].url, entries[k].embScore, scores[k])))
  }

  /** The rows the index returns for a query. */
  function Rows(a: Archive, query: string): seq<int> {
    a.matches(MatchExpression(query))
  }

  /** A query without matches has no candidates; one with more than 2000 has the diagnostic
      alone, whatever the articles hold. */
  lemma ComputeLimits(a: Archive, query: string)
    ensures |Rows(a, query)| == 0 ==> Compute(a, query) == Ok([])
    ensures |Rows(a, query)| > 2000 ==> Compute(a, query) == Ok([Diagnostic(|Rows(a, query)|)])
  {
  }

  /** When between 1 and 2000 rows match, the candidates are exactly the usable rows in index
      order, each with its summary, cleaned URL, embedding score and BM25 score. */
  lemma ComputeRanksUsableRows(a: Archive, query: string)
    requires 1 <= |Rows(a, query)| <= 2000
    requires Compute(a, query).Ok?
    ensures var cs := Compute(a, query).value;
      var usable := UsableRows(SummarizerOf(a), Rows(a, query));
      && |cs| == |usable|
      && forall k :: 0 <= k < |cs| ==>
        && cs[k].rowId == usable[k]
        && SummaryAt(a, cs[k].rowId) == Ok(Some(cs[k].summary)) && |cs[k].summary| > 0
        && cs[k].url == CleanUrl(a.urlAt(cs[k].rowId))
        && cs[k].embScore == a.similarity(query, cs[k].url)
        && cs[k].bm25Score == a.bm25(Split(query, " "), Summaries(Gather(a, SummarizerOf(a), query, Rows(a, query)).value))[k]
  {
    var summary := SummarizerOf(a);
    var rows := Rows(a, query);
    var usable := UsableRows(summary, rows);
    var entries := Gather(a, summary, query, rows).value;
    GatherEntries(a, summary, query, rows);
    forall k | 0 <= k < |entries|
      ensures |entries[k].summary| > 0
    {
      assert EntryOf(a, summary, query, entries[k], usable[k]);
      assert usable[k] in usable;
    }
  }

  /** Computing the candidates raises exactly when some matched article makes the extractor
      raise or the BM25 scorer returns fewer scores than there are candidates. */
  lemma ComputeRaises(a: Archive, query: string)
    ensures var summary := SummarizerOf(a);
      Compute(a, query).Raised? <==>
      var rows := Rows(a, query);
      && 1 <= |rows| <= 2000
      && (|| SomeRowRaises(summary, rows)
          || (&& Gather(a, summary, query, rows).Ok? && |UsableRows(summary, rows)| > 0
              && |a.bm25(Split(query, " "), Summaries(Gather(a, summary, query, rows).value))| < |UsableRows(summary, rows)|))
    ensures Compute(a, query).Raised? ==> Compute(a, query).exception == IndexError
  {
    var summary := SummarizerOf(a);
    var rows := Rows(a, query);
    GatherRaises(a, summary, query, rows);
    if Gather(a, summary, query, rows).Ok? {
      GatherEntries(a, summary, query, rows);
    }
  }
}
