/** The `Searcher`: the three search stages, the busy flag around a search, and the age of
    the archive snapshot read from its file name. */
module Engine {
  import opened Outcomes
  import opened Text
  import opened Casing
  import opened Numerals
  import opened Archive
  import opened Extractor
  import opened Candidates
  import opened Ranking

  /** `Article`: an answer and how long finding it took. */
  datatype Article = Article(summary: string, duration: real)

  /** The searcher's state: the busy flag, the snapshot's age in months, and the table of
      built-in articles it falls back on (always `EXTRA_ARTICLES` for a searcher `Open`
      builds). */
  datatype Searcher = Searcher(locked: bool, age: int, extras: map<string, string>)

  /** How a call of the searcher ends: it waits forever on a flag nobody clears, or it
      returns (or raises) and leaves the searcher in state `after`. */
  datatype Flight = Spins | Landed(result: Outcome<Option<Article>>, after: Searcher)

  /** The current calendar month, read from the clock. */
  datatype Month = Month(year: int, month: int)

  // ---------------------------------------------------------------------------------------
  // The stages

  /** `query.title().replace(" ", "_")`: the URL key of an article titled like the query. */
  function TitleKey(query: string): string {
    Replace(Title(query), " ", "_")
  }

  /** The key has the query's length, an underscore for each space, and elsewhere the query's
      character in title case, so it differs from the query only in case and spaces. */
  lemma TitleKeyShape(query: string)
    ensures |TitleKey(query)| == |query|
    ensures ' ' !in TitleKey(query)
    ensures forall i :: 0 <= i < |query| && query[i] == ' ' ==> TitleKey(query)[i] == '_'
    ensures forall i :: 0 <= i < |query| && query[i] != ' ' ==>
      TitleKey(query)[i] == Title(query)[i] && ToLower(TitleKey(query)[i]) == ToLower(query[i])
  {
    ReplaceChar(Title(query), ' ', '_');
    assert forall i :: 0 <= i < |query| ==> (Title(query)[i] == ' ' <==> query[i] == ' ');
  }

  /** `Searcher._get_fast_article`: the article whose URL key is the title-cased query. */
  function Fast(a: Archive, query: string): Outcome<Option<Article>> {
    match a.byUrl(TitleKey(query))
    case None => Ok(None)
    case Some(page) =>
      var summary :- Extract(page);
      if summary.None? then Ok(None) else Ok(Some(Article(summary.value, a.fastDuration)))
  }

  /** `Searcher._get_slow_article`: the best-ranked candidate of the full-text index. */
  function Slow(a: Archive, query: string): Outcome<Option<Article>> {
    var candidates :- Compute(a, query);
    match Pick(candidates)
    case None => Ok(None)
    case Some(best) => Ok(Some(Article(best.summary, a.slowDuration)))
  }

  /** `Searcher._get_extra_article`: the built-in article stored under the query itself. */
  function Extra(extras: map<string, string>, query: string): Option<Article> {
    if query in extras then Some(Article(extras[query], 0.0)) else None
  }

  /** `Searcher._perform_search`: the first answer of the fast, slow and built-in stages. */
  function Perform(a: Archive, extras: map<string, string>, query: string): Outcome<Option<Article>> {
    var fast :- Fast(a, query);
    if fast.Some? then Ok(fast)
    else
      var slow :- Slow(a, query);
      if slow.Some? then Ok(slow) else Ok(Extra(extras, query))
  }

  /** The fast stage answers exactly when the title-cased key names an article the extractor
      accepts, and its answer is that article's summary. */
  lemma FastAnswers(a: Archive, query: string)
    ensures Fast(a, query).Ok? && Fast(a, query).value.Some? <==>
      a.byUrl(TitleKey(query)).Some? && Extract(a.byUrl(TitleKey(query)).value).Ok?
      && Extract(a.byUrl(TitleKey(query)).value).value.Some?
    ensures Fast(a, query).Ok? && Fast(a, query).value.Some? ==>
      Fast(a, query).value.value
        == Article(Extract(a.byUrl(TitleKey(query)).value).value.value, a.fastDuration)
  {
  }

  /** The slow stage answers exactly when there is a candidate, with the summary of the last
      candidate whose score is greatest. */
  lemma SlowAnswers(a: Archive, query: string)
    requires Compute(a, query).Ok?
    ensures Slow(a, query).Ok?
    ensures Slow(a, query).value.None? <==> |Compute(a, query).value| == 0
    ensures Slow(a, query).value.Some? ==>
      var cs := Compute(a, query).value;
      exists i :: IsLastMax(cs, i) && Slow(a, query).value.value == Article(cs[i].summary, a.slowDuration)
  {
    PickIsLastMax(Compute(a, query).value);
  }

  /** The built-in table is an exact, case-sensitive lookup answering in no time. */
  lemma ExtraAnswers(query: string)
    ensures Extra(ExtraArticles, query).Some? <==> query == "meshtastic"
    ensures Extra(ExtraArticles, query).Some? ==> Extra(ExtraArticles, query).value == Article(MeshtasticArticle, 0.0)
  {
  }

  /** The stages run in order and the first answer wins; a stage that raises ends the
      search, and the built-in table is consulted only when both others found nothing. */
  lemma PerformOrder(a: Archive, extras: map<string, string>, query: string)
    ensures Fast(a, query).Raised? ==> Perform(a, extras, query) == Fast(a, query)
    ensures Fast(a, query).Ok? && Fast(a, query).value.Some? ==> Perform(a, extras, query) == Fast(a, query)
    ensures Fast(a, query) == Ok(None) ==>
      if Slow(a, query).Raised? || Slow(a, query).value.Some? then Perform(a, extras, query) == Slow(a, query)
      else Perform(a, extras, query) == Ok(Extra(extras, query))
  {
  }

  /** A built-in article is found even when the archive has nothing at all. */
  lemma BuiltInAlwaysAnswered(a: Archive, extras: map<string, string>, query: string)
    requires query in extras
    requires a.byUrl(TitleKey(query)).None?
    requires |a.matches(MatchExpression(query))| == 0
    ensures Perform(a, extras, query) == Ok(Some(Article(extras[query], 0.0)))
  {
  }

  // ---------------------------------------------------------------------------------------
  // The busy flag

  /** `Searcher.__call__` around a search whose outcome is `run`: a set flag is waited on;
      otherwise the flag is set, the search runs, and the flag is cleared only when the search
      returns, since nothing clears it when the search raises. */
  function Guard(s: Searcher, run: Outcome<Option<Article>>): Flight {
    if s.locked then Spins
    else Landed(run, s.(locked := run.Raised?))
  }

  /** `searcher(query)`. */
  function Search(s: Searcher, a: Archive, query: string): Flight {
    Guard(s, Perform(a, s.extras, query))
  }

  /** A call on an idle searcher returns what the search returns, and leaves the searcher
      idle exactly when the search did not raise; the age never changes. */
  lemma SearchKeepsFlag(s: Searcher, a: Archive, query: string)
    requires !s.locked
    ensures Search(s, a, query).Landed?
    ensures Search(s, a, query).result == Perform(a, s.extras, query)
    ensures Search(s, a, query).after == s.(locked := Perform(a, s.extras, query).Raised?)
    ensures !Search(s, a, query).after.locked <==> Perform(a, s.extras, query).Ok?
  {
  }

  /** After a search that raised, every later call waits forever. */
  lemma RaiseWedges(s: Searcher, run: Outcome<Option<Article>>, next: Outcome<Option<Article>>)
    requires !s.locked && run.Raised?
    ensures Guard(s, run).Landed? && Guard(Guard(s, run).after, next) == Spins
  {
  }

  // ---------------------------------------------------------------------------------------
  // The snapshot's age

  /** `_age_months(year, month)` at the given clock month. */
  function AgeMonths(now: Month, year: int, month: int): int {
    (now.year - year) * 12 + (now.month - month)
  }

  /** The number of months since the start of the era, for a month of 1 to 12. */
  function MonthIndex(year: int, month: int): int {
    year * 12 + (month - 1)
  }

  /** The age counts the calendar months between the snapshot and now: a clock `k` months
      after the snapshot's month reads an age of `k`. */
  lemma AgeCountsMonths(year: int, month: int, k: int)
    requires 1 <= month <= 12
    ensures var later := MonthIndex(year, month) + k;
      AgeMonths(Month(later / 12, later % 12 + 1), year, month) == k
  {
  }

  /** `zim_location.split("_")[-1].split(".")[0].split("-")` read as `int(date[0])` and
      `int(date[1])`, in that order. */
  function SnapshotDate(path: string): Outcome<(int, int)> {
    var date := Split(Stem(path), "-");
    var year :- ParseInt(date[0]);
    if |date| < 2 then Raised(IndexError)
    else
      var month :- ParseInt(date[1]);
      Ok((year, month))
  }

  /** The searcher `Searcher(zim_location, ...)` builds: idle, with the snapshot's age. */
  function Open(path: string, now: Month): Outcome<Searcher> {
    var date :- SnapshotDate(path);
    Ok(Searcher(false, AgeMonths(now, date.0, date.1), ExtraArticles))
  }

  /** The text after the last underscore, cut at its first dot. */
  function Stem(path: string): string {
    var pieces := Split(path, "_");
    Split(pieces[|pieces| - 1], ".")[0]
  }

  /** A numeral holds no underscore, dot or dash. */
  lemma NumeralHasNoMarks(digits: string)
    requires AllDigits(digits)
    ensures '_' !in digits && '.' !in digits && '-' !in digits
  {
    assert forall i :: 0 <= i < |digits| ==> digits[i] != '_' && digits[i] != '.' && digits[i] != '-';
  }

  /** The stem of `<anything>_<date>.<extension>` is the date, when the date and the
      extension hold no underscore and the date no dot. */
  lemma StemOfName(dir: string, date: string, ext: string)
    requires '_' !in date && '.' !in date && '_' !in ext
    ensures Stem(dir + "_" + date + "." + ext) == date
  {
    var name := date + "." + ext;
    assert '_' !in name by {
      forall i | 0 <= i < |name|
        ensures name[i] != '_'
      {
        if i < |date| {
          assert name[i] == date[i];
        } else if i > |date| {
          assert name[i] == ext[i - |date| - 1];
        }
      }
    }
    assert dir + "_" + date + "." + ext == dir + ['_'] + name;
    LastPiece(dir, '_', name);
    SplitAtChar(date, '.', ext);
  }

  /** `"<year>-<month>".split("-")` is the year and the month. */
  lemma DateFields(year: string, month: string)
    requires AllDigits(year) && AllDigits(month)
    ensures Split(year + "-" + month, "-") == [year, month]
  {
    NumeralHasNoMarks(year);
    NumeralHasNoMarks(month);
    SplitAtChar(year, '-', month);
    ContainsChar(month, '-');
    SplitNoSeparator(month, "-");
  }

  /** A file named `<anything>_<year>-<month>.<extension>` dates from that year and month,
      zero-padded months included. */
  lemma SnapshotDateOfName(dir: string, year: string, month: string, ext: string)
    requires |year| > 0 && AllDigits(year) && |month| > 0 && AllDigits(month)
    requires '_' !in ext
    ensures SnapshotDate(dir + "_" + year + "-" + month + "." + ext)
         == Ok((DigitsValue(year) as int, DigitsValue(month) as int))
  {
    var date := year + "-" + month;
    NumeralHasNoMarks(year);
    NumeralHasNoMarks(month);
    assert '_' !in date && '.' !in date;
    assert dir + "_" + year + "-" + month + "." + ext == dir + "_" + date + "." + ext;
    StemOfName(dir, date, ext);
    DateFields(year, month);
    ParseIntOfDigits(year);
    ParseIntOfDigits(month);
  }

  /** Opening `..._<year>-<month>.zim` yields an idle searcher whose age is the number of
      months from that month to now. */
  lemma OpenAge(dir: string, year: string, month: string, ext: string, now: Month)
    requires |year| > 0 && AllDigits(year) && |month| > 0 && AllDigits(month)
    requires '_' !in ext
    ensures var built := Open(dir + "_" + year + "-" + month + "." + ext, now);
      built.Ok? && !built.value.locked && built.value.age == AgeMonths(now, DigitsValue(year), DigitsValue(month))
  {
    var path := dir + "_" + year + "-" + month + "." + ext;
    SnapshotDateOfName(dir, year, month, ext);
  }

  /** A date without a month raises IndexError, after its year was read. */
  lemma SnapshotDateNeedsMonth(dir: string, year: string, ext: string)
    requires |year| > 0 && AllDigits(year)
    requires '_' !in ext
    ensures SnapshotDate(dir + "_" + year + "." + ext) == Raised(IndexError)
  {
    NumeralHasNoMarks(year);
    StemOfName(dir, year, ext);
    ContainsChar(year, '-');
    SplitNoSeparator(year, "-");
    ParseIntOfDigits(year);
  }
}
