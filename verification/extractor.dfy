/** The summary extractor, `Searcher._html_to_text`, applied to the markdown text of an
    article: it reads the title and the first paragraph, rejects pages that are not articles,
    replaces empty placeholder articles by a notice, expands disambiguation lists and drops
    attribution lines. */
module Extractor {
  import opened Outcomes
  import opened Text

  /** Pages the archive serves in place of a dictionary entry. */
  const WiktionaryMarker := "in Wiktionary, the free dictionary"
  /** Portal pages collect links to articles but define nothing. */
  const PortalPrefix := "Portal:"
  /** The URL-encoded tail of a deletion-debate link. */
  const DeletedSuffix := "debate+closed+as+delete"
  /** The text of the template of an article that was created empty. */
  const PlaceholderMarker := "**Article name here**"
  /** The attribution line archives append to articles. */
  const AttributionPrefix := "This article is issued from Wikipedia."
  /** The separator that ends the phrase introducing a flat disambiguation list. */
  const ListOpener := "refer to:\n\n"

  /** `full_content.split("\n")[2]`: the text of line index 2. */
  function TitleLine(full: string): Outcome<string> {
    var lines := Split(full, "\n");
    if |lines| < 3 then Raised(IndexError) else Ok(lines[2])
  }

  /** `full_content.split("=\n")[1].split("\n")[1]`: the second line of the text between the
      first and the second `"=\n"`, that is, the line after the heading underline's line. */
  function SummaryLine(full: string): Outcome<string> {
    var sections := Split(full, "=\n");
    if |sections| < 2 then Raised(IndexError)
    else
      var lines := Split(sections[1], "\n");
      if |lines| < 2 then Raised(IndexError) else Ok(lines[1])
  }

  /** A summary that introduces a list of the articles a term may refer to. */
  predicate IsDisambiguation(summary: string) {
    EndsWith(summary, "may also refer to:") || EndsWith(summary, "may refer to:")
  }

  /** An expanded summary whose list turned out empty. */
  predicate HasEmptyList(text: string) {
    EndsWith(text, "may also refer to:\n") || EndsWith(text, "may refer to:\n")
  }

  /** `full_content.split("refer to:\n\n")[1].split("\n\n")[0]`: the paragraph after the
      first `"refer to:"` that is followed by a blank line. */
  function ListBlock(full: string): Outcome<string> {
    var after := Split(full, ListOpener);
    if |after| < 2 then Raised(IndexError) else Ok(Split(after[1], "\n\n")[0])
  }

  /** The summary with the flat list of alternatives appended when it is a disambiguation. */
  function Expand(full: string, summary: string): Outcome<string> {
    if IsDisambiguation(summary) then
      var block :- ListBlock(full);
      Ok(summary + "\n" + Join(Split(block, "\n"), "\n"))
    else Ok(summary)
  }

  /** The lines that are not attribution lines, in their order. */
  function KeepLines(lines: seq<string>): (kept: seq<string>)
    ensures |kept| <= |lines|
    decreases |lines|
  {
    if |lines| == 0 then []
    else (if StartsWith(lines[0], AttributionPrefix) then [] else [lines[0]]) + KeepLines(lines[1..])
  }

  /** `"\n".join(i for i in text.split("\n") if not i.startswith(...))`. */
  function StripAttribution(text: string): string {
    Join(KeepLines(Split(text, "\n")), "\n")
  }

  /** The summary that stands in for an article created empty. */
  function EmptyArticleNotice(title: string): string {
    "'" + title + "' was created but unfortunately left empty"
  }

  /** `Searcher._html_to_text` on the converted text: `Ok(None)` rejects the page. */
  function Extract(full: string): (r: Outcome<Option<string>>)
    ensures r.Raised? ==> r.exception == IndexError
  {
    var title :- TitleLine(full);
    var summary :- SummaryLine(full);
    if Contains(full, WiktionaryMarker) then Ok(None)
    else if StartsWith(title, PortalPrefix) then Ok(None)
    else if EndsWith(summary, DeletedSuffix) then Ok(None)
    else if Contains(summary, PlaceholderMarker) then Ok(Some(EmptyArticleNotice(title)))
    else
      var expanded :- Expand(full, summary);
      if HasEmptyList(expanded) then Ok(None) else Ok(Some(StripAttribution(expanded)))
  }

  /** The conventional page: two empty lines, the title, its `=` underline, an empty line,
      the first paragraph and the rest of the article. */
  function Page(title: string, underline: string, summary: string, body: string): string {
    "\n\n" + title + "\n" + underline + "\n\n" + summary + "\n" + body
  }

  /** What a page must look like for its title and first paragraph to be found. */
  predicate WellFormedPage(title: string, underline: string, summary: string) {
    && '\n' !in title && (title == "" || title[|title| - 1] != '=')
    && |underline| > 0 && (forall i :: 0 <= i < |underline| ==> underline[i] == '=')
    && '\n' !in summary && (summary == "" || summary[|summary| - 1] != '=')
  }

  // ---------------------------------------------------------------------------------------
  // Reading the title and the summary

  /** The title read from a page is the text of its heading. */
  lemma PageTitle(title: string, underline: string, summary: string, body: string)
    requires WellFormedPage(title, underline, summary)
    ensures TitleLine(Page(title, underline, summary, body)) == Ok(title)
  {
    var rest := underline + "\n\n" + summary + "\n" + body;
    var afterSecond := title + "\n" + rest;
    assert Page(title, underline, summary, body) == "\n" + ("\n" + afterSecond);
    SplitLeadingChar('\n', "\n" + afterSecond);
    SplitLeadingChar('\n', afterSecond);
    SplitAtChar(title, '\n', rest);
  }

  /** The second piece of a line break followed by a last line is that line. */
  lemma SecondLineLast(line: string)
    requires '\n' !in line
    ensures Split("\n" + line, "\n") == ["", line]
  {
    SplitLeadingChar('\n', line);
    ContainsChar(line, '\n');
    SplitNoSeparator(line, "\n");
  }

  /** The second piece of a line break followed by a line and another break is that line. */
  lemma SecondLineBroken(line: string, rest: string)
    requires '\n' !in line
    ensures |Split("\n" + line + "\n" + rest, "\n")| >= 2
    ensures Split("\n" + line + "\n" + rest, "\n")[1] == line
  {
    assert "\n" + line + "\n" + rest == "\n" + (line + "\n" + rest);
    SplitLeadingChar('\n', line + "\n" + rest);
    SplitAtChar(line, '\n', rest);
  }

  /** `Split("\n" + line + more, "\n")[1] == line` when `more` starts a new line. */
  lemma SecondLine(line: string, more: string)
    requires '\n' !in line
    requires more == "" || more[0] == '\n'
    ensures |Split("\n" + line + more, "\n")| >= 2
    ensures Split("\n" + line + more, "\n")[1] == line
  {
    if more == "" {
      assert "\n" + line + more == "\n" + line;
      SecondLineLast(line);
    } else {
      assert more == "\n" + more[1..];
      assert "\n" + line + more == "\n" + line + "\n" + more[1..];
      SecondLineBroken(line, more[1..]);
    }
  }

  /** In the conventional layout no `"=\n"` occurs before the one ending the underline. */
  lemma HeadingHasOneUnderlineEnd(title: string, underline: string)
    requires '\n' !in title && (title == "" || title[|title| - 1] != '=')
    requires |underline| > 0 && forall i :: 0 <= i < |underline| ==> underline[i] == '='
    ensures !Contains("\n\n" + title + "\n" + underline, "=\n")
  {
    var h := "\n\n" + title + "\n" + underline;
    forall i | 0 <= i < |h| - 1
      ensures h[i] != '=' || h[i + 1] != '\n'
    {
      if i + 1 < 2 + |title| {
        assert i + 1 < 2 || h[i + 1] == title[i - 1];
      } else if i + 1 == 2 + |title| {
        assert h[i] == if |title| == 0 then '\n' else title[|title| - 1];
      } else {
        assert h[i + 1] == underline[i - 2 - |title|];
      }
    }
    forall i | 0 <= i <= |h| - 2
      ensures !OccursAt(h, "=\n", i)
    {
      assert h[i..i + 2] == [h[i], h[i + 1]];
    }
  }

  /** The text after the heading underline: an empty line, the summary line and the rest. */
  function AfterHeading(summary: string, body: string): string {
    "\n" + summary + "\n" + body
  }

  /** The page splits at the end of its heading underline into the heading and the rest. */
  lemma PageSections(title: string, underline: string, summary: string, body: string)
    requires WellFormedPage(title, underline, summary)
    ensures |Split(Page(title, underline, summary, body), "=\n")| >= 2
    ensures Split(Page(title, underline, summary, body), "=\n")[1]
         == Split(AfterHeading(summary, body), "=\n")[0]
  {
    var pre := "\n\n" + title + "\n" + underline[..|underline| - 1];
    var post := AfterHeading(summary, body);
    assert underline == underline[..|underline| - 1] + "=";
    assert Page(title, underline, summary, body) == pre + "=\n" + post;
    assert pre + "=\n"[..1] == "\n\n" + title + "\n" + underline;
    HeadingHasOneUnderlineEnd(title, underline);
    SplitFirstOccurrence(pre, "=\n", post);
  }

  /** No `"=\n"` starts within the empty line and the summary line. */
  lemma SummaryLineHasNoUnderlineEnd(summary: string, body: string)
    requires '\n' !in summary && (summary == "" || summary[|summary| - 1] != '=')
    ensures forall j :: 0 <= j <= |summary| ==> !OccursAt(AfterHeading(summary, body), "=\n", j)
  {
    var post := AfterHeading(summary, body);
    forall j | 0 <= j <= |summary|
      ensures post[j] != '=' || post[j + 1] != '\n'
    {
      if j < |summary| {
        assert post[j + 1] == summary[j];
      } else {
        assert post[j] == if |summary| == 0 then '\n' else summary[|summary| - 1];
      }
    }
    forall j | 0 <= j <= |summary| && j + 2 <= |post|
      ensures !OccursAt(post, "=\n", j)
    {
      assert post[j..j + 2] == [post[j], post[j + 1]];
    }
  }

  /** A prefix of the text after the heading that reaches past the summary line is the empty
      line, the summary line and a remainder starting a new line. */
  lemma AfterHeadingPrefix(summary: string, body: string, i: int)
    requires |summary| < i <= |AfterHeading(summary, body)|
    ensures var more := AfterHeading(summary, body)[|summary| + 1..i];
      && AfterHeading(summary, body)[..i] == "\n" + summary + more
      && (more == "" || more[0] == '\n')
  {
    var post := AfterHeading(summary, body);
    assert post == "\n" + summary + ("\n" + body);
    assert post[..|summary| + 1] == "\n" + summary;
    assert post[..i] == post[..|summary| + 1] + post[|summary| + 1..i];
  }

  /** The summary read from a page is its first paragraph. */
  lemma PageSummary(title: string, underline: string, summary: string, body: string)
    requires WellFormedPage(title, underline, summary)
    ensures SummaryLine(Page(title, underline, summary, body)) == Ok(summary)
  {
    PageSections(title, underline, summary, body);
    var post := AfterHeading(summary, body);
    var end := match Find(post, "=\n") case None => |post| case Some(i) => i;
    assert Split(post, "=\n")[0] == post[..end];
    SummaryLineHasNoUnderlineEnd(summary, body);
    assert |summary| < end;
    AfterHeadingPrefix(summary, body, end);
    SecondLine(summary, post[|summary| + 1..end]);
  }

  // ---------------------------------------------------------------------------------------
  // Where reading fails

  /** The title line exists exactly when the text has at least two line breaks. */
  lemma TitleLineNeedsTwoLineBreaks(full: string)
    ensures TitleLine(full).Ok? <==> multiset(full)['\n'] >= 2
  {
    SplitCharCount(full, '\n');
  }

  /** Without a heading underline there is no summary line. */
  lemma SummaryLineNeedsUnderline(full: string)
    requires !Contains(full, "=\n")
    ensures SummaryLine(full) == Raised(IndexError)
  {
    SplitNoSeparator(full, "=\n");
  }

  /** The summary line exists exactly when the text has a heading underline and the text
      after the first one holds a line break. */
  lemma SummaryLineNeedsLineAfterUnderline(full: string)
    ensures |Split(full, "=\n")| >= 2 <==> Contains(full, "=\n")
    ensures SummaryLine(full).Ok? <==> |Split(full, "=\n")| >= 2 && '\n' in Split(full, "=\n")[1]
  {
    match Find(full, "=\n")
    case None =>
      SplitNoSeparator(full, "=\n");
    case Some(i) =>
      SplitStep(full, "=\n", i);
      var section := Split(full, "=\n")[1];
      SplitCharCount(section, '\n');
  }

  /** Python raises exactly when the title or the summary line is missing, or when a
      disambiguation summary is not followed anywhere by `"refer to:"` and a blank line. */
  lemma {:induction false} ExtractRaises(full: string)
    ensures Extract(full).Raised? <==>
      || TitleLine(full).Raised?
      || SummaryLine(full).Raised?
      || (&& !Contains(full, WiktionaryMarker)
          && !StartsWith(TitleLine(full).value, PortalPrefix)
          && !EndsWith(SummaryLine(full).value, DeletedSuffix)
          && !Contains(SummaryLine(full).value, PlaceholderMarker)
          && IsDisambiguation(SummaryLine(full).value)
          && !Contains(full, ListOpener))
  {
    if TitleLine(full).Ok? && SummaryLine(full).Ok? {
      var summary := SummaryLine(full).value;
      if IsDisambiguation(summary) {
        if Contains(full, ListOpener) {
          assert |Split(full, ListOpener)| >= 2 by {
            var i := Find(full, ListOpener).value;
            SplitStep(full, ListOpener, i);
          }
        } else {
          SplitNoSeparator(full, ListOpener);
        }
      }
    }
  }

  // ---------------------------------------------------------------------------------------
  // Rejections

  /** The three rejections apply in order and ahead of every later rule: a dictionary
      redirect whatever else the page holds, then a portal title, then a deleted summary. */
  lemma RejectionOrder(full: string, title: string, summary: string)
    requires TitleLine(full) == Ok(title) && SummaryLine(full) == Ok(summary)
    ensures Contains(full, WiktionaryMarker) ==> Extract(full) == Ok(None)
    ensures StartsWith(title, PortalPrefix) ==> Extract(full) == Ok(None)
    ensures EndsWith(summary, DeletedSuffix) ==> Extract(full) == Ok(None)
  {
  }

  /** A page is rejected exactly for one of four reasons: a dictionary redirect, a portal, a
      deleted article, or a disambiguation (not built from the empty-article template) whose
      flat list of alternatives is empty. */
  lemma RejectedExactly(full: string)
    ensures Extract(full) == Ok(None) <==>
      && TitleLine(full).Ok? && SummaryLine(full).Ok?
      && (|| Contains(full, WiktionaryMarker)
          || StartsWith(TitleLine(full).value, PortalPrefix)
          || EndsWith(SummaryLine(full).value, DeletedSuffix)
          || (&& !Contains(SummaryLine(full).value, PlaceholderMarker)
              && IsDisambiguation(SummaryLine(full).value)
              && ListBlock(full).Ok?
              && HasEmptyList(SummaryLine(full).value + "\n" + ListBlock(full).value)))
  {
    if TitleLine(full).Ok? && SummaryLine(full).Ok? {
      var summary := SummaryLine(full).value;
      SummaryLineHasNoBreak(full);
      assert !HasEmptyList(summary) by {
        if |summary| > 0 {
          assert summary[|summary| - 1] in summary;
        }
      }
      if IsDisambiguation(summary) && ListBlock(full).Ok? {
        SplitJoin(ListBlock(full).value, "\n");
      }
    }
  }

  /** A line of a text split at its line breaks holds no line break. */
  lemma LineHasNoBreak(s: string, k: nat)
    requires k < |Split(s, "\n")|
    ensures '\n' !in Split(s, "\n")[k]
  {
    SplitPiecesFree(s, "\n");
    ContainsChar(Split(s, "\n")[k], '\n');
  }

  /** The summary is a single line. */
  lemma SummaryLineHasNoBreak(full: string)
    requires SummaryLine(full).Ok?
    ensures '\n' !in SummaryLine(full).value
  {
    LineHasNoBreak(Split(full, "=\n")[1], 1);
  }

  /** The title is a single line. */
  lemma TitleLineHasNoBreak(full: string)
    requires TitleLine(full).Ok?
    ensures '\n' !in TitleLine(full).value
  {
    LineHasNoBreak(full, 2);
  }

  // ---------------------------------------------------------------------------------------
  // Accepted pages

  /** A page built from the empty-article template yields the fixed notice naming its title,
      without list expansion or attribution stripping. */
  lemma PlaceholderNotice(full: string, title: string, summary: string)
    requires TitleLine(full) == Ok(title) && SummaryLine(full) == Ok(summary)
    requires !Contains(full, WiktionaryMarker) && !StartsWith(title, PortalPrefix)
    requires !EndsWith(summary, DeletedSuffix)
    requires Contains(summary, PlaceholderMarker)
    ensures Extract(full) == Ok(Some("'" + title + "' was created but unfortunately left empty"))
  {
  }

  /** The same on a conventional page. */
  lemma PlaceholderPage(title: string, underline: string, summary: string, body: string)
    requires WellFormedPage(title, underline, summary)
    requires !Contains(Page(title, underline, summary, body), WiktionaryMarker)
    requires !StartsWith(title, PortalPrefix) && !EndsWith(summary, DeletedSuffix)
    requires Contains(summary, PlaceholderMarker)
    ensures Extract(Page(title, underline, summary, body)) == Ok(Some(EmptyArticleNotice(title)))
  {
    PageTitle(title, underline, summary, body);
    PageSummary(title, underline, summary, body);
  }

  /** A single line is kept whole unless it is an attribution line, which leaves nothing. */
  lemma StripOneLine(line: string)
    requires '\n' !in line
    ensures StripAttribution(line) == if StartsWith(line, AttributionPrefix) then "" else line
  {
    ContainsChar(line, '\n');
    SplitNoSeparator(line, "\n");
  }

  /** An ordinary article, neither rejected nor a template nor a disambiguation, yields its
      summary line with the attribution lines dropped: the line itself, or nothing when it is
      an attribution line. */
  lemma PlainText(full: string, title: string, summary: string)
    requires TitleLine(full) == Ok(title) && SummaryLine(full) == Ok(summary)
    requires !Contains(full, WiktionaryMarker) && !StartsWith(title, PortalPrefix)
    requires !EndsWith(summary, DeletedSuffix) && !Contains(summary, PlaceholderMarker)
    requires !IsDisambiguation(summary)
    ensures Extract(full) == Ok(Some(StripAttribution(summary)))
    ensures Extract(full) == Ok(Some(if StartsWith(summary, AttributionPrefix) then "" else summary))
  {
    SummaryLineHasNoBreak(full);
    assert !HasEmptyList(summary) by {
      if |summary| > 0 {
        assert summary[|summary| - 1] in summary;
      }
    }
    StripOneLine(summary);
  }

  /** The same on a conventional page: the result is its first paragraph, unless that is an
      attribution line. */
  lemma PlainPage(title: string, underline: string, summary: string, body: string)
    requires WellFormedPage(title, underline, summary)
    requires !Contains(Page(title, underline, summary, body), WiktionaryMarker)
    requires !StartsWith(title, PortalPrefix) && !EndsWith(summary, DeletedSuffix)
    requires !Contains(summary, PlaceholderMarker) && !IsDisambiguation(summary)
    ensures Extract(Page(title, underline, summary, body))
         == Ok(Some(if StartsWith(summary, AttributionPrefix) then "" else summary))
  {
    PageTitle(title, underline, summary, body);
    PageSummary(title, underline, summary, body);
    PlainText(Page(title, underline, summary, body), title, summary);
  }

  /** A disambiguation summary gets the flat list that follows the first `"refer to:"` and a
      blank line appended on a new line; when that list is empty the page is rejected. */
  lemma DisambiguationExpanded(full: string, title: string, summary: string, block: string)
    requires TitleLine(full) == Ok(title) && SummaryLine(full) == Ok(summary)
    requires !Contains(full, WiktionaryMarker) && !StartsWith(title, PortalPrefix)
    requires !EndsWith(summary, DeletedSuffix) && !Contains(summary, PlaceholderMarker)
    requires IsDisambiguation(summary)
    requires ListBlock(full) == Ok(block)
    ensures block == "" ==> Extract(full) == Ok(None)
    ensures !HasEmptyList(summary + "\n" + block) ==>
      Extract(full) == Ok(Some(StripAttribution(summary + "\n" + block)))
  {
    SplitJoin(block, "\n");
    if block == "" {
      assert summary + "\n" + block == summary + "\n";
      if EndsWith(summary, "may refer to:") {
        assert (summary + "\n")[|summary| + 1 - 14..] == summary[|summary| - 13..] + "\n";
      } else {
        assert (summary + "\n")[|summary| + 1 - 19..] == summary[|summary| - 18..] + "\n";
      }
    }
  }

  /** No opener starts inside a block that is followed by a blank line, unless it lies
      wholly inside the block and the blank line. */
  lemma NoOpenerBeforeBlankLine(block: string, post: string)
    requires !Contains(block + "\n\n", ListOpener)
    ensures forall i :: 0 <= i < |block| + 2 ==> !OccursAt(block + "\n\n" + post, ListOpener, i)
  {
    var head := block + "\n\n";
    var rest := head + post;
    forall i | 0 <= i < |block| + 2
      ensures !OccursAt(rest, ListOpener, i)
    {
      if i + |ListOpener| <= |head| {
        assert rest[i..i + |ListOpener|] == head[i..i + |ListOpener|];
        assert !OccursAt(head, ListOpener, i);
      } else if i + |ListOpener| <= |rest| {
        // Some character of "refer to:" would have to be one of the two line breaks.
        var k := if i + 8 >= |block| + 1 then |block| + 1 - i else |block| - i;
        assert 0 <= k <= 8 && rest[i + k] == '\n';
        assert rest[i..i + |ListOpener|][k] == rest[i + k];
        assert ListOpener[k] != '\n';
      }
    }
  }

  /** The first piece of the text after a block and a blank line, cut at the next opener,
      still starts with the block and the blank line. */
  lemma PieceKeepsBlock(block: string, post: string)
    requires !Contains(block + "\n\n", ListOpener)
    ensures exists more :: Split(block + "\n\n" + post, ListOpener)[0] == block + "\n\n" + more
  {
    var rest := block + "\n\n" + post;
    NoOpenerBeforeBlankLine(block, post);
    match Find(rest, ListOpener)
    case None =>
      assert Split(rest, ListOpener)[0] == block + "\n\n" + post;
    case Some(j) =>
      assert rest[..j] == block + "\n\n" + rest[|block| + 2..j];
  }

  /** The list block is the paragraph right after the first `"refer to:"` and blank line. */
  lemma ListBlockOfLayout(pre: string, block: string, post: string)
    requires !Contains(pre + "refer to:\n", ListOpener)
    requires !Contains(block + "\n", "\n\n")
    requires !Contains(block + "\n\n", ListOpener)
    ensures ListBlock(pre + ListOpener + block + "\n\n" + post) == Ok(block)
  {
    var rest := block + "\n\n" + post;
    assert pre + ListOpener[..|ListOpener| - 1] == pre + "refer to:\n";
    assert pre + ListOpener + block + "\n\n" + post == pre + ListOpener + rest;
    SplitFirstOccurrence(pre, ListOpener, rest);
    PieceKeepsBlock(block, post);
    var more :| Split(rest, ListOpener)[0] == block + "\n\n" + more;
    assert block + "\n\n"[..1] == block + "\n";
    SplitFirstOccurrence(block, "\n\n", more);
  }

  /** Stripping attribution leaves exactly the other lines, in their order. */
  lemma StripAttributionLines(text: string)
    ensures var kept := KeepLines(Split(text, "\n"));
      Split(StripAttribution(text), "\n") == if kept == [] then [""] else kept
  {
    var lines := Split(text, "\n");
    var kept := KeepLines(lines);
    if kept != [] {
      KeepLinesMembers(lines);
      SplitPiecesFree(text, "\n");
      forall k | 0 <= k < |kept|
        ensures '\n' !in kept[k]
      {
        assert kept[k] in lines;
        var j :| 0 <= j < |lines| && lines[j] == kept[k];
        ContainsChar(lines[j], '\n');
      }
      JoinSplitChar(kept, '\n');
    } else {
      assert Split("", "\n") == [""];
    }
  }

  /** The kept lines are exactly the lines that are not attribution lines. */
  lemma {:induction false} KeepLinesMembers(lines: seq<string>)
    ensures forall line :: line in KeepLines(lines) <==> line in lines && !StartsWith(line, AttributionPrefix)
    decreases |lines|
  {
    if |lines| > 0 {
      KeepLinesMembers(lines[1..]);
      assert lines == [lines[0]] + lines[1..];
    }
  }

  /** Keeping lines distributes over concatenation: the kept lines stay in their order. */
  lemma {:induction false} KeepLinesAppend(a: seq<string>, b: seq<string>)
    ensures KeepLines(a + b) == KeepLines(a) + KeepLines(b)
    decreases |a|
  {
    if |a| > 0 {
      var head := if StartsWith(a[0], AttributionPrefix) then [] else [a[0]];
      assert (a + b)[0] == a[0] && (a + b)[1..] == a[1..] + b;
      KeepLinesAppend(a[1..], b);
      assert KeepLines(a + b) == head + (KeepLines(a[1..]) + KeepLines(b));
      assert KeepLines(a) == head + KeepLines(a[1..]);
    } else {
      assert a + b == b;
    }
  }

  /** The empty-article notice of a one-line title is one line, and not an attribution. */
  lemma NoticeIsOneLine(title: string)
    requires '\n' !in title
    ensures Split(EmptyArticleNotice(title), "\n") == [EmptyArticleNotice(title)]
    ensures !StartsWith(EmptyArticleNotice(title), AttributionPrefix)
  {
    var text := EmptyArticleNotice(title);
    assert '\n' !in text;
    ContainsChar(text, '\n');
    SplitNoSeparator(text, "\n");
    assert text[..|AttributionPrefix|][0] == '\'' != AttributionPrefix[0];
  }

  /** No line of a stripped text is an attribution line. */
  lemma StrippedHasNoAttribution(text: string)
    ensures forall line :: line in Split(StripAttribution(text), "\n") ==> !StartsWith(line, AttributionPrefix)
  {
    StripAttributionLines(text);
    KeepLinesMembers(Split(text, "\n"));
  }

  /** No line of an accepted summary is an attribution line. */
  lemma AcceptedHasNoAttribution(full: string, text: string)
    requires Extract(full) == Ok(Some(text))
    ensures forall line :: line in Split(text, "\n") ==> !StartsWith(line, AttributionPrefix)
  {
    var summary := SummaryLine(full).value;
    if Contains(summary, PlaceholderMarker) {
      TitleLineHasNoBreak(full);
      NoticeIsOneLine(TitleLine(full).value);
    } else {
      StrippedHasNoAttribution(Expand(full, summary).value);
    }
  }
}
