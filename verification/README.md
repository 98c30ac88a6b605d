# MeshWiki search core, in Dafny

MeshWiki answers Simple Wikipedia queries over a Meshtastic radio mesh. This project models its
two core files:

- `search_index.py`: the `Searcher`.
  - The summary extractor `_html_to_text` works on the markdown text of an article. It reads
    the title and the first paragraph, rejects dictionary redirects, portals and deleted
    articles, replaces empty template articles by a notice, expands disambiguation lists and
    drops attribution lines.
  - The fast stage looks the article up by its title-cased URL key.
  - The slow stage gathers the full-text matches (`_compute_candidates`), scores them and takes
    the last candidate after a stable sort by `emb_score * bm25_score`.
  - The built-in `EXTRA_ARTICLES` table is consulted last.
  - The busy flag of `__call__` guards every search.
  - The snapshot's age in months is read from the archive's file name.
- `serve.py`: the `Server`.
  - `act` splits a message into a command and its argument.
  - `/get` searches and opens a per-sender dump session.
  - `/dump` first sends a time estimate. The next `/dump` sends the article's UTF-8 bytes in
    93-byte slices, each behind a `[k/(n // 94)] ` header.
  - `/info`, `/help` and any other word each answer with one fixed message.

Python's exceptions are values (`Outcomes.Outcome`: `Ok` or `Raised` with IndexError,
ValueError, AttributeError or UnicodeDecodeError). Python's string operations are written out:
- `Text`: `split`, `join`, `replace`, `in`, `startswith`, `endswith`;
- `Whitespace`: `str.split(maxsplit=1)`, `strip`;
- `Numerals`: `int()`, `str()`;
- `Casing`: `str.title()`;
- `Utf8`: UTF-8 encoding and strict decoding as RFC 3629 defines them.

The searcher's collaborators are modelled as function fields of `Archive.Archive`. These are the
ZIM reader, the SQLite index, the embedding model, BM25 and the clock's durations. The server
keeps `dump_memory` as a map. Every message sent is appended to a log.

## Model

| member | source | states |
|---|---|---|
| Extractor.TitleLine | search_index.py:69 | `full_content.split("\n")[2]`, IndexError without a line index 2; stated by Extractor.TitleLineNeedsTwoLineBreaks, Extractor.PageTitle |
| Extractor.SummaryLine | search_index.py:70 | `full_content.split("=\n")[1].split("\n")[1]`, IndexError when either piece is missing; stated by Extractor.SummaryLineNeedsUnderline, Extractor.SummaryLineNeedsLineAfterUnderline, Extractor.PageSummary |
| Extractor.ListBlock | search_index.py:93-94 | the paragraph after the first `"refer to:\n\n"`, IndexError without one; stated by Extractor.ListBlockOfLayout |
| Extractor.Expand | search_index.py:92-95 | a disambiguation summary with its list appended on a new line; stated by Extractor.DisambiguationExpanded |
| Extractor.StripAttribution | search_index.py:101-102 | the lines not starting with the attribution sentence, joined again; stated by Extractor.StripAttributionLines, Extractor.StrippedHasNoAttribution |
| Extractor.Extract | search_index.py:68-105 | the extractor can raise only IndexError, from a missing line or a missing list |
| Extractor.PageTitle | search_index.py:57-69 | on the conventional layout (two empty lines, title, `=` underline) the title read is the heading's text |
| Extractor.PageSummary | search_index.py:57-70 | on the conventional layout the summary read is the line after the underline and the empty line |
| Extractor.TitleLineNeedsTwoLineBreaks | search_index.py:69 | the title lookup succeeds exactly when the text holds at least two line breaks |
| Extractor.SummaryLineNeedsUnderline | search_index.py:70 | a text without `"=\n"` raises IndexError when the summary is looked up |
| Extractor.SummaryLineNeedsLineAfterUnderline | search_index.py:70 | the summary lookup succeeds exactly when the text holds `"=\n"` and the text after the first one holds a line break; otherwise one of the two indexings raises IndexError |
| Extractor.TitleLineHasNoBreak | search_index.py:69 | the title is a single line |
| Extractor.SummaryLineHasNoBreak | search_index.py:70 | the summary is a single line |
| Extractor.ExtractRaises | search_index.py:68-95 | raises iff the title or summary line is missing, or an unrejected, non-template disambiguation has no `"refer to:\n\n"` anywhere |
| Extractor.RejectionOrder | search_index.py:72-82 | the Wiktionary marker, a `Portal:` title and a deletion-debate summary each reject the page, whatever follows |
| Extractor.RejectedExactly | search_index.py:72-99 | a page is rejected iff one of those three holds or a non-template disambiguation's expanded list is empty |
| Extractor.PlaceholderNotice | search_index.py:84-86 | a summary with `**Article name here**` yields exactly the "created but unfortunately left empty" notice naming the title |
| Extractor.EmptyArticleNotice | search_index.py:86 | the "was created but unfortunately left empty" text naming the title in quotes; stated by Extractor.PlaceholderNotice, Extractor.NoticeIsOneLine |
| Extractor.PlaceholderPage | search_index.py:84-86 | the same on the conventional layout, with the title taken from the heading |
| Extractor.StripOneLine | search_index.py:101-102 | a single line comes back whole unless it is an attribution line, which leaves the empty text |
| Extractor.PlainText | search_index.py:68-105 | an ordinary article (not rejected, not a template, not a disambiguation) yields its summary line with attribution lines dropped: the line itself, or the empty text for an attribution line |
| Extractor.PlainPage | search_index.py:57-105 | on the conventional layout an ordinary article yields its first paragraph, unless that is an attribution line |
| Extractor.DisambiguationExpanded | search_index.py:92-102 | a disambiguation gets the list after the first `"refer to:\n\n"` appended on a new line; an empty list rejects the page, otherwise the result is the expansion with attribution lines dropped |
| Extractor.ListBlockOfLayout | search_index.py:93-94 | the list read is the paragraph right after the first `"refer to:"` and blank line |
| Extractor.StripAttributionLines | search_index.py:101-102 | the stripped text's lines are exactly the kept lines, in order |
| Extractor.KeepLinesMembers | search_index.py:102 | a line is kept iff it is a line of the text that does not start with the attribution sentence |
| Extractor.KeepLinesAppend | search_index.py:102 | filtering distributes over concatenation, so kept lines keep their order |
| Extractor.NoticeIsOneLine | search_index.py:86 | the empty-article notice of a one-line title is one line and not an attribution |
| Extractor.StrippedHasNoAttribution | search_index.py:101-102 | no line of a stripped text starts with the attribution sentence |
| Extractor.AcceptedHasNoAttribution | search_index.py:84-105 | no line of any accepted summary starts with the attribution sentence |
| Casing.Title | search_index.py:112 | `title()` keeps length, upper-cases letters starting a word, lower-cases other letters, keeps non-letters |
| Engine.Fast | search_index.py:107-124 | `_get_fast_article`: the article at the title-cased key, if the extractor accepts it; stated by Engine.FastAnswers |
| Engine.TitleKeyShape | search_index.py:112 | the URL key has the query's length, `_` exactly where the query has a space, and elsewhere the query's letter up to case |
| Engine.TitleKey | search_index.py:112 | `query.title().replace(" ", "_")`; stated by Engine.TitleKeyShape |
| Engine.FastAnswers | search_index.py:107-124 | the fast stage answers iff the key names an article the extractor accepts, and then with that summary and the fast duration |
| Candidates.MatchExpression | search_index.py:131 | `"* ".join(query.split(" ")) + "*"`; stated by Candidates.MatchExpressionWords |
| Candidates.CleanUrl | search_index.py:159 | the four replaces of the URL; stated by Candidates.CleanUrlChars, Candidates.CleanUrlOfClean, Candidates.CleanDisambiguation |
| Candidates.Compute | search_index.py:126-185 | `_compute_candidates`; stated by Candidates.ComputeLimits, Candidates.ComputeRanksUsableRows, Candidates.ComputeRaises |
| Candidates.MatchExpressionWords | search_index.py:131 | the MATCH expression is the query's space-separated words, each followed by the prefix star |
| Candidates.JoinStarred | search_index.py:131 | joining with `"* "` and appending `"*"` equals starring each word and joining with spaces |
| Candidates.CleanUrlChars | search_index.py:159 | a cleaned URL holds no `_`, `(` or `)` and no character the URL lacks |
| Candidates.CleanUrlOfClean | search_index.py:159 | cleaning is the identity on a URL without `_`, `(` and `)` |
| Candidates.CleanDisambiguation | search_index.py:159 | the URL of a disambiguation page, `<title>_(disambiguation)`, cleans to the title: the marker is removed whole, not just its parentheses |
| Candidates.Diagnostic | search_index.py:135-145 | the stand-in candidate with row id -1, URL `na`, zero scores and the "too many candidates" text; stated by Candidates.DiagnosticCount, Candidates.ComputeLimits |
| Candidates.DiagnosticCount | search_index.py:135-145 | the diagnostic's summary is the "too many candidates" text followed by a numeral reading back as the match count |
| Candidates.UsableRows | search_index.py:164 | a row is kept iff it was matched and its summary is present and non-empty |
| Candidates.Gather | search_index.py:155-166 | the loop's entries are no more than the rows, and with the real extractor it raises only IndexError |
| Candidates.GatherRaises | search_index.py:155-166 | the loop raises iff some matched row's article makes the extractor raise |
| Candidates.GatherEntries | search_index.py:155-166 | the entries are the usable rows in index order, each with its summary, cleaned URL and embedding similarity |
| Candidates.ComputeLimits | search_index.py:131-145 | no match gives no candidates; more than 2000 gives the diagnostic alone, whatever the articles hold |
| Candidates.ComputeRanksUsableRows | search_index.py:150-185 | with 1 to 2000 matches the candidates are the usable rows in order, each with summary, URL, embedding score and the BM25 score at its position |
| Candidates.ComputeRaises | search_index.py:155-185 | raises iff 1 to 2000 rows match and either an article makes the extractor raise or BM25 returns fewer scores than there are entries; the exception is IndexError |
| Ranking.Insert | search_index.py:194 | inserting into a sorted list gives a sorted permutation with the new element |
| Ranking.SortByKey | search_index.py:194 | the sort gives a permutation of the candidates ordered by `emb_score * bm25_score`; its stability is Ranking.SortStable |
| Ranking.InsertStable | search_index.py:194 | inserting keeps the candidates of each key in order, the new one after those already there |
| Ranking.SortStable | search_index.py:194 | the sort is stable: for every key value, the candidates with that key appear in the same order as in the input |
| Ranking.Pick | search_index.py:194-197 | `sorted(...)[-1]` when there is a candidate; stated by Ranking.PickIsLastMax |
| Ranking.PickStep | search_index.py:194-197 | the pick for a longer list is the last candidate if its key is at least the pick for the others, else that pick |
| Ranking.PickIsLastMax | search_index.py:194-197 | there is a pick iff there is a candidate, and it has the greatest key, no later candidate having one as great |
| Engine.Slow | search_index.py:187-203 | `_get_slow_article`: the picked candidate's summary with the slow duration; stated by Engine.SlowAnswers |
| Engine.SlowAnswers | search_index.py:187-203 | the slow stage answers iff there is a candidate, with the summary of the last best-scored candidate |
| Engine.Extra | search_index.py:205-212 | `_get_extra_article`: an exact lookup in the built-in table; stated by Engine.ExtraAnswers |
| Engine.ExtraAnswers | search_index.py:205-212 | the built-in table answers exactly the query `meshtastic`, with its article and duration 0 |
| Engine.Perform | search_index.py:214-234 | `_perform_search`; stated by Engine.PerformOrder, Engine.BuiltInAlwaysAnswered |
| Engine.PerformOrder | search_index.py:214-234 | fast, slow and built-in stages run in order, the first answer wins, and a raise ends the search |
| Engine.BuiltInAlwaysAnswered | search_index.py:214-234 | a query in the table is answered from it when the archive has neither a key match nor index matches |
| Engine.Guard | search_index.py:236-243 | `__call__`: waits on a set flag, else sets it, searches and clears it only on a normal return; stated by Engine.SearchKeepsFlag, Engine.RaiseWedges |
| Engine.Search | search_index.py:236-243 | `searcher(query)`: the guarded search; stated by Engine.SearchKeepsFlag |
| Engine.SearchKeepsFlag | search_index.py:236-243 | an idle searcher returns the search's outcome and is idle afterwards iff the search did not raise |
| Engine.RaiseWedges | search_index.py:236-243 | after a search that raised, the next call waits forever |
| Engine.AgeMonths | search_index.py:51-53 | `_age_months`; stated by Engine.AgeCountsMonths |
| Engine.AgeCountsMonths | search_index.py:51-53 | a clock `k` calendar months after the snapshot's month reads an age of `k` |
| Engine.Stem | search_index.py:48 | `split("_")[-1].split(".")[0]`; stated by Engine.StemOfName |
| Engine.SnapshotDate | search_index.py:48-49 | `int(date[0])`, then `int(date[1])`; stated by Engine.SnapshotDateOfName, Engine.SnapshotDateNeedsMonth |
| Engine.Open | search_index.py:46-53 | the constructor's flag and age; stated by Engine.OpenAge |
| Engine.StemOfName | search_index.py:48 | the stem of `<any>_<date>.<ext>` is the date |
| Engine.DateFields | search_index.py:48 | `"<year>-<month>".split("-")` is the year and the month |
| Engine.SnapshotDateOfName | search_index.py:48-49 | a file `<any>_<year>-<month>.<ext>` dates from those numbers, leading zeros included |
| Engine.SnapshotDateNeedsMonth | search_index.py:48-49 | a date without a month raises IndexError after the year is read |
| Engine.OpenAge | search_index.py:46-53 | opening such a file gives an idle searcher whose age is the months from that date to now |
| Numerals.ParseInt | search_index.py:49 | Python's `int()` on a text; stated by Numerals.ParseIntOfDigits, Numerals.SeparatorRejected |
| Numerals.ParseIntOfDigits | search_index.py:49 | `int()` of a decimal numeral is its value, leading zeros allowed |
| Numerals.SeparatorRejected | search_index.py:49 | a character U+001C to U+001F anywhere, even among the surrounding whitespace, makes `int()` raise ValueError, since `int()` does not strip it |
| Numerals.NatToStringValue | serve.py:59 | the numeral `str(n)` reads back as `n` |
| Whitespace.SplitOnce | serve.py:105-107 | `split(maxsplit=1)` gives no part iff the text is all whitespace, a whitespace-free first word, and a rest starting with a non-space |
| Whitespace.SplitOnceWordAndRest | serve.py:105-107 | a word, whitespace and an argument split into exactly the word and the argument |
| Whitespace.SplitOnceFirstWord | serve.py:105-106 | the command is the first word, whatever follows the whitespace after it |
| Whitespace.SplitOnceWordOnly | serve.py:105-107 | a word with only whitespace around it splits into the word alone |
| Serve.Act | serve.py:97-114 | `act`: the first word picks the handler, the rest is its argument; stated by Serve.ActWithArgument, Serve.ActWithoutArgument, Serve.ActBlank, Serve.ActUnknown |
| Serve.Dispatch | serve.py:98-114 | the command table and `handle_unknown`; stated by Serve.InfoAndHelp, Serve.ActUnknown |
| Serve.ActWithArgument | serve.py:97-114 | a command, whitespace and an argument call the command's handler with that argument |
| Serve.ActWithoutArgument | serve.py:97-114 | a command alone calls its handler with no argument |
| Serve.ActBlank | serve.py:105-107 | a whitespace-only message raises IndexError and changes nothing; others go to the handler of their first word |
| Serve.ActUnknown | serve.py:94-114 | any other first word sends exactly the help hint and changes nothing else |
| Serve.InfoAndHelp | serve.py:88-92 | `/info` and `/help` send one fixed message each, whatever their argument |
| Serve.InfoReportsAge | serve.py:88-89 | the number in the `/info` message reads back as the searcher's age |
| Serve.InfoText | serve.py:89 | the `/info` message ending in the searcher's age in months; stated by Serve.InfoReportsAge |
| Serve.FirstSentence | serve.py:53 | `summary.split(". ")[0]`; stated by Serve.FirstSentenceIsPrefix |
| Serve.FirstSentenceIsPrefix | serve.py:53 | the first sentence is a prefix of the summary free of `". "`, followed by `". "` unless it is the whole summary |
| Serve.HandleGet | serve.py:43-62 | `handle_get`; stated by Serve.GetNothingFound, Serve.GetFound, Serve.GetPlaceholderStillSearches, Serve.GetRaises, Serve.BareGetWedges |
| Serve.GetNothingFound | serve.py:47-50 | a search that finds nothing sends exactly "Nothing found" and opens no session |
| Serve.NothingFound | serve.py:49 | the "Nothing found for" text quoting the query; stated by Serve.GetNothingFound |
| Serve.GetFound | serve.py:52-62 | a found article opens an unconfirmed session holding the whole summary and sends its first sentence, or the "too long" message when that exceeds 233 UTF-8 bytes |
| Serve.TooLong | serve.py:59 | the "too long for meshtastic" text with the result's byte length; stated by Serve.GetFound |
| Serve.GetPlaceholderStillSearches | serve.py:44-50 | the `<query>` placeholder gets the hint first whatever the search does, and is then searched for all the same |
| Serve.GetRaises | serve.py:43-47 | a search that raises escapes `/get`, sends nothing more and leaves the searcher's flag set |
| Serve.BareGetWedges | serve.py:105-111 | `/get` without an argument raises AttributeError and every later `/get` waits forever |
| Serve.EstimateSeconds | serve.py:78 | `int(len(content) / max_length * 5)`; stated by Serve.EstimateIsFloor |
| Serve.EstimateIsFloor | serve.py:78 | the estimate is the real quotient `len(content) / max_length * 5` cut down to a whole number |
| Serve.HandleDump | serve.py:64-85 | `handle_dump`; stated by Serve.DumpWithoutSession, Serve.DumpAnnounces, Serve.DumpSends, Serve.DumpBreaksOnSplitCharacter |
| Serve.DumpWithoutSession | serve.py:64-66 | without a session `/dump` sends nothing and changes nothing |
| Serve.DumpAnnounces | serve.py:76-79 | the first `/dump` confirms the session and sends exactly the estimate |
| Serve.Estimate | serve.py:79 | the dump announcement naming the query and the estimated seconds; stated by Serve.DumpAnnounces, Serve.EstimateIsFloor |
| Serve.DumpSends | serve.py:72-85 | the second `/dump` sends one message per 93 bytes, numbered from 0 over `n // 94`; the payloads rebuild the article and the session closes |
| Serve.DumpBreaksOnSplitCharacter | serve.py:80-82 | when a slice splits a character, the earlier chunks are sent, UnicodeDecodeError escapes and the session stays open |
| Serve.AsciiArticleDelivered | serve.py:43-85 | for an ASCII article, `/get`, `/dump`, `/dump` delivers the whole article and closes the session |
| Chunking.ChunksFrom | serve.py:81-82 | the chunk loop from slice `k` on, stopping at the first slice that does not decode; stated by Chunking.ChunksFromSlices, Chunking.ChunksFromCount, Chunking.ChunksFromStop, Chunking.ChunksFromPayloads |
| Chunking.Header | serve.py:82 | the `[i // 93/num_chunks] ` prefix; stated by Serve.DumpSends |
| Chunking.StrictDecoder | serve.py:82 | the strict decoder gives back text whose encoding is the slice, and accepts every ASCII slice |
| Chunking.ChunksFromSlices | serve.py:81-82 | chunk `j` is slice `j` of the data, numbered `j`, holding that slice's decoding |
| Chunking.ChunksFromCount | serve.py:81 | a loop that runs to the end sends `ceil(n / 93)` chunks |
| Chunking.ChunksFromStop | serve.py:81-82 | a loop that breaks stops at the first slice that does not decode |
| Chunking.ChunksFromPayloads | serve.py:81-82 | a complete loop's payloads encode exactly the remaining bytes |
| Chunking.ChunkIndices | serve.py:82 | the chunks are numbered from zero in order |
| Chunking.DumpRoundTrip | serve.py:73-85 | when every slice decodes, the payloads concatenated are the article, in `ceil(n / 93)` chunks |
| Chunking.AsciiDumpCompletes | serve.py:81-82 | every slice of an ASCII article decodes |
| Utf8.Encode | serve.py:54 | an encoding takes 1 to 4 bytes per character |
| Utf8.DecodeFirst | serve.py:82 | the decoded first character is encoded by exactly the bytes consumed |
| Utf8.Decode | serve.py:82 | the strict `decode("utf-8")`, `None` where Python raises; stated by Utf8.DecodeEncode, Utf8.EncodeDecode, Utf8.DecodeAsciiBytes |
| Utf8.DecodeEncode | serve.py:82 | decoding an encoding gives the text back |
| Utf8.EncodeDecode | serve.py:82 | whatever decodes is the encoding of its decoding |
| Utf8.EncodeAscii | serve.py:54 | an ASCII text's encoding is its character codes, one byte each |
| Utf8.DecodeAsciiBytes | serve.py:82 | bytes below 0x80 always decode |

## Left out

- markdownify: the archive returns an article's text already converted to markdown, so the HTML conversion at search_index.py:68 is not modelled.
- The ZIM reader, the SQLite full-text query, the embedding model and BM25 are fields of `Archive.Archive`: their results are inputs, not computed.
- `time.time()`: the stage durations are fields of the archive. The `time.sleep(5)` between chunks and the `time.sleep(1)` busy-wait are not modelled. A call on a busy searcher is `Spins`, because in a sequential model nothing else can clear the flag.
- `datetime.now()`: the current month is a parameter of `Engine.Open`.
- Logging and the `print` of a large candidate count have no effect on state and are left out.
- Scores and durations are `real`, not IEEE floats.
- The estimate's float arithmetic is the exact integer `len * 5 // 94`. For a whole-number quotient the float is exact, and otherwise the quotient is at least 1/94 from the next integer.
- Casing.Title: only ASCII letters are cased; every other character counts as uncased.
- Numerals.ParseInt: `int()` is modelled for ASCII digits, underscores between digit groups, a sign and the whitespace `int()` strips. Non-ASCII decimal digits, which `int()` accepts, raise ValueError here. Python 3.11's limit of 4300 digits on decimal conversion is not modelled: a longer numeral parses here, and `str()` of a number that long (Numerals.NatToString, Numerals.IntToString) succeeds, where Python raises ValueError. A snapshot year, an age and a message length stay far below it.
- Exceptions raised by the collaborators themselves are not modelled. The likeliest is SQLite rejecting the FTS4 MATCH expression built at search_index.py:131-133, for instance for a query holding `"`. Like any raise it would leave the busy flag set (Engine.RaiseWedges). The others are a missing directory entry, `_get_article_by_index` returning `None` and a failing embedding model.
- The radio: `interface.sendText` is an append to the server's log of messages. `load_interface`, `start`, `onReceive`, `close`, main.py and the `__main__` block are not part of this model.
- `handle_dump` returns its "Get an article" text to `act`, which drops it. The model keeps the text in `Serve.Reply` and sends nothing.
- The searcher's `EXTRA_ARTICLES` table is kept in its state. `Engine.Open` always fills it with the one built-in article.
- `Chunking.ChunksFrom` takes the decoder as a parameter. The dump uses Python's strict UTF-8 decoder `Utf8.Decode`, which `Chunking.StrictDecoder` shows has the two properties the lemmas assume.

Quirks of the code that the model keeps:
- The title is line index 2 of the converted text, wherever the underline is.
- The Wiktionary, portal and deletion checks come after the title and summary lookups, so a page without a title or summary line raises IndexError before it can be rejected.
- A search that raises leaves the busy flag set, because nothing clears it on that path, so every later search waits forever.
- The dump header counts chunks from 0 up to `n // 94`, while the slices are 93 bytes, so a 9300-byte article ends with `[99/98]`.
