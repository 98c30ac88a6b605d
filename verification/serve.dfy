/** The command server of `serve.py`: a text message from a sender is split into a command and
    its argument and dispatched; `/get` searches and opens a dump session for the sender, and
    `/dump` first announces and then sends the session's article in chunks. The radio is an
    append-only log of the messages sent. */
module Serve {
  import opened Outcomes
  import opened Text
  import opened Whitespace
  import opened Numerals
  import opened Utf8
  import opened Chunking
  import opened Archive
  import opened Engine

  /** `dump_memory[from_id]`: the article found for the sender, whether the sender has seen
      the estimate, and the query that found it. */
  datatype Session = Session(content: string, confirmed: bool, query: string)

  /** `interface.sendText(text, to)`. */
  datatype Message = Message(to: string, text: string)

  /** The server: the sessions by sender, every message sent so far, and the searcher. */
  datatype Server = Server(memory: map<string, Session>, sent: seq<Message>, searcher: Searcher)

  /** How handling a message ended: normally, by an exception escaping the handler, or
      waiting forever on a searcher whose busy flag stays set. */
  datatype Status = Done | Failed(exception: Exception) | Hangs

  datatype Step = Step(server: Server, status: Status)

  /** `handle_dump`'s effect and the string it returns, which nobody sends. */
  datatype Reply = Reply(step: Step, returned: Option<string>)

  /** `DATA_PAYLOAD_LEN`: the bytes a meshtastic text message can carry. */
  const DataPayloadLen := 233

  const HintText := "Please replace <query> with what you want to search for, eg:\n/get meshtastic"
  const NoSessionText := "Get an article using /get <query> before attempting a dump."
  const HelpText := "Available commands:\n/info\n/get <query>\n/dump"
  const UnknownText := "Type '/help' to get started!"
  const InfoPrefix := "I am an offline search engine for Simple Wikipedia; originally created by Aveygo.\nArticles are "

  /** The reply to a query without an answer, quoting the query. */
  function NothingFound(query: string): string {
    "Nothing found for: '" + query + "'"
  }

  /** The reply to an answer whose first sentence does not fit one packet. */
  function TooLong(length: nat): string {
    "Sorry, the found result was too long for meshtastic (" + NatToString(length) + " characters)"
  }

  /** `int(len(content) / max_length * 5)`: five seconds for each full chunk's worth of
      characters. */
  function EstimateSeconds(characters: nat): nat {
    characters * 5 / MaxLength
  }

  /** The estimate is the real quotient `characters / max_length * 5` cut down to a whole
      number. */
  lemma EstimateIsFloor(characters: nat)
    ensures var quotient := characters as real / MaxLength as real * 5.0;
      EstimateSeconds(characters) as real <= quotient < EstimateSeconds(characters) as real + 1.0
  {
    var e := EstimateSeconds(characters);
    var m := characters * 5;
    assert MaxLength == 94;
    assert e * 94 <= m < (e + 1) * 94;
    assert characters as real / 94.0 * 5.0 == m as real / 94.0;
    assert (e * 94) as real <= m as real < ((e + 1) * 94) as real;
  }

  /** The announcement the first `/dump` sends, with the estimated seconds. */
  function Estimate(query: string, content: string): string {
    "The full article for " + query + " will take ~" + NatToString(EstimateSeconds(|content|))
      + " seconds to dump. If you want to continue, type /dump again."
  }

  /** The `/info` reply, ending in the snapshot's age in months. */
  function InfoText(age: int): string {
    InfoPrefix + IntToString(age) + " months old."
  }

  /** `self.send(text, to)`. */
  function Send(sv: Server, to: string, text: string): Server {
    sv.(sent := sv.sent + [Message(to, text)])
  }

  /** `summary.split(". ")[0]`: the text before the first sentence break. */
  function FirstSentence(summary: string): string {
    Split(summary, ". ")[0]
  }

  /** The first sentence is a prefix of the summary without a sentence break, followed in the
      summary by the break unless it is the whole summary. */
  lemma FirstSentenceIsPrefix(summary: string)
    ensures var first := FirstSentence(summary);
      && !Contains(first, ". ")
      && StartsWith(summary, first)
      && (first == summary || StartsWith(summary[|first|..], ". "))
  {
    SplitPiecesFree(summary, ". ");
    match Find(summary, ". ")
    case None =>
    case Some(i) =>
      SplitStep(summary, ". ", i);
      assert summary[i..][..2] == ". ";
  }

  /** The messages carrying a sender's chunks, `[k/total] ` before each payload. */
  function Renders(cs: seq<Chunk>, total: nat, to: string): (ms: seq<Message>)
    ensures |ms| == |cs|
    ensures forall k :: 0 <= k < |cs| ==> ms[k] == Message(to, Render(cs[k], total))
  {
    seq(|cs|, k requires 0 <= k < |cs| => Message(to, Render(cs[k], total)))
  }

  /** `self.searcher(query)`, where `None` stands for a `/get` without an argument: the search
      then raises AttributeError on `None.title()`. */
  function SearchFor(s: Searcher, a: Archive, query: Option<string>): Flight {
    match query
    case None => Guard(s, Raised(AttributeError))
    case Some(q) => Search(s, a, q)
  }

  /** `Server.handle_get(query, from_id)`. */
  function HandleGet(sv: Server, a: Archive, query: Option<string>, from: string): Step {
    var hinted := if query == Some("<query>") then Send(sv, from, HintText) else sv;
    match SearchFor(sv.searcher, a, query)
    case Spins => Step(hinted, Hangs)
    case Landed(result, after) =>
      var searched := hinted.(searcher := after);
      match result
      case Raised(e) => Step(searched, Failed(e))
      case Ok(None) => Step(Send(searched, from, NothingFound(query.value)), Done)
      case Ok(Some(article)) =>
        var recorded := searched.(memory := searched.memory[from := Session(article.summary, false, query.value)]);
        var first := FirstSentence(article.summary);
        var length := |Encode(first)|;
        if length > DataPayloadLen then Step(Send(recorded, from, TooLong(length)), Done)
        else Step(Send(recorded, from, first), Done)
  }

  /** `Server.handle_dump(args, from_id)`. */
  function HandleDump(sv: Server, from: string): Reply {
    if from !in sv.memory then Reply(Step(sv, Done), Some(NoSessionText))
    else
      var session := sv.memory[from];
      if !session.confirmed then
        var confirmed := sv.(memory := sv.memory[from := session.(confirmed := true)]);
        Reply(Step(Send(confirmed, from, Estimate(session.query, session.content)), Done), None)
      else
        var bytes := Encode(session.content);
        var dump := Chunks(bytes);
        var sent := sv.(sent := sv.sent + Renders(dump.chunks, |bytes| / MaxLength, from));
        if dump.complete then Reply(Step(sent.(memory := sent.memory - {from}), Done), None)
        else Reply(Step(sent, Failed(UnicodeDecodeError)), None)
  }

  /** `commands[cmd](arg, from_id)`, or `handle_unknown` for any other first word. */
  function Dispatch(sv: Server, a: Archive, cmd: string, arg: Option<string>, from: string): Step {
    if cmd == "/info" then Step(Send(sv, from, InfoText(sv.searcher.age)), Done)
    else if cmd == "/get" then HandleGet(sv, a, arg, from)
    else if cmd == "/help" then Step(Send(sv, from, HelpText), Done)
    else if cmd == "/dump" then HandleDump(sv, from).step
    else Step(Send(sv, from, UnknownText), Done)
  }

  /** `Server.act(input_text, from_id)`: the first word is the command, the rest after the
      whitespace run its argument; a message of whitespace alone raises IndexError. */
  function Act(sv: Server, a: Archive, input: string, from: string): Step {
    var parts := SplitOnce(input);
    if |parts| == 0 then Step(sv, Failed(IndexError))
    else Dispatch(sv, a, parts[0], if |parts| > 1 then Some(parts[1]) else None, from)
  }

  predicate IsCommand(cmd: string) {
    cmd == "/info" || cmd == "/get" || cmd == "/help" || cmd == "/dump"
  }

  // ---------------------------------------------------------------------------------------
  // Parsing and dispatch

  /** A command, whitespace and an argument call the command's handler with the argument. */
  lemma ActWithArgument(sv: Server, a: Archive, lead: string, cmd: string, gap: string, arg: string, from: string)
    requires AllSpace(lead) && AllSpace(gap) && |gap| > 0
    requires |cmd| > 0 && NoSpace(cmd)
    requires |arg| > 0 && !IsSpace(arg[0])
    ensures Act(sv, a, lead + cmd + gap + arg, from) == Dispatch(sv, a, cmd, Some(arg), from)
  {
    SplitOnceWordAndRest(lead, cmd, gap, arg);
  }

  /** A command alone calls its handler with `None`. */
  lemma ActWithoutArgument(sv: Server, a: Archive, lead: string, cmd: string, trail: string, from: string)
    requires AllSpace(lead) && AllSpace(trail)
    requires |cmd| > 0 && NoSpace(cmd)
    ensures Act(sv, a, lead + cmd + trail, from) == Dispatch(sv, a, cmd, None, from)
  {
    SplitOnceWordOnly(lead, cmd, trail);
  }

  /** A message of whitespace alone raises IndexError and changes nothing; any other message
      goes to the handler its first word names. */
  lemma ActBlank(sv: Server, a: Archive, input: string, from: string)
    ensures AllSpace(input) ==> Act(sv, a, input, from) == Step(sv, Failed(IndexError))
    ensures !AllSpace(input) ==> var parts := SplitOnce(input);
      Act(sv, a, input, from) == Dispatch(sv, a, parts[0], if |parts| == 2 then Some(parts[1]) else None, from)
  {
  }

  /** Any other first word sends exactly the help hint and changes nothing else. */
  lemma ActUnknown(sv: Server, a: Archive, lead: string, word: string, rest: string, from: string)
    requires AllSpace(lead) && |word| > 0 && NoSpace(word) && (rest == "" || IsSpace(rest[0]))
    requires !IsCommand(word)
    ensures Act(sv, a, lead + word + rest, from)
         == Step(sv.(sent := sv.sent + [Message(from, "Type '/help' to get started!")]), Done)
  {
    SplitOnceFirstWord(lead, word, rest);
  }

  /** `/info` and `/help` send one fixed message each, whatever their argument. */
  lemma InfoAndHelp(sv: Server, a: Archive, arg: Option<string>, from: string)
    ensures Dispatch(sv, a, "/info", arg, from) == Step(Send(sv, from, InfoText(sv.searcher.age)), Done)
    ensures Dispatch(sv, a, "/help", arg, from)
         == Step(Send(sv, from, "Available commands:\n/info\n/get <query>\n/dump"), Done)
  {
  }

  /** The age in the `/info` message reads back as the searcher's age. */
  lemma InfoReportsAge(age: int)
    ensures var text := InfoText(age);
      && |text| >= |InfoPrefix| + |" months old."|
      && text[..|InfoPrefix|] == InfoPrefix
      && ParseInt(text[|InfoPrefix|..|text| - |" months old."|]) == Ok(age)
  {
    var text := InfoText(age);
    var numeral := IntToString(age);
    assert text[|InfoPrefix|..|text| - |" months old."|] == "" + numeral + "";
    ParseIntOfIntToString("", age, "");
  }

  // ---------------------------------------------------------------------------------------
  // `/get`

  /** A search that finds nothing sends exactly the "nothing found" message and opens no
      session. */
  lemma GetNothingFound(sv: Server, a: Archive, query: string, from: string)
    requires query != "<query>" && !sv.searcher.locked
    requires Perform(a, sv.searcher.extras, query) == Ok(None)
    ensures HandleGet(sv, a, Some(query), from)
         == Step(sv.(sent := sv.sent + [Message(from, "Nothing found for: '" + query + "'")]), Done)
  {
  }

  /** A search that finds an article opens an unconfirmed session holding the whole article
      and sends its first sentence, or the "too long" message carrying the sentence's UTF-8
      length when that exceeds the payload limit. */
  lemma GetFound(sv: Server, a: Archive, query: string, from: string, article: Article)
    requires query != "<query>" && !sv.searcher.locked
    requires Perform(a, sv.searcher.extras, query) == Ok(Some(article))
    ensures var step := HandleGet(sv, a, Some(query), from);
      var first := FirstSentence(article.summary);
      && step.status == Done
      && step.server.memory == sv.memory[from := Session(article.summary, false, query)]
      && step.server.searcher == sv.searcher
      && step.server.sent == sv.sent + [Message(from,
           if |Encode(first)| > DataPayloadLen then TooLong(|Encode(first)|) else first)]
  {
  }

  /** The placeholder query is answered with the hint first, whatever the search does next,
      and then searched for all the same. */
  lemma GetPlaceholderStillSearches(sv: Server, a: Archive, from: string)
    requires !sv.searcher.locked
    ensures var step := HandleGet(sv, a, Some("<query>"), from);
      && |step.server.sent| > |sv.sent|
      && step.server.sent[..|sv.sent| + 1] == sv.sent + [Message(from, HintText)]
    ensures Perform(a, sv.searcher.extras, "<query>") == Ok(None) ==>
      HandleGet(sv, a, Some("<query>"), from)
        == Step(sv.(sent := sv.sent + [Message(from, HintText), Message(from, NothingFound("<query>"))]), Done)
  {
    var hinted := Send(sv, from, HintText);
    var step := HandleGet(sv, a, Some("<query>"), from);
    assert |step.server.sent| >= |hinted.sent| && step.server.sent[..|hinted.sent|] == hinted.sent by {
      match SearchFor(sv.searcher, a, Some("<query>"))
      case Spins =>
      case Landed(result, after) =>
        match result
        case Raised(e) =>
        case Ok(None) =>
          assert step.server.sent == hinted.sent + [Message(from, NothingFound("<query>"))];
        case Ok(Some(article)) =>
          assert step.server.sent[..|hinted.sent|] == hinted.sent;
    }
    assert hinted.sent == sv.sent + [Message(from, HintText)];
    if Perform(a, sv.searcher.extras, "<query>") == Ok(None) {
      assert SearchFor(sv.searcher, a, Some("<query>")) == Landed(Ok(None), sv.searcher);
      assert step == Step(Send(hinted, from, NothingFound("<query>")), Done);
      assert hinted.sent + [Message(from, NothingFound("<query>"))]
          == sv.sent + [Message(from, HintText), Message(from, NothingFound("<query>"))];
    }
  }

  /** A search that raises escapes the handler, sends nothing more and leaves the searcher's
      flag set. */
  lemma GetRaises(sv: Server, a: Archive, query: string, from: string)
    requires query != "<query>" && !sv.searcher.locked
    requires Perform(a, sv.searcher.extras, query).Raised?
    ensures HandleGet(sv, a, Some(query), from)
         == Step(sv.(searcher := sv.searcher.(locked := true)), Failed(Perform(a, sv.searcher.extras, query).exception))
  {
  }

  /** `/get` without an argument raises AttributeError and wedges the searcher: every later
      `/get` waits forever. */
  lemma BareGetWedges(sv: Server, a: Archive, from: string, later: Option<string>, other: string)
    requires !sv.searcher.locked
    ensures var step := HandleGet(sv, a, None, from);
      && step == Step(sv.(searcher := sv.searcher.(locked := true)), Failed(AttributeError))
      && HandleGet(step.server, a, later, other).status == Hangs
  {
  }

  // ---------------------------------------------------------------------------------------
  // `/dump`

  /** Without a session, `/dump` sends nothing and changes nothing; its text is returned to a
      caller that drops it. */
  lemma DumpWithoutSession(sv: Server, from: string)
    requires from !in sv.memory
    ensures HandleDump(sv, from)
         == Reply(Step(sv, Done), Some("Get an article using /get <query> before attempting a dump."))
  {
  }

  /** The first `/dump` of a session confirms it and sends exactly the estimate; the article
      and query are kept. */
  lemma DumpAnnounces(sv: Server, from: string)
    requires from in sv.memory && !sv.memory[from].confirmed
    ensures var s := sv.memory[from];
      HandleDump(sv, from) == Reply(Step(Server(
        sv.memory[from := Session(s.content, true, s.query)],
        sv.sent + [Message(from, Estimate(s.query, s.content))],
        sv.searcher), Done), None)
  {
  }

  /** The second `/dump` of a session whose slices all decode sends one message per 93 bytes
      of the article, each slice behind its `[k/(n // 94)] ` header, the payloads putting the
      article back together, and closes the session. */
  lemma DumpSends(sv: Server, from: string)
    requires from in sv.memory && sv.memory[from].confirmed
    requires Chunks(Encode(sv.memory[from].content)).complete
    ensures var content := sv.memory[from].content;
      var n := |Encode(content)|;
      var cs := Chunks(Encode(content)).chunks;
      var step := HandleDump(sv, from).step;
      && step.status == Done
      && step.server.memory == sv.memory - {from}
      && |step.server.sent| == |sv.sent| + (n + ChunkBytes - 1) / ChunkBytes
      && step.server.sent[..|sv.sent|] == sv.sent
      && (forall k :: 0 <= k < |cs| ==>
            step.server.sent[|sv.sent| + k] == Message(from, Header(k, n / MaxLength) + cs[k].payload))
      && Payloads(cs) == content
  {
    var content := sv.memory[from].content;
    var bs := Encode(content);
    var n := |bs|;
    var cs := Chunks(bs).chunks;
    var rendered := Renders(cs, n / MaxLength, from);
    assert HandleDump(sv, from).step == Step(sv.(sent := sv.sent + rendered, memory := sv.memory - {from}), Done);
    DumpRoundTrip(content);
    ChunkIndices(bs);
    forall k | 0 <= k < |cs|
      ensures (sv.sent + rendered)[|sv.sent| + k] == Message(from, Header(k, n / MaxLength) + cs[k].payload)
    {
      assert rendered[k] == Message(from, Render(cs[k], n / MaxLength));
    }
    assert (sv.sent + rendered)[..|sv.sent|] == sv.sent;
  }

  /** When a slice splits a character, the messages before it are sent and the session stays
      open, confirmed, while UnicodeDecodeError escapes. */
  lemma DumpBreaksOnSplitCharacter(sv: Server, from: string)
    requires from in sv.memory && sv.memory[from].confirmed
    requires !Chunks(Encode(sv.memory[from].content)).complete
    ensures var bs := Encode(sv.memory[from].content);
      var cs := Chunks(bs).chunks;
      var step := HandleDump(sv, from).step;
      && step.status == Failed(UnicodeDecodeError)
      && step.server.memory == sv.memory
      && step.server.sent == sv.sent + Renders(cs, |bs| / MaxLength, from)
      && ChunkBytes * |cs| < |bs| && Decode(Slice(bs, |cs|)).None?
  {
    ChunksFromStop(Encode(sv.memory[from].content), 0, Decode);
  }

  /** A session over ASCII text: `/get`, `/dump`, `/dump` delivers the whole article. */
  lemma AsciiArticleDelivered(sv: Server, a: Archive, query: string, from: string, article: Article)
    requires query != "<query>" && !sv.searcher.locked
    requires Perform(a, sv.searcher.extras, query) == Ok(Some(article))
    requires IsAscii(article.summary)
    ensures var got := HandleGet(sv, a, Some(query), from).server;
      var announced := HandleDump(got, from).step.server;
      var dumped := HandleDump(announced, from).step;
      var cs := Chunks(Encode(article.summary)).chunks;
      && dumped.status == Done
      && from !in dumped.server.memory
      && Payloads(cs) == article.summary
      && |dumped.server.sent| == |announced.sent| + |cs|
      && dumped.server.sent[..|announced.sent|] == announced.sent
  {
    GetFound(sv, a, query, from, article);
    var got := HandleGet(sv, a, Some(query), from).server;
    DumpAnnounces(got, from);
    var announced := HandleDump(got, from).step.server;
    AsciiDumpCompletes(article.summary);
    DumpSends(announced, from);
  }
}
