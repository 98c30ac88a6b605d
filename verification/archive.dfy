/** The collaborators the searcher calls and whose code is not part of this model: the ZIM
    archive reader together with the HTML-to-markdown conversion of what it returns, the
    SQLite full-text index, the embedding model, the BM25 scorer and the clock. Each appears
    as the function it computes. */
module Archive {
  import opened Outcomes
  import opened Text

  datatype Archive = Archive(
    /** `zim.get_article_by_url("A", key)`: the article at `key`, if any, as the markdown
        text `markdownify(article.data, strip=['a'])`. */
    byUrl: string -> Option<string>,
    /** `SELECT rowid FROM articles WHERE title MATCH expression`, in the index's order. */
    matches: string -> seq<int>,
    /** `zim.read_directory_entry_by_index(row)["url"]`. */
    urlAt: int -> string,
    /** `zim._get_article_by_index(row)`, as the markdown text of its data. */
    pageAt: int -> string,
    /** `np.dot(model.encode(query), model.encode(text))`. */
    similarity: (string, string) -> real,
    /** `BM25().calculate_scores(words, documents)`. */
    bm25: (seq<string>, seq<string>) -> seq<real>,
    /** `time.time() - a` around the fast lookup. */
    fastDuration: real,
    /** `time.time() - a` around the ranked search. */
    slowDuration: real
  )

  /** The built-in article that answers a search for the mesh network itself, held as the
      pieces of its text. */
  const MeshtasticLines: seq<string> := [
    "**Meshtastic** is a ",
    "decentralized protocol to ",
    "send long range messages ",
    "between devices while also ",
    "using very little power. When ",
    "a user wants to send a ",
    "message to the network, they ",
    "use a technique called LoRa ",
    "to broadcast their message to ",
    "their neighbors. Each ",
    "neighbor then repeats this ",
    "process until the maximum ",
    "number of hops is achieved. ",
    "Because each user is part of ",
    "the \"mesh\", it does not ",
    "require existing existing ",
    "infrastructure such as cell ",
    "towers, so it is very useful ",
    "for emergency scenarios or in ",
    "remote areas. Users can also ",
    "setup encrypted channels for ",
    "better privacy or security. ",
    "To join Meshtastic, users ",
    "will require a LoRa ",
    "transmitter/receiver chip and ",
    "a microprocessor to ",
    "communicate with it, which is ",
    "easily purchased as a ",
    "commercially available board ",
    "such as the HeltecV3."
  ]

  const MeshtasticArticle := Join(MeshtasticLines, "")

  /** `EXTRA_ARTICLES`: articles served when the archive has nothing for the query. */
  const ExtraArticles: map<string, string> := map["meshtastic" := MeshtasticArticle]
}
