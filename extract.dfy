/**
  The article extractor: reads the metadata, scans the fixed selector list in
  priority order for the article root, prunes noise below it, and packages the
  trimmed inner HTML with the metadata.

  The HTML serialiser (goquery's `Html()`, which renders the children of a
  node) is not part of this model; it is passed in as `render`, whose `None`
  stands for its error return.
*/
module Extract {
  import opened Wrappers
  import opened Dom
  import opened Selectors
  import opened Noise
  import opened Metadata
  import opened Strings

  datatype ArticleContent = ArticleContent(content: string, metadata: ArticleMetadata)

  datatype ExtractError =
    | NoArticleContent  // "no article content found"
    | HtmlError         // "error extracting HTML content: ..."

  /** The candidate article roots, highest priority first. */
  const ArticleSelectors: seq<Selector> := [
    Tag("article"),
    Tag("main"),
    TagClass("div", "content"),
    TagClass("div", "article-content"),
    TagClass("div", "main-content")
  ]

  /** The chosen article root: which selector found it, and where it is. */
  datatype Choice = Choice(tier: nat, path: Path)

  /**
    `c` is the extractor's choice: no selector listed before `c.tier` matches
    anything in the document, and `c.path` is the first match of selector
    `c.tier` in document order.
  */
  ghost predicate IsChoice(doc: Document, c: Choice)
  {
    && c.tier < |ArticleSelectors|
    && (forall j :: 0 <= j < c.tier ==> NoMatch(ArticleSelectors[j], doc))
    && IsFirstMatch(ArticleSelectors[c.tier], doc, c.path)
  }

  /** None of the article selectors matches anything. */
  ghost predicate NoArticle(doc: Document)
  {
    forall j :: 0 <= j < |ArticleSelectors| ==> NoMatch(ArticleSelectors[j], doc)
  }

  /** The priority scan: try each selector over the whole document and stop at the first that finds a node. */
  method SelectContent(doc: Document) returns (chosen: Option<Choice>)
    ensures chosen.Some? ==> IsChoice(doc, chosen.value)
    ensures chosen.None? <==> NoArticle(doc)
  {
    chosen := None;
    var i := 0;
    while i < |ArticleSelectors|
      invariant 0 <= i <= |ArticleSelectors|
      invariant forall j :: 0 <= j < i ==> NoMatch(ArticleSelectors[j], doc)
    {
      var contentNode := FindFirst(ArticleSelectors[i], doc);
      FindFirstSpec(ArticleSelectors[i], doc);
      if contentNode.Some? {
        chosen := Some(Choice(i, contentNode.value));
        break;
      }
      i := i + 1;
    }
    if chosen.Some? {
      var c := chosen.value;
      assert IsFirstMatch(ArticleSelectors[c.tier], doc, c.path);
      assert !NoMatch(ArticleSelectors[c.tier], doc);
    }
  }

  /** There is at most one choice. */
  lemma ChoiceUnique(doc: Document, c: Choice, c': Choice)
    requires IsChoice(doc, c) && IsChoice(doc, c')
    ensures c == c'
  {
    FirstMatchUnique(ArticleSelectors[c.tier], doc, c.path, c'.path);
  }

  /**
    Priority: whenever selector `i` matches some node `q`, the choice comes
    from selector `i` or an earlier one, and if from `i` itself then it is `q`
    or a node before `q` in document order.
  */
  lemma ChoiceTierIsEarliest(doc: Document, c: Choice, i: nat, q: Path)
    requires IsChoice(doc, c)
    requires i < |ArticleSelectors| && ValidPath(doc, q) && Matches(ArticleSelectors[i], At(doc, q))
    ensures c.tier <= i
    ensures c.tier == i ==> c.path == q || Before(c.path, q)
  {
  }

  /**
    A document with an `article` element has the first `article` in
    document order as its article root, whatever `main` or content `div`
    elements it also has.
  */
  lemma ArticleWins(doc: Document, c: Choice, q: Path)
    requires IsChoice(doc, c)
    requires ValidPath(doc, q) && Matches(Tag("article"), At(doc, q))
    ensures c.tier == 0 && IsFirstMatch(Tag("article"), doc, c.path)
  {
    ChoiceTierIsEarliest(doc, c, 0, q);
  }

  /**
    `extractArticle` after the document has been parsed: the metadata of the
    unpruned document, the not-found error when no selector matches, the
    serialiser's error, or the trimmed serialisation of the pruned children of
    the chosen node.
  */
  method ExtractArticle(doc: Document, render: seq<Node> -> Option<string>) returns (r: Result<ArticleContent, ExtractError>)
    ensures r == Err(NoArticleContent) <==> NoArticle(doc)
    ensures r == Err(HtmlError) <==> exists c :: IsChoice(doc, c) && render(PruneSeq(Kids(At(doc, c.path)))).None?
    ensures r.Ok? <==> exists c :: IsChoice(doc, c) && render(PruneSeq(Kids(At(doc, c.path)))).Some?
    ensures r.Ok? ==> exists c :: IsChoice(doc, c)
                                 && render(PruneSeq(Kids(At(doc, c.path)))).Some?
                                 && r.value.content == TrimSpace(render(PruneSeq(Kids(At(doc, c.path)))).value)
    ensures r.Ok? ==> r.value.metadata == MetadataOf(doc)
    ensures r.Ok? ==> r.value.content == [] || (!IsSpace(r.value.content[0]) && !IsSpace(r.value.content[|r.value.content| - 1]))
  {
    var metadata := MetadataOf(doc);
    var chosen := SelectContent(doc);
    if chosen.None? {
      return Err(NoArticleContent);
    }
    var p := chosen.value.path;
    var pruned := PruneAt(doc, p);
    PruneAtSpec(doc, p);
    var html := render(Kids(At(pruned, p)));
    forall c | IsChoice(doc, c)
      ensures c == chosen.value
    {
      ChoiceUnique(doc, c, chosen.value);
    }
    if html.None? {
      return Err(HtmlError);
    }
    var content := TrimSpace(html.value);
    TrimSpaceSpec(html.value);
    r := Ok(ArticleContent(content, metadata));
  }
}
