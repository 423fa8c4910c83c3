/**
  Worked documents: what the extractor does with a few small pages, derived
  from the general definitions.
*/
module Scenarios {
  import opened Wrappers
  import opened Dom
  import opened Selectors
  import opened Noise
  import opened Metadata
  import opened Extract
  import opened Strings

  // <html><head><title>T</title></head>
  //   <body><article><p>Hello <b>world</b></p><script>evil()</script></article></body></html>
  const Hello: Node := Element("p", [], [Text("Hello "), Element("b", [], [Text("world")])])
  const Script: Node := Element("script", [], [Text("evil()")])
  const Head: Node := Element("head", [], [Element("title", [], [Text("T")])])
  const Art: Node := Element("article", [], [Hello, Script])
  const Body: Node := Element("body", [], [Art])
  const ArticlePage: Document := [Element("html", [], [Head, Body])]

  /** A selector whose tag does not occur in the article page finds nothing there. */
  lemma ArticlePageLacks(sel: Selector)
    requires sel.tag !in {"html", "head", "title", "body", "article", "p", "b", "script"}
    ensures FindAll(sel, ArticlePage) == []
  {
    assert FindAllFrom(sel, Hello.children[1].children, 0) == [];
    assert FindAllFrom(sel, Hello.children, 1) == [];
    assert FindAllFrom(sel, Hello.children, 0) == [];
    assert FindAllFrom(sel, Script.children, 0) == [];
    assert FindAllFrom(sel, Art.children, 1) == [];
    assert FindAllFrom(sel, Art.children, 0) == [];
    assert FindAllFrom(sel, Head.children[0].children, 0) == [];
    assert FindAllFrom(sel, Head.children, 0) == [];
    assert FindAllFrom(sel, Body.children, 0) == [];
    assert FindAllFrom(sel, ArticlePage[0].children, 1) == [];
    assert FindAllFrom(sel, ArticlePage[0].children, 0) == [];
    assert FindAllFrom(sel, ArticlePage, 0) == [];
  }

  lemma ArticlePageArticles(sel: Selector)
    requires sel == Tag("article")
    ensures FindAll(sel, ArticlePage) == [[0, 1, 0]]
  {
    assert FindAllFrom(sel, Hello.children[1].children, 0) == [];
    assert FindAllFrom(sel, Hello.children, 1) == [];
    assert FindAllFrom(sel, Hello.children, 0) == [];
    assert FindAllFrom(sel, Script.children, 0) == [];
    assert FindAllFrom(sel, Art.children, 1) == [];
    assert FindAllFrom(sel, Art.children, 0) == [];
    assert FindAllFrom(sel, Head.children[0].children, 0) == [];
    assert FindAllFrom(sel, Head.children, 0) == [];
    assert FindAllFrom(sel, Body.children, 0) == [[0]];
    assert Under(1, [[0]])[0] == [1, 0];
    assert FindAllFrom(sel, ArticlePage[0].children, 1) == [[1, 0]];
    assert FindAllFrom(sel, ArticlePage[0].children, 0) == [[1, 0]];
    assert Under(0, [[1, 0]])[0] == [0, 1, 0];
    assert FindAllFrom(sel, ArticlePage, 1) == [];
    assert FindBelow(sel, ArticlePage[0]) == [[1, 0]];
    assert FindAllFrom(sel, ArticlePage, 0) == [] + Under(0, [[1, 0]]) + [];
  }

  lemma ArticlePageTitles(sel: Selector)
    requires sel == TitleSelector
    ensures FindAll(sel, ArticlePage) == [[0, 0, 0]]
  {
    assert FindAllFrom(sel, Hello.children[1].children, 0) == [];
    assert FindAllFrom(sel, Hello.children, 1) == [];
    assert FindAllFrom(sel, Hello.children, 0) == [];
    assert FindAllFrom(sel, Script.children, 0) == [];
    assert FindAllFrom(sel, Art.children, 1) == [];
    assert FindAllFrom(sel, Art.children, 0) == [];
    assert FindAllFrom(sel, Head.children[0].children, 0) == [];
    assert FindAllFrom(sel, Head.children, 0) == [[0]];
    assert FindAllFrom(sel, Body.children, 0) == [];
    assert FindAllFrom(sel, ArticlePage[0].children, 1) == [];
    assert Under(0, [[0]])[0] == [0, 0];
    assert FindAllFrom(sel, ArticlePage[0].children, 0) == [[0, 0]];
    assert Under(0, [[0, 0]])[0] == [0, 0, 0];
    assert FindAllFrom(sel, ArticlePage, 1) == [];
    assert FindBelow(sel, ArticlePage[0]) == [[0, 0]];
    assert FindAllFrom(sel, ArticlePage, 0) == [] + Under(0, [[0, 0]]) + [];
  }

  /** The `article` is the article root. */
  lemma ArticlePageChoice()
    ensures IsChoice(ArticlePage, Choice(0, [0, 1, 0]))
  {
    ArticlePageArticles(Tag("article"));
    FindFirstSpec(Tag("article"), ArticlePage);
  }

  /** The script inside the article is pruned away while the paragraph stays whole. */
  lemma ArticlePagePruning()
    ensures PruneSeq(Kids(At(ArticlePage, [0, 1, 0]))) == [Hello]
  {
    var bold := Hello.children[1];
    assert PruneSeq(bold.children[1..]) == [];
    assert PruneSeq(bold.children) == bold.children;
    assert PruneNode(bold) == bold;
    assert PruneSeq(Hello.children[2..]) == [];
    assert PruneSeq(Hello.children[1..]) == [bold];
    assert PruneSeq(Hello.children) == Hello.children;
    assert PruneNode(Hello) == Hello;
    assert PruneSeq(Art.children[2..]) == [];
    assert PruneSeq(Art.children[1..]) == [];
    assert Kids(At(ArticlePage, [0, 1, 0])) == Art.children;
  }

  /** The title is "T", and the page has no description, author or publication time. */
  lemma ArticlePageMetadata()
    ensures MetadataOf(ArticlePage) == ArticleMetadata("T", "", "", "")
  {
    ArticlePageTitles(TitleSelector);
    var title := Head.children[0];
    assert TextOfSeq(title.children[1..]) == "";
    assert TextOf(title) == "T";
    assert At(ArticlePage, [0, 0, 0]) == title;
    assert TextOfAll(ArticlePage, [[0, 0, 0]]) == "T" + TextOfAll(ArticlePage, []);
    assert Title(ArticlePage) == "T";
    ArticlePageLacks(MetaSelector("name", "description"));
    ArticlePageLacks(MetaSelector("name", "author"));
    ArticlePageLacks(MetaSelector("property", "article:published_time"));
    assert MetaContent(ArticlePage, "name", "description") == "";
    assert MetaContent(ArticlePage, "name", "author") == "";
    assert MetaContent(ArticlePage, "property", "article:published_time") == "";
  }

  // <body><div class="lead content">A</div><main>M</main></body>
  const LeadDiv: Node := Element("div", [Attribute("class", "lead content")], [Text("A")])
  const MainPart: Node := Element("main", [], [Text("M")])
  const MainPage: Document := [Element("body", [], [LeadDiv, MainPart])]

  lemma MainPageFinds(sel: Selector)
    requires sel == Tag("article") || sel == Tag("main")
    ensures FindAll(sel, MainPage) == if sel == Tag("main") then [[0, 1]] else []
  {
    assert FindAllFrom(sel, LeadDiv.children, 0) == [];
    assert FindAllFrom(sel, MainPart.children, 0) == [];
    assert FindAllFrom(sel, MainPage[0].children, 2) == [];
    if sel == Tag("main") {
      assert FindAllFrom(sel, MainPage[0].children, 1) == [[1]];
      assert FindAllFrom(sel, MainPage[0].children, 0) == [[1]];
      assert Under(0, [[1]])[0] == [0, 1];
      assert FindAllFrom(sel, MainPage, 1) == [];
      assert FindBelow(sel, MainPage[0]) == [[1]];
      assert FindAllFrom(sel, MainPage, 0) == [] + Under(0, [[1]]) + [];
    } else {
      assert FindAllFrom(sel, MainPage[0].children, 1) == [];
      assert FindAllFrom(sel, MainPage[0].children, 0) == [];
      assert FindAllFrom(sel, MainPage, 0) == [];
    }
  }

  lemma LeadClassIncludesContent(cls: string, tok: string)
    requires cls == "lead content" && tok == "content"
    ensures IncludesName(cls, tok)
  {
    assert FirstSpace(cls) == 4 by { assert IsClassSpace(cls[4]); }
    assert cls[5..] == tok;
    assert FirstSpace(tok) == |tok|;
  }

  /** The `div` in the priority page is a content `div`, and it comes before the `main` element. */
  lemma MainPageContentDiv()
    ensures Matches(TagClass("div", "content"), At(MainPage, [0, 0])) && Before([0, 0], [0, 1])
  {
    LeadClassIncludesContent("lead content", "content");
    assert LeadDiv.attrs[0] in LeadDiv.attrs;
    assert At(MainPage, [0, 0]) == LeadDiv;
  }

  /**
    Priority beats document order: the `main` element is the article root
    although a `div.content` comes before it.
  */
  lemma MainBeatsEarlierContentDiv()
    ensures IsChoice(MainPage, Choice(1, [0, 1]))
  {
    MainPageFinds(Tag("article"));
    MainPageFinds(Tag("main"));
    FindFirstSpec(Tag("article"), MainPage);
    FindFirstSpec(Tag("main"), MainPage);
  }

  // <head><meta name="author"><meta name="author" content="A"></head>
  const BareMeta: Node := Element("meta", [Attribute("name", "author")], [])
  const FullMeta: Node := Element("meta", [Attribute("name", "author"), Attribute("content", "A")], [])
  const MetaPage: Document := [Element("head", [], [BareMeta, FullMeta])]

  lemma MetaPageAuthors(sel: Selector)
    requires sel == MetaSelector("name", "author")
    ensures FindAll(sel, MetaPage) == [[0, 0], [0, 1]]
  {
    assert FindAllFrom(sel, MetaPage[0].children, 2) == [];
    assert FindAllFrom(sel, MetaPage[0].children, 1) == [[1]];
    assert FindAllFrom(sel, MetaPage[0].children, 0) == [[0], [1]];
    assert Under(0, [[0], [1]])[0] == [0, 0];
    assert Under(0, [[0], [1]])[1] == [0, 1];
    assert FindAllFrom(sel, MetaPage, 1) == [];
    assert FindBelow(sel, MetaPage[0]) == [[0], [1]];
    assert FindAllFrom(sel, MetaPage, 0) == [] + Under(0, [[0], [1]]) + [];
  }

  lemma MetaPageLacks(sel: Selector)
    requires sel.tag !in {"head", "meta"}
    ensures FindAll(sel, MetaPage) == []
  {
    assert FindAllFrom(sel, MetaPage[0].children, 2) == [];
    assert FindAllFrom(sel, MetaPage[0].children, 1) == [];
    assert FindAllFrom(sel, MetaPage[0].children, 0) == [];
    assert FindAllFrom(sel, MetaPage, 0) == [];
  }

  /**
    Only the first matching `meta` element counts: it has no `content`, so the
    author is empty although a later author `meta` has one. The page has no
    article root.
  */
  lemma FirstMetaWithoutContent()
    ensures MetaContent(MetaPage, "name", "author") == ""
    ensures AttrOr(At(MetaPage, [0, 1]), "content", "") == "A"
    ensures NoArticle(MetaPage)
  {
    MetaPageAuthors(MetaSelector("name", "author"));
    assert At(MetaPage, [0, 0]) == BareMeta;
    assert At(MetaPage, [0, 1]) == FullMeta;
    forall j | 0 <= j < |ArticleSelectors|
      ensures NoMatch(ArticleSelectors[j], MetaPage)
    {
      MetaPageLacks(ArticleSelectors[j]);
      FindFirstSpec(ArticleSelectors[j], MetaPage);
    }
  }

  /**
    The whole extraction on the article page: whatever the serialiser makes of
    the pruned paragraph, trimmed, with title "T" and no other metadata.
  */
  method ExtractArticlePage(render: seq<Node> -> Option<string>) returns (r: Result<ArticleContent, ExtractError>)
    requires render([Hello]).Some?
    ensures r == Ok(ArticleContent(TrimSpace(render([Hello]).value), ArticleMetadata("T", "", "", "")))
  {
    ArticlePageChoice();
    ArticlePagePruning();
    ArticlePageMetadata();
    ghost var chosen := Choice(0, [0, 1, 0]);
    forall c | IsChoice(ArticlePage, c)
      ensures c == chosen
    {
      ChoiceUnique(ArticlePage, c, chosen);
    }
    assert !NoArticle(ArticlePage);
    r := ExtractArticle(ArticlePage, render);
    assert IsChoice(ArticlePage, chosen) && render(PruneSeq(Kids(At(ArticlePage, chosen.path)))).Some?;
    ghost var c :| IsChoice(ArticlePage, c) && r.value.content == TrimSpace(render(PruneSeq(Kids(At(ArticlePage, c.path)))).value);
    assert c == chosen;
  }

  /** The whole extraction on the meta page fails with the not-found error, whatever the serialiser. */
  method ExtractMetaPage(render: seq<Node> -> Option<string>) returns (r: Result<ArticleContent, ExtractError>)
    ensures r == Err(NoArticleContent)
  {
    FirstMetaWithoutContent();
    r := ExtractArticle(MetaPage, render);
  }
}
