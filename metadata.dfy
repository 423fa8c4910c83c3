/**
  Page metadata, read from the whole parsed document before anything is
  pruned: the text of the `title` elements and the `content` attribute of
  three kinds of `meta` element.
*/
module Metadata {
  import opened Wrappers
  import opened Dom
  import opened Selectors

  datatype ArticleMetadata = ArticleMetadata(title: string, description: string, author: string, published: string)

  /** goquery's Text for one node: the data of all text nodes in its subtree, in document order. */
  function TextOf(n: Node): string
    decreases n, 1
  {
    match n
    case Text(data) => data
    case Element(_, _, children) => TextOfSeq(children)
  }

  function TextOfSeq(ns: seq<Node>): string
    decreases ns, 0
  {
    if ns == [] then [] else TextOf(ns[0]) + TextOfSeq(ns[1..])
  }

  /** goquery's Text for a selection: the texts of the selected nodes, one after another. */
  function TextOfAll(doc: Document, ps: seq<Path>): string
    requires forall p :: p in ps ==> ValidPath(doc, p)
  {
    if ps == [] then [] else TextOf(At(doc, ps[0])) + TextOfAll(doc, ps[1..])
  }

  const TitleSelector: Selector := Tag("title")

  /** `doc.Find("title").Text()`. */
  function Title(doc: Document): string
  {
    TextOfAll(doc, FindAll(TitleSelector, doc))
  }

  /** The value of the first attribute named `key`, if there is one. */
  function FirstAttr(attrs: seq<Attribute>, key: string): (r: Option<string>)
    ensures r.None? <==> forall k :: 0 <= k < |attrs| ==> attrs[k].key != key
    ensures r.Some? ==> exists k :: 0 <= k < |attrs| && attrs[k] == Attribute(key, r.value)
                                    && forall m :: 0 <= m < k ==> attrs[m].key != key
  {
    if attrs == [] then None
    else if attrs[0].key == key then Some(attrs[0].val)
    else
      var r := FirstAttr(attrs[1..], key);
      assert forall k :: 1 <= k < |attrs| ==> attrs[k] == attrs[1..][k - 1];
      r
  }

  /** goquery's AttrOr on one node: its first `key` attribute, or `default` when it has none. */
  function AttrOr(n: Node, key: string, default: string): string
  {
    match FirstAttr(if n.Element? then n.attrs else [], key)
    case None => default
    case Some(v) => v
  }

  /** The selector `meta[key='val']`. */
  function MetaSelector(key: string, val: string): Selector
  {
    TagAttr("meta", key, val)
  }

  /** `doc.Find("meta[key='val']").AttrOr("content", "")`. */
  function MetaContent(doc: Document, key: string, val: string): string
  {
    match FindFirst(MetaSelector(key, val), doc)
    case None => ""
    case Some(p) => AttrOr(At(doc, p), "content", "")
  }

  /** The metadata record the extractor fills in. */
  function MetadataOf(doc: Document): ArticleMetadata
  {
    ArticleMetadata(
      Title(doc),
      MetaContent(doc, "name", "description"),
      MetaContent(doc, "name", "author"),
      MetaContent(doc, "property", "article:published_time"))
  }

  /**
    A meta field is the `content` attribute of the first matching `meta`
    element in document order, or empty when there is no such element or that
    first one has no `content` attribute; later matches play no part.
  */
  lemma MetaContentSpec(doc: Document, key: string, val: string)
    ensures NoMatch(MetaSelector(key, val), doc) ==> MetaContent(doc, key, val) == ""
    ensures forall p :: IsFirstMatch(MetaSelector(key, val), doc, p) ==>
              MetaContent(doc, key, val) == AttrOr(At(doc, p), "content", "")
  {
    var sel := MetaSelector(key, val);
    FindFirstSpec(sel, doc);
    forall p | IsFirstMatch(sel, doc, p)
      ensures MetaContent(doc, key, val) == AttrOr(At(doc, p), "content", "")
    {
      FirstMatchUnique(sel, doc, p, FindFirst(sel, doc).value);
    }
  }

  /** Two documents whose first matching `meta` elements are the same node give the same field. */
  lemma MetaContentOnlyFirstMatch(doc: Document, doc': Document, key: string, val: string, p: Path, p': Path)
    requires IsFirstMatch(MetaSelector(key, val), doc, p)
    requires IsFirstMatch(MetaSelector(key, val), doc', p')
    requires At(doc, p) == At(doc', p')
    ensures MetaContent(doc, key, val) == MetaContent(doc', key, val)
  {
    MetaContentSpec(doc, key, val);
    MetaContentSpec(doc', key, val);
  }

  /** The title is empty when the document has no `title` element. */
  lemma TitleEmptyWithoutTitle(doc: Document)
    requires NoMatch(TitleSelector, doc)
    ensures Title(doc) == ""
  {
  }

  lemma TextOfAllAppend(doc: Document, xs: seq<Path>, ys: seq<Path>)
    requires forall p :: p in xs + ys ==> ValidPath(doc, p)
    ensures TextOfAll(doc, xs + ys) == TextOfAll(doc, xs) + TextOfAll(doc, ys)
    decreases |xs|
  {
    if xs == [] {
      assert xs + ys == ys;
    } else {
      assert (xs + ys)[1..] == xs[1..] + ys;
      TextOfAllAppend(doc, xs[1..], ys);
    }
  }

  /**
    The title is the text of every `title` element in document order: with
    `ps` any listing of all the `title` elements, each once and in document
    order, the title is their texts one after another.
  */
  lemma TitleIsAllTitlesInOrder(doc: Document, ps: seq<Path>)
    requires forall p :: p in ps <==> ValidPath(doc, p) && Matches(TitleSelector, At(doc, p))
    requires SortedPaths(ps)
    ensures Title(doc) == TextOfAll(doc, ps)
  {
    FindAllSpec(TitleSelector, doc);
    SortedUnique(FindAll(TitleSelector, doc), ps);
  }

  /** Two document-ordered listings of the same positions are the same listing. */
  lemma {:induction false} SortedUnique(xs: seq<Path>, ys: seq<Path>)
    requires SortedPaths(xs) && SortedPaths(ys)
    requires forall p :: p in xs <==> p in ys
    ensures xs == ys
    decreases |xs|
  {
    if xs != [] {
      assert ys != [] by { assert xs[0] in ys; }
      if xs[0] != ys[0] {
        assert ys[0] in xs;
        assert xs[0] in ys;
        var a :| 0 <= a < |xs| && xs[a] == ys[0];
        var b :| 0 <= b < |ys| && ys[b] == xs[0];
        assert Before(xs[0], ys[0]);
        assert Before(ys[0], xs[0]);
        BeforeAsymmetric(xs[0], ys[0]);
      }
      forall p
        ensures p in xs[1..] <==> p in ys[1..]
      {
        if p in xs[1..] {
          var a :| 0 <= a < |xs[1..]| && xs[1..][a] == p;
          assert Before(xs[0], xs[a + 1]);
          BeforeIrreflexive(p);
          assert p in ys && p != ys[0];
          var b :| 0 <= b < |ys| && ys[b] == p;
          assert ys[1..][b - 1] == p;
        }
        if p in ys[1..] {
          var b :| 0 <= b < |ys[1..]| && ys[1..][b] == p;
          assert Before(ys[0], ys[b + 1]);
          BeforeIrreflexive(p);
          assert p in xs && p != xs[0];
          var a :| 0 <= a < |xs| && xs[a] == p;
          assert xs[1..][a - 1] == p;
        }
      }
      SortedUnique(xs[1..], ys[1..]);
      assert xs == [xs[0]] + xs[1..] && ys == [ys[0]] + ys[1..];
    } else if ys != [] {
      HeadIn(ys);
      assert false;
    }
  }

  /** Used in a branch that cannot happen, where an inline assertion would be proved from contradictory facts. */
  lemma HeadIn(ps: seq<Path>)
    requires ps != []
    ensures ps[0] in ps
  {
  }
}
