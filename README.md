# wex article extraction, modelled in Dafny

`wex` fetches one web page, picks out its article, and prints it as cleaned
HTML or Markdown, optionally with page metadata. This project models the
core of `extractArticle` in `cmd/wex/main.go`. The model starts once the page
has been parsed and ends when the `ArticleContent` record is returned. It
covers four steps:

- **Metadata.** The title and three `meta` fields are read from the whole
  parsed document, before anything is pruned.
- **Selection.** A fixed list of five selectors is tried in priority order:
  `article`, `main`, `div.content`, `div.article-content`,
  `div.main-content`. Each one is searched over the whole document. The
  first selector that matches anything supplies the article root, which is
  its first match in document order. If no selector matches, the result is
  the "no article content found" error.
- **Pruning.** Every `script`, `style`, `nav`, `header`, `footer` and `aside`
  element below the root is removed, together with its subtree.
- **Packaging.** The children of the pruned root are serialised, the
  serialisation is trimmed of white space at both ends, and the result is
  stored with the metadata.

Files:

- `wrappers.dfy` holds `Option` and `Result`.
- `dom.dfy` is the value model of the parsed tree:
  - a node is an element (tag, attributes, children) or a text node;
  - a document is the list of top-level nodes;
  - positions are child-index paths;
  - document order is preorder (`Before`), proved to be a strict total
    order;
  - `ReplaceAt` writes a subtree back into the document.
- `selectors.dfy` covers the three selector shapes the extractor uses (tag,
  tag with class, tag with attribute equality):
  - `FindAll` is goquery's `Find`, proved to list exactly the matching
    positions, in document order;
  - `FindFirst` is `.First()`;
  - class matching follows cascadia's whitespace-separated class list.
- `noise.dfy` is the noise filter. Proved: no noise is left, exactly the
  nodes with no noise element at or above them survive, order is preserved, the
  filter is idempotent, and so is the in-place effect on the document.
- `strings.dfy` is Go's `strings.TrimSpace`, over the `unicode.IsSpace`
  characters.
- `metadata.dfy` covers `Find("title").Text()` and
  `Find("meta[...]").AttrOr("content", "")`.
- `extract.dfy` holds the priority scan (`SelectContent`, a loop that stops
  at the first selector that finds a node) and `ExtractArticle`.
- `scenarios.dfy` works through three small pages:
  - the example page with a title, an `article` and a `script`;
  - a page where `main` wins over an earlier `div.content`;
  - a page whose first author `meta` has no `content` attribute.

The HTML serialiser (goquery's `Html()`) is not part of this model. It is a
parameter of `ExtractArticle`: `render` maps the pruned children of the root
to `Some(html)`, or to `None` for its error return.

Two details of the metadata follow the code exactly:

- **Title.** `doc.Find("title").Text()` joins the texts of all `title`
  elements in document order, not only the first; `Metadata.Title` does the
  same.
- **Meta fields.** Each meta field comes from the first matching element
  only. If that element has no `content`, the field is empty even when a
  later match has one (`Scenarios.FirstMetaWithoutContent`).

## Model

| member | source | states |
|---|---|---|
| Extract.SelectContent | cmd/wex/main.go:69-84 | The loop returns a choice exactly when some selector matches. The choice's selector matches, every earlier selector in the list matches nothing, and the chosen node is that selector's first match in document order. It returns None exactly when no selector matches anything. |
| Extract.ChoiceUnique | cmd/wex/main.go:78-84 | At most one (selector, node) pair meets the choice conditions, so the article root is determined by the document. |
| Extract.ChoiceTierIsEarliest | cmd/wex/main.go:70-84 | Whenever selector i matches some node q, the chosen selector is i or an earlier one. If it is i, the chosen node is q or comes before q. |
| Extract.ArticleWins | cmd/wex/main.go:70-84 | In a document with any `article` element, the root is the first `article` in document order, whatever else the document contains. |
| Extract.ExtractArticle | cmd/wex/main.go:62-99 | "No article content" is returned exactly when no selector matches. An HTML error is returned exactly when the serialiser fails on the chosen node's pruned children, and success exactly when it does not. On success, the content is the trimmed serialisation of those pruned children, with no white space at either end. The metadata is that of the unpruned document. |
| Selectors.FindAll | cmd/wex/main.go:80 | Every listed position is a valid position of the document, and a node of the selector's kind stands there. |
| Selectors.FindAllSpec | cmd/wex/main.go:80 | A position is listed if and only if it is valid and its node matches. The listing is in strict document order, so each match appears once. |
| Selectors.FindAllFromSound | cmd/wex/main.go:80 | Each position found from sibling i onward lies under sibling i or a later one, and its node matches. |
| Selectors.FindAllFromComplete | cmd/wex/main.go:80 | Every matching node under sibling i or a later one is found. |
| Selectors.FindAllFromSorted | cmd/wex/main.go:80 | The positions found are in strict document order. |
| Selectors.FindFirst | cmd/wex/main.go:80-81 | A returned position is valid and matches the selector. |
| Selectors.FindFirstSpec | cmd/wex/main.go:80-81 | `First()` is empty exactly when nothing matches. Otherwise it is the match that comes before every other match. |
| Selectors.FirstMatchUnique | cmd/wex/main.go:80-81 | The first match in document order is unique. |
| Selectors.FirstSpace | cmd/wex/main.go:73-75 | Returns the index of the first class-list separator (space, tab, newline, carriage return or form feed), or the length if there is none. |
| Selectors.IncludesNameSound | cmd/wex/main.go:73-75 | If the class attribute includes the name, the name occurs as one whole separator-delimited word. |
| Selectors.IncludesNameComplete | cmd/wex/main.go:73-75 | A name occurring as a whole word of the class attribute is included. |
| Selectors.IncludesNameMeansWholeName | cmd/wex/main.go:73-75 | For a non-empty name, `div.content` style matching holds if and only if the name is one whole word of the class attribute. `content` inside `main-content` does not count. |
| Dom.BeforeIrreflexive | cmd/wex/main.go:80 | No node comes before itself in document order. |
| Dom.BeforeAsymmetric | cmd/wex/main.go:80 | Two nodes are never each before the other. |
| Dom.BeforeTransitive | cmd/wex/main.go:80 | Document order is transitive. |
| Dom.BeforeTotal | cmd/wex/main.go:80 | Any two distinct positions are ordered one way or the other, so "first in document order" is well defined. |
| Dom.AncestorBefore | cmd/wex/main.go:80 | An ancestor comes before all of its descendants. |
| Dom.ReplaceAt | cmd/wex/main.go:87 | Writing a subtree back keeps the number of top-level nodes. |
| Dom.ReplaceAtTarget | cmd/wex/main.go:87 | After the write, the position is still valid and holds the new subtree. |
| Dom.ReplaceAtTwice | cmd/wex/main.go:87 | A second write at the same position overrides the first. |
| Dom.ReplaceAtOutside | cmd/wex/main.go:87 | Positions outside the written subtree keep their validity. Ancestors keep their tag and attributes. Nodes that are neither ancestors nor descendants are unchanged. |
| Noise.PruneSeqAppend | cmd/wex/main.go:87 | Pruning works sibling by sibling: pruning a concatenation is the concatenation of the prunings. |
| Noise.PruneSeqAt | cmd/wex/main.go:87 | A sibling that is not noise reappears, pruned, at its new index among the survivors. |
| Noise.NewIndexMonotone | cmd/wex/main.go:87 | Surviving siblings keep their relative order. |
| Noise.NewIndexOnto | cmd/wex/main.go:87 | Every node of the pruned list comes from some sibling that is not noise. |
| Noise.KeepSurvives | cmd/wex/main.go:87 | A node with no noise element above it or at it survives, pruned, at its mapped position. |
| Noise.KeepOnto | cmd/wex/main.go:87 | Every node of the pruned forest is the survivor of such a node, so nothing is added. |
| Noise.KeepOrder | cmd/wex/main.go:87 | Survivors keep their document order. |
| Noise.CleanNotNoise | cmd/wex/main.go:87 | A node with no noise on its path is not itself a noise element. |
| Noise.NoNoiseLeft | cmd/wex/main.go:87 | No `script`, `style`, `nav`, `header`, `footer` or `aside` element is left anywhere in the pruned forest. |
| Noise.PruneSeqIdempotent | cmd/wex/main.go:87 | Removing noise a second time changes nothing. |
| Noise.PruneNodeIdempotent | cmd/wex/main.go:87 | Pruning a node a second time changes nothing. |
| Noise.PruneAtIdempotent | cmd/wex/main.go:87 | Repeating the in-place removal on the document has no further effect. |
| Noise.PruneAtSpec | cmd/wex/main.go:87 | After the removal, the chosen node keeps its tag and attributes, its children are the pruned originals, and no noise descendant remains. Positions outside its subtree keep their validity, and ancestors keep their tag and attributes. All other nodes are unchanged. |
| Strings.FirstNonSpace | cmd/wex/main.go:97 | The forward scan stops at the first character that is not white space, or at the end. Everything it skips is white space. |
| Strings.EndOfNonSpace | cmd/wex/main.go:97 | The backward scan never passes the start. It stops just after the last character that is not white space, and everything it skips is white space. |
| Strings.TrimSpaceSpec | cmd/wex/main.go:97 | The trimmed content is a contiguous middle part of the serialisation. Everything cut off at either end is white space, and the result neither starts nor ends with white space. |
| Strings.TrimSpaceFixpoint | cmd/wex/main.go:97 | Content with no white space at either end is left as it is. |
| Strings.TrimSpaceIdempotent | cmd/wex/main.go:97 | Trimming twice is trimming once. |
| Metadata.FirstAttr | cmd/wex/main.go:64-66 | Returns nothing exactly when no attribute has the key. Otherwise it returns the value of the first attribute with that key. |
| Metadata.MetaContentSpec | cmd/wex/main.go:64-66 | A meta field is empty when no `meta` element matches. Otherwise it is the first `content` attribute of the first match in document order, or empty if that element has none. |
| Metadata.MetaContentOnlyFirstMatch | cmd/wex/main.go:64-66 | Only the first matching `meta` element matters: documents whose first matches are the same element give the same field. |
| Metadata.TitleEmptyWithoutTitle | cmd/wex/main.go:63 | A document without a `title` element has an empty title. |
| Metadata.TextOfAllAppend | cmd/wex/main.go:63 | The text of a selection is the text of its parts, one after another. |
| Metadata.TitleIsAllTitlesInOrder | cmd/wex/main.go:63 | The title is the text of every `title` element, each once, in document order. |
| Metadata.SortedUnique | cmd/wex/main.go:63 | Two listings in document order of the same positions are equal, so the order of the title texts is determined. |
| Scenarios.ArticlePageChoice | cmd/wex/main.go:69-84 | On `<html><head><title>T</title></head><body><article>…</article></body></html>`, the `article` element is the root. |
| Scenarios.ArticlePagePruning | cmd/wex/main.go:87 | On that page, removing noise leaves the `<p>Hello <b>world</b></p>` paragraph whole and drops the `script`. |
| Scenarios.ArticlePageMetadata | cmd/wex/main.go:62-67 | On that page, the title is "T" and the other three fields are empty. |
| Scenarios.MainPageContentDiv | cmd/wex/main.go:73 | `<div class="lead content">` matches `div.content` and comes before the page's `main` element. |
| Scenarios.MainBeatsEarlierContentDiv | cmd/wex/main.go:70-84 | On that page, `main` is chosen over the earlier `div.content`, because `main` comes first in the priority list. |
| Scenarios.FirstMetaWithoutContent | cmd/wex/main.go:62-93 | The author is empty when the first author `meta` lacks `content`, even though a later one has `content="A"`. A page with no article selector match has no article. |
| Scenarios.ExtractArticlePage | cmd/wex/main.go:62-99 | The whole extraction on the example page succeeds whenever the serialiser accepts the pruned paragraph. The content is that serialisation, trimmed, and the metadata is title "T" with the other fields empty. |
| Scenarios.ExtractMetaPage | cmd/wex/main.go:86-93 | The whole extraction on a page with no article selector match fails with "no article content found", whatever the serialiser does. |

## Left out

- The HTTP fetch (`cmd/wex/main.go:37-55`) is not modelled: client, timeout, user agent, status check and its errors. It is network I/O.
- HTML parsing (`cmd/wex/main.go:57-60`) and its error are not modelled. The model starts from the parsed tree.
- How the parser normalises tag and attribute names (lower-casing, implied `html`/`head`/`body` elements) is not modelled. The model takes the tree as given.
- Comment and doctype nodes are not modelled. The DOM has only elements and text nodes.
- The serialiser `Html()` (`cmd/wex/main.go:88-91`) is not modelled. It is the abstract parameter `render`, and its error return is `None`.
- Markdown conversion (`cmd/wex/main.go:102-113`) is not modelled. It is a third-party library.
- The command line, flags, JSON output and printing (`cmd/wex/main.go:115` onward) are not modelled.
- The general CSS selector engine is not modelled. Only the three selector shapes the extractor uses are.
- Removing the noise elements in place is modelled on values:
  - `PruneAt` rebuilds the document with the chosen subtree replaced;
  - node identity and aliasing between goquery selections are not captured;
  - the noise list `script, style, nav, header, footer, aside` is one selector group, read as a set of tags.
- Go strings are byte sequences, and `TrimSpace` decodes them as UTF-8. The model works on Unicode code points, so invalid UTF-8 is not modelled.
