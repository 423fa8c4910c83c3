/**
  The three selector shapes the extractor passes to goquery's Find: a tag name
  (`article`), a tag with a class (`div.content`) and a tag with an exact
  attribute value (`meta[name='author']`), and the document-wide search that
  Find performs: every matching descendant, once, in document order.
*/
module Selectors {
  import opened Wrappers
  import opened Dom

  datatype Selector =
    | Tag(tag: string)
    | TagClass(tag: string, cls: string)
    | TagAttr(tag: string, key: string, val: string)

  /** The characters that separate the names in a class attribute. */
  predicate IsClassSpace(c: char)
  {
    c == ' ' || c == '\t' || c == '\n' || c == '\r' || c == '\U{000C}'
  }

  /** The index of the first separator in `s`, or `|s|` when there is none. */
  function FirstSpace(s: string): (k: nat)
    ensures k <= |s|
    ensures forall i :: 0 <= i < k ==> !IsClassSpace(s[i])
    ensures k < |s| ==> IsClassSpace(s[k])
  {
    if s == [] || IsClassSpace(s[0]) then 0 else 1 + FirstSpace(s[1..])
  }

  /**
    `tok` is one of the separator-delimited names of the attribute value `s`:
    the value is cut at its first separator, the piece before it is compared,
    and the search goes on after the separator.
  */
  predicate IncludesName(s: string, tok: string)
    decreases |s|
  {
    if s == [] then false
    else
      var k := FirstSpace(s);
      if k == |s| then s == tok else s[..k] == tok || IncludesName(s[k + 1..], tok)
  }

  /** `s[i..j]` is a whole name of `s`: no separator inside, a separator or an end on each side. */
  predicate IsNameAt(s: string, i: nat, j: nat)
  {
    i <= j <= |s|
    && (i == 0 || IsClassSpace(s[i - 1]))
    && (j == |s| || IsClassSpace(s[j]))
    && (forall k :: i <= k < j ==> !IsClassSpace(s[k]))
  }

  /** Each name that IncludesName accepts stands as a whole name in the value. */
  lemma {:induction false} IncludesNameSound(s: string, tok: string)
    requires IncludesName(s, tok)
    ensures exists i: nat, j: nat :: IsNameAt(s, i, j) && s[i..j] == tok
    decreases |s|
  {
    var k := FirstSpace(s);
    if k == |s| {
      assert IsNameAt(s, 0, |s|) && s[0..|s|] == tok;
    } else if s[..k] == tok {
      assert IsNameAt(s, 0, k) && s[0..k] == tok;
    } else {
      var t := s[k + 1..];
      IncludesNameSound(t, tok);
      var i': nat, j': nat :| IsNameAt(t, i', j') && t[i'..j'] == tok;
      NameAtShift(s, k, i', j');
    }
  }

  /** A whole name of the part after a separator is a whole name of the value, shifted. */
  lemma NameAtShift(s: string, k: nat, i: nat, j: nat)
    requires k < |s| && IsClassSpace(s[k])
    requires IsNameAt(s[k + 1..], i, j)
    ensures IsNameAt(s, i + k + 1, j + k + 1)
    ensures s[i + k + 1..j + k + 1] == s[k + 1..][i..j]
  {
    var t := s[k + 1..];
    assert forall m :: k + 1 <= m < |s| ==> s[m] == t[m - k - 1];
  }

  /** A whole name after the first separator is a whole name of the part after it. */
  lemma NameAtUnshift(s: string, k: nat, i: nat, j: nat)
    requires k < i && IsNameAt(s, i, j)
    ensures IsNameAt(s[k + 1..], i - k - 1, j - k - 1)
    ensures s[k + 1..][i - k - 1..j - k - 1] == s[i..j]
  {
    var t := s[k + 1..];
    assert forall m :: 0 <= m < |t| ==> t[m] == s[m + k + 1];
  }

  /** A non-empty whole name of the value is accepted by IncludesName. */
  lemma {:induction false} IncludesNameComplete(s: string, tok: string, i: nat, j: nat)
    requires tok != []
    requires IsNameAt(s, i, j) && s[i..j] == tok
    ensures IncludesName(s, tok)
    decreases |s|
  {
    var k := FirstSpace(s);
    if i == 0 {
      assert j == k;
      assert s[..k] == tok;
    } else {
      assert k < i;
      var t := s[k + 1..];
      NameAtUnshift(s, k, i, j);
      IncludesNameComplete(t, tok, i - k - 1, j - k - 1);
    }
  }

  /** For a non-empty class name, matching means that the name occurs as a whole name of the value. */
  lemma IncludesNameMeansWholeName(s: string, tok: string)
    requires tok != []
    ensures IncludesName(s, tok) <==> exists i: nat, j: nat :: IsNameAt(s, i, j) && s[i..j] == tok
  {
    if IncludesName(s, tok) {
      IncludesNameSound(s, tok);
    }
    if exists i: nat, j: nat :: IsNameAt(s, i, j) && s[i..j] == tok {
      var i: nat, j: nat :| IsNameAt(s, i, j) && s[i..j] == tok;
      IncludesNameComplete(s, tok, i, j);
    }
  }

  /** Whether a single node satisfies a selector. */
  predicate Matches(sel: Selector, n: Node)
  {
    && n.Element?
    && n.tag == sel.tag
    && match sel
       case Tag(_) => true
       case TagClass(_, cls) => exists a :: a in n.attrs && a.key == "class" && IncludesName(a.val, cls)
       case TagAttr(_, key, val) => Attribute(key, val) in n.attrs
  }

  /** Each path of `ps`, placed under the `i`-th node of the forest. */
  function Under(i: nat, ps: seq<Path>): (r: seq<Path>)
    ensures |r| == |ps|
    ensures forall k :: 0 <= k < |ps| ==> r[k] == [i] + ps[k]
  {
    if ps == [] then [] else [[i] + ps[0]] + Under(i, ps[1..])
  }

  lemma UnderHas(i: nat, ps: seq<Path>, q: Path)
    requires q in ps
    ensures [i] + q in Under(i, ps)
  {
    var k :| 0 <= k < |ps| && ps[k] == q;
    assert Under(i, ps)[k] == [i] + q;
  }

  lemma UnderHead(i: nat, ps: seq<Path>, p: Path)
    requires p in Under(i, ps)
    ensures |p| > 0 && p[0] == i && p[1..] in ps
  {
    var k :| 0 <= k < |ps| && Under(i, ps)[k] == p;
    assert p[1..] == ps[k];
  }

  /** The search below one node: nothing below a text node. */
  function FindBelow(sel: Selector, n: Node): (r: seq<Path>)
    decreases n, 0
  {
    if n.Element? then FindAllFrom(sel, n.children, 0) else []
  }

  /**
    The matching nodes among `ns[i..]` and their descendants, as paths into
    `ns`, in the order a preorder walk meets them.
  */
  function FindAllFrom(sel: Selector, ns: seq<Node>, i: nat): (r: seq<Path>)
    requires i <= |ns|
    decreases ns, |ns| - i + 1
  {
    if i == |ns| then []
    else
      (if Matches(sel, ns[i]) then [[i]] else [])
      + Under(i, FindBelow(sel, ns[i]))
      + FindAllFrom(sel, ns, i + 1)
  }

  /** goquery's Find over a whole document: every matching node, each once, in document order. */
  function FindAll(sel: Selector, doc: Document): (r: seq<Path>)
    ensures forall p :: p in r ==> ValidPath(doc, p) && Matches(sel, At(doc, p))
  {
    FindAllFromSoundAll(sel, doc);
    FindAllFrom(sel, doc, 0)
  }

  ghost predicate SortedPaths(ps: seq<Path>)
  {
    forall a, b :: 0 <= a < b < |ps| ==> Before(ps[a], ps[b])
  }

  /** Everything FindAllFrom returns leads to a matching node at or after position `i`. */
  lemma {:induction false} FindAllFromSound(sel: Selector, ns: seq<Node>, i: nat, p: Path)
    requires i <= |ns|
    requires p in FindAllFrom(sel, ns, i)
    ensures ValidPath(ns, p) && i <= p[0] && Matches(sel, At(ns, p))
    decreases ns, |ns| - i
  {
    var here := if Matches(sel, ns[i]) then [[i]] else [];
    var below := FindBelow(sel, ns[i]);
    var after := FindAllFrom(sel, ns, i + 1);
    assert FindAllFrom(sel, ns, i) == here + Under(i, below) + after;
    if p in Under(i, below) {
      UnderHead(i, below, p);
      assert ns[i].Element?;
      FindAllFromSound(sel, ns[i].children, 0, p[1..]);
    } else if p in after {
      FindAllFromSound(sel, ns, i + 1, p);
    }
  }

  lemma FindAllFromSoundAll(sel: Selector, doc: Document)
    ensures forall p :: p in FindAllFrom(sel, doc, 0) ==> ValidPath(doc, p) && Matches(sel, At(doc, p))
  {
    forall p | p in FindAllFrom(sel, doc, 0)
      ensures ValidPath(doc, p) && Matches(sel, At(doc, p))
    {
      FindAllFromSound(sel, doc, 0, p);
    }
  }

  /** Every matching node at or after position `i` is found. */
  lemma {:induction false} FindAllFromComplete(sel: Selector, ns: seq<Node>, i: nat, p: Path)
    requires i <= |ns|
    requires ValidPath(ns, p) && i <= p[0] && Matches(sel, At(ns, p))
    ensures p in FindAllFrom(sel, ns, i)
    decreases ns, |ns| - i
  {
    if p[0] > i {
      FindAllFromComplete(sel, ns, i + 1, p);
      FoundAfter(sel, ns, i, p);
    } else if |p| == 1 {
      assert p == [i];
      FoundHere(sel, ns, i);
    } else {
      var kids := Kids(ns[i]);
      assert ValidPath(kids, p[1..]) && At(ns, p) == At(kids, p[1..]);
      assert ns[i].Element? && kids == ns[i].children;
      FindAllFromComplete(sel, kids, 0, p[1..]);
      FoundBelow(sel, ns, i, p[1..]);
      assert p == [i] + p[1..];
    }
  }

  lemma FoundHere(sel: Selector, ns: seq<Node>, i: nat)
    requires i < |ns| && Matches(sel, ns[i])
    ensures [i] in FindAllFrom(sel, ns, i)
  {
    var rest := Under(i, FindBelow(sel, ns[i])) + FindAllFrom(sel, ns, i + 1);
    assert FindAllFrom(sel, ns, i) == [[i]] + rest;
  }

  lemma FoundBelow(sel: Selector, ns: seq<Node>, i: nat, q: Path)
    requires i < |ns| && q in FindBelow(sel, ns[i])
    ensures [i] + q in FindAllFrom(sel, ns, i)
  {
    var here := if Matches(sel, ns[i]) then [[i]] else [];
    UnderHas(i, FindBelow(sel, ns[i]), q);
    assert [i] + q in here + Under(i, FindBelow(sel, ns[i]));
    assert [i] + q in here + Under(i, FindBelow(sel, ns[i])) + FindAllFrom(sel, ns, i + 1);
  }

  lemma FoundAfter(sel: Selector, ns: seq<Node>, i: nat, p: Path)
    requires i < |ns| && p in FindAllFrom(sel, ns, i + 1)
    ensures p in FindAllFrom(sel, ns, i)
  {
    var here := if Matches(sel, ns[i]) then [[i]] else [];
    assert p in here + Under(i, FindBelow(sel, ns[i])) + FindAllFrom(sel, ns, i + 1);
  }

  lemma SortedConcat(x: seq<Path>, y: seq<Path>)
    requires SortedPaths(x) && SortedPaths(y)
    requires forall a, b :: 0 <= a < |x| && 0 <= b < |y| ==> Before(x[a], y[b])
    ensures SortedPaths(x + y)
  {
    forall a, b | 0 <= a < b < |x + y|
      ensures Before((x + y)[a], (x + y)[b])
    {
      if b < |x| {
        assert (x + y)[a] == x[a] && (x + y)[b] == x[b];
      } else if a < |x| {
        assert (x + y)[a] == x[a] && (x + y)[b] == y[b - |x|];
      } else {
        assert (x + y)[a] == y[a - |x|] && (x + y)[b] == y[b - |x|];
      }
    }
  }

  lemma SortedUnder(i: nat, ps: seq<Path>)
    requires SortedPaths(ps)
    ensures SortedPaths(Under(i, ps))
  {
    var u := Under(i, ps);
    forall a, b | 0 <= a < b < |u|
      ensures Before(u[a], u[b])
    {
      assert u[a][1..] == ps[a] && u[b][1..] == ps[b];
    }
  }

  /** FindAllFrom lists its paths in strictly increasing document order. */
  lemma {:induction false} FindAllFromSorted(sel: Selector, ns: seq<Node>, i: nat)
    requires i <= |ns|
    ensures SortedPaths(FindAllFrom(sel, ns, i))
    decreases ns, |ns| - i
  {
    if i < |ns| {
      var here := if Matches(sel, ns[i]) then [[i]] else [];
      var below := FindBelow(sel, ns[i]);
      var under := Under(i, below);
      var after := FindAllFrom(sel, ns, i + 1);
      assert FindAllFrom(sel, ns, i) == here + under + after;
      if ns[i].Element? {
        FindAllFromSorted(sel, ns[i].children, 0);
        forall k | 0 <= k < |below|
          ensures |below[k]| > 0
        {
          assert below[k] in FindAllFrom(sel, ns[i].children, 0);
          FindAllFromSound(sel, ns[i].children, 0, below[k]);
        }
      }
      SortedUnder(i, below);
      forall a, b | 0 <= a < |here| && 0 <= b < |under|
        ensures Before(here[a], under[b])
      {
        assert under[b][1..] == below[b];
      }
      SortedConcat(here, under);
      FindAllFromSorted(sel, ns, i + 1);
      forall a, b | 0 <= a < |here + under| && 0 <= b < |after|
        ensures Before((here + under)[a], after[b])
      {
        assert after[b] in after;
        FindAllFromSound(sel, ns, i + 1, after[b]);
        assert (here + under)[a][0] == i;
      }
      SortedConcat(here + under, after);
    }
  }

  /** FindAll is exactly the matching nodes of the document, in strictly increasing document order. */
  lemma FindAllSpec(sel: Selector, doc: Document)
    ensures forall p :: p in FindAll(sel, doc) <==> ValidPath(doc, p) && Matches(sel, At(doc, p))
    ensures SortedPaths(FindAll(sel, doc))
  {
    forall p
      ensures p in FindAll(sel, doc) <==> ValidPath(doc, p) && Matches(sel, At(doc, p))
    {
      if p in FindAll(sel, doc) {
        FindAllFromSound(sel, doc, 0, p);
      }
      if ValidPath(doc, p) && Matches(sel, At(doc, p)) {
        FindAllFromComplete(sel, doc, 0, p);
      }
    }
    FindAllFromSorted(sel, doc, 0);
  }

  /** No node of the document matches the selector. */
  ghost predicate NoMatch(sel: Selector, doc: Document)
  {
    forall q :: ValidPath(doc, q) ==> !Matches(sel, At(doc, q))
  }

  /** `p` is the first node of the document, in document order, that matches the selector. */
  ghost predicate IsFirstMatch(sel: Selector, doc: Document, p: Path)
  {
    && ValidPath(doc, p)
    && Matches(sel, At(doc, p))
    && forall q :: ValidPath(doc, q) && Matches(sel, At(doc, q)) && q != p ==> Before(p, q)
  }

  /** `doc.Find(sel).First()`: the first match of the selector, if any. */
  function FindFirst(sel: Selector, doc: Document): (r: Option<Path>)
    ensures r.Some? ==> ValidPath(doc, r.value) && Matches(sel, At(doc, r.value))
  {
    var all := FindAll(sel, doc);
    if all == [] then None else Some(all[0])
  }

  /** FindFirst gives no node exactly when nothing matches, and otherwise the first match in document order. */
  lemma FindFirstSpec(sel: Selector, doc: Document)
    ensures FindFirst(sel, doc).None? <==> NoMatch(sel, doc)
    ensures FindFirst(sel, doc).Some? ==> IsFirstMatch(sel, doc, FindFirst(sel, doc).value)
  {
    var all := FindAll(sel, doc);
    FindAllSpec(sel, doc);
    if all != [] {
      var p := all[0];
      assert p in all;
      forall q | ValidPath(doc, q) && Matches(sel, At(doc, q)) && q != p
        ensures Before(p, q)
      {
        assert q in all;
        var b :| 0 <= b < |all| && all[b] == q;
        assert b != 0;
      }
    }
  }

  /** A selector has at most one first match, and no match comes before it. */
  lemma FirstMatchUnique(sel: Selector, doc: Document, p: Path, p': Path)
    requires IsFirstMatch(sel, doc, p) && IsFirstMatch(sel, doc, p')
    ensures p == p'
    ensures forall q :: ValidPath(doc, q) && Matches(sel, At(doc, q)) ==> !Before(q, p)
  {
    if p != p' {
      BeforeAsymmetric(p, p');
    }
    forall q | ValidPath(doc, q) && Matches(sel, At(doc, q))
      ensures !Before(q, p)
    {
      if q == p {
        BeforeIrreflexive(p);
      } else {
        BeforeAsymmetric(p, q);
      }
    }
  }
}
