/** extract_article_content: try the article-body selectors in order on the
    soup, strip each matched container of its script/style/aside
    descendants (in place, in the shared soup), take the first container
    whose text is not blank, and otherwise fall back to the text of all
    paragraphs of what is left of the soup. */
module Extraction {
  import opened Wrappers
  import opened Strings
  import opened Dom

  /** The article-body selectors, in the order they are tried. */
  const Selectors: seq<Selector> := [
    TagClass("div", "content_wrapper"),
    TagClass("div", "article_content"),
    TagId("div", "contentdata"),
    TagClass("div", "art_content"),
    TagClass("div", "story_page"),
    TagClass("div", "text"),
    ClassWithin("article", "post-content"),
    TagClassContains("div", "article-body"),
    TagClass("div", "main-content-body"),
    TagClass("div", "content_detail__body"),
    TagClass("div", "content_text"),
    TagClass("div", "artText")
  ]

  /** The names handed to find_all before decompose(). find_all takes every
      entry as a tag name, the last two included, although they are written
      like class selectors. */
  const UnwantedNames: seq<string> := ["script", "style", "aside", ".related_stories", ".embed-container"]

  /** Tag names as html.parser produces them start with an ASCII letter. */
  predicate ParserTagName(t: string) {
    |t| > 0 && ('a' <= t[0] <= 'z' || 'A' <= t[0] <= 'Z')
  }

  /** The forest with every element named in UnwantedNames removed together
      with everything below it. */
  function ScrubForest(forest: seq<Node>): (r: seq<Node>)
    ensures NoUnwanted(r)
    decreases forest
  {
    if forest == [] then []
    else
      var rest := ScrubForest(forest[1..]);
      match forest[0]
      case Text(_) =>
        assert ([forest[0]] + rest)[1..] == rest;
        [forest[0]] + rest
      case Element(t, i, c, cs) =>
        if t in UnwantedNames then rest
        else
          var e := Element(t, i, c, ScrubForest(cs));
          assert ([e] + rest)[1..] == rest;
          [e] + rest
  }

  /** What decompose() leaves of a container: the container itself, with
      its unwanted descendants gone. */
  function Scrub(e: Node): (r: Node)
    requires e.Element?
    ensures r.Element? && r.tag == e.tag && r.elemId == e.elemId && r.classes == e.classes
    ensures NoUnwanted(r.children)
  {
    Element(e.tag, e.elemId, e.classes, ScrubForest(e.children))
  }

  /** What the clean-up does to one node: a text node stays, an unwanted
      element goes with everything below it, and any other element stays
      with its tag, id and classes, its own children cleaned. */
  lemma ScrubOne(n: Node)
    ensures n.Text? ==> ScrubForest([n]) == [n]
    ensures n.Element? && n.tag in UnwantedNames ==> ScrubForest([n]) == []
    ensures n.Element? && n.tag !in UnwantedNames ==> ScrubForest([n]) == [Scrub(n)]
  {
    assert [n][1..] == [];
  }

  /** The clean-up works node by node: cleaning two forests side by side is
      cleaning each, first then second. */
  lemma {:induction false} ScrubForestAppend(a: seq<Node>, b: seq<Node>)
    ensures ScrubForest(a + b) == ScrubForest(a) + ScrubForest(b)
    decreases a
  {
    if a != [] {
      assert (a + b)[0] == a[0] && (a + b)[1..] == a[1..] + b;
      ScrubForestAppend(a[1..], b);
    } else {
      assert a + b == b;
    }
  }

  /** No element of the forest, at any depth, is named in UnwantedNames. */
  predicate NoUnwanted(forest: seq<Node>)
    decreases forest
  {
    forest == [] ||
    ((match forest[0]
      case Text(_) => true
      case Element(t, _, _, cs) => t !in UnwantedNames && NoUnwanted(cs))
     && NoUnwanted(forest[1..]))
  }

  /** The text strings of the forest that are not inside an unwanted
      element, stripped, blank ones skipped: what stripped_strings yields
      once the unwanted elements are gone. */
  function ExposedStrings(forest: seq<Node>): seq<string>
    decreases forest
  {
    if forest == [] then []
    else
      var here := match forest[0]
        case Text(s) => if Strip(s) == [] then [] else [Strip(s)]
        case Element(t, _, _, cs) => if t in UnwantedNames then [] else ExposedStrings(cs);
      here + ExposedStrings(forest[1..])
  }

  /** The text of a container once its unwanted descendants are gone:
      [t.strip() for t in stripped_strings], empty ones filtered out,
      joined with "\n". */
  function ContainerText(c: Node): (r: string)
    requires c.Element?
    ensures r == JoinLines(StrippedStrings(c.children))
    ensures IsTrimmed(r)
    ensures r == [] <==> StrippedStrings(c.children) == []
  {
    StripFilterIdentity(StrippedStrings(c.children));
    JoinWellStripped("\n", StrippedStrings(c.children));
    JoinLines(NonEmpty(StripAll(StrippedStrings(c.children))))
  }

  /** [p.get_text(strip=True) for p in paragraphs if p.get_text(strip=True)]. */
  function ParagraphTexts(paragraphs: seq<Node>): (r: seq<string>)
    requires forall i :: 0 <= i < |paragraphs| ==> paragraphs[i].Element?
    ensures WellStripped(r)
    ensures |r| <= |paragraphs|
  {
    if paragraphs == [] then []
    else
      var t := GetTextStripped(paragraphs[0]);
      var rest := ParagraphTexts(paragraphs[1..]);
      if t == [] then rest
      else
        assert forall i :: 1 <= i < |[t] + rest| ==> ([t] + rest)[i] == rest[i - 1];
        [t] + rest
  }

  /** One step of the paragraph comprehension: the first paragraph's
      text, when it has any, comes first. */
  lemma ParagraphTextsStep(n: Node, rest: seq<Node>)
    requires n.Element?
    requires forall i :: 0 <= i < |rest| ==> rest[i].Element?
    ensures ParagraphTexts([n] + rest) ==
      (if GetTextStripped(n) == [] then ParagraphTexts(rest) else [GetTextStripped(n)] + ParagraphTexts(rest))
  {
    assert ([n] + rest)[1..] == rest;
  }

  /** The texts of the paragraphs, each get_text(strip=True), in order. */
  function GetTexts(paragraphs: seq<Node>): (r: seq<string>)
    requires forall i :: 0 <= i < |paragraphs| ==> paragraphs[i].Element?
    ensures |r| == |paragraphs|
    ensures forall i :: 0 <= i < |r| ==> r[i] == GetTextStripped(paragraphs[i])
  {
    seq(|paragraphs|, i requires 0 <= i < |paragraphs| => GetTextStripped(paragraphs[i]))
  }

  /** Every paragraph whose text is not empty contributes that text, in
      document order, and the empty ones contribute nothing. */
  lemma {:induction false} ParagraphTextsKeepsNonEmpty(paragraphs: seq<Node>)
    requires forall i :: 0 <= i < |paragraphs| ==> paragraphs[i].Element?
    ensures ParagraphTexts(paragraphs) == NonEmpty(GetTexts(paragraphs))
  {
    if paragraphs != [] {
      ParagraphTextsKeepsNonEmpty(paragraphs[1..]);
      assert GetTexts(paragraphs)[1..] == GetTexts(paragraphs[1..]);
    }
  }

  /** The paragraph fallback on the soup as it stands: "\n"-join of the
      non-empty paragraph texts, or "" when the soup has no <p> at all. */
  function Fallback(soup: seq<Node>): (r: string)
    ensures r == JoinLines(ParagraphTexts(FindAll(soup, "p")))
    ensures IsTrimmed(r)
    ensures r == [] <==> ParagraphTexts(FindAll(soup, "p")) == []
  {
    var paragraphs := FindAll(soup, "p");
    JoinWellStripped("\n", ParagraphTexts(paragraphs));
    if |paragraphs| == 0 then "" else JoinLines(ParagraphTexts(paragraphs))
  }

  /** One pass of the selector loop on the soup as it stands. */
  datatype Attempt =
    | NoMatch                               // select_one found nothing
    | Matched(soup: seq<Node>, text: string) // the soup after decompose(), the container's text

  function Try(soup: seq<Node>, sel: Selector): (a: Attempt)
    ensures a.Matched? ==> IsTrimmed(a.text) && (Strip(a.text) == [] <==> a.text == [])
  {
    match FirstMatch(sel, soup, [])
    case None => NoMatch
    case Some(hit) =>
      var c := Scrub(hit.element);
      Matched(ReplaceAt(soup, hit.path, c), ContainerText(c))
  }

  /** The pass found substantial text: the loop stops here. */
  predicate Succeeds(a: Attempt) {
    a.Matched? && Strip(a.text) != []
  }

  /** The soup after a pass: decompose() has changed it only when there was a match. */
  function SoupAfter(a: Attempt, soup: seq<Node>): seq<Node> {
    if a.Matched? then a.soup else soup
  }

  /** The soup that selector k of sels sees when the selectors before it all failed. */
  function SoupBefore(sels: seq<Selector>, doc: seq<Node>, k: nat): seq<Node>
    requires k <= |sels|
  {
    if k == 0 then doc
    else SoupAfter(Try(SoupBefore(sels, doc, k - 1), sels[k - 1]), SoupBefore(sels, doc, k - 1))
  }

  datatype CascadeResult =
    | Won(index: nat, text: string, soup: seq<Node>)
    | Exhausted(soup: seq<Node>)

  /** The selector loop over sels from selector k on: the first selector
      whose pass succeeds, or the soup left when none does. */
  function Cascade(sels: seq<Selector>, soup: seq<Node>, k: nat): (r: CascadeResult)
    requires k <= |sels|
    ensures r.Won? ==> k <= r.index < |sels| && r.text != [] && IsTrimmed(r.text)
    decreases |sels| - k
  {
    if k == |sels| then Exhausted(soup)
    else
      var a := Try(soup, sels[k]);
      if Succeeds(a) then Won(k, a.text, a.soup) else Cascade(sels, SoupAfter(a, soup), k + 1)
  }

  /** The two ways the fetch can raise: requests' own exceptions and any other. */
  datatype FetchError = RequestError | OtherError

  /** What extract_article_content returns for a page: "" when fetching it
      failed, the winning container's text, or the paragraph fallback. */
  function ArticleContent(page: Result<seq<Node>, FetchError>): (r: string)
    ensures IsTrimmed(r)
  {
    match page
    case Failure(_) => ""
    case Success(doc) =>
      match Cascade(Selectors, doc, 0)
      case Won(_, t, _) => Strip(t)
      case Exhausted(s) => Strip(Fallback(s))
  }

  /** The parsed page, which decompose() changes in place: a change made
      while one selector is tried is seen by every later selector and by
      the paragraph fallback. */
  class Soup {
    var top: seq<Node>

    constructor (doc: seq<Node>)
      ensures top == doc
    {
      top := doc;
    }

    /** for unwanted_tag in content_element.find_all([...]): unwanted_tag.decompose(),
        for the container at `path`. */
    method DecomposeUnwanted(path: seq<nat>)
      requires At(top, path).Some? && At(top, path).value.Element?
      modifies this
      ensures top == ReplaceAt(old(top), path, Scrub(At(old(top), path).value))
      ensures At(top, path) == Some(Scrub(At(old(top), path).value))
    {
      top := ReplaceAt(top, path, Scrub(At(top, path).value));
    }
  }

  method ExtractArticleContent(page: Result<seq<Node>, FetchError>) returns (articleText: string)
    ensures articleText == ArticleContent(page)
    ensures IsTrimmed(articleText)
  {
    if page.Failure? {
      return "";
    }
    var soup := new Soup(page.value);
    var text := "";
    for i := 0 to |Selectors|
      invariant text == ""
      invariant Cascade(Selectors, page.value, 0) == Cascade(Selectors, soup.top, i)
    {
      var hit := FirstMatch(Selectors[i], soup.top, []);
      if hit.Some? {
        ghost var before := soup.top;
        soup.DecomposeUnwanted(hit.value.path);
        var container := At(soup.top, hit.value.path).value;
        text := ContainerText(container);
        assert Try(before, Selectors[i]) == Matched(soup.top, text);
        if Strip(text) != "" {
          assert Cascade(Selectors, page.value, 0) == Won(i, text, soup.top);
          break;
        }
        assert text == "";
      }
    }
    if Strip(text) == "" {
      assert Cascade(Selectors, page.value, 0) == Exhausted(soup.top);
      var paragraphs := FindAll(soup.top, "p");
      if |paragraphs| > 0 {
        text := JoinLines(ParagraphTexts(paragraphs));
      }
    }
    articleText := Strip(text);
  }

  /** Selector j of sels, tried on the soup the selectors before it left, finds no text. */
  predicate FailsAt(sels: seq<Selector>, doc: seq<Node>, j: nat)
    requires j < |sels|
  {
    !Succeeds(Try(SoupBefore(sels, doc, j), sels[j]))
  }

  /** Every selector of sels from `from` up to `to` fails on the soup it sees. */
  predicate FailBetween(sels: seq<Selector>, doc: seq<Node>, from: nat, to: nat)
    requires to <= |sels|
  {
    forall j :: from <= j < to ==> FailsAt(sels, doc, j)
  }

  /** When the loop, started at selector k, stops, it stops at a selector
      w from k on whose pass, on the soup SoupBefore describes, found text,
      and that pass's text and soup are the loop's result. */
  lemma {:induction false} CascadeWonAt(sels: seq<Selector>, doc: seq<Node>, k: nat)
    requires k <= |sels|
    requires Cascade(sels, SoupBefore(sels, doc, k), k).Won?
    ensures var r := Cascade(sels, SoupBefore(sels, doc, k), k);
      && k <= r.index < |sels|
      && Try(SoupBefore(sels, doc, r.index), sels[r.index]) == Matched(r.soup, r.text)
      && Succeeds(Try(SoupBefore(sels, doc, r.index), sels[r.index]))
    decreases |sels| - k
  {
    var soup := SoupBefore(sels, doc, k);
    var a := Try(soup, sels[k]);
    var r := Cascade(sels, soup, k);
    if Succeeds(a) {
      assert r.index == k;
    } else {
      var next := SoupBefore(sels, doc, k + 1);
      assert next == SoupAfter(a, soup);
      assert r == Cascade(sels, next, k + 1);
      CascadeWonAt(sels, doc, k + 1);
      assert k + 1 <= r.index;
    }
  }

  /** A failed pass hands the loop on to the next selector, on the soup
      SoupBefore describes. */
  lemma CascadeStep(sels: seq<Selector>, doc: seq<Node>, k: nat)
    requires k < |sels|
    requires FailsAt(sels, doc, k)
    ensures Cascade(sels, SoupBefore(sels, doc, k), k) == Cascade(sels, SoupBefore(sels, doc, k + 1), k + 1)
  {
  }

  /** Failing at k and at every selector after it up to w is failing from k up to w. */
  lemma FailBetweenCons(sels: seq<Selector>, doc: seq<Node>, k: nat, w: nat)
    requires k < w <= |sels|
    requires FailsAt(sels, doc, k) && FailBetween(sels, doc, k + 1, w)
    ensures FailBetween(sels, doc, k, w)
  {
    forall j | k <= j < w ensures FailsAt(sels, doc, j) {
      if j > k { assert FailBetween(sels, doc, k + 1, w); }
    }
  }

  /** The selectors are consulted strictly in list order: when the loop,
      started at selector k, stops at selector w, every selector from k up
      to w failed on the soup the earlier passes left. */
  lemma {:induction false} CascadeWonInOrder(sels: seq<Selector>, doc: seq<Node>, k: nat)
    requires k <= |sels|
    requires Cascade(sels, SoupBefore(sels, doc, k), k).Won?
    ensures Cascade(sels, SoupBefore(sels, doc, k), k).index <= |sels|
    ensures FailBetween(sels, doc, k, Cascade(sels, SoupBefore(sels, doc, k), k).index)
    decreases |sels| - k
  {
    if FailsAt(sels, doc, k) {
      CascadeStep(sels, doc, k);
      CascadeWonInOrder(sels, doc, k + 1);
      FailBetweenCons(sels, doc, k, Cascade(sels, SoupBefore(sels, doc, k), k).index);
    }
  }

  /** When the loop, started at selector k, finds no text, every selector
      from k on failed and the soup left behind is the one every pass has
      scrubbed. */
  lemma {:induction false} CascadeExhaustedInOrder(sels: seq<Selector>, doc: seq<Node>, k: nat)
    requires k <= |sels|
    requires Cascade(sels, SoupBefore(sels, doc, k), k).Exhausted?
    ensures Cascade(sels, SoupBefore(sels, doc, k), k).soup == SoupBefore(sels, doc, |sels|)
    ensures FailBetween(sels, doc, k, |sels|)
    decreases |sels| - k
  {
    if k < |sels| {
      var soup := SoupBefore(sels, doc, k);
      var a := Try(soup, sels[k]);
      assert SoupBefore(sels, doc, k + 1) == SoupAfter(a, soup);
      CascadeExhaustedInOrder(sels, doc, k + 1);
      assert FailsAt(sels, doc, k);
      assert FailBetween(sels, doc, k, |sels|) by {
        forall j | k <= j < |sels| ensures FailsAt(sels, doc, j) {
          if j > k { assert FailBetween(sels, doc, k + 1, |sels|); }
        }
      }
    }
  }

  /** Selectors that match nothing on the soup they see leave it as it is
      and do not end the search: from selector `from` up to `to` every
      pass fails and the soup is unchanged. */
  lemma {:induction false} NoMatchKeepsSoup(sels: seq<Selector>, doc: seq<Node>, from: nat, to: nat)
    requires from <= to <= |sels|
    requires forall j :: from <= j < to ==> FirstMatch(sels[j], SoupBefore(sels, doc, from), []) == None
    ensures SoupBefore(sels, doc, to) == SoupBefore(sels, doc, from)
    ensures FailBetween(sels, doc, from, to)
    decreases |sels| - from
  {
    if from < to {
      var soup := SoupBefore(sels, doc, from);
      assert Try(soup, sels[from]) == NoMatch;
      assert SoupBefore(sels, doc, from + 1) == soup;
      NoMatchKeepsSoup(sels, doc, from + 1, to);
      assert FailsAt(sels, doc, from);
      assert FailBetween(sels, doc, from, to) by {
        forall j | from <= j < to ensures FailsAt(sels, doc, j) {
          if j > from { assert FailBetween(sels, doc, from + 1, to); }
        }
      }
    }
  }

  /** Once a selector has found text the loop stops: selectors appended
      after the list, whatever they are, are never reached. */
  lemma {:induction false} LaterSelectorsNotTried(sels: seq<Selector>, more: seq<Selector>, soup: seq<Node>, k: nat)
    requires k <= |sels|
    requires Cascade(sels, soup, k).Won?
    ensures Cascade(sels + more, soup, k) == Cascade(sels, soup, k)
    decreases |sels| - k
  {
    assert (sels + more)[k] == sels[k];
    var a := Try(soup, sels[k]);
    if !Succeeds(a) {
      LaterSelectorsNotTried(sels, more, SoupAfter(a, soup), k + 1);
    }
  }

  /** Selector w of sels is the first whose pass succeeds. */
  predicate FirstSuccess(sels: seq<Selector>, doc: seq<Node>, w: nat) {
    w < |sels| && Succeeds(Try(SoupBefore(sels, doc, w), sels[w])) && FailBetween(sels, doc, 0, w)
  }

  /** When selector w is the first to find text, the loop returns that
      text, which is trimmed and not empty. */
  lemma CascadeFirstSuccess(sels: seq<Selector>, doc: seq<Node>, w: nat)
    requires FirstSuccess(sels, doc, w)
    ensures Cascade(sels, doc, 0) == Won(w, Try(SoupBefore(sels, doc, w), sels[w]).text, Try(SoupBefore(sels, doc, w), sels[w]).soup)
  {
    var r := Cascade(sels, doc, 0);
    assert SoupBefore(sels, doc, 0) == doc;
    if r.Exhausted? {
      CascadeExhaustedInOrder(sels, doc, 0);
    }
    assert r.Exhausted? ==> FailsAt(sels, doc, w);
    CascadeWonAt(sels, doc, 0);
    CascadeWonInOrder(sels, doc, 0);
    assert r.index == w by {
      assert r.index < w ==> FailsAt(sels, doc, r.index);
      assert w < r.index ==> FailsAt(sels, doc, w);
    }
  }

  /** When no selector finds text, the loop leaves the soup every matched
      container has been scrubbed in. */
  lemma CascadeNoSuccess(sels: seq<Selector>, doc: seq<Node>)
    requires FailBetween(sels, doc, 0, |sels|)
    ensures Cascade(sels, doc, 0) == Exhausted(SoupBefore(sels, doc, |sels|))
  {
    var r := Cascade(sels, doc, 0);
    assert SoupBefore(sels, doc, 0) == doc;
    if r.Won? {
      CascadeWonAt(sels, doc, 0);
    }
    assert r.Won? ==> FailsAt(sels, doc, r.index);
    CascadeExhaustedInOrder(sels, doc, 0);
  }

  /** When selector w is the first to find text, that text is the
      extractor's result, unchanged by the final strip, and not empty. */
  lemma SelectorWins(doc: seq<Node>, w: nat)
    requires FirstSuccess(Selectors, doc, w)
    ensures ArticleContent(Success(doc)) == Try(SoupBefore(Selectors, doc, w), Selectors[w]).text
    ensures ArticleContent(Success(doc)) != []
  {
    CascadeFirstSuccess(Selectors, doc, w);
  }

  /** When no selector finds text, the result is the paragraph fallback run
      on the soup every matched container has been scrubbed in, not on the
      page as fetched. */
  lemma FallbackWhenAllFail(doc: seq<Node>)
    requires FailBetween(Selectors, doc, 0, |Selectors|)
    ensures ArticleContent(Success(doc)) == Fallback(SoupBefore(Selectors, doc, |Selectors|))
    ensures ArticleContent(Success(doc)) == JoinLines(ParagraphTexts(FindAll(SoupBefore(Selectors, doc, |Selectors|), "p")))
  {
    CascadeNoSuccess(Selectors, doc);
  }

  /** The result is empty exactly when the fetch failed, or no selector
      found text and no paragraph of the remaining soup has text. */
  lemma {:induction false} ArticleContentEmpty(page: Result<seq<Node>, FetchError>)
    ensures ArticleContent(page) == [] <==>
      (page.Failure? ||
       (FailBetween(Selectors, page.value, 0, |Selectors|) &&
        ParagraphTexts(FindAll(SoupBefore(Selectors, page.value, |Selectors|), "p")) == []))
  {
    if page.Success? {
      var doc := page.value;
      var r := Cascade(Selectors, doc, 0);
      assert SoupBefore(Selectors, doc, 0) == doc;
      if r.Won? {
        CascadeWonAt(Selectors, doc, 0);
        CascadeWonInOrder(Selectors, doc, 0);
        SelectorWins(doc, r.index);
        assert !FailsAt(Selectors, doc, r.index);
      } else {
        CascadeExhaustedInOrder(Selectors, doc, 0);
        FallbackWhenAllFail(doc);
      }
    }
  }

  /** Scrubbing removes exactly the text under unwanted elements: what is
      left of the stripped strings is the exposed strings. */
  lemma {:induction false} ScrubExposes(forest: seq<Node>)
    ensures StrippedStrings(ScrubForest(forest)) == ExposedStrings(forest)
    decreases forest
  {
    if forest != [] {
      ScrubExposes(forest[1..]);
      match forest[0]
      case Text(_) =>
        ScrubExposesText(forest);
      case Element(t, _, _, cs) =>
        if t in UnwantedNames {
          ScrubExposesUnwanted(forest);
        } else {
          ScrubExposes(cs);
          ScrubExposesElement(forest);
        }
    }
  }

  lemma ScrubExposesText(forest: seq<Node>)
    requires forest != [] && forest[0].Text?
    requires StrippedStrings(ScrubForest(forest[1..])) == ExposedStrings(forest[1..])
    ensures StrippedStrings(ScrubForest(forest)) == ExposedStrings(forest)
  {
    var rest := ScrubForest(forest[1..]);
    assert ScrubForest(forest) == [forest[0]] + rest;
    assert ([forest[0]] + rest)[1..] == rest;
  }

  lemma ScrubExposesUnwanted(forest: seq<Node>)
    requires forest != [] && forest[0].Element? && forest[0].tag in UnwantedNames
    requires StrippedStrings(ScrubForest(forest[1..])) == ExposedStrings(forest[1..])
    ensures StrippedStrings(ScrubForest(forest)) == ExposedStrings(forest)
  {
  }

  lemma ScrubExposesElement(forest: seq<Node>)
    requires forest != [] && forest[0].Element? && forest[0].tag !in UnwantedNames
    requires StrippedStrings(ScrubForest(forest[1..])) == ExposedStrings(forest[1..])
    requires StrippedStrings(ScrubForest(forest[0].children)) == ExposedStrings(forest[0].children)
    ensures StrippedStrings(ScrubForest(forest)) == ExposedStrings(forest)
  {
    var rest := ScrubForest(forest[1..]);
    var n := forest[0];
    var e := Element(n.tag, n.elemId, n.classes, ScrubForest(n.children));
    assert ScrubForest(forest) == [e] + rest;
    assert ([e] + rest)[1..] == rest;
  }

  /** The text a matched container yields is made of the strings outside
      its script, style and aside descendants, and of no others. */
  lemma ContainerTextExposed(c: Node)
    requires c.Element?
    ensures ContainerText(Scrub(c)) == JoinLines(ExposedStrings(c.children))
  {
    ScrubExposes(c.children);
  }

  /** A forest without unwanted elements is left as it is. */
  lemma {:induction false} ScrubNoUnwanted(forest: seq<Node>)
    requires NoUnwanted(forest)
    ensures ScrubForest(forest) == forest
    decreases forest
  {
    if forest != [] {
      ScrubNoUnwanted(forest[1..]);
      match forest[0]
      case Text(_) =>
      case Element(t, i, c, cs) =>
        ScrubNoUnwanted(cs);
    }
  }

  /** Of the five names given to find_all, only script, style and aside can
      be the name of an element html.parser builds: the two written like
      class selectors start with '.', so decompose() never removes a
      related-stories or embed container. */
  lemma OnlyThreeTagsRemoved(t: string)
    requires ParserTagName(t)
    ensures t in UnwantedNames <==> t in ["script", "style", "aside"]
  {
    assert ".related_stories"[0] == '.' && ".embed-container"[0] == '.';
  }

  /** Container text splits back into exactly its stripped strings when none
      of them holds a line break: then no line is empty and no line has
      whitespace at either end. */
  lemma ContainerLines(c: Node)
    requires c.Element?
    requires StrippedStrings(c.children) != []
    requires forall i :: 0 <= i < |StrippedStrings(c.children)| ==> '\n' !in StrippedStrings(c.children)[i]
    ensures SplitLines(ContainerText(c)) == StrippedStrings(c.children)
    ensures forall i :: 0 <= i < |SplitLines(ContainerText(c))| ==>
      SplitLines(ContainerText(c))[i] != [] && IsTrimmed(SplitLines(ContainerText(c))[i])
  {
    SplitJoinLines(StrippedStrings(c.children));
  }

  /** A text node that itself holds a blank line keeps it: stripping only
      touches the ends of each string, so the container text can have an
      empty line. */
  lemma BlankLineInsideTextSurvives()
    ensures ContainerText(Element("div", None, [], [Text("a\n\nb")])) == "a\n\nb"
    ensures SplitLines("a\n\nb") == ["a", "", "b"]
  {
    assert IsTrimmed("a\n\nb");
    assert Strip("a\n\nb") == "a\n\nb";
    assert StrippedStrings([Text("a\n\nb")]) == ["a\n\nb"];
    SplitNoNewline("b");
    SplitAfterLine("", "b");
    SplitAfterLine("a", "\nb");
    assert "a" + "\n" + "\nb" == "a\n\nb";
    assert "" + "\n" + "b" == "\nb";
  }
}
