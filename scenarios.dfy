/** Lemmas giving the extractor's result on small whole pages: a container
    selector that wins, the paragraph fallback, a page with nothing to
    extract, and a page where a failed selector's clean-up takes the text
    the paragraph fallback would have found. */
module Scenarios {
  import opened Wrappers
  import opened Strings
  import opened Dom
  import opened Extraction
  import opened News

  /** No element of the forest, at any depth, has a class. */
  predicate Classless(forest: seq<Node>)
    decreases forest
  {
    forall i :: 0 <= i < |forest| ==>
      match forest[i]
      case Text(_) => true
      case Element(_, _, c, cs) => c == [] && Classless(cs)
  }

  /** No element of the forest, at any depth, has an id. */
  predicate Idless(forest: seq<Node>)
    decreases forest
  {
    forall i :: 0 <= i < |forest| ==>
      match forest[i]
      case Text(_) => true
      case Element(_, d, _, cs) => d == None && Idless(cs)
  }

  /** Every selector form but the id form needs a class to match, and the
      id form an id: select_one finds nothing in a forest without them. */
  lemma {:induction false} UnmarkedNoMatch(sel: Selector, forest: seq<Node>, ancestors: seq<string>)
    requires Classless(forest)
    requires sel.TagId? ==> Idless(forest)
    requires sel.TagClassContains? ==> sel.part != ""
    ensures FirstMatch(sel, forest, ancestors) == None
    decreases forest
  {
    if forest != [] {
      var head := forest[0];
      if head.Element? {
        assert Classless(head.children);
        assert sel.TagId? ==> Idless(head.children);
        UnmarkedNoMatch(sel, head.children, ancestors + [head.tag]);
        assert sel.TagClassContains? ==> !Contains(ClassAttribute(head.classes), sel.part);
      }
      assert Classless(forest[1..]) by {
        forall i | 0 <= i < |forest[1..]| ensures forest[1..][i] == forest[i + 1] {}
      }
      assert sel.TagId? ==> Idless(forest[1..]) by {
        forall i | 0 <= i < |forest[1..]| ensures forest[1..][i] == forest[i + 1] {}
      }
      UnmarkedNoMatch(sel, forest[1..], ancestors);
    }
  }

  /** The attribute-substring selector of the list asks for a non-empty part. */
  lemma SelectorPartsNonEmpty(j: nat)
    requires j < |Selectors|
    ensures Selectors[j].TagClassContains? ==> Selectors[j].part != ""
  {
  }

  /** A paragraph holding one text node. */
  function Para(s: string): Node {
    Element("p", None, [], [Text(s)])
  }

  /** A paragraph holding one text node is kept by the clean-up. */
  lemma ParaScrub(s: string)
    ensures ScrubForest([Para(s)]) == [Para(s)]
  {
    assert [Para(s)][1..] == [];
    assert [Text(s)][1..] == [];
    assert "p" !in UnwantedNames;
    assert ScrubForest([Text(s)]) == [Text(s)];
  }

  /** It is found by find_all('p'). */
  lemma ParaFind(s: string)
    ensures FindAll([Para(s)], "p") == [Para(s)]
  {
    assert [Para(s)][1..] == [];
    assert [Text(s)][1..] == [];
  }

  /** Its text is the stripped string. */
  lemma ParaStrings(s: string)
    ensures StrippedStrings([Para(s)]) == (if Strip(s) == [] then [] else [Strip(s)])
    ensures GetTextStripped(Para(s)) == Strip(s)
  {
    StrippedStringsOne(Para(s));
    StrippedStringsOne(Text(s));
  }

  /** Its paragraph text is the stripped string, kept when not empty. */
  lemma ParaText(s: string)
    ensures ParagraphTexts([Para(s)]) == (if Strip(s) == [] then [] else [Strip(s)])
  {
    ParaStrings(s);
    assert [Para(s)][1..] == [];
  }

  /** str.strip() on the padded paragraph text of the fallback example. */
  lemma StripPaddedA(s: string)
    requires s == "  A  "
    ensures Strip(s) == "A"
  {
    assert s[1..] == " A  " && s[1..][1..] == "A  ";
    assert "A  "[..2] == "A " && "A "[..1] == "A";
    assert Strip("A") == "A";
    assert Strip("A ") == "A";
    assert Strip("A  ") == "A";
    assert Strip(" A  ") == "A";
  }

  /** A script element, whatever its text, is removed by the clean-up. */
  lemma ScrubScript(x: string)
    ensures ScrubForest([Element("script", None, [], [Text(x)])]) == []
  {
    assert [Element("script", None, [], [Text(x)])][1..] == [];
    assert "script" in UnwantedNames;
  }

  /** Two paragraphs with text yield their stripped texts, in order. */
  lemma TwoParagraphStrings(h: string, w: string)
    requires !Blank(h) && !Blank(w)
    ensures StrippedStrings([Para(h)] + [Para(w)]) == [Strip(h), Strip(w)]
  {
    ParaStrings(h);
    ParaStrings(w);
    StrippedStringsAppend([Para(h)], [Para(w)]);
  }

  /** The example container: two paragraphs around a script. */
  function ExampleContainer(h: string, x: string, w: string): Node {
    Element("div", None, ["article_content"], [Para(h), Element("script", None, [], [Text(x)]), Para(w)])
  }

  /** The example container's text is its two paragraph texts, stripped,
      one per line; the script's text is not part of it. */
  lemma ExampleContainerText(h: string, x: string, w: string)
    requires !Blank(h) && !Blank(w)
    ensures ContainerText(Scrub(ExampleContainer(h, x, w))) == Strip(h) + "\n" + Strip(w)
  {
    var script := Element("script", None, [], [Text(x)]);
    var body := ExampleContainer(h, x, w).children;
    assert body == [Para(h)] + ([script] + [Para(w)]);
    ScrubScript(x);
    ParaScrub(h);
    ParaScrub(w);
    ScrubForestAppend([script], [Para(w)]);
    ScrubForestAppend([Para(h)], [script] + [Para(w)]);
    assert ScrubForest(body) == [Para(h)] + [Para(w)];
    TwoParagraphStrings(h, w);
    JoinTwo("\n", Strip(h), Strip(w));
  }

  /** The first selector finds nothing in the example page; the second
      matches its container, at the top. */
  lemma ExampleContainerMatches(h: string, x: string, w: string)
    ensures FirstMatch(Selectors[0], [ExampleContainer(h, x, w)], []) == None
    ensures FirstMatch(Selectors[1], [ExampleContainer(h, x, w)], []) == Some(Hit([0], ExampleContainer(h, x, w)))
  {
    var c := ExampleContainer(h, x, w);
    assert Classless(c.children);
    assert [] + [c.tag] == ["div"];
    UnmarkedNoMatch(Selectors[0], c.children, ["div"]);
    assert [c][1..] == [];
    assert Selectors[0] == TagClass("div", "content_wrapper");
    assert "content_wrapper" != "article_content";
    assert !Matches(Selectors[0], [], c);
    assert Selectors[1] == TagClass("div", "article_content");
    assert Matches(Selectors[1], [], c);
    assert [c][0] == c;
    assert FirstMatch(Selectors[1], [c], []) == Some(Hit([0], [c][0]));
  }

  /** <div class="article_content"><p>h</p><script>x</script><p>w</p></div>
      with h and w not blank: the second selector wins, the script's text is
      gone, and the two paragraph texts come out stripped, one per line. */
  lemma ContainerWins(h: string, x: string, w: string)
    requires !Blank(h) && !Blank(w)
    ensures ArticleContent(Success([ExampleContainer(h, x, w)])) == Strip(h) + "\n" + Strip(w)
  {
    var doc := [ExampleContainer(h, x, w)];
    ExampleContainerMatches(h, x, w);
    NoMatchKeepsSoup(Selectors, doc, 0, 1);
    ExampleContainerText(h, x, w);
    assert FirstSuccess(Selectors, doc, 1);
    SelectorWins(doc, 1);
  }

  /** The example page: a padded paragraph, an empty one, and another. */
  function ParagraphPage(a: string, b: string): seq<Node> {
    [Para(a), Element("p", None, [], []), Para(b)]
  }

  /** find_all('p') on the example page finds its three paragraphs, in order. */
  lemma ParagraphPageFind(a: string, b: string)
    ensures FindAll(ParagraphPage(a, b), "p") == [Para(a), Element("p", None, [], []), Para(b)]
  {
    var empty := Element("p", None, [], []);
    assert ParagraphPage(a, b) == [Para(a)] + ([empty] + [Para(b)]);
    ParaFind(a);
    ParaFind(b);
    FindAllOne(empty, "p");
    FindAllAppend([empty], [Para(b)], "p");
    FindAllAppend([Para(a)], [empty] + [Para(b)], "p");
  }

  /** Three paragraphs whose middle one is empty give the texts of the
      outer two. */
  lemma ThreeParagraphTexts(p: Node, e: Node, q: Node)
    requires p.Element? && e.Element? && q.Element?
    requires GetTextStripped(p) != [] && GetTextStripped(e) == [] && GetTextStripped(q) != []
    ensures ParagraphTexts([p, e, q]) == [GetTextStripped(p), GetTextStripped(q)]
  {
    assert [p, e, q] == [p] + ([e] + [q]);
    assert [q] == [q] + [];
    ParagraphTextsStep(q, []);
    ParagraphTextsStep(e, [q]);
    ParagraphTextsStep(p, [e] + [q]);
  }

  /** Its paragraph texts are the two non-blank ones, stripped. */
  lemma ParagraphPageTexts(a: string, b: string)
    requires !Blank(a) && !Blank(b)
    ensures ParagraphTexts(FindAll(ParagraphPage(a, b), "p")) == [Strip(a), Strip(b)]
  {
    var empty := Element("p", None, [], []);
    ParagraphPageFind(a, b);
    ParaStrings(a);
    ParaStrings(b);
    StrippedStringsOne(empty);
    ThreeParagraphTexts(Para(a), empty, Para(b));
  }

  /** No selector matches a page without classes or ids. */
  lemma UnmarkedPageFallsBack(doc: seq<Node>)
    requires Classless(doc) && Idless(doc)
    ensures ArticleContent(Success(doc)) == Fallback(doc)
  {
    forall j | 0 <= j < |Selectors| ensures FirstMatch(Selectors[j], SoupBefore(Selectors, doc, 0), []) == None {
      SelectorPartsNonEmpty(j);
      UnmarkedNoMatch(Selectors[j], doc, []);
    }
    NoMatchKeepsSoup(Selectors, doc, 0, |Selectors|);
    FallbackWhenAllFail(doc);
  }

  /** <p>a</p><p></p><p>b</p> with a and b not blank: no selector matches,
      and the fallback joins the non-empty paragraphs, stripped. */
  lemma ParagraphFallback(a: string, b: string)
    requires !Blank(a) && !Blank(b)
    ensures ArticleContent(Success(ParagraphPage(a, b))) == Strip(a) + "\n" + Strip(b)
  {
    var doc := ParagraphPage(a, b);
    assert Classless(doc) && Idless(doc);
    UnmarkedPageFallsBack(doc);
    ParagraphPageTexts(a, b);
    JoinTwo("\n", Strip(a), Strip(b));
  }

  /** The fallback example as written: <p>  A  </p><p></p><p>B</p> gives "A\nB". */
  lemma ParagraphFallbackExample(a: string, b: string)
    requires a == "  A  " && b == "B"
    ensures ArticleContent(Success(ParagraphPage(a, b))) == "A\nB"
  {
    StripPaddedA(a);
    assert a[2] == 'A' && b[0] == 'B';
    assert Strip(b) == "B";
    ParagraphFallback(a, b);
  }

  /** A page with neither a class, an id nor a paragraph: nothing is
      extracted, and the caller sees the fetch-failure message whatever
      the summariser would have said. */
  lemma NothingToExtract(doc: seq<Node>, summarize: string -> Option<string>)
    requires Classless(doc) && Idless(doc) && FindAll(doc, "p") == []
    ensures ArticleContent(Success(doc)) == ""
    ensures NewsSummary(ArticleContent(Success(doc)), summarize) == FetchFailedMessage
  {
    UnmarkedPageFallsBack(doc);
  }

  /** <div id="contentdata"><aside><p>r</p></aside></div>. */
  function AsidePage(r: string): seq<Node> {
    [Element("div", Some("contentdata"), [], [Element("aside", None, [], [Para(r)])])]
  }

  /** The same page once the aside is gone. */
  const CleanedAsidePage: seq<Node> := [Element("div", Some("contentdata"), [], [])]

  /** The id selector matches the aside page's container, its clean-up
      leaves the container empty, and the pass finds no text. */
  lemma AsidePagePass(r: string)
    ensures FirstMatch(Selectors[0], AsidePage(r), []) == None
    ensures FirstMatch(Selectors[1], AsidePage(r), []) == None
    ensures Try(AsidePage(r), Selectors[2]) == Matched(CleanedAsidePage, "")
  {
    var doc := AsidePage(r);
    var aside := Element("aside", None, [], [Para(r)]);
    assert Classless([Text(r)]);
    assert Classless([Para(r)]);
    assert Classless([aside]);
    assert Classless(doc);
    UnmarkedNoMatch(Selectors[0], doc, []);
    UnmarkedNoMatch(Selectors[1], doc, []);
    assert doc[1..] == [] && [aside][1..] == [];
    assert FirstMatch(Selectors[2], doc, []) == Some(Hit([0], doc[0]));
    assert "aside" in UnwantedNames;
    assert ScrubForest([aside]) == [];
    assert Scrub(doc[0]) == CleanedAsidePage[0];
  }

  /** The soup every selector after the id selector sees is the cleaned
      page, and none of them matches in it. */
  lemma AsidePageRest(r: string)
    ensures SoupBefore(Selectors, AsidePage(r), 3) == CleanedAsidePage
    ensures FailBetween(Selectors, AsidePage(r), 0, |Selectors|)
  {
    var doc := AsidePage(r);
    AsidePagePass(r);
    NoMatchKeepsSoup(Selectors, doc, 0, 2);
    assert FailsAt(Selectors, doc, 2);
    assert SoupBefore(Selectors, doc, 3) == CleanedAsidePage;
    assert Classless(CleanedAsidePage);
    forall j | 3 <= j < |Selectors| ensures FirstMatch(Selectors[j], SoupBefore(Selectors, doc, 3), []) == None {
      SelectorPartsNonEmpty(j);
      UnmarkedNoMatch(Selectors[j], CleanedAsidePage, []);
    }
    NoMatchKeepsSoup(Selectors, doc, 3, |Selectors|);
    forall j | 0 <= j < |Selectors| ensures FailsAt(Selectors, doc, j) {
      if j < 2 { assert FailBetween(Selectors, doc, 0, 2); }
      else if j > 2 { assert FailBetween(Selectors, doc, 3, |Selectors|); }
    }
  }

  /** The paragraph fallback on the aside page as fetched finds its paragraph. */
  lemma AsidePageParagraph(r: string)
    requires !Blank(r)
    ensures Fallback(AsidePage(r)) == Strip(r)
  {
    var aside := Element("aside", None, [], [Para(r)]);
    ParaFind(r);
    ParaText(r);
    assert AsidePage(r)[1..] == [] && [aside][1..] == [];
    assert FindAll([aside], "p") == [Para(r)];
    assert FindAll(AsidePage(r), "p") == [Para(r)];
    assert ParagraphTexts([Para(r)]) == [Strip(r)];
  }

  /** The cleaned page has no paragraph. */
  lemma CleanedPageHasNoParagraph()
    ensures Fallback(CleanedAsidePage) == ""
  {
    assert CleanedAsidePage[1..] == [];
    assert FindAll(CleanedAsidePage, "p") == [];
  }

  /** <div id="contentdata"><aside><p>r</p></aside></div> with r not blank:
      the id selector matches, its clean-up removes the aside, and the
      container is left without text. The paragraph fallback then runs on
      the cleaned soup and finds nothing, although the page as fetched has
      a paragraph with text. */
  lemma CleanUpOutlivesFailedSelector(r: string)
    requires !Blank(r)
    ensures ArticleContent(Success(AsidePage(r))) == ""
    ensures Fallback(AsidePage(r)) == Strip(r)
  {
    AsidePageRest(r);
    NoMatchKeepsSoup(Selectors, AsidePage(r), 3, |Selectors|);
    FallbackWhenAllFail(AsidePage(r));
    CleanedPageHasNoParagraph();
    AsidePageParagraph(r);
  }
}
