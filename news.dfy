/** get_news_summary and fetch_news_based_on_preferences: turn the
    extracted article text into the caller-visible outcome string, keep
    the catalog articles whose title mentions one of the reader's keywords,
    and build the title-to-summary table for them. The network fetch and
    the language-model summariser are parameters: `fetch` gives the parsed
    page (or the exception) for a URL, `summarize` the summariser's answer
    for a text, None standing for its None. */
module News {
  import opened Wrappers
  import opened Strings
  import opened Dom
  import opened Extraction

  const FetchFailedMessage: string := "Failed to fetch article content."
  const SummaryFailedMessage: string := "Failed to generate summary."
  const RetrieveFailedMessage: string := "Failed to retrieve or summarize article."

  /** Python truthiness of the summariser's answer: None and "" are false. */
  predicate Truthy(summary: Option<string>)
    ensures !Truthy(summary) <==> summary == None || summary == Some("")
  {
    summary.Some? && summary.value != ""
  }

  /** The outcome get_news_summary gives for the extracted text. */
  function NewsSummary(articleText: string, summarize: string -> Option<string>): (r: string)
    ensures r != ""
    ensures articleText == "" ==> r == FetchFailedMessage
    ensures articleText != "" ==> (r == SummaryFailedMessage <==> !Truthy(summarize(articleText)) || summarize(articleText).value == SummaryFailedMessage)
  {
    if articleText != "" then
      var summary := summarize(articleText);
      if Truthy(summary) then summary.value else SummaryFailedMessage
    else
      FetchFailedMessage
  }

  /** The summariser is consulted only on a non-empty text, and only its
      answer for that text matters. */
  lemma SummarizerConsultedOnlyOnText(articleText: string, f: string -> Option<string>, g: string -> Option<string>)
    requires articleText == "" || f(articleText) == g(articleText)
    ensures NewsSummary(articleText, f) == NewsSummary(articleText, g)
  {
  }

  /** The fetch-failure message comes out exactly when nothing was
      extracted, unless the summariser itself answered with that message. */
  lemma FetchFailedExactlyWhenEmpty(articleText: string, summarize: string -> Option<string>)
    ensures NewsSummary(articleText, summarize) == FetchFailedMessage <==>
      (articleText == "" || summarize(articleText) == Some(FetchFailedMessage))
  {
    assert FetchFailedMessage != SummaryFailedMessage by {
      assert FetchFailedMessage[10] != SummaryFailedMessage[10];
    }
  }

  /** A truthy summary of a non-empty text is returned as the summariser gave it. */
  lemma SummaryPassedThrough(articleText: string, summarize: string -> Option<string>)
    requires articleText != "" && Truthy(summarize(articleText))
    ensures NewsSummary(articleText, summarize) == summarize(articleText).value
  {
  }

  /** get_news_summary: extract the article, then summarise it. */
  method GetNewsSummary(page: Result<seq<Node>, FetchError>, summarize: string -> Option<string>) returns (outcome: string)
    ensures outcome == NewsSummary(ArticleContent(page), summarize)
    ensures outcome != ""
  {
    var articleText := ExtractArticleContent(page);
    if articleText != "" {
      var summary := summarize(articleText);
      if Truthy(summary) {
        outcome := summary.value;
      } else {
        outcome := SummaryFailedMessage;
      }
    } else {
      outcome := FetchFailedMessage;
    }
  }

  /** A catalog entry: the title shown to the reader and the page's URL. */
  datatype Article = Article(title: string, url: string)

  /** The catalog the function ships with (the title is written in three
      pieces so that proofs can name the word "sustainable" in it). */
  const ExampleArticles: seq<Article> := [
    Article(" Sharechat swaps cash burn for " + "sustainable" + " growth, eyeing IPO in 2 yrs: CEO Ankush Sachdeva",
            "https://www.moneycontrol.com/technology/sharechat-swaps-cash-burn-for-sustainable-growth-eyeing-ipo-in-2-yrs-ceo-ankush-sachdeva-article-13010134.html")
  ]

  /** Some keyword, lower-cased, occurs in the lower-cased title. */
  predicate MatchesPreferences(preferences: seq<string>, title: string) {
    exists i :: 0 <= i < |preferences| && Contains(Lower(title), Lower(preferences[i]))
  }

  /** any(keyword.lower() in title.lower() for keyword in preferences). */
  function AnyKeyword(preferences: seq<string>, title: string): (r: bool)
    ensures r <==> MatchesPreferences(preferences, title)
  {
    if preferences == [] then false
    else if Contains(Lower(title), Lower(preferences[0])) then
      assert Contains(Lower(title), Lower(preferences[0]));
      true
    else
      var rest := AnyKeyword(preferences[1..], title);
      assert rest <==> MatchesPreferences(preferences[1..], title);
      assert forall i :: 1 <= i < |preferences| ==> preferences[i] == preferences[1..][i - 1];
      rest
  }

  /** The list comprehension at the head of fetch_news_based_on_preferences:
      the catalog articles that match a keyword, in catalog order. */
  function RelevantArticles(preferences: seq<string>, catalog: seq<Article>): (r: seq<Article>)
    ensures |r| <= |catalog|
  {
    if catalog == [] then []
    else
      var rest := RelevantArticles(preferences, catalog[1..]);
      if AnyKeyword(preferences, catalog[0].title) then [catalog[0]] + rest else rest
  }

  /** An article is kept exactly when it is in the catalog and its title
      mentions one of the keywords. */
  lemma {:induction false} RelevantArticlesMembers(preferences: seq<string>, catalog: seq<Article>, a: Article)
    ensures a in RelevantArticles(preferences, catalog) <==> a in catalog && MatchesPreferences(preferences, a.title)
  {
    if catalog != [] {
      RelevantArticlesMembers(preferences, catalog[1..], a);
      assert catalog == [catalog[0]] + catalog[1..];
    }
  }

  /** The filter keeps catalog order: filtering a catalog in two parts is
      filtering each part, in the same order. */
  lemma {:induction false} RelevantArticlesAppend(preferences: seq<string>, xs: seq<Article>, ys: seq<Article>)
    ensures RelevantArticles(preferences, xs + ys) == RelevantArticles(preferences, xs) + RelevantArticles(preferences, ys)
  {
    if xs != [] {
      assert (xs + ys)[1..] == xs[1..] + ys;
      RelevantArticlesAppend(preferences, xs[1..], ys);
    } else {
      assert xs + ys == ys;
    }
  }

  /** With no keywords nothing is relevant. */
  lemma {:induction false} NoPreferencesNoArticles(catalog: seq<Article>)
    ensures RelevantArticles([], catalog) == []
  {
    if catalog != [] {
      NoPreferencesNoArticles(catalog[1..]);
    }
  }

  /** The empty keyword is a substring of every title: it keeps the whole catalog. */
  lemma {:induction false} EmptyKeywordKeepsAll(preferences: seq<string>, catalog: seq<Article>)
    requires "" in preferences
    ensures RelevantArticles(preferences, catalog) == catalog
  {
    if catalog != [] {
      var i :| 0 <= i < |preferences| && preferences[i] == "";
      assert OccursAt(Lower(catalog[0].title), Lower(preferences[i]), 0);
      EmptyKeywordKeepsAll(preferences, catalog[1..]);
    }
  }

  /** The table entry of one article: its outcome string, or the
      retrieve-failure message when that is falsy. */
  function Entry(article: Article, fetch: string -> Result<seq<Node>, FetchError>,
                 summarize: string -> Option<string>): (r: string)
    ensures r != ""
  {
    var summary := NewsSummary(ArticleContent(fetch(article.url)), summarize);
    if summary != "" then summary else RetrieveFailedMessage
  }

  /** The outcome string is never empty, so the retrieve-failure message
      is never stored: each entry is get_news_summary's own answer. */
  lemma RetrieveFailedNeverStored(article: Article, fetch: string -> Result<seq<Node>, FetchError>,
                                  summarize: string -> Option<string>)
    ensures Entry(article, fetch, summarize) == NewsSummary(ArticleContent(fetch(article.url)), summarize)
  {
  }

  /** The set of titles of a list of articles. */
  function Titles(articles: seq<Article>): (r: set<string>)
    ensures forall t :: t in r <==> exists i :: 0 <= i < |articles| && articles[i].title == t
  {
    set i | 0 <= i < |articles| :: articles[i].title
  }

  /** The results dict after the loop has stored the articles in order:
      a later article with the same title overwrites an earlier one. */
  function SummaryTable(articles: seq<Article>, fetch: string -> Result<seq<Node>, FetchError>,
                        summarize: string -> Option<string>): (r: map<string, string>)
    ensures r.Keys == Titles(articles)
    ensures forall t :: t in r ==> r[t] != ""
  {
    if articles == [] then map[]
    else
      var last := articles[|articles| - 1];
      var prefix := articles[..|articles| - 1];
      assert forall i :: 0 <= i < |prefix| ==> prefix[i] == articles[i];
      SummaryTable(prefix, fetch, summarize)[last.title := Entry(last, fetch, summarize)]
  }

  /** Each title is mapped to the entry of the last article that carries it. */
  lemma {:induction false} LastTitleWins(articles: seq<Article>, fetch: string -> Result<seq<Node>, FetchError>,
                                         summarize: string -> Option<string>, i: nat)
    requires i < |articles|
    requires forall j :: i < j < |articles| ==> articles[j].title != articles[i].title
    ensures SummaryTable(articles, fetch, summarize)[articles[i].title] == Entry(articles[i], fetch, summarize)
    decreases |articles|
  {
    if i < |articles| - 1 {
      var prefix := articles[..|articles| - 1];
      assert forall j :: i < j < |prefix| ==> prefix[j] == articles[j];
      LastTitleWins(prefix, fetch, summarize, i);
    }
  }

  /** What fetch_news_based_on_preferences returns. */
  function Results(preferences: seq<string>, catalog: seq<Article>,
                   fetch: string -> Result<seq<Node>, FetchError>,
                   summarize: string -> Option<string>): (r: map<string, string>)
    ensures r == map[] <==> RelevantArticles(preferences, catalog) == []
    ensures r.Keys == Titles(RelevantArticles(preferences, catalog))
  {
    var relevant := RelevantArticles(preferences, catalog);
    assert relevant != [] ==> relevant[0].title in Titles(relevant);
    SummaryTable(relevant, fetch, summarize)
  }

  /** Every kept title has an entry, and it is get_news_summary's answer
      for the last kept article with that title. */
  lemma ResultsEntries(preferences: seq<string>, catalog: seq<Article>,
                       fetch: string -> Result<seq<Node>, FetchError>,
                       summarize: string -> Option<string>, i: nat)
    requires i < |RelevantArticles(preferences, catalog)|
    requires forall j :: i < j < |RelevantArticles(preferences, catalog)| ==>
      RelevantArticles(preferences, catalog)[j].title != RelevantArticles(preferences, catalog)[i].title
    ensures var a := RelevantArticles(preferences, catalog)[i];
      Results(preferences, catalog, fetch, summarize)[a.title] == NewsSummary(ArticleContent(fetch(a.url)), summarize)
  {
    LastTitleWins(RelevantArticles(preferences, catalog), fetch, summarize, i);
  }

  /** fetch_news_based_on_preferences over a catalog. */
  method FetchNewsBasedOnPreferences(preferences: seq<string>, catalog: seq<Article>,
                                     fetch: string -> Result<seq<Node>, FetchError>,
                                     summarize: string -> Option<string>)
    returns (results: map<string, string>)
    ensures results == Results(preferences, catalog, fetch, summarize)
    ensures results.Keys == Titles(RelevantArticles(preferences, catalog))
    ensures forall t :: t in results ==> results[t] != ""
  {
    var relevant := RelevantArticles(preferences, catalog);
    if |relevant| == 0 {
      return map[];
    }
    results := map[];
    for i := 0 to |relevant|
      invariant results == SummaryTable(relevant[..i], fetch, summarize)
    {
      var article := relevant[i];
      var summary := GetNewsSummary(fetch(article.url), summarize);
      if summary != "" {
        results := results[article.title := summary];
      } else {
        results := results[article.title := RetrieveFailedMessage];
      }
      assert relevant[..i + 1][..i] == relevant[..i];
    }
    assert relevant[..|relevant|] == relevant;
  }

  /** A one-article catalog is kept whole exactly when the title matches. */
  lemma SingleArticleKept(preferences: seq<string>, article: Article)
    ensures RelevantArticles(preferences, [article]) == [article] <==> MatchesPreferences(preferences, article.title)
  {
    assert [article][1..] == [];
  }

  /** "ai" occurs in "sustainable", lower-cased. */
  lemma SustainableMentionsAI(word: string)
    requires word == "sustainable"
    ensures Contains(Lower(word), "ai")
  {
    var low := Lower(word);
    assert word[4] == 'a' && word[5] == 'i';
    assert low[4] == 'a' && low[5] == 'i';
    assert low[4..6] == "ai";
    assert OccursAt(low, "ai", 4);
  }

  /** "ai" occurs in the lower-cased catalog title, inside "sustainable". */
  lemma ExampleTitleMentionsAI()
    ensures Contains(Lower(ExampleArticles[0].title), "ai")
  {
    var pre := " Sharechat swaps cash burn for ";
    var post := " growth, eyeing IPO in 2 yrs: CEO Ankush Sachdeva";
    SustainableMentionsAI("sustainable");
    LowerAppend(pre, "sustainable");
    LowerAppend(pre + "sustainable", post);
    ContainsInfix(Lower(pre), Lower("sustainable"), Lower(post), "ai");
  }

  /** The reader preferences of the command-line entry point keep the one
      catalog article, although none of the three topics is in its title:
      "ai" occurs in "sustainable". */
  lemma ExamplePreferencesKeepArticle()
    ensures RelevantArticles(["AI", "Climate Change", "Stock Market"], ExampleArticles) == ExampleArticles
  {
    var prefs := ["AI", "Climate Change", "Stock Market"];
    ExampleTitleMentionsAI();
    assert Lower(prefs[0]) == "ai";
    assert MatchesPreferences(prefs, ExampleArticles[0].title);
    SingleArticleKept(prefs, ExampleArticles[0]);
  }
}
