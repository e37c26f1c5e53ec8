# News summary core, modelled in Dafny

This project models the part of the news-summary service that decides what
the user sees. It covers three functions from `newssummary/groqmodelfornews.py`.

- **Article-text extraction** (`extract_article_content`). It tries twelve
  article-body CSS selectors in order on the parsed page. For each selector
  that finds a container, it removes the container's `script`, `style` and
  `aside` descendants in place, then joins the container's stripped strings
  with line breaks. It stops at the first container whose text is not blank.
  If no container yields text, it falls back to the texts of all `<p>`
  elements of what is left of the page. The result is stripped, and a failed
  fetch gives the empty string.
- **The summary outcome** (`get_news_summary`). It turns the extracted text
  and the summariser's answer into the string the caller sees: the summary,
  `"Failed to generate summary."` or `"Failed to fetch article content."`.
- **The preference filter and results table**
  (`fetch_news_based_on_preferences`). It keeps the catalog articles whose
  lower-cased title contains a lower-cased keyword, in catalog order. It then
  builds the dictionary from title to outcome, where a later article with
  the same title overwrites an earlier one.

The files are:

- `wrappers.dfy`: `Option` and `Result`.
- `strings.dfy`: Python's `strip`, `join`, `filter(None, …)`, `lower` and
  `in`, restricted to ASCII. It also defines `SplitLines`, a split at line
  breaks. The source never splits; the function only serves to state what
  the lines of the extracted text are.
- `dom.dfy`: the parsed page as a tree. It covers `select_one` for the four
  selector forms the extractor uses, `find_all`, `stripped_strings` and
  `get_text(strip=True)`.
- `extraction.dfy`: the extractor. The soup is a `class` whose forest
  `decompose()` changes in place. The selector loop is a method proved
  against the specification function `ArticleContent`, and the lemmas say
  what that function means.
- `news.dfy`: the outcome mapping, the filter and the results table. The
  loop that fills the table is a method proved against `Results`.
- `scenarios.dfy`: lemmas giving the extractor's result on small whole pages.

The network fetch and the summariser are parameters. `fetch` maps a URL to
the parsed page or to the exception raised while getting it. `summarize`
maps a text to the summariser's answer, where `None` stands for its `None`.

## Model

| member | source | states |
|---|---|---|
| Strings.Strip | newssummary/groqmodelfornews.py:110 | `str.strip()`: the result has no whitespace at either end; it is empty exactly when the input is blank; it never grows; a trimmed input is returned unchanged |
| Strings.StripRemovesOnlyEnds | newssummary/groqmodelfornews.py:110 | strip removes only whitespace at the two ends: its result is a contiguous middle part of the input, and everything outside that part is whitespace |
| Strings.StripFilterIdentity | newssummary/groqmodelfornews.py:86-87 | stripping the strings of `stripped_strings` again, then dropping the empty ones with `filter(None, …)`, gives back the same list |
| Strings.JoinWellStripped | newssummary/groqmodelfornews.py:87 | joining non-empty trimmed parts with any separator gives a trimmed string; that string is empty exactly when there are no parts |
| Strings.SplitJoinLines | newssummary/groqmodelfornews.py:87 | splitting the `"\n"`-join of newline-free parts at line breaks gives the parts back |
| Strings.JoinSplitLines | newssummary/groqmodelfornews.py:87 | joining the lines of any string with `"\n"` gives the string back |
| Strings.StripAll | newssummary/groqmodelfornews.py:86 | `[t.strip() for t in …]` keeps one entry per input string, and entry i is input string i stripped |
| Strings.NonEmpty | newssummary/groqmodelfornews.py:87 | `filter(None, …)` keeps exactly the non-empty strings: every kept string is non-empty and from the input, and every non-empty input string is kept |
| Strings.NonEmptyAppend | newssummary/groqmodelfornews.py:87 | `filter(None, …)` keeps order and duplicates: filtering two lists side by side is filtering each, first then second |
| Strings.JoinTwo | newssummary/groqmodelfornews.py:87 | `sep.join([a, b])` is `a`, then the separator, then `b` |
| Strings.JoinLength | newssummary/groqmodelfornews.py:87 | `sep.join(parts)` is as long as the parts together, plus one separator fewer than there are parts |
| Strings.Contains | newssummary/groqmodelfornews.py:235 | the `in` substring test holds only when the needle is no longer than the string searched |
| Strings.Lower | newssummary/groqmodelfornews.py:235 | `str.lower()` keeps the length and maps each character on its own: `A`–`Z` go to `a`–`z`, 32 code points up, and every other character is kept |
| Strings.LowerAppend | newssummary/groqmodelfornews.py:235 | lower-casing distributes over concatenation |
| Strings.ContainsInfix | newssummary/groqmodelfornews.py:235 | a substring of the middle part of a string is a substring of the whole |
| Dom.Matches | newssummary/groqmodelfornews.py:63-74 | only elements match; an id selector needs the element to carry that id; a class selector, or a substring selector with a non-empty part, needs the element to carry a class |
| Dom.FirstMatch | newssummary/groqmodelfornews.py:79 | `select_one`: any element it returns is at the returned path in the page, and it matches the selector given the tags above it |
| Dom.FirstMatchComplete | newssummary/groqmodelfornews.py:79-80 | `select_one` misses nothing: when an element at path p matches, it returns a match, at p or at a path before p in document order |
| Dom.FirstMatchIsFirst | newssummary/groqmodelfornews.py:79 | `select_one` returns the first match in document order: no element on a path before the returned one matches |
| Dom.PathBeforeIrreflexive | newssummary/groqmodelfornews.py:79 | document order is strict: no path comes before itself |
| Dom.PathBeforeTransitive | newssummary/groqmodelfornews.py:79 | document order is transitive |
| Dom.ReplaceAt | newssummary/groqmodelfornews.py:82-83 | replacing the node at a path puts the new node there and leaves every other top-level node unchanged |
| Dom.ReplaceAtAncestors | newssummary/groqmodelfornews.py:82-83 | every element above the replaced node keeps its tag, id and class list |
| Dom.ReplaceAtFrame | newssummary/groqmodelfornews.py:82-83 | replacing the node at a path leaves every node at any depth whose path neither leads to nor lies below that path unchanged |
| Dom.StrippedStrings | newssummary/groqmodelfornews.py:86 | `stripped_strings` yields only non-empty, trimmed strings |
| Dom.StrippedStringsOne | newssummary/groqmodelfornews.py:86 | a text node contributes its stripped text when that is not empty, and nothing otherwise; an element contributes the strings of its children |
| Dom.StrippedStringsAppend | newssummary/groqmodelfornews.py:86 | `stripped_strings` walks in document order: the strings of two forests side by side are those of the first, then those of the second |
| Dom.FindAll | newssummary/groqmodelfornews.py:99 | `find_all('p')` returns only elements with that tag |
| Dom.FindAllOne | newssummary/groqmodelfornews.py:99 | what one node contributes to `find_all`: itself when it is an element with the tag, then the matching elements below it, so an element comes before its descendants and nothing comes from outside the page |
| Dom.FindAllComplete | newssummary/groqmodelfornews.py:99 | `find_all` misses nothing: every element with the tag, at any depth, is among those returned |
| Dom.FindAllAppend | newssummary/groqmodelfornews.py:99 | `find_all` walks in document order: the elements found in two forests side by side are those of the first, then those of the second |
| Dom.GetTextStripped | newssummary/groqmodelfornews.py:101 | `get_text(strip=True)` is trimmed, and it is empty exactly when the element has no non-blank text |
| Extraction.ScrubForest | newssummary/groqmodelfornews.py:82-83 | after decompose, no element named in the `find_all` list is left at any depth |
| Extraction.Scrub | newssummary/groqmodelfornews.py:82-83 | the container itself survives decompose with its tag, id and class list, and none of its unwanted descendants remain |
| Extraction.ScrubOne | newssummary/groqmodelfornews.py:82-83 | decompose keeps a text node, removes an unwanted element with everything below it, and keeps any other element with its tag, id and classes, its own children cleaned |
| Extraction.ScrubForestAppend | newssummary/groqmodelfornews.py:82-83 | the clean-up works node by node: cleaning two forests side by side is cleaning each, in order |
| Extraction.ContainerText | newssummary/groqmodelfornews.py:86-87 | the container text is its stripped strings joined with `"\n"`; it is trimmed, and it is empty exactly when the container has no non-blank text |
| Extraction.ParagraphTexts | newssummary/groqmodelfornews.py:101 | the kept paragraph texts are non-empty and trimmed, and there are no more of them than paragraphs |
| Extraction.ParagraphTextsStep | newssummary/groqmodelfornews.py:101 | the first paragraph's text, when not empty, comes first, followed by the texts of the rest |
| Extraction.ParagraphTextsKeepsNonEmpty | newssummary/groqmodelfornews.py:101 | the comprehension keeps exactly the paragraphs whose `get_text(strip=True)` is non-empty, each contributing that text, in document order |
| Extraction.Fallback | newssummary/groqmodelfornews.py:96-107 | the fallback is the `"\n"`-join of the non-empty paragraph texts of the current soup; it is trimmed, and it is empty exactly when no paragraph has text |
| Extraction.Try | newssummary/groqmodelfornews.py:79-89 | the text of one selector pass is trimmed, so the blank test at line 89 fails exactly when that text is empty |
| Extraction.Cascade | newssummary/groqmodelfornews.py:78-93 | the selector loop as a function: when it stops at a selector, that selector lies in the range tried, and the text it returns is non-empty and trimmed |
| Extraction.ArticleContent | newssummary/groqmodelfornews.py:52-116 | the extractor's result is always trimmed |
| Extraction.Soup.constructor | newssummary/groqmodelfornews.py:56 | the soup starts as the parsed page |
| Extraction.Soup.DecomposeUnwanted | newssummary/groqmodelfornews.py:82-83 | decompose replaces the container in the shared soup, in place, by its scrubbed copy, and changes nothing else |
| Extraction.ExtractArticleContent | newssummary/groqmodelfornews.py:52-116 | the selector loop, with its in-place clean-up, break and fallback, returns exactly `ArticleContent(page)` |
| Extraction.CascadeWonAt | newssummary/groqmodelfornews.py:78-91 | when the loop stops, it stops at a selector whose pass on the soup it saw found text, and it returns that pass's text and soup |
| Extraction.FailBetweenCons | newssummary/groqmodelfornews.py:78-93 | a failure at selector k, followed by failures from k+1 up to w, is a failure from k up to w |
| Extraction.CascadeWonInOrder | newssummary/groqmodelfornews.py:78-93 | selectors are consulted in list order: every selector before the winning one failed on the soup the earlier passes left |
| Extraction.CascadeExhaustedInOrder | newssummary/groqmodelfornews.py:78-93 | when no selector finds text, every selector failed, and the soup left is the one all their clean-ups produced |
| Extraction.NoMatchKeepsSoup | newssummary/groqmodelfornews.py:79-80 | selectors that match nothing fail and leave the soup unchanged |
| Extraction.LaterSelectorsNotTried | newssummary/groqmodelfornews.py:89-91 | after the break, selectors appended to the list cannot change the outcome |
| Extraction.CascadeFirstSuccess | newssummary/groqmodelfornews.py:78-91 | if selector w is the first to find text, the loop returns w's text and soup |
| Extraction.CascadeNoSuccess | newssummary/groqmodelfornews.py:78-93 | if every selector fails, the loop ends with the cleaned soup |
| Extraction.SelectorWins | newssummary/groqmodelfornews.py:78-110 | the first selector to find text decides the result; the final strip leaves that text unchanged, and it is not empty |
| Extraction.FallbackWhenAllFail | newssummary/groqmodelfornews.py:96-110 | if every selector fails, the result is the paragraph fallback run on the cleaned soup, not on the page as fetched |
| Extraction.ArticleContentEmpty | newssummary/groqmodelfornews.py:52-116 | the result is empty exactly when the fetch raised, or when every selector failed and no paragraph of the cleaned soup has text |
| Extraction.ScrubExposes | newssummary/groqmodelfornews.py:82-86 | after decompose, the stripped strings are exactly the strings outside unwanted elements |
| Extraction.ContainerTextExposed | newssummary/groqmodelfornews.py:82-87 | a matched container's text is the `"\n"`-join of its strings outside `script`/`style`/`aside`, and of no others |
| Extraction.ScrubNoUnwanted | newssummary/groqmodelfornews.py:82-83 | decompose changes nothing in a container without unwanted elements |
| Extraction.OnlyThreeTagsRemoved | newssummary/groqmodelfornews.py:82 | for any tag name `html.parser` can produce, removal happens exactly for `script`, `style` and `aside`; the two class-like names never match |
| Extraction.ContainerLines | newssummary/groqmodelfornews.py:86-87 | when no stripped string holds a line break, the container text's lines are exactly its stripped strings, each non-empty and trimmed |
| Extraction.BlankLineInsideTextSurvives | newssummary/groqmodelfornews.py:86-87 | a text node holding `"a\n\nb"` gives container text with an empty middle line |
| News.NewsSummary | newssummary/groqmodelfornews.py:184-193 | the outcome is never empty; it is the fetch-failure message when nothing was extracted; otherwise it is the summary-failure message exactly when the summary is falsy or is that message itself |
| News.SummarizerConsultedOnlyOnText | newssummary/groqmodelfornews.py:186-187 | the summariser is consulted only on a non-empty text, and only its answer for that text matters |
| News.FetchFailedExactlyWhenEmpty | newssummary/groqmodelfornews.py:184-193 | the fetch-failure message comes out exactly when the text is empty, or when the summariser returned that same message |
| News.SummaryPassedThrough | newssummary/groqmodelfornews.py:188-189 | a truthy summary is returned exactly as the summariser gave it |
| News.GetNewsSummary | newssummary/groqmodelfornews.py:184-193 | the method extracts, then summarises, and returns `NewsSummary` of the extracted text, which is never empty |
| News.AnyKeyword | newssummary/groqmodelfornews.py:235 | the `any(...)` test holds exactly when some lower-cased keyword occurs in the lower-cased title |
| News.RelevantArticles | newssummary/groqmodelfornews.py:233-236 | the filter never returns more articles than the catalog holds |
| News.RelevantArticlesMembers | newssummary/groqmodelfornews.py:233-236 | an article is kept exactly when it is in the catalog and its title matches a keyword |
| News.RelevantArticlesAppend | newssummary/groqmodelfornews.py:233-236 | the filter keeps catalog order: filtering a concatenation is the concatenation of the two filterings |
| News.NoPreferencesNoArticles | newssummary/groqmodelfornews.py:235 | with no keywords, `any` of nothing is false and no article is kept |
| News.EmptyKeywordKeepsAll | newssummary/groqmodelfornews.py:235 | the empty keyword is a substring of every title, so the whole catalog is kept |
| News.Entry | newssummary/groqmodelfornews.py:245-249 | every stored entry is a non-empty string |
| News.RetrieveFailedNeverStored | newssummary/groqmodelfornews.py:246-249 | because the outcome is never empty, the retrieve-failure branch is dead: each entry is `get_news_summary`'s own answer |
| News.SummaryTable | newssummary/groqmodelfornews.py:242-249 | the table's keys are exactly the titles of the stored articles, and every value is non-empty |
| News.LastTitleWins | newssummary/groqmodelfornews.py:244-249 | a title maps to the entry of the last article carrying it, since later assignments overwrite earlier ones |
| News.Results | newssummary/groqmodelfornews.py:238-250 | the result is the empty dict exactly when no article is relevant, and its keys are the titles of the relevant articles |
| News.ResultsEntries | newssummary/groqmodelfornews.py:238-250 | a relevant article's title maps to `get_news_summary`'s outcome for the last relevant article with that title |
| News.FetchNewsBasedOnPreferences | newssummary/groqmodelfornews.py:233-250 | the early return and the loop build exactly `Results`: the relevant titles as keys, each with a non-empty value |
| News.SingleArticleKept | newssummary/groqmodelfornews.py:233-236 | a one-article catalog is kept exactly when the title matches a keyword |
| News.ExampleTitleMentionsAI | newssummary/groqmodelfornews.py:211 | the shipped catalog title, lower-cased, contains `"ai"`, inside "sustainable" |
| News.ExamplePreferencesKeepArticle | newssummary/groqmodelfornews.py:253 | the entry point's preferences `["AI", "Climate Change", "Stock Market"]` keep the one catalog article, although none of the three topics is in its title |
| Scenarios.UnmarkedNoMatch | newssummary/groqmodelfornews.py:62-75 | no selector of the list matches a page without classes or ids |
| Scenarios.UnmarkedPageFallsBack | newssummary/groqmodelfornews.py:78-107 | a page without classes or ids goes straight to the paragraph fallback on the page as fetched |
| Scenarios.ContainerWins | newssummary/groqmodelfornews.py:78-91 | on `<div class="article_content"><p>h</p><script>x</script><p>w</p></div>`, the result is the two stripped paragraph texts, one per line, and the script text is gone |
| Scenarios.ThreeParagraphTexts | newssummary/groqmodelfornews.py:98-100 | three paragraphs whose middle one has no text give exactly the stripped texts of the outer two, in order |
| Scenarios.ParagraphFallback | newssummary/groqmodelfornews.py:96-107 | on `<p>a</p><p></p><p>b</p>`, the empty paragraph is skipped and the two texts are joined stripped |
| Scenarios.ParagraphFallbackExample | newssummary/groqmodelfornews.py:96-110 | `<p>  A  </p><p></p><p>B</p>` gives `"A\nB"` |
| Scenarios.NothingToExtract | newssummary/groqmodelfornews.py:96-107 | any page without a class, an id or a paragraph gives `""`, and the caller sees the fetch-failure message whatever the summariser says |
| Scenarios.CleanUpOutlivesFailedSelector | newssummary/groqmodelfornews.py:78-107 | on `<div id="contentdata"><aside><p>r</p></aside></div>`, the failed selector's clean-up removes the only paragraph, so the result is `""`, although the fallback on the page as fetched gives `r` |

## Left out

- The HTTP request (lines 49-55): the user-agent header, the 100-second timeout and `raise_for_status`. `fetch` is a parameter whose failure stands for an exception raised while fetching. Both `except` branches (lines 112-116) give `""`.
- Extraction.ArticleContent: an exception raised after the fetch is not modelled. The `except Exception` at line 114 covers the whole body, so the model assumes that parsing, the selectors and the `print` calls (lines 53, 90, 93, 97, 103, 105, 107) never raise. If one did, the source would return `""` even after a container had won. If the `print` at line 115 then also raised, the exception would escape the function.
- `fetch` and `summarize` are pure functions in the model: the same URL always gives the same page, and the same text the same summary. The real summariser samples at temperature 0.7 (line 20), so its answers can differ from call to call.
- HTML parsing: the model starts from the parsed tree. Elements carry only a tag, an id and a class list, since those are all the selectors read.
- The CSS selector engine covers only the four selector forms in the list (`tag.class`, `tag#id`, `ancestor .class`, `tag[class*=part]`).
- The language model and its prompt chain (lines 13-36 and 150-172). `summarize` is a parameter. Its answer, a dictionary in the source, is modelled as an optional string, with the empty string standing for a falsy dictionary.
- Logging and `print` calls are not modelled. The one way they could change a result, by raising, is excluded by the line on `Extraction.ArticleContent` above.
- The command-line entry point (lines 252-262): it prints the table and reads `summary['output_text']`. Only its preference list is used, by `News.ExamplePreferencesKeepArticle`.
- The commented-out alternative fetcher (lines 118-146).
- `str.strip()`, `str.isspace()` and `str.lower()` are modelled on ASCII only. Unicode whitespace and non-ASCII case mappings are not.
- BeautifulSoup's comment and script-string subclasses are not modelled. Every text node counts as text in `stripped_strings`.
- Extraction.Soup.DecomposeUnwanted: the `find_all`/`decompose()` loop is one update of the soup to its net effect. The per-element order of the removals is not modelled.
- News.FetchNewsBasedOnPreferences: the catalog is a parameter rather than the function's local list. That list is `News.ExampleArticles`, whose title is written as three concatenated pieces with the same value.
- News.Results: a Dafny map has no order, so the dictionary's insertion order (the order of the printed summaries) is not modelled.
- Extraction.ContainerLines: proves that the lines are exactly the stripped strings, each non-empty and trimmed, when no stripped string contains a line break. A text node with an inner line break can yield an empty line (`Extraction.BlankLineInsideTextSurvives`) or a line with whitespace at one end (`a \nb` gives the line `a `), so no line property is promised for such text.
