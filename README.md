# arXiv scraper core, modelled in Dafny

This project models the paper-gathering core of `arxiv_scraper.py` from the
gpt_paper_assistant repository. For one arXiv area, the scraper:

- reads the area's RSS feed and turns each kept entry into a `Paper`
  (authors, title, abstract, arXiv id);
- asks the arXiv search API for recent papers of the area and of the
  configured authors, starting from the feed's timestamp;
- merges the feed papers into the API's list, skipping ids the API already
  returned.

The model takes the feed and the search service as inputs, and proves what
each step does with them.

Files and modules:

- `options.dfy` (`Options`): the `Option` datatype. Python's `None` is `None`.
- `strings.dfy` (`Strings`): the Python string and `re` operations the
  scraper applies, written out as functions over `seq<char>`:
  - `str.split` on one character, `sep.join` and `str.strip`;
  - `str.replace("\n", ", ")` and `re.sub("\n", " ", ...)`;
  - `re.sub("<[^<]+?>", "", ...)`;
  - a generic leftmost-suffix search, which models the `$`-anchored
    `re.sub` on titles.
- `papers.dfy` (`Papers`):
  - the `Paper` record;
  - the parsed `[FILTERING]` configuration;
  - `PaperList`, a class for a Python list object that `append` extends in
    place.
- `arxiv_ids.dfy` (`ArxivIds`):
  - the id at the end of a feed link;
  - the ten-character prefix of an API short id;
  - `is_earlier`.
- `feed_reader.dfy` (`FeedReader`): `get_papers_from_arxiv_rss` after the
  HTTP fetch. This covers the 304 and empty-feed short-circuits, the cursor
  id, the `force_new` and `force_primary` filters, and author, summary and
  title clean-up. `ReadFeed` is the loop itself, proved against `FeedPapers`.
- `api_reader.dfy` (`ApiReader`): `get_papers_from_arxiv_api`. This covers
  the search (its dates and the author query) and the normalisation of each
  result. `ReadApi` builds a fresh `PaperList`.
- `merger.dfy` (`Merger`): `merge_paper_list`. `MergePaperList` appends to
  the API's `PaperList` object itself and returns that same object, proved
  against `Merged`.
- `orchestrator.dfy` (`Orchestrator`): `get_papers_from_arxiv_rss_api`.

Inputs that the Python code reads from the outside world:

- The fetched feed is a `Feed` value: HTTP status, entries, and the `updated`
  timestamp.
- The arXiv search service is a `SearchService` object. Its `search`
  function gives the results of each query. Its ghost field `sent` records,
  in order, the queries sent to it, and only `Results` (the model of
  `arxiv.Client().results`) extends it. This is how `ReadApi` states that
  it sends exactly one query, and how `CollectPapers` states that no query
  is sent for an empty or unmodified feed.
- `html.unescape` is a function parameter `unescape: string -> string` and is
  not interpreted.
- Dates are whole days counted from a fixed epoch.

## Model

| member | source | states |
|---|---|---|
| ApiReader.SearchService.Results | arxiv_scraper.py:65 | sending a query appends it to the record of sent queries and returns the service's results for it |
| Papers.PaperList.Append | arxiv_scraper.py:144 | `list.append`: the list object's contents become the old contents followed by the paper |
| ArxivIds.LinkId | arxiv_scraper.py:103 | `link.split("/")[-1]` contains no `/` |
| ArxivIds.LinkIdIsLastSegment | arxiv_scraper.py:109 | the link id is the suffix of the link after its last `/`, or the whole link when it has none |
| FeedReader.LinkIdOf | arxiv_scraper.py:103 | an abstract-page link `<prefix>/<id>` yields exactly `<id>` |
| ArxivIds.TruncateId | arxiv_scraper.py:68 | `short_id[:10]` is the first `min(10, len)` characters of the short id |
| ArxivIds.TruncateIdDropsVersion | arxiv_scraper.py:78 | a ten-character id followed by `v<version>` loses exactly the version, e.g. `2501.00002v1` gives `2501.00002` |
| ArxivIds.ParseInt | arxiv_scraper.py:36 | `int(s)` yields a value exactly when `s` is a nonempty string of digits |
| ArxivIds.IsEarlier | arxiv_scraper.py:34-36 | `is_earlier` gives an answer exactly when both ids, with dots removed, are nonempty digit strings |
| ArxivIds.IsEarlierIsLexOrder | arxiv_scraper.py:34-36 | when both ids, with dots removed, are numerals of equal length, `is_earlier` is their string order, in both directions |
| ArxivIds.IsEarlierIsIdOrder | arxiv_scraper.py:34-36 | on two `<digits>.<digits>` ids with parts of equal lengths, `is_earlier` is string comparison of the ids themselves |
| ArxivIds.IsEarlierExample | arxiv_scraper.py:34-36 | `is_earlier("2501.00001", "2501.00002")` is true |
| ArxivIds.LexLessValue | arxiv_scraper.py:36 | for digit strings of equal length, string order implies a smaller integer value |
| Strings.SplitCount | arxiv_scraper.py:125 | `str.split(c)` gives one piece more than there are separators, and the string itself when there is none |
| Strings.SplitPiecesLackSep | arxiv_scraper.py:125 | no piece of a split contains the separator |
| Strings.SplitAppend | arxiv_scraper.py:125 | splitting at a separator between `a` and `b` is splitting `a` and `b` apart |
| Strings.JoinSplit | arxiv_scraper.py:46-47 | joining the pieces of a split with the same separator gives back the string |
| Strings.SplitLast | arxiv_scraper.py:103 | the last piece of a split is the suffix after the last separator |
| Strings.Trim | arxiv_scraper.py:124 | `str.strip()` returns a string with no whitespace at either end |
| Strings.TrimIsSlice | arxiv_scraper.py:124 | `str.strip()` is a slice `s[lo..hi]` where everything outside the slice is whitespace |
| Strings.TrimFixes | arxiv_scraper.py:124 | `str.strip()` leaves a string unchanged if and only if it has no whitespace at either end |
| Strings.TrimLeadingSpace | arxiv_scraper.py:124-125 | a single blank in front of a stripped name is all that `strip` removes |
| Strings.StripTags | arxiv_scraper.py:124 | removing `<[^<]+?>` never lengthens a string and leaves one without `<` unchanged |
| Strings.StripTagsDeletesTag | arxiv_scraper.py:128 | a tag after text without `<` is deleted: the text is kept as it is and the rest is stripped on its own |
| Strings.StripTagsAtTag | arxiv_scraper.py:128 | a tag at the start of the string is deleted and the scan resumes right after it |
| Strings.TagAtUnique | arxiv_scraper.py:128 | the lazy `+?` gives at most one match at a position: the one that ends at the first `>` |
| Strings.StripTagsPlainHead | arxiv_scraper.py:128 | text without `<` in front of the rest is copied unchanged |
| Strings.StripTagsKeepsLoneOpen | arxiv_scraper.py:128 | a `<` that starts no tag, as in `p < 0.05`, is kept and the scan goes on after it |
| Strings.StripTagsLoneOpenExample | arxiv_scraper.py:128 | `a<b`, whose `<` has no `>` after it, comes out unchanged |
| Strings.StripTagsIsSubsequence | arxiv_scraper.py:128 | removing tags keeps the remaining characters in order |
| Strings.ExpandNewlinesCounts | arxiv_scraper.py:125 | `replace("\n", ", ")` leaves no newline, and the commas become the old commas plus the old newlines |
| Strings.ExpandNewlinesAtNewline | arxiv_scraper.py:125 | a newline between `a` and `b` becomes a comma followed by a blank in front of `b` |
| Strings.NewlinesToSpaces | arxiv_scraper.py:73 | `re.sub("\n", " ", s)` has the same length, no newline, a blank wherever there was a newline, and every other character unchanged |
| Strings.FirstSuffixSpec | arxiv_scraper.py:131 | the search finds the leftmost suffix that satisfies the predicate, and reports none only when no suffix does |
| Strings.CutAtFirstSuffixSpec | arxiv_scraper.py:131 | the cut keeps a prefix; no suffix starting inside the prefix matches; the removed suffix, if any, matches |
| Strings.CutAtFirstSuffixAt | arxiv_scraper.py:131 | when `s[k..]` is the leftmost matching suffix, the cut is `s[..k]` |
| FeedReader.StripAnnotation | arxiv_scraper.py:131 | removing the annotation never lengthens the title |
| FeedReader.StripAnnotationSpec | arxiv_scraper.py:131 | the result is the title up to the leftmost position whose rest is an annotation, and keeps a final newline, since `$` matches before one; with no annotation the title is unchanged |
| FeedReader.StripAnnotationIsPrefix | arxiv_scraper.py:131 | without a final newline, the result is a prefix of the title, and what was removed is an annotation |
| FeedReader.IsAnnotationOf | arxiv_scraper.py:131 | every `(arXiv:<digits>.<digits>v<digits> [<text>])` without a newline in the text matches the pattern |
| FeedReader.PatternEnds | arxiv_scraper.py:131 | anything the pattern matches ends with `)` |
| FeedReader.NoAnnotationInHead | arxiv_scraper.py:131 | no match can start inside text that contains no `(` |
| FeedReader.StripAnnotationAfter | arxiv_scraper.py:131 | a `(`-free title head followed by an annotation loses exactly the annotation |
| FeedReader.StripAnnotationOfParts | arxiv_scraper.py:131 | a `(`-free head followed by a well-formed `(arXiv:...)` annotation loses exactly the annotation |
| FeedReader.StripAnnotationExample | arxiv_scraper.py:131 | `"Some Title (arXiv:1234.56789v2 [cs.AI])"` becomes `"Some Title "` |
| FeedReader.Authors | arxiv_scraper.py:123-126 | every author string gives at least one author, since `split` never returns an empty list |
| FeedReader.AuthorsCount | arxiv_scraper.py:123-126 | one author per comma and per newline of the raw string, plus one; every name is stripped |
| FeedReader.AuthorsAtComma | arxiv_scraper.py:123-126 | a comma separates the authors before it from those after it |
| FeedReader.AuthorsAtNewline | arxiv_scraper.py:123-126 | a newline separates authors like `, ` does: the authors before it, then those of the rest with a blank in front |
| FeedReader.AuthorsSingle | arxiv_scraper.py:123-126 | a raw string with no comma, newline or `<` is one author: that string unescaped and stripped |
| FeedReader.CleanNamesAppend | arxiv_scraper.py:123-126 | cleaning the pieces works piece by piece, so it distributes over concatenation |
| FeedReader.CleanSummary | arxiv_scraper.py:128-129 | the summary handed to `unescape` has no newline, is no longer than the raw summary, and without markup is the raw summary with newlines made spaces |
| FeedReader.Keeps | arxiv_scraper.py:112-121 | with neither filter on every entry is kept; under `force_primary` a kept entry has the area as its first tag |
| FeedReader.NormalizeEntry | arxiv_scraper.py:123-133 | a feed paper has at least one author, an id without `/`, and a title no longer than the entry's |
| FeedReader.KeptEntriesSpec | arxiv_scraper.py:112-121 | an entry is kept if and only if it passes both filters; kept entries are announced `new` under `force_new` and have the requested area as first tag under `force_primary`; they keep feed order |
| FeedReader.NormalizeAllSpec | arxiv_scraper.py:107-134 | paper `i` is kept entry `i` turned into a `Paper` |
| FeedReader.FeedPapersStep | arxiv_scraper.py:107-134 | one more entry appends its paper exactly when the entry passes the filters |
| FeedReader.ReadFeed | arxiv_scraper.py:93-136 | a 304 or empty feed gives `([], None, None)`; otherwise the papers of the kept entries, the feed's timestamp, and the id of the first entry, kept or not |
| FeedReader.ForcePrimaryExample | arxiv_scraper.py:117-121 | with `force_primary`, an entry tagged `cs.AI` is dropped from `cs.LG`, while its link still gives the cursor id |
| ApiReader.AuthorClausesSpec | arxiv_scraper.py:47 | clause `i` is `au:"<piece i, stripped>"` |
| ApiReader.AuthorQuery | arxiv_scraper.py:46-47 | the author query always begins with an `au:"` clause, even for an empty author list |
| ApiReader.AuthorQueryEmpty | arxiv_scraper.py:46-47 | an empty `author_list` still gives the single clause `au:""` |
| ApiReader.AuthorClausesOfList | arxiv_scraper.py:46-47 | a list written `name, name, ...` splits back into the names: the first piece is the first name, and the clauses are those of the names |
| ApiReader.AuthorQueryOfNames | arxiv_scraper.py:46-47 | stripped names without commas, separated by `, `, give the ` OR `-join of one `au:"<name>"` clause per name, in order |
| ApiReader.BuildQuery | arxiv_scraper.py:42-64 | the search ends on the feed's day; the area window is `duration_day` days and the author window 60 days; the author half is the author query; `max_results` is `None` and results are sorted by submission date |
| ApiReader.NormalizeResult | arxiv_scraper.py:71-79 | a result's paper keeps its author names and title, and its id is the first `min(10, len)` characters of the short id |
| ApiReader.ApiPapersSpec | arxiv_scraper.py:66-81 | result `i` gives paper `i`, none is dropped whatever its id, and every id has at most ten characters |
| ApiReader.ApiIdDropsVersion | arxiv_scraper.py:78 | a result with short id `<10-char id>v<version>` gives a paper with that id |
| ApiReader.ReadApi | arxiv_scraper.py:39-81 | sends exactly one query to the service, the one built from the timestamp and configuration, and returns a new list holding the paper of every result of that query |
| Merger.NewPapersSpec | arxiv_scraper.py:142-144 | a feed paper is appended if and only if its id was not in the API list's id set; appended papers keep feed order |
| Merger.Merged | arxiv_scraper.py:139-145 | the merge is at least as long as the API list and at most as long as both lists together |
| Merger.NewPapersCounts | arxiv_scraper.py:142-144 | each feed paper with an unseen id is appended as many times as the feed holds it, one with a seen id never; the count appended is the feed's length less the feed papers with a seen id |
| Merger.MergedSpec | arxiv_scraper.py:139-145 | the merge keeps the API list as its prefix, followed by exactly the feed papers whose id the API list lacks, each as many times as the feed holds it, in feed order; its length is that of both lists less the feed papers with a known id |
| Merger.MergedWithItself | arxiv_scraper.py:139-145 | merging a list into itself leaves it unchanged |
| Merger.MergedIds | arxiv_scraper.py:139-145 | the ids of the merge are exactly the ids of the two lists |
| Merger.MergedIntoEmpty | arxiv_scraper.py:139-145 | merged into an empty API list, the feed papers come out as they are, duplicates included |
| Merger.MergedIdempotent | arxiv_scraper.py:139-145 | merging the same feed papers again adds nothing |
| Merger.NewPapersAllSeen | arxiv_scraper.py:143 | when every feed id is already known, nothing is appended |
| Merger.NewPapersDistinct | arxiv_scraper.py:142-144 | filtering a list without repeated ids keeps it so and brings in no new id |
| Merger.MergedDistinctIff | arxiv_scraper.py:139-145 | the merge repeats no id if and only if neither the API list nor the appended feed papers do |
| Merger.MergedDistinct | arxiv_scraper.py:139-145 | two lists without repeated ids merge into one without repeated ids |
| Merger.MergedKeepsFeedDuplicates | arxiv_scraper.py:140-144 | two feed papers sharing an id unknown to the API are both appended: the id set is not updated while appending |
| Merger.MergePaperList | arxiv_scraper.py:139-145 | appends in place to the API list object and returns that same object; its contents become `Merged(feed, old contents)` |
| Orchestrator.CollectPapers | arxiv_scraper.py:148-155 | an unmodified or empty feed gives `[]` and leaves the record of sent queries unchanged; otherwise exactly the search built from the feed's timestamp is sent, and the result is its papers merged with the feed's papers |

## Left out

- Network access. `feedparser.parse` and `arxiv.Client().results` are outside the model. The feed is an input value, and the search service answers through a function it is built with.
- The request's `modified` header and the current time (lines 86-91). The model starts from the fetched feed.
- Date arithmetic and formatting (`timedelta`, `strftime("%Y%m%d")`, `strptime`). Days are integers, and the query string is not assembled: the search is the record of its parts (area, the two windows, the author query, `max_results` and the sort criterion). The sort order's direction, which `arxiv.Search` takes as a default, is not modelled.
- `html.unescape`. It is a parameter, so no property depends on what it does.
- The general regular-expression engine. Only the three patterns the scraper uses are modelled, each as its own function.
- Python's `str.isspace` for characters outside the explicit whitespace set in `Strings.Whitespace`.
- ArxivIds.ParseInt: models `int()` on plain digit strings only. It does not accept signs, surrounding whitespace, underscores or non-ASCII digits, which Python accepts. `is_earlier` is not called by the core, since line 69 is commented out.
- ArxivIds.IsEarlier: inherits the digits-only domain of `ParseInt`. On ids that Python's `int` also parses, with a sign, surrounding whitespace or underscores, it gives `None` where `is_earlier` gives an answer.
- FeedReader.ReadFeed: requires the configuration and the first tag of every entry that gets past `force_new` (predicate `FeedReadable`). The Python code raises `TypeError` or `IndexError` there; the model does not represent those exceptions.
- FeedReader.ReadFeed: the feed's paper list is a local list that nothing else sees, so it is a sequence value rather than a `PaperList`.
- ApiReader.ReadApi: the `last_id` argument is accepted and not used, as in the code, because the `is_earlier` filter on line 69 is commented out.
- Merger.MergePaperList: the feed papers are a sequence value, so the model cannot express the case where the feed list and the API list are the same object. In Python that call appends nothing, since every id of the list is in the set taken before the loop, and the list is unchanged (`Merger.MergedWithItself` states this on values).
- The merged list is not free of duplicate ids in general. Duplicates from the feed, or from the API itself, survive the merge (`Merger.MergedKeepsFeedDuplicates`). The model follows the code, and `Merger.MergedDistinct` gives the condition under which no id repeats.
- `Paper.__hash__`, dataclass equality and `EnhancedJSONEncoder` (lines 14-31). Nothing in the core hashes or serialises papers.
- Debug `print` calls, `configparser` loading, and the `__main__` block.
- Old-style arXiv ids (`area/NNNNNNN`). `LinkId` and `TruncateId` handle any string, but the example lemmas use new-style ids.
