/**
 * `get_papers_from_arxiv_api`: the search it asks the arXiv API for, and the
 * papers it makes of the results, one per result, in the order received.
 */
module ApiReader {
  import opened Options
  import opened Strings
  import opened Papers
  import opened ArxivIds

  /** What the scraper reads of one API result. */
  datatype ApiResult = ApiResult(shortId: string, authorNames: seq<string>, title: string, summary: string)

  /** The orders in which the search service can return results. */
  datatype SortCriterion = Relevance | LastUpdatedDate | SubmittedDate

  /**
   * The search: papers of `area` submitted between `startDay` and `endDay`,
   * or papers by an author of `authorQuery` submitted between
   * `authorStartDay` and `endDay`, at most `maxResults` of them (`None`: no
   * limit), in the order `sortBy`. Days are counted from a fixed epoch.
   */
  datatype SearchQuery = SearchQuery(area: string, startDay: int, endDay: int, authorQuery: string,
                                     authorStartDay: int, maxResults: Option<nat>, sortBy: SortCriterion)

  /**
   * The arXiv search service. `search` says what it answers to each query;
   * `sent` records, in order, the queries sent to it.
   */
  class SearchService {
    const search: SearchQuery -> seq<ApiResult>
    ghost var sent: seq<SearchQuery>

    constructor (search: SearchQuery -> seq<ApiResult>)
      ensures this.search == search && sent == []
    {
      this.search := search;
      sent := [];
    }

    /** `arxiv.Client().results(search)`: sends `q` and returns all its results. */
    method Results(q: SearchQuery) returns (results: seq<ApiResult>)
      modifies this
      ensures sent == old(sent) + [q]
      ensures results == search(q)
    {
      sent := sent + [q];
      results := search(q);
    }
  }

  /** How many days back the author half of the search reaches. */
  const AuthorWindowDays := 60

  /** `au:"<name>"`: the search clause for one author. */
  function Clause(name: string): string
  {
    "au:\"" + name + "\""
  }

  /** One clause per piece of the author list, each piece stripped. */
  function AuthorClauses(pieces: seq<string>): (clauses: seq<string>)
    ensures |clauses| == |pieces|
  {
    if pieces == [] then [] else [Clause(Trim(pieces[0]))] + AuthorClauses(pieces[1..])
  }

  /** Clause `i` is that of piece `i`, stripped. */
  lemma {:induction false} AuthorClausesSpec(pieces: seq<string>)
    ensures forall i :: 0 <= i < |pieces| ==> AuthorClauses(pieces)[i] == Clause(Trim(pieces[i]))
  {
    if pieces != [] {
      AuthorClausesSpec(pieces[1..]);
    }
  }

  /**
   * The author half of the search: the configured `author_list` split at
   * every comma, each piece stripped and quoted as an `au:` clause, joined by
   * ` OR `.
   */
  function AuthorQuery(authorList: string): (query: string)
    ensures "au:\"" <= query
  {
    assert "au:\"" <= Clause(Trim(Split(authorList, ',')[0]));
    Join(AuthorClauses(Split(authorList, ',')), " OR ")
  }

  /** An empty author list still gives one clause, for an empty author name. */
  lemma AuthorQueryEmpty()
    ensures AuthorQuery("") == "au:\"\""
  {
    assert Split("", ',') == [""];
    assert AuthorClauses([""]) == [Clause(Trim(""))];
  }

  /**
   * Splitting a list of names written `name, name, ...` and stripping the
   * pieces gives the names back: the first piece is the first name, and the
   * clauses are those of the names.
   */
  lemma {:induction false} AuthorClausesOfList(names: seq<string>)
    requires names != []
    requires forall i :: 0 <= i < |names| ==> ',' !in names[i] && IsTrimmed(names[i])
    ensures Split(Join(names, ", "), ',')[0] == names[0]
    ensures AuthorClauses(Split(Join(names, ", "), ',')) == AuthorClauses(names)
  {
    CountAbsent(names[0], ',');
    SplitCount(names[0], ',');
    TrimFixes(names[0]);
    if |names| == 1 {
      assert Join(names, ", ") == names[0];
    } else {
      var x := Join(names[1..], ", ");
      AuthorClausesOfList(names[1..]);
      assert Join(names, ", ") == names[0] + [','] + (" " + x);
      SplitAppend(names[0], " " + x, ',');
      var px := Split(x, ',');
      SplitSpaceFirst(x);
      TrimLeadingSpace(' ', names[1]);
      TrimFixes(names[1]);
      assert AuthorClauses([" " + px[0]] + px[1..]) == AuthorClauses(px) by {
        assert ([" " + px[0]] + px[1..])[1..] == px[1..];
      }
      assert ([names[0]] + Split(" " + x, ','))[1..] == Split(" " + x, ',');
      assert names == [names[0]] + names[1..];
    }
  }

  /** A leading space joins the first piece of a split. */
  lemma SplitSpaceFirst(x: string)
    ensures var px := Split(x, ',');
            Split(" " + x, ',') == [" " + px[0]] + px[1..]
  {
    assert (" " + x)[1..] == x;
  }

  /**
   * A configured list of stripped names separated by `, ` gives one
   * `au:"<name>"` clause per name, in order.
   */
  lemma AuthorQueryOfNames(names: seq<string>)
    requires names != []
    requires forall i :: 0 <= i < |names| ==> ',' !in names[i] && IsTrimmed(names[i])
    ensures AuthorQuery(Join(names, ", ")) == Join(AuthorClauses(names), " OR ")
    ensures forall i :: 0 <= i < |names| ==> AuthorClauses(names)[i] == Clause(names[i])
  {
    AuthorClausesOfList(names);
    AuthorClausesSpec(names);
    forall i | 0 <= i < |names|
      ensures Trim(names[i]) == names[i]
    {
      TrimFixes(names[i]);
    }
  }

  /**
   * The search sent for a feed stamped `timestamp`: the area over the last
   * `duration_day` days, and the configured authors over the last 60 days,
   * both up to the feed's day; every result is asked for, newest
   * submissions first.
   */
  function BuildQuery(area: string, timestamp: int, cfg: FilterConfig): (q: SearchQuery)
    ensures q.endDay == timestamp && q.endDay - q.startDay == cfg.durationDays
    ensures q.endDay - q.authorStartDay == AuthorWindowDays
    ensures q.area == area && q.authorQuery == AuthorQuery(cfg.authorList)
    ensures q.maxResults == None && q.sortBy == SubmittedDate
  {
    SearchQuery(area, timestamp - cfg.durationDays, timestamp, AuthorQuery(cfg.authorList),
                timestamp - AuthorWindowDays, None, SubmittedDate)
  }

  /**
   * The paper made of one result: its author names and title as given, its
   * summary with newlines turned into spaces and then unescaped, and the
   * first ten characters of its short id.
   */
  function NormalizeResult(r: ApiResult, unescape: string -> string): (p: Paper)
    ensures p.authors == r.authorNames && p.title == r.title
    ensures |p.arxivId| == if |r.shortId| < 10 then |r.shortId| else 10
    ensures p.arxivId <= r.shortId
  {
    Paper(r.authorNames, r.title, unescape(NewlinesToSpaces(r.summary)), TruncateId(r.shortId))
  }

  /** The papers of a list of results, in order. */
  function ApiPapers(results: seq<ApiResult>, unescape: string -> string): (papers: seq<Paper>)
    ensures |papers| == |results|
  {
    if results == [] then []
    else ApiPapers(results[..|results| - 1], unescape) + [NormalizeResult(results[|results| - 1], unescape)]
  }

  /**
   * Every result gives one paper, in the same place: no result is dropped,
   * whatever its id, and every paper's id has at most ten characters.
   */
  lemma {:induction false} ApiPapersSpec(results: seq<ApiResult>, unescape: string -> string)
    ensures forall i :: 0 <= i < |results| ==>
              && ApiPapers(results, unescape)[i] == NormalizeResult(results[i], unescape)
              && |ApiPapers(results, unescape)[i].arxivId| <= 10
  {
    if results != [] {
      var init := results[..|results| - 1];
      ApiPapersSpec(init, unescape);
      forall i | 0 <= i < |results|
        ensures ApiPapers(results, unescape)[i] == NormalizeResult(results[i], unescape)
      {
        if i < |init| {
          assert results[i] == init[i];
        }
      }
    }
  }

  /** One more result adds its paper at the end. */
  lemma ApiPapersSnoc(results: seq<ApiResult>, r: ApiResult, unescape: string -> string)
    ensures ApiPapers(results + [r], unescape) == ApiPapers(results, unescape) + [NormalizeResult(r, unescape)]
  {
    assert (results + [r])[..|results|] == results;
  }

  /** A result whose short id is a new-style id with a version gives that id without the version. */
  lemma ApiIdDropsVersion(r: ApiResult, id: string, version: string, unescape: string -> string)
    requires |id| == 10 && r.shortId == id + "v" + version
    ensures NormalizeResult(r, unescape).arxivId == id
  {
    TruncateIdDropsVersion(id, version);
  }

  /**
   * `get_papers_from_arxiv_api`: sends one search, built from the timestamp
   * and the configuration, to `service`, and returns a new list holding the
   * paper of every result. `lastId` is accepted and not consulted.
   */
  method ReadApi(area: string, timestamp: int, lastId: string, cfg: FilterConfig,
                 service: SearchService, unescape: string -> string)
    returns (papers: PaperList)
    modifies service
    ensures fresh(papers)
    ensures service.sent == old(service.sent) + [BuildQuery(area, timestamp, cfg)]
    ensures papers.items == ApiPapers(service.search(BuildQuery(area, timestamp, cfg)), unescape)
  {
    var results := service.Results(BuildQuery(area, timestamp, cfg));
    papers := new PaperList();
    for i := 0 to |results|
      invariant fresh(papers)
      invariant papers.items == ApiPapers(results[..i], unescape)
      modifies papers
    {
      var result := results[i];
      ApiPapersSnoc(results[..i], result, unescape);
      assert results[..i + 1] == results[..i] + [result];
      var paper := NormalizeResult(result, unescape);
      papers.Append(paper);
    }
    assert results[..|results|] == results;
  }
}
