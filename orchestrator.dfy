/**
 * `get_papers_from_arxiv_rss_api`: read the feed, and unless it has nothing
 * new, query the API from the feed's timestamp and merge the feed's papers
 * into the API's list.
 */
module Orchestrator {
  import opened Options
  import opened Papers
  import opened FeedReader
  import opened ApiReader
  import opened Merger

  /**
   * The papers gathered for `area`. A feed that is unmodified or empty gives
   * an empty list and nothing is sent to the search service; otherwise the
   * one search built from the feed's timestamp is sent, and the result is its
   * papers followed by the feed papers whose id none of them has.
   */
  method CollectPapers(area: string, config: Option<FilterConfig>, feed: Feed,
                       service: SearchService, unescape: string -> string)
    returns (papers: PaperList)
    requires FeedReadable(feed, config)
    modifies service
    ensures fresh(papers)
    ensures feed.status == NotModified || feed.entries == [] ==>
              papers.items == [] && service.sent == old(service.sent)
    ensures feed.status != NotModified && feed.entries != [] ==>
              && config.Some?
              && service.sent == old(service.sent) + [BuildQuery(area, feed.updated, config.value)]
              && papers.items == Merged(FeedPapers(feed.entries, area, config.value, unescape),
                                        ApiPapers(service.search(BuildQuery(area, feed.updated, config.value)), unescape))
  {
    var result := ReadFeed(area, config, feed, unescape);
    if result.timestamp.None? {
      papers := new PaperList();
      return;
    }
    var apiPapers := ReadApi(area, result.timestamp.value, result.lastId.value, config.value, service, unescape);
    papers := MergePaperList(result.papers, apiPapers);
  }
}
