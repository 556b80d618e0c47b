/**
 * The `Paper` record, the configuration the readers consult, and the Python
 * list object that the API reader builds and the merger extends in place.
 */
module Papers {
  /** A paper: its author names, title, abstract and arXiv id. */
  datatype Paper = Paper(authors: seq<string>, title: string, abstractText: string, arxivId: string)

  /**
   * The `[FILTERING]` section of the configuration, already parsed:
   * `duration_day`, `author_list`, `force_new` and `force_primary`.
   */
  datatype FilterConfig = FilterConfig(durationDays: int, authorList: string, forceNew: bool, forcePrimary: bool)

  /** A Python list of papers: an object whose contents `append` extends. */
  class PaperList {
    var items: seq<Paper>

    constructor ()
      ensures items == []
    {
      items := [];
    }

    method Append(p: Paper)
      modifies this
      ensures items == old(items) + [p]
    {
      items := items + [p];
    }
  }

  /** The set of ids of a list of papers (`set([p.arxiv_id for p in papers])`). */
  function IdSet(papers: seq<Paper>): set<string>
  {
    set p | p in papers :: p.arxivId
  }

  /** No two papers of the list share an id. */
  predicate DistinctIds(papers: seq<Paper>)
  {
    forall i, j :: 0 <= i < j < |papers| ==> papers[i].arxivId != papers[j].arxivId
  }
}
