/**
 * `merge_paper_list`: the feed's papers are appended, in order, to the API's
 * list object itself, except those whose id the API list already had when
 * the merge began.
 */
module Merger {
  import opened Strings
  import opened Papers

  /** The papers of `feed` whose id is not in `seen`, in feed order. */
  function NewPapers(feed: seq<Paper>, seen: set<string>): (added: seq<Paper>)
    ensures |added| <= |feed|
  {
    if feed == [] then []
    else
      var init, last := feed[..|feed| - 1], feed[|feed| - 1];
      var kept := NewPapers(init, seen);
      if last.arxivId in seen then kept else kept + [last]
  }

  /** One more feed paper is kept exactly when its id is unseen. */
  lemma NewPapersSnoc(feed: seq<Paper>, p: Paper, seen: set<string>)
    ensures NewPapers(feed + [p], seen) == if p.arxivId in seen then NewPapers(feed, seen) else NewPapers(feed, seen) + [p]
  {
    assert (feed + [p])[..|feed|] == feed;
  }

  /** How many papers of `feed` have an id in `seen`, duplicates counted. */
  function SeenCount(feed: seq<Paper>, seen: set<string>): (n: nat)
    ensures n <= |feed|
  {
    if feed == [] then 0
    else SeenCount(feed[..|feed| - 1], seen) + if feed[|feed| - 1].arxivId in seen then 1 else 0
  }

  /**
   * A feed paper is kept if and only if its id is unseen, and the kept ones
   * come in feed order.
   */
  lemma {:induction false} NewPapersSpec(feed: seq<Paper>, seen: set<string>)
    ensures forall p :: p in NewPapers(feed, seen) <==> p in feed && p.arxivId !in seen
    ensures IsSubseq(NewPapers(feed, seen), feed)
  {
    if feed != [] {
      var init, last := feed[..|feed| - 1], feed[|feed| - 1];
      NewPapersSpec(init, seen);
      assert feed == init + [last];
      if last.arxivId in seen {
        assert IsSubseq(NewPapers(init, seen), feed);
      } else {
        assert NewPapers(feed, seen)[..|NewPapers(feed, seen)| - 1] == NewPapers(init, seen);
      }
    }
  }

  /**
   * Each feed paper with an unseen id is kept as many times as it occurs in
   * the feed, and one with a seen id never: the papers missing are exactly
   * the feed papers with a seen id.
   */
  lemma {:induction false} NewPapersCounts(feed: seq<Paper>, seen: set<string>)
    ensures forall p :: multiset(NewPapers(feed, seen))[p] == if p.arxivId in seen then 0 else multiset(feed)[p]
    ensures |NewPapers(feed, seen)| == |feed| - SeenCount(feed, seen)
  {
    if feed != [] {
      var init, last := feed[..|feed| - 1], feed[|feed| - 1];
      NewPapersCounts(init, seen);
      assert feed == init + [last];
      assert multiset(feed) == multiset(init) + multiset{last};
      if last.arxivId !in seen {
        var kept := NewPapers(init, seen);
        assert multiset(kept + [last]) == multiset(kept) + multiset{last};
      }
    }
  }

  /** When every feed id has been seen, nothing is new. */
  lemma {:induction false} NewPapersAllSeen(feed: seq<Paper>, seen: set<string>)
    requires IdSet(feed) <= seen
    ensures NewPapers(feed, seen) == []
  {
    if feed != [] {
      var init := feed[..|feed| - 1];
      assert feed[|feed| - 1] in feed;
      assert IdSet(init) <= IdSet(feed) by {
        forall p | p in init ensures p in feed {
          assert forall q :: q in init ==> q in feed;
        }
      }
      NewPapersAllSeen(init, seen);
    }
  }

  /**
   * The merged list: the API list, followed by the feed papers whose id the
   * API list did not hold.
   */
  function Merged(feed: seq<Paper>, api: seq<Paper>): (merged: seq<Paper>)
    ensures |api| <= |merged| <= |api| + |feed|
  {
    api + NewPapers(feed, IdSet(api))
  }

  /**
   * The merge keeps the API list as its prefix and adds exactly the feed
   * papers with an id the API list lacks, each as often as the feed has it,
   * in feed order; only the feed papers with an id already in the API list
   * are left out.
   */
  lemma MergedSpec(feed: seq<Paper>, api: seq<Paper>)
    ensures var merged := Merged(feed, api);
            && merged[..|api|] == api
            && (forall p :: p in merged[|api|..] <==> p in feed && p.arxivId !in IdSet(api))
            && (forall p :: multiset(merged[|api|..])[p] == if p.arxivId in IdSet(api) then 0 else multiset(feed)[p])
            && |merged| == |api| + |feed| - SeenCount(feed, IdSet(api))
            && IsSubseq(merged[|api|..], feed)
  {
    var merged := Merged(feed, api);
    assert merged[|api|..] == NewPapers(feed, IdSet(api));
    NewPapersSpec(feed, IdSet(api));
    NewPapersCounts(feed, IdSet(api));
  }

  /** Every id of either list is an id of the merge, and no other is. */
  lemma MergedIds(feed: seq<Paper>, api: seq<Paper>)
    ensures IdSet(Merged(feed, api)) == IdSet(api) + IdSet(feed)
  {
    var seen := IdSet(api);
    var added := NewPapers(feed, seen);
    NewPapersSpec(feed, seen);
    forall id | id in IdSet(feed)
      ensures id in IdSet(Merged(feed, api))
    {
      var p :| p in feed && p.arxivId == id;
      if id !in seen {
        assert p in Merged(feed, api);
      } else {
        var q :| q in api && q.arxivId == id;
        assert q in Merged(feed, api);
      }
    }
    forall id | id in IdSet(Merged(feed, api))
      ensures id in IdSet(api) + IdSet(feed)
    {
      var p :| p in Merged(feed, api) && p.arxivId == id;
      if p !in api {
        assert p in added;
      }
    }
  }

  /** With an empty API list the merge is the feed papers, duplicates included, in order. */
  lemma {:induction false} MergedIntoEmpty(feed: seq<Paper>)
    ensures Merged(feed, []) == feed
  {
    if feed != [] {
      var init := feed[..|feed| - 1];
      MergedIntoEmpty(init);
      assert feed == init + [feed[|feed| - 1]];
    }
  }

  /**
   * Merging a list into itself leaves it unchanged: every id it holds is
   * already in the id set taken before the loop.
   */
  lemma MergedWithItself(papers: seq<Paper>)
    ensures Merged(papers, papers) == papers
  {
    NewPapersAllSeen(papers, IdSet(papers));
  }

  /** Merging the same feed papers a second time adds nothing. */
  lemma MergedIdempotent(feed: seq<Paper>, api: seq<Paper>)
    ensures Merged(feed, Merged(feed, api)) == Merged(feed, api)
  {
    MergedIds(feed, api);
    NewPapersAllSeen(feed, IdSet(Merged(feed, api)));
  }

  /** Filtering a list without repeated ids keeps it so, and brings in no other id. */
  lemma {:induction false} NewPapersDistinct(feed: seq<Paper>, seen: set<string>)
    requires DistinctIds(feed)
    ensures DistinctIds(NewPapers(feed, seen))
    ensures IdSet(NewPapers(feed, seen)) <= IdSet(feed)
  {
    if feed != [] {
      var init, last := feed[..|feed| - 1], feed[|feed| - 1];
      NewPapersDistinct(init, seen);
      NewPapersSpec(init, seen);
      var kept := NewPapers(init, seen);
      assert IdSet(init) <= IdSet(feed) by {
        forall p | p in init ensures p in feed {
          assert forall q :: q in init ==> q in feed;
        }
      }
      if last.arxivId !in seen {
        assert last.arxivId !in IdSet(init) by {
          forall p | p in init ensures p.arxivId != last.arxivId {
            var i :| 0 <= i < |init| && init[i] == p;
            assert feed[i] == p;
          }
        }
        assert kept + [last] == NewPapers(feed, seen);
      }
    }
  }

  /**
   * The merge repeats no id if and only if neither the API list nor the
   * feed papers it adds repeat one: an added paper never shares its id with
   * an API paper.
   */
  lemma MergedDistinctIff(feed: seq<Paper>, api: seq<Paper>)
    ensures DistinctIds(Merged(feed, api)) <==> DistinctIds(api) && DistinctIds(NewPapers(feed, IdSet(api)))
  {
    var added := NewPapers(feed, IdSet(api));
    var merged := Merged(feed, api);
    NewPapersSpec(feed, IdSet(api));
    if DistinctIds(api) && DistinctIds(added) {
      forall i, j | 0 <= i < j < |merged|
        ensures merged[i].arxivId != merged[j].arxivId
      {
        if j >= |api| {
          assert merged[j] == added[j - |api|];
          if i < |api| {
            assert merged[i] in api;
          } else {
            assert merged[i] == added[i - |api|];
          }
        }
      }
    }
    if DistinctIds(merged) {
      forall i, j | 0 <= i < j < |added|
        ensures added[i].arxivId != added[j].arxivId
      {
        assert added[i] == merged[|api| + i] && added[j] == merged[|api| + j];
      }
      forall i, j | 0 <= i < j < |api|
        ensures api[i].arxivId != api[j].arxivId
      {
        assert api[i] == merged[i] && api[j] == merged[j];
      }
    }
  }

  /** Two lists without repeated ids merge into one without repeated ids. */
  lemma MergedDistinct(feed: seq<Paper>, api: seq<Paper>)
    requires DistinctIds(api) && DistinctIds(feed)
    ensures DistinctIds(Merged(feed, api))
  {
    NewPapersDistinct(feed, IdSet(api));
    MergedDistinctIff(feed, api);
  }

  /**
   * The merge does not remove duplicates the feed brings: two feed papers
   * with the same id, absent from the API list, both land in the merge.
   */
  lemma MergedKeepsFeedDuplicates(p: Paper, q: Paper, api: seq<Paper>)
    requires p.arxivId == q.arxivId && p.arxivId !in IdSet(api)
    ensures Merged([p, q], api) == api + [p, q]
    ensures !DistinctIds(Merged([p, q], api))
  {
    NewPapersSnoc([p], q, IdSet(api));
    NewPapersSnoc([], p, IdSet(api));
    assert [p] + [q] == [p, q] && [] + [p] == [p];
    var merged := Merged([p, q], api);
    assert merged[|api|] == p && merged[|api| + 1] == q;
  }

  /**
   * `merge_paper_list(paper_list, api_paper_list)`: appends to the API list
   * object itself and returns that same object. The ids of the API list are
   * taken once, before any append.
   */
  method MergePaperList(feed: seq<Paper>, api: PaperList) returns (merged: PaperList)
    modifies api
    ensures merged == api
    ensures api.items == Merged(feed, old(api.items))
  {
    var apiSet := set p | p in api.items :: p.arxivId;
    merged := api;
    for i := 0 to |feed|
      invariant merged == api
      invariant apiSet == IdSet(old(api.items))
      invariant api.items == old(api.items) + NewPapers(feed[..i], apiSet)
    {
      var paper := feed[i];
      NewPapersSnoc(feed[..i], paper, apiSet);
      assert feed[..i + 1] == feed[..i] + [paper];
      if paper.arxivId !in apiSet {
        merged.Append(paper);
      }
    }
    assert feed[..|feed|] == feed;
  }
}
