/**
 * What the feed reader (`get_papers_from_arxiv_rss`) does with a feed once it
 * has been fetched: the short-circuits, the per-entry filters, and the
 * normalisation of each kept entry into a `Paper`.
 */
module FeedReader {
  import opened Options
  import opened Strings
  import opened Papers
  import opened ArxivIds

  /**
   * One feed entry: its link, `arxiv_announce_type`, the terms of its tags
   * (the first is the primary area), and its raw author, summary and title.
   */
  datatype FeedEntry = FeedEntry(
    link: string, announceType: string, tags: seq<string>,
    author: string, summary: string, title: string)

  /** A fetched feed: HTTP status, entries, and the feed's `updated` time as a day number. */
  datatype Feed = Feed(status: int, entries: seq<FeedEntry>, updated: int)

  /** The reader's triple `(paper_list, timestamp, last_id)`; `None` is Python's `None`. */
  datatype FeedResult = FeedResult(papers: seq<Paper>, timestamp: Option<int>, lastId: Option<string>)

  /** HTTP 304: nothing changed since the `modified` time sent with the request. */
  const NotModified := 304

  // ---------------------------------------------------------------------
  // Title: the regular expression `\(arXiv:[0-9]+\.[0-9]+v[0-9]+ \[.*\]\)$`

  /**
   * Whether all of `t` matches `\(arXiv:[0-9]+\.[0-9]+v[0-9]+ \[.*\]\)`. Each
   * digit run is fixed by the character after it, and `.*` takes whatever
   * lies between `[` and the final `])`; it cannot take a newline.
   */
  predicate IsAnnotation(t: string)
  {
    PatternFrom(t, 0)
  }

  /** The character after the `stage`-th digit run of an annotation: `.`, `v`, then a space. */
  function Separator(stage: nat): char
  {
    if stage == 1 then '.' else if stage == 2 then 'v' else ' '
  }

  /**
   * Whether `r` matches the annotation pattern from piece `stage` on: piece 0
   * is the opening `(arXiv:`, pieces 1 to 3 are digit runs each followed by
   * its separator, and piece 4 is `\[.*\]\)` up to the end.
   */
  predicate PatternFrom(r: string, stage: nat)
    decreases 4 - stage
  {
    if stage == 0 then
      |r| >= 7 && r[0] == '(' && r[1] == 'a' && r[2] == 'r' && r[3] == 'X' && r[4] == 'i'
      && r[5] == 'v' && r[6] == ':' && PatternFrom(r[7..], 1)
    else if stage <= 3 then
      var n := DigitRun(r);
      1 <= n < |r| && r[n] == Separator(stage) && PatternFrom(r[n + 1..], stage + 1)
    else IsBracketed(r)
  }

  /** `\[.*\]\)` up to the end. */
  predicate IsBracketed(r: string)
  {
    |r| >= 3 && r[0] == '[' && r[|r| - 2] == ']' && r[|r| - 1] == ')' && '\n' !in r
  }

  /** The title without a final newline: Python's `$` also matches just before one. */
  function TitleBody(title: string): string
  {
    if title != [] && title[|title| - 1] == '\n' then title[..|title| - 1] else title
  }

  /**
   * The substitution of the title pattern by "": the title up to the
   * leftmost position from which the rest (before a final newline) is an
   * annotation, followed by that final newline, if any.
   */
  function StripAnnotation(title: string): (r: string)
    ensures |r| <= |title|
  {
    var body := TitleBody(title);
    CutAtFirstSuffix(body, IsAnnotation) + title[|body|..]
  }

  /**
   * What the substitution leaves: a prefix `body[..k]` of the title's body
   * (the title without a final newline) followed by that newline, if any, where
   * `body[k..]` is an annotation and no earlier position starts one; the title
   * unchanged when no position of the body starts an annotation.
   */
  lemma StripAnnotationSpec(title: string)
    ensures var r, body := StripAnnotation(title), TitleBody(title);
            var k := |r| - (|title| - |body|);
            0 <= k <= |body| && r == body[..k] + title[|body|..]
            && (forall j :: 0 <= j < k ==> !IsAnnotation(body[j..]))
            && (k < |body| ==> IsAnnotation(body[k..]))
            && (k == |body| ==> r == title && forall j :: 0 <= j < |body| ==> !IsAnnotation(body[j..]))
  {
    var body := TitleBody(title);
    assert title == body + title[|body|..];
    CutAtFirstSuffixSpec(body, IsAnnotation);
  }

  /** A title with no trailing newline keeps a prefix, and loses at most an annotation. */
  lemma StripAnnotationIsPrefix(title: string)
    requires title == [] || title[|title| - 1] != '\n'
    ensures var r := StripAnnotation(title);
            r == title[..|r|] && (r != title ==> IsAnnotation(title[|r|..]))
  {
    assert TitleBody(title) == title;
    CutAtFirstSuffixSpec(title, IsAnnotation);
    assert title[|title|..] == [];
  }

  /** The opening `(arXiv:` followed by the rest of the pattern is an annotation. */
  lemma AnnotationOfOpen(r: string)
    requires PatternFrom(r, 1)
    ensures IsAnnotation("(arXiv:" + r)
  {
    assert ("(arXiv:" + r)[7..] == r;
  }

  /** A nonempty digit run followed by its separator extends the rest of the pattern. */
  lemma DigitRunsOf(digits: string, stage: nat, rest: string)
    requires 1 <= stage <= 3 && digits != [] && AllDigits(digits)
    requires PatternFrom(rest, stage + 1)
    ensures PatternFrom(digits + [Separator(stage)] + rest, stage)
  {
    var r := digits + [Separator(stage)] + rest;
    DigitRunOf(digits, Separator(stage), rest);
    assert r[|digits|] == Separator(stage) && r[|digits| + 1..] == rest;
  }

  /**
   * Every string of the form `(arXiv:<digits>.<digits>v<digits> [<text>])`,
   * with no newline in the text, is an annotation.
   */
  lemma IsAnnotationOf(d1: string, d2: string, d3: string, text: string)
    requires d1 != [] && d2 != [] && d3 != [] && AllDigits(d1) && AllDigits(d2) && AllDigits(d3)
    requires '\n' !in text
    ensures IsAnnotation("(arXiv:" + (d1 + "." + (d2 + "v" + (d3 + " " + ("[" + text + "])")))))
  {
    var r3 := "[" + text + "])";
    assert PatternFrom(r3, 4);
    DigitRunsOf(d3, 3, r3);
    DigitRunsOf(d2, 2, d3 + " " + r3);
    DigitRunsOf(d1, 1, d2 + "v" + (d3 + " " + r3));
    AnnotationOfOpen(d1 + "." + (d2 + "v" + (d3 + " " + r3)));
  }

  /**
   * A title made of text with no `(` followed by an annotation loses exactly
   * the annotation; whatever precedes it, trailing space included, stays.
   */
  lemma StripAnnotationAfter(head: string, annotation: string)
    requires '(' !in head && IsAnnotation(annotation)
    ensures StripAnnotation(head + annotation) == head
  {
    var title := head + annotation;
    PatternEnds(annotation, 0);
    assert title[|title| - 1] == annotation[|annotation| - 1];
    assert TitleBody(title) == title;
    NoAnnotationInHead(head, annotation);
    assert title[|head|..] == annotation;
    CutAtFirstSuffixAt(title, |head|, IsAnnotation);
    assert title[..|head|] == head;
    assert title[|title|..] == [];
  }

  /** Whatever matches the pattern from any piece on ends with `)`. */
  lemma {:induction false} PatternEnds(r: string, stage: nat)
    requires PatternFrom(r, stage)
    ensures r != [] && r[|r| - 1] == ')'
    decreases 4 - stage
  {
    if stage == 0 {
      PatternEnds(r[7..], 1);
    } else if stage <= 3 {
      PatternEnds(r[DigitRun(r) + 1..], stage + 1);
    }
  }

  /** No annotation starts inside a text with no `(`. */
  lemma NoAnnotationInHead(head: string, annotation: string)
    requires '(' !in head
    ensures forall j :: 0 <= j < |head| ==> !IsAnnotation((head + annotation)[j..])
  {
    forall j | 0 <= j < |head|
      ensures !IsAnnotation((head + annotation)[j..])
    {
      assert (head + annotation)[j..][0] == head[j];
    }
  }

  /**
   * A title whose only `(` opens a well-formed annotation at its end loses
   * the annotation and nothing else.
   */
  lemma StripAnnotationOfParts(head: string, d1: string, d2: string, d3: string, text: string)
    requires '(' !in head && '\n' !in text
    requires d1 != [] && d2 != [] && d3 != [] && AllDigits(d1) && AllDigits(d2) && AllDigits(d3)
    ensures StripAnnotation(head + ("(arXiv:" + (d1 + "." + (d2 + "v" + (d3 + " " + ("[" + text + "])")))))) == head
  {
    IsAnnotationOf(d1, d2, d3, text);
    StripAnnotationAfter(head, "(arXiv:" + (d1 + "." + (d2 + "v" + (d3 + " " + ("[" + text + "])")))));
  }

  /** The annotation of a cross-listed paper is removed and the space before it kept. */
  lemma StripAnnotationExample(title: string)
    requires title == "Some Title (arXiv:1234.56789v2 [cs.AI])"
    ensures StripAnnotation(title) == "Some Title "
  {
    assert title == "Some Title " + ("(arXiv:" + ("1234" + "." + ("56789" + "v" + ("2" + " " + ("[" + "cs.AI" + "])")))));
    StripAnnotationOfParts("Some Title ", "1234", "56789", "2", "cs.AI");
  }

  // ---------------------------------------------------------------------
  // Authors and summary

  /**
   * The author list of an entry: the raw author string with each newline
   * replaced by ", ", split at every comma, and each piece tag-stripped,
   * unescaped and stripped of surrounding whitespace.
   */
  function Authors(raw: string, unescape: string -> string): (authors: seq<string>)
    ensures authors != []
  {
    CleanNames(AuthorPieces(raw), unescape)
  }

  /** The pieces of the author string: newlines turned into ", ", then split at every comma. */
  function AuthorPieces(raw: string): (pieces: seq<string>)
    ensures pieces != []
  {
    Split(ExpandNewlines(raw), ',')
  }

  /**
   * There is one author per comma and per newline in the raw string, plus
   * one, and every name is stripped of surrounding whitespace.
   */
  lemma AuthorsCount(raw: string, unescape: string -> string)
    ensures |Authors(raw, unescape)| == 1 + Count(raw, ',') + Count(raw, '\n')
    ensures forall i :: 0 <= i < |Authors(raw, unescape)| ==> IsTrimmed(Authors(raw, unescape)[i])
  {
    ExpandNewlinesCounts(raw);
    SplitCount(ExpandNewlines(raw), ',');
    CleanNamesTrimmed(Split(ExpandNewlines(raw), ','), unescape);
  }

  /** One piece of the author string as it ends up in the list. */
  function CleanName(piece: string, unescape: string -> string): (name: string)
    ensures IsTrimmed(name)
  {
    Trim(unescape(StripTags(piece)))
  }

  /** Every piece cleaned, in order (the list comprehension over the pieces). */
  function CleanNames(pieces: seq<string>, unescape: string -> string): (names: seq<string>)
    ensures |names| == |pieces|
  {
    if pieces == [] then [] else [CleanName(pieces[0], unescape)] + CleanNames(pieces[1..], unescape)
  }

  lemma {:induction false} CleanNamesTrimmed(pieces: seq<string>, unescape: string -> string)
    ensures forall i :: 0 <= i < |pieces| ==> IsTrimmed(CleanNames(pieces, unescape)[i])
  {
    if pieces != [] {
      CleanNamesTrimmed(pieces[1..], unescape);
    }
  }

  lemma {:induction false} CleanNamesAppend(a: seq<string>, b: seq<string>, unescape: string -> string)
    ensures CleanNames(a + b, unescape) == CleanNames(a, unescape) + CleanNames(b, unescape)
  {
    if a == [] {
      assert a + b == b;
    } else {
      assert (a + b)[0] == a[0] && (a + b)[1..] == a[1..] + b;
      CleanNamesAppend(a[1..], b, unescape);
    }
  }

  /** A comma in the raw author string separates the authors before it from those after it. */
  lemma AuthorsAtComma(a: string, b: string, unescape: string -> string)
    ensures Authors(a + "," + b, unescape) == Authors(a, unescape) + Authors(b, unescape)
  {
    AuthorPiecesAtComma(a, b);
    CleanNamesAppend(AuthorPieces(a), AuthorPieces(b), unescape);
  }

  lemma AuthorPiecesAtComma(a: string, b: string)
    ensures AuthorPieces(a + "," + b) == AuthorPieces(a) + AuthorPieces(b)
  {
    ExpandNewlinesAround(a, ',', b);
    ExpandNewlinesOne(',');
    SplitAppend(ExpandNewlines(a), ExpandNewlines(b), ',');
  }

  /** One author with no comma, newline or markup is just that name, trimmed (after unescaping). */
  lemma AuthorsSingle(name: string, unescape: string -> string)
    requires ',' !in name && '\n' !in name && '<' !in name
    ensures Authors(name, unescape) == [Trim(unescape(name))]
  {
    ExpandNewlinesPlain(name);
    CountAbsent(name, ',');
    SplitCount(name, ',');
  }

  /** A newline separates the authors before it from those after it, like ", " does. */
  lemma AuthorsAtNewline(a: string, b: string, unescape: string -> string)
    ensures Authors(a + "\n" + b, unescape) == Authors(a, unescape) + Authors(" " + b, unescape)
  {
    AuthorPiecesAtNewline(a, b);
    CleanNamesAppend(AuthorPieces(a), AuthorPieces(" " + b), unescape);
  }

  lemma AuthorPiecesAtNewline(a: string, b: string)
    ensures AuthorPieces(a + "\n" + b) == AuthorPieces(a) + AuthorPieces(" " + b)
  {
    ExpandNewlinesAtNewline(a, b);
    SplitAppend(ExpandNewlines(a), ExpandNewlines(" " + b), ',');
  }

  /**
   * The summary text handed to `html.unescape`: tags stripped first, then
   * every newline turned into a space. (Unescaping may bring newlines back.)
   */
  function CleanSummary(summary: string): (r: string)
    ensures '\n' !in r
    ensures |r| <= |summary|
    ensures '<' !in summary ==> r == NewlinesToSpaces(summary)
  {
    NewlinesToSpaces(StripTags(summary))
  }

  // ---------------------------------------------------------------------
  // Entries

  /**
   * Whether an entry survives the filters: with `force_new` its announce
   * type must be "new"; with `force_primary` its first tag must be the
   * requested area.
   */
  predicate Keeps(e: FeedEntry, area: string, cfg: FilterConfig)
    ensures !cfg.forceNew && !cfg.forcePrimary ==> Keeps(e, area, cfg)
    ensures Keeps(e, area, cfg) && cfg.forcePrimary ==> e.tags != [] && e.tags[0] == area
  {
    (!cfg.forceNew || e.announceType == "new")
    && (!cfg.forcePrimary || (e.tags != [] && e.tags[0] == area))
  }

  /** The entries the loop keeps, in feed order. */
  function KeptEntries(entries: seq<FeedEntry>, area: string, cfg: FilterConfig): (kept: seq<FeedEntry>)
    ensures |kept| <= |entries|
  {
    if entries == [] then []
    else
      var init, last := entries[..|entries| - 1], entries[|entries| - 1];
      var kept := KeptEntries(init, area, cfg);
      if Keeps(last, area, cfg) then kept + [last] else kept
  }

  /** One more entry is kept exactly when it passes the filters. */
  lemma KeptEntriesSnoc(entries: seq<FeedEntry>, e: FeedEntry, area: string, cfg: FilterConfig)
    ensures KeptEntries(entries + [e], area, cfg)
            == if Keeps(e, area, cfg) then KeptEntries(entries, area, cfg) + [e] else KeptEntries(entries, area, cfg)
  {
    assert (entries + [e])[..|entries|] == entries;
  }

  /**
   * The kept entries are exactly the entries that pass both filters, in feed
   * order: with `force_new` only new announcements, with `force_primary`
   * only entries whose first tag is the requested area.
   */
  lemma {:induction false} KeptEntriesSpec(entries: seq<FeedEntry>, area: string, cfg: FilterConfig)
    ensures var kept := KeptEntries(entries, area, cfg);
            && (forall e :: e in kept <==> e in entries && Keeps(e, area, cfg))
            && (forall e :: e in kept ==>
                  && (cfg.forceNew ==> e.announceType == "new")
                  && (cfg.forcePrimary ==> e.tags != [] && e.tags[0] == area))
            && IsSubseq(kept, entries)
  {
    if entries != [] {
      var init, last := entries[..|entries| - 1], entries[|entries| - 1];
      assert entries == init + [last];
      KeptEntriesSpec(init, area, cfg);
      var kept := KeptEntries(init, area, cfg);
      if Keeps(last, area, cfg) {
        assert (kept + [last])[..|kept|] == kept;
      }
    }
  }

  /** The `Paper` the loop builds from a kept entry. */
  function NormalizeEntry(e: FeedEntry, unescape: string -> string): (p: Paper)
    ensures p.authors != [] && '/' !in p.arxivId && |p.title| <= |e.title|
  {
    Paper(Authors(e.author, unescape), StripAnnotation(e.title), unescape(CleanSummary(e.summary)), LinkId(e.link))
  }

  /** The kept entries normalised one by one, in order. */
  function NormalizeAll(kept: seq<FeedEntry>, unescape: string -> string): (papers: seq<Paper>)
    ensures |papers| == |kept|
  {
    if kept == [] then []
    else NormalizeAll(kept[..|kept| - 1], unescape) + [NormalizeEntry(kept[|kept| - 1], unescape)]
  }

  /** The `i`-th paper is the `i`-th kept entry, normalised. */
  lemma {:induction false} NormalizeAllSpec(kept: seq<FeedEntry>, unescape: string -> string)
    ensures forall i :: 0 <= i < |kept| ==> NormalizeAll(kept, unescape)[i] == NormalizeEntry(kept[i], unescape)
  {
    if kept != [] {
      var init := kept[..|kept| - 1];
      NormalizeAllSpec(init, unescape);
      forall i | 0 <= i < |kept| - 1
        ensures NormalizeAll(kept, unescape)[i] == NormalizeEntry(kept[i], unescape)
      {
        assert NormalizeAll(kept, unescape)[i] == NormalizeAll(init, unescape)[i];
        assert init[i] == kept[i];
      }
    }
  }

  lemma NormalizeAllSnoc(kept: seq<FeedEntry>, e: FeedEntry, unescape: string -> string)
    ensures NormalizeAll(kept + [e], unescape) == NormalizeAll(kept, unescape) + [NormalizeEntry(e, unescape)]
  {
    assert (kept + [e])[..|kept|] == kept;
  }

  /** The paper list the reader returns for a feed that is neither unmodified nor empty. */
  function FeedPapers(entries: seq<FeedEntry>, area: string, cfg: FilterConfig, unescape: string -> string): seq<Paper>
  {
    NormalizeAll(KeptEntries(entries, area, cfg), unescape)
  }

  /** Reading one more entry appends its paper exactly when the entry passes the filters. */
  lemma FeedPapersStep(entries: seq<FeedEntry>, i: nat, area: string, cfg: FilterConfig, unescape: string -> string)
    requires i < |entries|
    ensures FeedPapers(entries[..i + 1], area, cfg, unescape)
            == FeedPapers(entries[..i], area, cfg, unescape)
               + if Keeps(entries[i], area, cfg) then [NormalizeEntry(entries[i], unescape)] else []
  {
    assert entries[..i + 1] == entries[..i] + [entries[i]];
    KeptEntriesSnoc(entries[..i], entries[i], area, cfg);
    if Keeps(entries[i], area, cfg) {
      NormalizeAllSnoc(KeptEntries(entries[..i], area, cfg), entries[i], unescape);
    }
  }

  /**
   * The reader runs to completion: the configuration is only consulted, and
   * an entry's first tag only read, once the feed is neither unmodified nor
   * empty; every entry that gets past `force_new` has a tag.
   */
  predicate FeedReadable(feed: Feed, config: Option<FilterConfig>)
  {
    feed.status == NotModified || feed.entries == []
    || (config.Some?
        && forall e :: e in feed.entries ==> (config.value.forceNew && e.announceType != "new") || e.tags != [])
  }

  /**
   * `get_papers_from_arxiv_rss` after the fetch. An unmodified or empty feed
   * gives `([], None, None)`; otherwise the kept entries as papers, the
   * feed's timestamp, and the id of the first entry, whether or not it was kept.
   */
  method ReadFeed(area: string, config: Option<FilterConfig>, feed: Feed, unescape: string -> string)
    returns (result: FeedResult)
    requires FeedReadable(feed, config)
    ensures feed.status == NotModified || feed.entries == [] <==> result.timestamp.None?
    ensures result.timestamp.None? ==> result == FeedResult([], None, None)
    ensures result.timestamp.Some? ==>
              config.Some?
              && result.timestamp == Some(feed.updated)
              && result.lastId == Some(LinkId(feed.entries[0].link))
              && result.papers == FeedPapers(feed.entries, area, config.value, unescape)
  {
    if feed.status == NotModified {
      return FeedResult([], None, None);
    }
    var entries := feed.entries;
    if |entries| == 0 {
      return FeedResult([], None, None);
    }
    var lastId := LinkId(entries[0].link);
    var timestamp := feed.updated;
    var cfg := config.value;
    var paperList: seq<Paper> := [];
    for i := 0 to |entries|
      invariant paperList == FeedPapers(entries[..i], area, cfg, unescape)
    {
      var entry := entries[i];
      FeedPapersStep(entries, i, area, cfg, unescape);
      var id := LinkId(entry.link);
      if cfg.forceNew && entry.announceType != "new" {
        continue;
      }
      assert entry in feed.entries;
      var paperArea := entry.tags[0];
      if area != paperArea && cfg.forcePrimary {
        continue;
      }
      var authors := Authors(entry.author, unescape);
      var summary := unescape(CleanSummary(entry.summary));
      var title := StripAnnotation(entry.title);
      var newPaper := Paper(authors, title, summary, id);
      paperList := paperList + [newPaper];
    }
    assert entries[..|entries|] == entries;
    return FeedResult(paperList, Some(timestamp), Some(lastId));
  }

  /** The id of an abstract-page link is what follows its last slash. */
  lemma LinkIdOf(prefix: string, id: string)
    requires '/' !in id
    ensures LinkId(prefix + "/" + id) == id
  {
    SplitAppend(prefix, id, '/');
    CountAbsent(id, '/');
    SplitCount(id, '/');
  }

  /**
   * An entry announced as new in `cs.AI` is dropped when `cs.LG` is requested
   * with `force_primary`, while its link still supplies the cursor id.
   */
  lemma ForcePrimaryExample(e: FeedEntry, cfg: FilterConfig, unescape: string -> string)
    requires e.link == "http://arxiv.org/abs" + "/" + "2501.00001"
    requires e.announceType == "new" && e.tags == ["cs.AI"] && cfg.forcePrimary
    ensures FeedPapers([e], "cs.LG", cfg, unescape) == []
    ensures LinkId(e.link) == "2501.00001"
  {
    assert KeptEntries([e], "cs.LG", cfg) == [] by {
      assert !Keeps(e, "cs.LG", cfg);
      assert [e][..0] == [];
    }
    LinkIdOf("http://arxiv.org/abs", "2501.00001");
  }
}
