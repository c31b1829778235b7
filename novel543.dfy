/**
 * 稷下書院 (www.novel543.com): chapters can span several pages, so the next
 * page of a chapter is recognised by its link; the text is broken into one
 * sentence per line at the ideographic full stop.
 */
module Novel543 {
  import opened Strings
  import opened Noveler

  /** The site's `Display` name, used as a directory name. */
  const SiteName := "稷下書院"

  /** The ideographic full stop ending every sentence. */
  const FullStop: char := '。'

  /** A stray character the site scatters through its text. */
  const Stray: char := '㱕'

  /** Suffix of the book's name on its contents page. */
  const ContentsSuffix := " 章節列表"

  /** The label in front of the author's name. */
  const AuthorLabel := "作者 / "

  /** `get_book_info`: " 章節列表" removed from the name and "作者 / " from the author. */
  function GetBookInfo(name: string, author: string): (b: Book)
    ensures !Contains(name, ContentsSuffix) ==> b.name == name
    ensures !Contains(author, AuthorLabel) ==> b.author == author
  {
    RemoveUnchanged(name, ContentsSuffix);
    RemoveUnchanged(author, AuthorLabel);
    Book(ReplaceStr(name, ContentsSuffix, ""), ReplaceStr(author, AuthorLabel, ""))
  }

  /** A labelled author comes out as the bare name. */
  lemma AuthorUnlabelled(name: string, author: string)
    requires !Contains(author, AuthorLabel)
    ensures GetBookInfo(name, AuthorLabel + author).author == author
  {
    RemoveLeading(AuthorLabel, author);
  }

  /** `get_chapter_urls_sorted`: every anchor's link resolved, in page order, or the first failure. */
  function GetChapterUrlsSorted(hrefs: seq<Option<string>>, join: string -> Result<Url>): (r: Result<seq<Url>>)
    ensures r.Ok? ==> |r.value| == |hrefs|
    ensures r.Ok? ==> forall i :: 0 <= i < |hrefs| ==> hrefs[i].Some? && join(hrefs[i].value) == Ok(r.value[i])
    ensures r.Err? <==> exists i :: 0 <= i < |hrefs| && Unusable(hrefs[i], join)
  {
    CollectLinksOutcome(hrefs, join);
    CollectLinks(hrefs, join)
  }

  /** `get_chapter`: the trimmed title, the raw text, the given order key. */
  function GetChapter(title: string, text: string, order: string): (c: Chapter)
    ensures c.order == order && c.text == text
    ensures IsTrimmed(c.title) && |c.title| <= |title|
  {
    TrimIsTrimmed(title);
    Chapter(order, Trim(title), text)
  }

  /**
   * `get_next_page`. The page's own address (`currHref`, the last `link` of
   * its head) and the footer's fifth link (`nextHref`) are read from the
   * page; `parse`, `makeRelative` (against the site's base) and `join` are
   * the URL operations. The footer link is the chapter's next page when it
   * contains the current page's relative address without ".html".
   */
  function GetNextPage(currHref: Option<string>, nextHref: Option<string>,
                       parse: string -> Result<Url>, makeRelative: Url -> Option<string>,
                       join: string -> Result<Url>): (r: Result<Option<Url>>)
    ensures currHref.None? ==> r == Err(NotFound("curr_page href"))
    ensures currHref.Some? && parse(currHref.value).Err? ==> r == Err(parse(currHref.value).error)
    ensures currHref.Some? && parse(currHref.value).Ok? && nextHref.None? ==> r == Err(NotFound("next_page href"))
    ensures currHref.Some? && parse(currHref.value).Ok? && nextHref.Some? && makeRelative(parse(currHref.value).value).None?
            ==> r == Err(NotFound("curr_page relative"))
    ensures r.Ok? && r.value.Some? <==>
            && currHref.Some? && parse(currHref.value).Ok? && nextHref.Some?
            && makeRelative(parse(currHref.value).value).Some?
            && SamePage(nextHref.value, makeRelative(parse(currHref.value).value).value)
            && join(nextHref.value).Ok?
    ensures r.Ok? && r.value.Some? ==> r.value.value == join(nextHref.value).value
  {
    match currHref
    case None => Err(NotFound("curr_page href"))
    case Some(curr) =>
      match parse(curr)
      case Err(e) => Err(e)
      case Ok(currUrl) =>
        match nextHref
        case None => Err(NotFound("next_page href"))
        case Some(next) =>
          match makeRelative(currUrl)
          case None => Err(NotFound("curr_page relative"))
          case Some(relative) =>
            if SamePage(next, relative) then
              match join(next)
              case Err(e) => Err(e)
              case Ok(u) => Ok(Some(u))
            else Ok(None)
  }

  /** The footer link continues the page whose relative address is `relative`. */
  predicate SamePage(next: string, relative: string) {
    Contains(next, ReplaceStr(relative, ".html", ""))
  }

  /**
   * For a page address "<stem>.html" whose stem has no '.', a footer link
   * continues the chapter exactly when it contains the stem.
   */
  lemma SamePageIff(next: string, stem: string)
    requires Avoids(stem, {'.'})
    ensures SamePage(next, stem + ".html") <==> Contains(next, stem)
  {
    RemoveSuffix(stem, ".html", '.');
  }

  /** The chapter's later pages, "<dir><stem>_2.html" and on, are recognised as its continuation. */
  lemma LaterPageContinues(dir: string, stem: string, page: string)
    requires Avoids(stem, {'.'})
    ensures SamePage(dir + stem + "_" + page + ".html", stem + ".html")
  {
    var next := dir + stem + "_" + page + ".html";
    assert next[|dir|..|dir| + |stem|] == stem;
    ContainsAt(next, stem, |dir|);
    SamePageIff(next, stem);
  }

  /** One sentence piece cleaned: trimmed, then rid of '㱕'. */
  function Scrub(piece: string): (r: string)
    ensures Avoids(r, {Stray})
    ensures Count(r, FullStop) == Count(piece, FullStop)
    ensures piece != [] && piece[|piece| - 1] == FullStop ==> r != [] && r[|r| - 1] == FullStop
  {
    TrimCount(piece, FullStop);
    RemoveCharsShape(Trim(piece), {Stray}, {});
    if piece != [] && piece[|piece| - 1] == FullStop then
      TrimKeepsLast(piece, FullStop);
      RemoveCharsKeepsLast(Trim(piece), {Stray}, FullStop);
      RemoveChars(Trim(piece), {Stray})
    else
      RemoveChars(Trim(piece), {Stray})
  }

  /** The lines of a processed text: sentences split after each '。', each scrubbed, non-empty ones kept. */
  function Lines(text: string): seq<string> {
    NonEmpty(ScrubAll(SplitInclusive(Trim(text), FullStop)))
  }

  /** `.map(|s| s.trim().replace('㱕', ""))`. */
  function ScrubAll(pieces: seq<string>): (r: seq<string>)
    ensures |r| == |pieces| && forall i :: 0 <= i < |pieces| ==> r[i] == Scrub(pieces[i])
  {
    seq(|pieces|, i requires 0 <= i < |pieces| => Scrub(pieces[i]))
  }

  /** `process_chapter`: the text is its lines joined with '\n'; order and title kept. */
  function ProcessChapter(chapter: Chapter): (r: Chapter)
    ensures r.order == chapter.order && r.title == chapter.title
    ensures Avoids(r.text, {Stray})
    ensures Count(r.text, FullStop) == Count(chapter.text, FullStop)
  {
    ProcessedText(chapter.text);
    chapter.(text := Join(Lines(chapter.text), "\n"))
  }

  /** The processed text has no '㱕' and exactly the input's '。'. */
  lemma ProcessedText(text: string)
    ensures Avoids(Join(Lines(text), "\n"), {Stray})
    ensures Count(Join(Lines(text), "\n"), FullStop) == Count(text, FullStop)
  {
    var ls := Lines(text);
    LinesShape(text);
    JoinScrubbed(ls);
  }

  lemma JoinScrubbed(ls: seq<string>)
    requires forall l :: l in ls ==> Avoids(l, {Stray})
    ensures Avoids(Join(ls, "\n"), {Stray})
    ensures Count(Join(ls, "\n"), FullStop) == SumCount(ls, FullStop)
  {
    JoinAvoids(ls, "\n", {Stray});
    JoinCount(ls, "\n", FullStop);
  }

  /**
   * Every line is non-empty and free of '㱕', holds at most one '。', and
   * every line but the last holds exactly one, as its last character;
   * together they hold every '。' of the input.
   */
  lemma LinesShape(text: string)
    ensures forall l :: l in Lines(text) ==> l != "" && Avoids(l, {Stray}) && Count(l, FullStop) <= 1
    ensures forall k :: 0 <= k < |Lines(text)| - 1 ==> Count(Lines(text)[k], FullStop) == 1
    ensures forall k :: 0 <= k < |Lines(text)| - 1 ==> Lines(text)[k][|Lines(text)[k]| - 1] == FullStop
    ensures SumCount(Lines(text), FullStop) == Count(text, FullStop)
  {
    var pieces := SplitInclusive(Trim(text), FullStop);
    SplitInclusiveCount(Trim(text), FullStop);
    SplitInclusiveEnds(Trim(text), FullStop);
    LinesOfPieces(pieces);
    LinesEnd(pieces);
    TotalCount(text, pieces);
  }

  lemma LinesOfPieces(pieces: seq<string>)
    requires forall p :: p in pieces ==> Count(p, FullStop) <= 1
    requires forall k :: 0 <= k < |pieces| - 1 ==> Count(pieces[k], FullStop) == 1
    ensures forall l :: l in NonEmpty(ScrubAll(pieces)) ==> l != "" && Avoids(l, {Stray}) && Count(l, FullStop) <= 1
    ensures forall k :: 0 <= k < |NonEmpty(ScrubAll(pieces))| - 1 ==> Count(NonEmpty(ScrubAll(pieces))[k], FullStop) == 1
  {
    var scrubbed := ScrubAll(pieces);
    forall l | l in NonEmpty(scrubbed) ensures Avoids(l, {Stray}) && Count(l, FullStop) <= 1 {
      var k :| 0 <= k < |scrubbed| && scrubbed[k] == l;
      assert pieces[k] in pieces;
    }
    forall k | 0 <= k < |scrubbed| - 1 ensures scrubbed[k] != "" {
      assert Count(scrubbed[k], FullStop) == 1;
    }
    NonEmptyAllButLast(scrubbed);
  }

  /** Pieces that end with '。' (all but the last) give lines that end with '。'. */
  lemma LinesEnd(pieces: seq<string>)
    requires forall k :: 0 <= k < |pieces| - 1 ==> pieces[k] != [] && pieces[k][|pieces[k]| - 1] == FullStop
    ensures forall k :: 0 <= k < |NonEmpty(ScrubAll(pieces))| - 1 ==>
      NonEmpty(ScrubAll(pieces))[k] != [] && NonEmpty(ScrubAll(pieces))[k][|NonEmpty(ScrubAll(pieces))[k]| - 1] == FullStop
  {
    var scrubbed := ScrubAll(pieces);
    forall k | 0 <= k < |scrubbed| - 1 ensures scrubbed[k] != "" && scrubbed[k][|scrubbed[k]| - 1] == FullStop {
      assert scrubbed[k] == Scrub(pieces[k]);
    }
    NonEmptyKeepsEnds(scrubbed, FullStop);
  }

  lemma TotalCount(text: string, pieces: seq<string>)
    requires pieces == SplitInclusive(Trim(text), FullStop)
    ensures SumCount(NonEmpty(ScrubAll(pieces)), FullStop) == Count(text, FullStop)
  {
    var scrubbed := ScrubAll(pieces);
    SplitInclusiveShape(Trim(text), FullStop);
    SumCountPointwise(scrubbed, pieces, FullStop);
    NonEmptySumCount(scrubbed, FullStop);
    ConcatCount(pieces, FullStop);
    TrimCount(text, FullStop);
  }
}
