/**
 * 全本同人 (www.qbtr.cc): the author label is stripped, chapter links are
 * taken in page order, a chapter's text is its trimmed paragraphs one per
 * line, and processing drops the first two non-empty lines.
 */
module Qbtr {
  import opened Strings
  import opened Noveler

  /** The site's `Display` name, used as a directory name. */
  const SiteName := "全本同人"

  /** The label in front of the author's name. */
  const AuthorLabel := "作者："

  /** The site's substitution list is empty. */
  const Replacers: seq<string -> string> := []

  /** `get_book_info`: the name as found; every "作者：" removed from the author. */
  function GetBookInfo(name: string, author: string): (b: Book)
    ensures b.name == name
    ensures !Contains(author, AuthorLabel) ==> b.author == author
  {
    RemoveUnchanged(author, AuthorLabel);
    Book(name, ReplaceStr(author, AuthorLabel, ""))
  }

  /** A labelled author comes out as the bare name. */
  lemma AuthorUnlabelled(name: string, author: string)
    requires !Contains(author, AuthorLabel)
    ensures GetBookInfo(name, AuthorLabel + author) == Book(name, author)
  {
    RemoveLeading(AuthorLabel, author);
  }

  /** `get_chapter_urls_sorted`: every anchor's link resolved, in page order, or the first failure. */
  function GetChapterUrlsSorted(hrefs: seq<Option<string>>, join: string -> Result<Url>): (r: Result<seq<Url>>)
    ensures r.Ok? ==> |r.value| == |hrefs|
    ensures r.Ok? ==> forall i :: 0 <= i < |hrefs| ==> hrefs[i].Some? && join(hrefs[i].value) == Ok(r.value[i])
    ensures r.Err? <==> exists i :: 0 <= i < |hrefs| && Unusable(hrefs[i], join)
  {
    CollectLinksOutcome(hrefs, join);
    CollectLinks(hrefs, join)
  }

  /** `get_chapter`: the trimmed title, and the trimmed paragraphs joined one per line. */
  function GetChapter(title: string, paragraphs: seq<string>, order: string): (c: Chapter)
    ensures c.order == order
    ensures IsTrimmed(c.title) && |c.title| <= |title|
    ensures (forall p :: p in paragraphs ==> Avoids(p, {'\n'})) ==> SplitChars(c.text, {'\n'}) == (if paragraphs == [] then [""] else TrimAll(paragraphs))
  {
    TrimIsTrimmed(title);
    var c := Chapter(order, Trim(title), Join(TrimAll(paragraphs), "\n"));
    var tp := TrimAll(paragraphs);
    assert paragraphs != [] && (forall p :: p in paragraphs ==> Avoids(p, {'\n'})) ==> SplitChars(c.text, {'\n'}) == tp by {
      if paragraphs != [] && forall p :: p in paragraphs ==> Avoids(p, {'\n'}) {
        forall p | p in tp ensures Avoids(p, {'\n'}) {
          var i :| 0 <= i < |paragraphs| && tp[i] == p;
          assert paragraphs[i] in paragraphs;
          TrimKeeps(paragraphs[i], {'\n'}, '\n', '\n');
        }
        SplitJoin(tp, '\n', {'\n'});
      }
    }
    c
  }

  /** `get_next_page`: chapters are single pages. */
  function GetNextPage(): (r: Result<Option<Url>>)
    ensures r.Ok? && r.value.None?
  {
    Ok(None)
  }

  /** Break into lines at '\n', trim, drop empty lines, skip the first two, join with '\n'. */
  function Clean(text: string): string {
    Join(Drop(Pieces(text, {'\n'}), 2), "\n")
  }

  /** `process_chapter`: the substitutions in list order, then the clean-up; order and title kept. */
  method ProcessChapter(chapter: Chapter, replacers: seq<string -> string>) returns (r: Chapter)
    ensures r.order == chapter.order && r.title == chapter.title
    ensures r.text == Clean(ApplyAll(replacers, chapter.text))
  {
    var text := ApplyReplacers(replacers, chapter.text);
    text := Clean(text);
    r := chapter.(text := text);
  }

  /**
   * The cleaned text has no blank line, and its lines are exactly the input's
   * non-empty trimmed lines after the first two.
   */
  lemma CleanShape(text: string)
    ensures NoBlankLine(Clean(text)) && IsTrimmed(Clean(text))
    ensures Pieces(Clean(text), {'\n'}) == Drop(Pieces(text, {'\n'}), 2)
  {
    JoinDropPieces(text, {'\n'}, 2);
  }

  /** The clean-up is not idempotent: a second run drops two more lines. */
  lemma CleanTwice(text: string)
    ensures Clean(Clean(text)) == Join(Drop(Pieces(text, {'\n'}), 4), "\n")
  {
    CleanShape(text);
    DropDrop(Pieces(text, {'\n'}), 2, 2);
  }

  /**
   * Fetching and processing together: of the page's paragraphs, the ones
   * that are not blank are kept, trimmed, one per line, except the first two.
   */
  lemma ChapterText(title: string, paragraphs: seq<string>, order: string)
    requires forall p :: p in paragraphs ==> Avoids(p, {'\n'})
    ensures Clean(ApplyAll(Replacers, GetChapter(title, paragraphs, order).text))
         == Join(Drop(NonEmpty(TrimAll(paragraphs)), 2), "\n")
  {
    var text := GetChapter(title, paragraphs, order).text;
    assert ApplyAll(Replacers, text) == text;
    ChapterLines(text, paragraphs);
  }

  lemma ChapterLines(text: string, paragraphs: seq<string>)
    requires SplitChars(text, {'\n'}) == (if paragraphs == [] then [""] else TrimAll(paragraphs))
    ensures Pieces(text, {'\n'}) == NonEmpty(TrimAll(paragraphs))
  {
    if paragraphs == [] {
      assert TrimAll([""]) == [""];
      assert NonEmpty([""]) == [] + NonEmpty([]);
    } else {
      TrimAllTwice(paragraphs);
    }
  }

  /** Trimming every paragraph a second time changes nothing. */
  lemma TrimAllTwice(paragraphs: seq<string>)
    ensures TrimAll(TrimAll(paragraphs)) == TrimAll(paragraphs)
  {
    var tp := TrimAll(paragraphs);
    forall i | 0 <= i < |tp| ensures Trim(tp[i]) == tp[i] {
      TrimIdempotent(paragraphs[i]);
    }
  }
}
