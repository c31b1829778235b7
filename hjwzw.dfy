/**
 * 黃金屋 (tw.hjwzw.com): the author label is stripped, chapter links are
 * taken in page order, and the text loses its first two non-empty lines
 * before the site's substitution list runs.
 */
module Hjwzw {
  import opened Strings
  import opened Noveler

  /** The site's `Display` name, used as a directory name. */
  const SiteName := "黃金屋"

  /** The text is broken into lines at '\n' and '\r'. */
  const Separators: set<char> := {'\n', '\r'}

  /** The label in front of the author's name. */
  const AuthorLabel := "作者 / "

  /**
   * The site's substitution list: one regex with the empty pattern, replaced
   * by the empty string, which matches only empty spans and so changes nothing.
   */
  const Replacers: seq<string -> string> := [(s: string) => s]

  /** `get_book_info`: the name as found; every "作者 / " removed from the author. */
  function GetBookInfo(name: string, author: string): (b: Book)
    ensures b.name == name
    ensures !Contains(author, AuthorLabel) ==> b.author == author
  {
    RemoveUnchanged(author, AuthorLabel);
    Book(name, ReplaceStr(author, AuthorLabel, ""))
  }

  /** A labelled author comes out as the bare name. */
  lemma AuthorUnlabelled(name: string, author: string)
    requires !Contains(author, AuthorLabel)
    ensures GetBookInfo(name, AuthorLabel + author) == Book(name, author)
  {
    RemoveLeading(AuthorLabel, author);
  }

  /** `get_chapter_urls_sorted`: every anchor's link resolved, in page order, or the first failure. */
  function GetChapterUrlsSorted(hrefs: seq<Option<string>>, join: string -> Result<Url>): (r: Result<seq<Url>>)
    ensures r.Ok? ==> |r.value| == |hrefs|
    ensures r.Ok? ==> forall i :: 0 <= i < |hrefs| ==> hrefs[i].Some? && join(hrefs[i].value) == Ok(r.value[i])
    ensures r.Err? <==> exists i :: 0 <= i < |hrefs| && Unusable(hrefs[i], join)
  {
    CollectLinksOutcome(hrefs, join);
    CollectLinks(hrefs, join)
  }

  /** `get_chapter`: the trimmed title, the raw text, the given order key. */
  function GetChapter(title: string, text: string, order: string): (c: Chapter)
    ensures c.order == order && c.text == text
    ensures IsTrimmed(c.title) && |c.title| <= |title|
  {
    TrimIsTrimmed(title);
    Chapter(order, Trim(title), text)
  }

  /** `get_next_page`: chapters are single pages. */
  function GetNextPage(): (r: Result<Option<Url>>)
    ensures r.Ok? && r.value.None?
  {
    Ok(None)
  }

  /** Break into lines, trim, drop empty lines, skip the first two, join with '\n'. */
  function Clean(text: string): string {
    Join(Drop(Pieces(text, Separators), 2), "\n")
  }

  /** `process_chapter`: the clean-up, then the substitutions in list order; order and title kept. */
  method ProcessChapter(chapter: Chapter, replacers: seq<string -> string>) returns (r: Chapter)
    ensures r.order == chapter.order && r.title == chapter.title
    ensures r.text == ApplyAll(replacers, Clean(chapter.text))
  {
    var text := Clean(chapter.text);
    text := ApplyReplacers(replacers, text);
    r := chapter.(text := text);
  }

  /** With the site's own substitution list the processed text is the cleaned text. */
  lemma SiteReplacersIdentity(text: string)
    ensures ApplyAll(Replacers, text) == text
  {
    ApplyAllIdentity(Replacers, text);
  }

  /**
   * The cleaned text has no carriage return and no blank line, and its lines
   * are exactly the input's non-empty trimmed lines after the first two.
   */
  lemma CleanShape(text: string)
    ensures Avoids(Clean(text), {'\r'})
    ensures NoBlankLine(Clean(text)) && IsTrimmed(Clean(text))
    ensures Pieces(Clean(text), Separators) == Drop(Pieces(text, Separators), 2)
    ensures |Pieces(Clean(text), Separators)| == if |Pieces(text, Separators)| <= 2 then 0 else |Pieces(text, Separators)| - 2
  {
    var kept := Drop(Pieces(text, Separators), 2);
    assert Clean(text) == Join(kept, "\n");
    JoinDropPieces(text, Separators, 2);
    assert {'\r'} <= Separators - {'\n'};
    AvoidsFewer(Join(kept, "\n"), Separators - {'\n'}, {'\r'});
  }

  /** The clean-up is not idempotent: a second run drops two more lines. */
  lemma CleanTwice(text: string)
    ensures Clean(Clean(text)) == Join(Drop(Pieces(text, Separators), 4), "\n")
  {
    CleanShape(text);
    DropDrop(Pieces(text, Separators), 2, 2);
  }
}
