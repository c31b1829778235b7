/**
 * 飄天 (www.piaotia.com): the book name loses "最新章节", the author comes
 * from a meta tag, and a chapter page's whole text is cut down to the
 * story: everything from the navigation footer on, and everything up to
 * the last "返回书页", is removed before the lines are cleaned.
 */
module Piaotia {
  import opened Strings
  import opened Noveler

  /** The site's `Display` name, used as a directory name. */
  const SiteName := "飄天"

  /** Lines are broken at '\n' and at the no-break space. */
  const Separators: set<char> := {'\n', '\U{a0}'}

  /** Start of the navigation footer: it and everything after it is removed. */
  const FooterMarker := "（快捷键 ←）"

  /** End of the page header: everything up to its last occurrence is removed. */
  const HeaderMarker := "返回书页"

  /** The book's name on the page carries this phrase. */
  const LatestChapters := "最新章节"

  /** One book's name appears in front of every chapter title. */
  const TitlePrefix := "射手凶猛 "

  /** `get_book_info`: "最新章节" removed from the name; the author from the meta tag, which must exist. */
  function GetBookInfo(name: string, author: Option<string>): (r: Result<Book>)
    ensures r.Err? <==> author.None?
    ensures r.Err? ==> r.error == NotFound("author content")
    ensures r.Ok? ==> r.value.author == author.value
    ensures r.Ok? && !Contains(name, LatestChapters) ==> r.value.name == name
  {
    RemoveUnchanged(name, LatestChapters);
    match author
    case None => Err(NotFound("author content"))
    case Some(a) => Ok(Book(ReplaceStr(name, LatestChapters, ""), a))
  }

  /** `get_chapter_urls_sorted`: every anchor's link resolved, in page order, or the first failure. */
  function GetChapterUrlsSorted(hrefs: seq<Option<string>>, join: string -> Result<Url>): (r: Result<seq<Url>>)
    ensures r.Ok? ==> |r.value| == |hrefs|
    ensures r.Ok? ==> forall i :: 0 <= i < |hrefs| ==> hrefs[i].Some? && join(hrefs[i].value) == Ok(r.value[i])
    ensures r.Err? <==> exists i :: 0 <= i < |hrefs| && Unusable(hrefs[i], join)
  {
    CollectLinksOutcome(hrefs, join);
    CollectLinks(hrefs, join)
  }

  /** `get_chapter`: the title trimmed and then rid of "射手凶猛 "; the text of the whole page. */
  function GetChapter(title: string, page: string, order: string): (c: Chapter)
    ensures c.order == order && c.text == page
    ensures !Contains(Trim(title), TitlePrefix) ==> c.title == Trim(title)
  {
    RemoveUnchanged(Trim(title), TitlePrefix);
    Chapter(order, ReplaceStr(Trim(title), TitlePrefix, ""), page)
  }

  /** A title led by the book's name keeps only the chapter's own title. */
  lemma TitleWithoutBookName(title: string, rest: string, page: string, order: string)
    requires Trim(title) == TitlePrefix + rest && !Contains(rest, TitlePrefix)
    ensures GetChapter(title, page, order).title == rest
  {
    RemoveLeading(TitlePrefix, rest);
  }

  /** `get_next_page`: chapters are single pages. */
  function GetNextPage(): (r: Result<Option<Url>>)
    ensures r.Ok? && r.value.None?
  {
    Ok(None)
  }

  /** The regex `(?s)（快捷键 ←）.*` replaced by "": cut at the first footer marker. */
  function CutFooter(text: string): (r: string)
    ensures |r| <= |text| && r == text[..|r|]
    ensures !Contains(r, FooterMarker)
    ensures !Contains(text, FooterMarker) ==> r == text
  {
    var i := Find(text, FooterMarker);
    FindSpec(text, FooterMarker);
    NotContainsSlice(text, FooterMarker, 0, i);
    assert text[0..i] == text[..i];
    text[..i]
  }

  /** The regex `(?s).*返回书页` replaced by "": keep what follows the last header marker. */
  function CutHeader(text: string): (r: string)
    ensures |r| <= |text| && r == text[|text| - |r|..]
    ensures !Contains(r, HeaderMarker)
    ensures !Contains(text, HeaderMarker) ==> r == text
    ensures !Contains(text, FooterMarker) ==> !Contains(r, FooterMarker)
  {
    var i := FindLast(text, HeaderMarker);
    if i < 0 then
      NotContainsSlice(text, HeaderMarker, 0, |text|);
      assert text[0..|text|] == text;
      text
    else
      var start := i + |HeaderMarker|;
      ContainsAt(text, HeaderMarker, i);
      assert text[start..|text|] == text[start..];
      NotContainsSlice(text, HeaderMarker, start, |text|);
      assert !Contains(text, FooterMarker) ==> !Contains(text[start..], FooterMarker) by {
        if !Contains(text, FooterMarker) {
          FindSpec(text, FooterMarker);
          NotContainsSlice(text, FooterMarker, start, |text|);
        }
      }
      text[start..]
  }

  /** The site's substitution list, in order. */
  const Replacers: seq<string -> string> := [CutFooter, CutHeader]

  /** Break at the separators, trim, drop empty lines, join with '\n'. */
  function Clean(text: string): string {
    Join(Pieces(text, Separators), "\n")
  }

  /** `process_chapter`: the substitutions in list order, then the line clean-up; order and title kept. */
  method ProcessChapter(chapter: Chapter) returns (r: Chapter)
    ensures r.order == chapter.order && r.title == chapter.title
    ensures r.text == Clean(CutHeader(CutFooter(chapter.text)))
  {
    var text := ApplyReplacers(Replacers, chapter.text);
    SiteReplacers(chapter.text);
    text := Clean(text);
    r := chapter.(text := text);
  }

  /** Running the site's substitution list is cutting the footer, then the header. */
  lemma SiteReplacers(text: string)
    ensures ApplyAll(Replacers, text) == CutHeader(CutFooter(text))
  {
    assert Replacers[0] == CutFooter && Replacers[1..] == [CutHeader];
    assert ApplyAll(Replacers, text) == ApplyAll([CutHeader], CutFooter(text));
    var x := CutFooter(text);
    var hs: seq<string -> string> := [CutHeader];
    assert hs[1..] == [];
    assert ApplyAll(hs, x) == ApplyAll([], hs[0](x)) == CutHeader(x);
  }

  /** After the substitutions neither marker is left, so running them again changes nothing. */
  lemma StripIdempotent(text: string)
    ensures !Contains(CutHeader(CutFooter(text)), FooterMarker)
    ensures !Contains(CutHeader(CutFooter(text)), HeaderMarker)
    ensures CutHeader(CutFooter(CutHeader(CutFooter(text)))) == CutHeader(CutFooter(text))
  {
  }

  /** The cleaned text has no no-break space and no blank line. */
  lemma CleanShape(text: string)
    ensures Avoids(Clean(text), {'\U{a0}'})
    ensures NoBlankLine(Clean(text)) && IsTrimmed(Clean(text))
  {
    JoinPiecesShape(text, Separators);
    AvoidsFewer(Clean(text), Separators - {'\n'}, {'\U{a0}'});
  }

  /** Cleaning twice is cleaning once. */
  lemma CleanIdempotent(text: string)
    ensures Clean(Clean(text)) == Clean(text)
  {
    PiecesShape(text, Separators, {});
    PiecesOfJoin(Pieces(text, Separators), Separators);
  }
}
