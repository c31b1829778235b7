/**
 * 小說狂人 (czbooks.net): chapter links are protocol-relative, and the text
 * goes through one simultaneous replacement: every ideographic space is
 * deleted and every pair of newlines becomes one.
 */
module Czbooks {
  import opened Strings
  import opened Noveler

  /** The site's `Display` name, used as a directory name. */
  const SiteName := "小說狂人"

  /** The ideographic space, deleted from the text. */
  const IdeographicSpace: char := '\U{3000}'

  /** The book's name is shown between these brackets. */
  const TitleBrackets: set<char> := {'《', '》'}

  /** The book's name in brackets appears in every chapter title. */
  const TitleBookName := "《射手凶猛》"

  /** `get_book_info`: the name rid of '《' and '》'; the author as found. */
  function GetBookInfo(name: string, author: string): (b: Book)
    ensures b.author == author
    ensures Avoids(b.name, TitleBrackets) && |b.name| <= |name|
    ensures Avoids(name, TitleBrackets) ==> b.name == name
  {
    RemoveCharsShape(name, TitleBrackets, {});
    Book(RemoveChars(name, TitleBrackets), author)
  }

  /** The name in brackets comes out bare. */
  lemma BracketedName(name: string, author: string)
    requires Avoids(name, TitleBrackets)
    ensures GetBookInfo("《" + name + "》", author) == Book(name, author)
  {
    var s := "《" + name + "》";
    assert s[1..] == name + "》";
    RemoveCharsAppend(name, "》", TitleBrackets);
    RemoveCharsShape(name, TitleBrackets, {});
  }

  /** `get_chapter_urls_sorted`: "https:" put in front of every href, parsed, in page order, or the first failure. */
  function GetChapterUrlsSorted(hrefs: seq<Option<string>>, parse: string -> Result<Url>): (r: Result<seq<Url>>)
    ensures r.Ok? ==> |r.value| == |hrefs|
    ensures r.Ok? ==> forall i :: 0 <= i < |hrefs| ==> hrefs[i].Some? && parse("https:" + hrefs[i].value) == Ok(r.value[i])
    ensures r.Err? <==> exists i :: 0 <= i < |hrefs| && (hrefs[i].None? || parse("https:" + hrefs[i].value).Err?)
  {
    var resolve := (h: string) => parse("https:" + h);
    CollectLinksOutcome(hrefs, resolve);
    CollectLinks(hrefs, resolve)
  }

  /** `get_chapter`: the title trimmed and then rid of "《射手凶猛》"; the raw text. */
  function GetChapter(title: string, text: string, order: string): (c: Chapter)
    ensures c.order == order && c.text == text
    ensures !Contains(Trim(title), TitleBookName) ==> c.title == Trim(title)
  {
    RemoveUnchanged(Trim(title), TitleBookName);
    Chapter(order, ReplaceStr(Trim(title), TitleBookName, ""), text)
  }

  /** A title led by the bracketed book name keeps only the chapter's own title. */
  lemma TitleWithoutBookName(title: string, rest: string, text: string, order: string)
    requires Trim(title) == TitleBookName + rest && !Contains(rest, TitleBookName)
    ensures GetChapter(title, text, order).title == rest
  {
    RemoveLeading(TitleBookName, rest);
  }

  /** `get_next_page`: chapters are single pages. */
  function GetNextPage(): (r: Result<Option<Url>>)
    ensures r.Ok? && r.value.None?
  {
    Ok(None)
  }

  /**
   * The Aho-Corasick `replace_all` with patterns "\u{3000}" → "" and
   * "\n\n" → "\n": one left-to-right pass over the input, matches do not
   * overlap, and replaced text is not scanned again.
   */
  function Replace(s: string): (r: string)
    ensures |r| <= |s|
    decreases |s|
  {
    if s == [] then []
    else if s[0] == IdeographicSpace then Replace(s[1..])
    else if |s| >= 2 && s[0] == '\n' && s[1] == '\n' then "\n" + Replace(s[2..])
    else [s[0]] + Replace(s[1..])
  }

  /** `process_chapter`: the replacement applied to the text; order and title kept. */
  function ProcessChapter(chapter: Chapter): (r: Chapter)
    ensures r.order == chapter.order && r.title == chapter.title
    ensures Avoids(r.text, {IdeographicSpace})
    ensures RemoveChars(r.text, {IdeographicSpace, '\n'}) == RemoveChars(chapter.text, {IdeographicSpace, '\n'})
  {
    ReplaceShape(chapter.text);
    chapter.(text := Replace(chapter.text))
  }

  /**
   * No ideographic space is left, no newline is added, and every other
   * character is kept, in order.
   */
  lemma {:induction false} ReplaceShape(s: string)
    ensures Avoids(Replace(s), {IdeographicSpace})
    ensures Count(Replace(s), '\n') <= Count(s, '\n')
    ensures RemoveChars(Replace(s), {IdeographicSpace, '\n'}) == RemoveChars(s, {IdeographicSpace, '\n'})
    decreases |s|
  {
    var cs := {IdeographicSpace, '\n'};
    if s != [] {
      if s[0] == IdeographicSpace {
        ReplaceShape(s[1..]);
        CountAppend([s[0]], s[1..], '\n');
        assert s == [s[0]] + s[1..];
      } else if |s| >= 2 && s[0] == '\n' && s[1] == '\n' {
        var t := s[2..];
        ReplaceShape(t);
        assert s == "\n\n" + t;
        CountAppend("\n\n", t, '\n');
        CountAppend("\n", Replace(t), '\n');
        RemoveCharsAppend("\n\n", t, cs);
        RemoveCharsAppend("\n", Replace(t), cs);
      } else {
        ReplaceShape(s[1..]);
        assert s == [s[0]] + s[1..];
        CountAppend([s[0]], s[1..], '\n');
        CountAppend([s[0]], Replace(s[1..]), '\n');
        RemoveCharsAppend([s[0]], s[1..], cs);
        RemoveCharsAppend([s[0]], Replace(s[1..]), cs);
      }
    }
  }

  /** Text with no ideographic space and no doubled newline is left as it is. */
  lemma {:induction false} ReplaceFixedPoint(s: string)
    requires Avoids(s, {IdeographicSpace}) && NoPair(s, '\n', '\n')
    ensures Replace(s) == s
    decreases |s|
  {
    if s != [] {
      assert NoPair(s[1..], '\n', '\n') by {
        forall i | 0 <= i < |s| - 2 ensures !(s[1..][i] == '\n' && s[1..][i + 1] == '\n') {
          assert s[1..][i] == s[i + 1] && s[1..][i + 1] == s[i + 2];
        }
      }
      ReplaceFixedPoint(s[1..]);
    }
  }

  /** `n` newlines in a row.  */
  function Newlines(n: nat): (r: string)
    ensures |r| == n && forall i :: 0 <= i < n ==> r[i] == '\n'
  {
    if n == 0 then "" else "\n" + Newlines(n - 1)
  }

  /** A run of newlines is halved, rounding up, not collapsed: the pass is not idempotent. */
  lemma {:induction false} NewlineRun(n: nat)
    ensures Replace(Newlines(n)) == Newlines((n + 1) / 2)
    decreases n
  {
    if n >= 2 {
      var s := Newlines(n);
      assert s[2..] == Newlines(n - 2) by {
        assert |s[2..]| == |Newlines(n - 2)|;
      }
      NewlineRun(n - 2);
      assert (n + 1) / 2 == (n - 2 + 1) / 2 + 1;
      assert Newlines((n + 1) / 2) == "\n" + Newlines((n - 2 + 1) / 2);
    } else if n == 1 {
      assert Newlines(1) == "\n";
      assert Newlines(1)[1..] == "";
    }
  }

  /** Three newlines become two: the pair is replaced and the third newline is left alone. */
  lemma ThreeNewlines()
    ensures Replace("\n\n\n") == "\n\n"
  {
    NewlineRun(3);
    assert Newlines(3) == "\n\n\n" && Newlines(2) == "\n\n";
  }

  /** An ideographic space between two newlines is deleted, and the newlines it separated stay two. */
  lemma SpaceBetweenNewlines()
    ensures Replace("\n\U{3000}\n") == "\n\n"
  {
    var s := "\n\U{3000}\n";
    assert s[1..] == "\U{3000}\n";
    assert s[1..][1..] == "\n";
    assert "\n"[1..] == "";
  }
}
