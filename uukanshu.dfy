/**
 * UU看書 (tw.uukanshu.com): book name clean-up, chapter links listed newest
 * first and reversed, and a two-pass text clean-up after the site's regex
 * substitutions.
 */
module UUkanshu {
  import opened Strings
  import opened Noveler

  /** The site's `Display` name, used as a directory name. */
  const SiteName := "UU看書"

  /** Characters the first pass breaks lines at: newline, ideographic space, no-break space, carriage return. */
  const FirstSeparators: set<char> := {'\n', '\U{3000}', '\U{a0}', '\r'}

  /** The characters that cannot survive the first pass (the separators other than '\n'). */
  const Dropped: set<char> := FirstSeparators - {'\n'}

  /** The phrase "latest chapters" in traditional characters, removed from the book's name first. */
  const LatestTraditional := "最新章節"

  /** The same phrase in simplified characters, removed second. */
  const LatestSimplified := "最新章节"

  /** `get_book_info`: "最新章節" and then "最新章节" removed from the name; the author as found. */
  function GetBookInfo(name: string, author: string): (b: Book)
    ensures b.author == author
    ensures !Contains(name, LatestTraditional) && !Contains(name, LatestSimplified) ==> b.name == name
  {
    RemoveUnchanged(name, LatestTraditional);
    RemoveUnchanged(name, LatestSimplified);
    Book(ReplaceStr(ReplaceStr(name, LatestTraditional, ""), LatestSimplified, ""), author)
  }

  /** Each removal is a single left-to-right pass: a phrase split by a removed one survives. */
  lemma BookNameOnePass()
    ensures GetBookInfo("最新最新章節章節", "初四兮").name == LatestTraditional
  {
    TraditionalOnePass();
    SimplifiedAbsent();
  }

  lemma TraditionalOnePass()
    ensures ReplaceStr("最新最新章節章節", LatestTraditional, "") == LatestTraditional
  {
    var s, t := "最新最新章節章節", LatestTraditional;
    FirstTraditional();
    var rest := s[6..];
    assert rest == "章節";
    assert Find(rest, t) == 2;
    assert ReplaceStr(rest, t, "") == rest;
    assert s[..2] + "" + rest == t;
  }

  /** The first match of "最新章節" in "最新最新章節章節" starts at index 2. */
  lemma FirstTraditional()
    ensures Find("最新最新章節章節", LatestTraditional) == 2
  {
    var s, t := "最新最新章節章節", LatestTraditional;
    assert MatchAt(s, t, 2);
    assert s[2] != t[2] && s[1] != t[0];
    assert !MatchAt(s, t, 0) && !MatchAt(s, t, 1);
  }

  lemma SimplifiedAbsent()
    ensures ReplaceStr(LatestTraditional, LatestSimplified, "") == LatestTraditional
  {
    var t := LatestTraditional;
    assert t[3] != LatestSimplified[3];
    assert !MatchAt(t, LatestSimplified, 0);
    assert Find(t, LatestSimplified) == 4;
  }

  /** `get_chapter_urls_sorted`: the anchors' links in reverse document order, or the first failure. */
  function GetChapterUrlsSorted(hrefs: seq<Option<string>>, join: string -> Result<Url>): (r: Result<seq<Url>>)
    ensures r.Err? <==> exists i :: 0 <= i < |hrefs| && Unusable(hrefs[i], join)
    ensures r.Err? ==> r == CollectLinks(hrefs, join)
    ensures r.Ok? ==> |r.value| == |hrefs|
    ensures r.Ok? ==> forall i :: 0 <= i < |hrefs| ==> join(hrefs[|hrefs| - 1 - i].value) == Ok(r.value[i])
  {
    CollectLinksOutcome(hrefs, join);
    match CollectLinks(hrefs, join)
    case Err(e) => Err(e)
    case Ok(urls) =>
      var r := Reverse(urls);
      assert forall i :: 0 <= i < |urls| ==> r[i] == urls[|urls| - 1 - i] by {
        forall i | 0 <= i < |urls| ensures r[i] == urls[|urls| - 1 - i] {
          ReverseAt(urls, i);
        }
      }
      Ok(r)
  }

  /** `get_chapter`: the trimmed title, the raw text, the given order key. */
  function GetChapter(title: string, text: string, order: string): (c: Chapter)
    ensures c.order == order && c.text == text
    ensures IsTrimmed(c.title) && |c.title| <= |title|
  {
    TrimIsTrimmed(title);
    Chapter(order, Trim(title), text)
  }

  /** `get_next_page`: chapters are single pages. */
  function GetNextPage(): (r: Result<Option<Url>>)
    ensures r.Ok? && r.value.None?
  {
    Ok(None)
  }

  /** First pass: break at the separators, trim, drop empty lines, join with '\n'. */
  function FirstPass(text: string): string {
    Join(Pieces(text, FirstSeparators), "\n")
  }

  /** Second pass: break at double spaces, trim, drop empty pieces, join with '\n'. */
  function SecondPass(text: string): string {
    Join(NonEmpty(TrimAll(SplitStr(text, "  "))), "\n")
  }

  /** The two passes that follow the regex substitutions. */
  function Normalize(text: string): string {
    SecondPass(FirstPass(text))
  }

  /** `process_chapter`: the substitutions in list order, then both passes; order and title kept. */
  method ProcessChapter(chapter: Chapter, replacers: seq<string -> string>) returns (r: Chapter)
    ensures r.order == chapter.order && r.title == chapter.title
    ensures r.text == Normalize(ApplyAll(replacers, chapter.text))
  {
    var text := ApplyReplacers(replacers, chapter.text);
    text := FirstPass(text);
    text := SecondPass(text);
    r := chapter.(text := text);
  }

  /** After the first pass no ideographic space, no-break space or carriage return is left, and no line is blank. */
  lemma FirstPassShape(text: string)
    ensures Avoids(FirstPass(text), Dropped)
    ensures NoBlankLine(FirstPass(text)) && IsTrimmed(FirstPass(text))
  {
    JoinPiecesShape(text, FirstSeparators);
  }

  /** Lines that are already clean come out of the first pass unchanged. */
  lemma FirstPassFixedPoint(lines: seq<string>)
    requires forall p :: p in lines ==> p != "" && IsTrimmed(p) && Avoids(p, FirstSeparators)
    ensures FirstPass(Join(lines, "\n")) == Join(lines, "\n")
  {
    PiecesOfJoin(lines, FirstSeparators);
  }

  /**
   * The second pass leaves no doubled space; it adds only '\n', so it keeps
   * out any other character the input lacked, and text without a blank line
   * stays without one.
   */
  lemma SecondPassShape(text: string, bad: set<char>)
    ensures NoPair(SecondPass(text), ' ', ' ')
    ensures Avoids(text, bad) && '\n' !in bad ==> Avoids(SecondPass(text), bad)
    ensures NoPair(text, '\n', '\n') ==> NoBlankLine(SecondPass(text))
  {
    var ps := NonEmpty(TrimAll(SplitStr(text, "  ")));
    SecondPassPieces(text, bad);
    JoinNoDoubleSpace(ps);
    if Avoids(text, bad) && '\n' !in bad {
      JoinAvoids(ps, "\n", bad);
    }
    if NoPair(text, '\n', '\n') {
      JoinNoBlankLine(ps);
    }
  }

  /** The lines the second pass joins: non-empty, trimmed, and free of what the text was free of. */
  lemma SecondPassPieces(text: string, bad: set<char>)
    ensures forall p :: p in NonEmpty(TrimAll(SplitStr(text, "  "))) ==>
      && p != "" && IsTrimmed(p) && NoPair(p, ' ', ' ')
      && (Avoids(text, bad) ==> Avoids(p, bad))
      && (NoPair(text, '\n', '\n') ==> NoPair(p, '\n', '\n'))
  {
    var split := SplitStr(text, "  ");
    SplitStrNoPair(text, ' ', ' ', bad);
    forall p | p in NonEmpty(TrimAll(split))
      ensures p != "" && IsTrimmed(p) && NoPair(p, ' ', ' ')
      ensures Avoids(text, bad) ==> Avoids(p, bad)
      ensures NoPair(text, '\n', '\n') ==> NoPair(p, '\n', '\n')
    {
      var i :| 0 <= i < |split| && TrimAll(split)[i] == p;
      assert split[i] in split;
      TrimIsTrimmed(split[i]);
      TrimKeeps(split[i], bad, ' ', ' ');
      TrimKeeps(split[i], bad, '\n', '\n');
    }
  }

  /** Text that is trimmed and has no doubled space comes out of the second pass unchanged. */
  lemma SecondPassFixedPoint(text: string)
    requires IsTrimmed(text) && NoPair(text, ' ', ' ')
    ensures SecondPass(text) == text
  {
    NoPairSplit(text, ' ', ' ');
    TrimFixedPoint(text);
    assert TrimAll([text]) == [text];
    assert [text][1..] == [];
    assert NonEmpty([text]) == (if text == "" then [] else [text]);
  }

  /**
   * The processed text has no ideographic space, no-break space, carriage
   * return, doubled space or blank line: split on '\n' it has no empty line.
   */
  lemma NormalizeShape(text: string)
    ensures Avoids(Normalize(text), Dropped)
    ensures NoPair(Normalize(text), ' ', ' ')
    ensures NoBlankLine(Normalize(text))
    ensures Normalize(text) != "" ==> forall seg :: seg in SplitChars(Normalize(text), {'\n'}) ==> seg != ""
  {
    FirstPassShape(text);
    SecondPassShape(FirstPass(text), Dropped);
    if Normalize(text) != "" {
      NoBlankLineSegments(Normalize(text));
    }
  }
}
