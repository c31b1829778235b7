/**
 * The site-independent part of the crawler: book and chapter records, order
 * keys and file names, the resume filter, what one saved chapter does to the
 * directory and to the pending-task counter, the all-or-nothing collection of
 * chapter links, and the loop that applies a site's list of text replacers.
 *
 * URLs are opaque values compared by equality; the book directory is a map
 * from file name to file content.
 */
module Noveler {
  import opened Strings

  // ---------------------------------------------------------------------------
  // Values
  // ---------------------------------------------------------------------------

  /** An absolute URL, compared by its serialisation. */
  datatype Url = Url(text: string)

  /** Every way a crawl step can fail. */
  datatype NovelError =
    | NotFound(what: string)
    | ParseError
    | CannotBeABase(what: string)
    | ReqwestError(isTimeout: bool)
    | StdIOError
    | VisdomError
    | AhoCorasickError
    | RegexError

  datatype Result<T> = Ok(value: T) | Err(error: NovelError)

  datatype Option<T> = None | Some(value: T)

  /** Title and author of a book, as read from its table of contents. */
  datatype Book = Book(name: string, author: string) {
    /** The `Display` form, used as the book's directory name. */
    function Label(): string {
      author + "_" + name
    }
  }

  /** One chapter page: its order key, its title and its text. */
  datatype Chapter = Chapter(order: string, title: string, text: string) {
    /** What is saved for the chapter: the title, a blank line, the text. */
    function Content(): string {
      title + "\n\n" + text
    }
  }

  /** A queued download: the order key and the page to fetch. */
  datatype WorkItem = WorkItem(order: string, url: Url)

  /** The book directory: file name to file content. */
  type Directory = map<string, string>

  /** Reading a saved chapter back: the title is everything before the first blank line. */
  function ParseContent(order: string, content: string): (c: Chapter)
    ensures c.order == order
    ensures |c.title| <= |content|
  {
    var i := Find(content, "\n\n");
    if i == |content| then Chapter(order, content, "")
    else Chapter(order, content[..i], content[i + 2..])
  }

  /**
   * A chapter whose title has no line break is recovered from its saved
   * content: the saved file keeps title and text apart.
   */
  lemma ContentRoundTrip(c: Chapter)
    requires Avoids(c.title, {'\n'})
    ensures ParseContent(c.order, c.Content()) == c
  {
    var s := c.Content();
    var n := |c.title|;
    assert s[n..n + 2] == "\n\n";
    assert MatchAt(s, "\n\n", n);
    forall j | 0 <= j < n ensures !MatchAt(s, "\n\n", j) {
      assert s[j] == c.title[j];
    }
    FindSpec(s, "\n\n");
    assert Find(s, "\n\n") == n;
    assert s[..n] == c.title;
    assert s[n + 2..] == c.text;
  }

  // ---------------------------------------------------------------------------
  // File names and order keys
  // ---------------------------------------------------------------------------

  /** The file a chapter with key `order` is saved to. */
  function FileName(order: string): (r: string)
    ensures |r| == |order| + 4 && r[..|order|] == order && r[|order|..] == ".txt"
  {
    order + ".txt"
  }

  /** Different keys are saved to different files. */
  lemma FileNameInjective(a: string, b: string)
    ensures FileName(a) == FileName(b) <==> a == b
  {
    if FileName(a) == FileName(b) {
      assert a == FileName(a)[..|a|];
    }
  }

  /** The key of the continuation page of the chapter with key `order`. */
  function ContinuationKey(order: string): string {
    order + "_n"
  }

  /** A key after `n` continuation steps. */
  function Continued(order: string, n: nat): string {
    if n == 0 then order else ContinuationKey(Continued(order, n - 1))
  }

  /** The character for a decimal digit. */
  function Digit(d: nat): (c: char)
    requires d < 10
    ensures '0' <= c <= '9'
  {
    (48 + d) as char
  }

  /** The value of a decimal digit character. */
  function DigitValue(c: char): nat {
    if '0' <= c <= '9' then c as int - 48 else 0
  }

  predicate IsDigits(s: string) {
    forall i :: 0 <= i < |s| ==> '0' <= s[i] <= '9'
  }

  function Pow10(k: nat): (p: nat)
    ensures p >= 1
  {
    if k == 0 then 1 else 10 * Pow10(k - 1)
  }

  /** Decimal notation of `n` without leading zeros. */
  function Decimal(n: nat): string
    decreases n
  {
    if n < 10 then [Digit(n)] else Decimal(n / 10) + [Digit(n % 10)]
  }

  /** `k` zero characters. */
  function Zeros(k: nat): (z: string)
    ensures |z| == k && IsDigits(z)
  {
    if k == 0 then "" else "0" + Zeros(k - 1)
  }

  /** `format!("{:05}", n)`: decimal notation zero-padded to at least five characters. */
  function OrderKey(n: nat): string {
    var d := Decimal(n);
    if |d| >= 5 then d else Zeros(5 - |d|) + d
  }

  /** The number a string of decimal digits stands for, most significant first. */
  function ValueOf(s: string): nat {
    if s == [] then 0 else DigitValue(s[0]) * Pow10(|s| - 1) + ValueOf(s[1..])
  }

  lemma {:induction false} ValueOfBound(s: string)
    requires IsDigits(s)
    ensures ValueOf(s) < Pow10(|s|)
  {
    if s != [] {
      ValueOfBound(s[1..]);
      DigitStep(DigitValue(s[0]), Pow10(|s| - 1), ValueOf(s[1..]));
    }
  }

  /** One more digit in front keeps the value below the next power of ten. */
  lemma DigitStep(d: nat, p: nat, rest: nat)
    requires d <= 9 && rest < p
    ensures d * p + rest < 10 * p
  {
  }

  lemma {:induction false} ValueOfAppend(s: string, c: char)
    ensures ValueOf(s + [c]) == 10 * ValueOf(s) + DigitValue(c)
  {
    if s == [] {
      assert s + [c] == [c];
    } else {
      var sc := s + [c];
      assert sc != [] && sc[0] == s[0] && sc[1..] == s[1..] + [c];
      ValueOfAppend(s[1..], c);
      assert Pow10(|sc| - 1) == 10 * Pow10(|s| - 1);
      ShiftDigit(DigitValue(s[0]), Pow10(|s| - 1), ValueOf(s[1..]), DigitValue(c));
    }
  }

  /** The arithmetic of appending a digit: every earlier digit moves up one place. */
  lemma ShiftDigit(d: nat, p: nat, rest: nat, e: nat)
    ensures d * (10 * p) + (10 * rest + e) == 10 * (d * p + rest) + e
  {
    assert d * (10 * p) == 10 * (d * p);
  }

  lemma {:induction false} ValueOfZeros(k: nat, s: string)
    ensures ValueOf(Zeros(k) + s) == ValueOf(s)
  {
    if k == 0 {
      assert Zeros(k) + s == s;
    } else {
      assert Zeros(k) + s == "0" + (Zeros(k - 1) + s);
      ValueOfZeros(k - 1, s);
    }
  }

  /** Decimal notation is a non-empty string of digits that reads back as `n`. */
  lemma {:induction false} DecimalShape(n: nat)
    ensures IsDigits(Decimal(n)) && |Decimal(n)| >= 1
    ensures ValueOf(Decimal(n)) == n
    decreases n
  {
    if n >= 10 {
      DecimalShape(n / 10);
      ValueOfAppend(Decimal(n / 10), Digit(n % 10));
    }
  }

  /** A number below 10^k needs at most k digits. */
  lemma {:induction false} DecimalLength(n: nat, k: nat)
    requires 1 <= k && n < Pow10(k)
    ensures |Decimal(n)| <= k
    decreases n
  {
    if n >= 10 {
      DecimalLength(n / 10, k - 1);
    }
  }

  /** An order key is a string of digits that reads back as its number, so keys never collide. */
  lemma OrderKeyValue(n: nat)
    ensures IsDigits(OrderKey(n)) && |OrderKey(n)| >= 5
    ensures ValueOf(OrderKey(n)) == n
  {
    DecimalShape(n);
    var d := Decimal(n);
    if |d| < 5 {
      ValueOfZeros(5 - |d|, d);
    }
  }

  /** Below 100000 an order key is exactly five digits wide. */
  lemma OrderKeyWidth(n: nat)
    requires n < 100000
    ensures |OrderKey(n)| == 5
  {
    assert Pow10(5) == 100000;
    DecimalLength(n, 5);
  }

  /** Keys of different numbers are different strings. */
  lemma OrderKeyInjective(n: nat, m: nat)
    ensures OrderKey(n) == OrderKey(m) <==> n == m
  {
    OrderKeyValue(n);
    OrderKeyValue(m);
  }

  /** For digit strings of one length, a smaller number sorts first as a string. */
  lemma {:induction false} LexLessOfValue(a: string, b: string)
    requires |a| == |b| && IsDigits(a) && IsDigits(b)
    requires ValueOf(a) < ValueOf(b)
    ensures LexLess(a, b)
  {
    ValueOfCons(a);
    ValueOfCons(b);
    var p := Pow10(|a| - 1);
    var da, db := DigitValue(a[0]), DigitValue(b[0]);
    var ra, rb := ValueOf(a[1..]), ValueOf(b[1..]);
    if a[0] == b[0] {
      assert ra < rb;
      LexLessOfValue(a[1..], b[1..]);
    } else if a[0] > b[0] {
      ValueOfBound(b[1..]);
      LeadingDigitDominates(da, db, p, ra, rb);
    }
  }

  /** A non-empty digit string: its leading digit's place value plus the rest. */
  lemma ValueOfCons(s: string)
    requires s != [] && IsDigits(s)
    ensures ValueOf(s) == DigitValue(s[0]) * Pow10(|s| - 1) + ValueOf(s[1..])
    ensures IsDigits(s[1..]) && DigitValue(s[0]) == s[0] as int - 48
  {
  }

  lemma LeadingDigitDominates(da: nat, db: nat, p: nat, ra: nat, rb: nat)
    requires da > db && rb < p
    ensures da * p + ra > db * p + rb
  {
    assert da * p >= (db + 1) * p;
  }

  /** Below 100000, order keys sort as their numbers do. */
  lemma OrderKeyOrdered(n: nat, m: nat)
    requires n < m < 100000
    ensures LexLess(OrderKey(n), OrderKey(m))
  {
    OrderKeyValue(n);
    OrderKeyValue(m);
    OrderKeyWidth(n);
    OrderKeyWidth(m);
    LexLessOfValue(OrderKey(n), OrderKey(m));
  }

  /** From 100000 on the padding no longer holds the order: "100000" sorts before "99999". */
  lemma OrderKeyOverflow()
    ensures LexLess(OrderKey(100000), OrderKey(99999))
  {
    assert Decimal(1) == "1";
    assert Decimal(10) == "10";
    assert Decimal(100) == "100";
    assert Decimal(1000) == "1000";
    assert Decimal(10000) == "10000";
    assert Decimal(100000) == "100000";
    assert Decimal(9) == "9";
    assert Decimal(99) == "99";
    assert Decimal(999) == "999";
    assert Decimal(9999) == "9999";
    assert Decimal(99999) == "99999";
  }

  /** A chapter's file sorts before its continuations' files, and these in chain order. */
  lemma ContinuationAfter(order: string, a: nat, b: nat)
    requires a < b
    ensures LexLess(FileName(Continued(order, a)), FileName(Continued(order, b)))
  {
    var k := Continued(order, a);
    var tail := ContinuedTail(order, a, b);
    assert FileName(k) == k + ".txt";
    assert FileName(Continued(order, b)) == k + (tail + ".txt");
    assert (tail + ".txt")[0] == '_';
    LexLessCommonPrefix(k, ".txt", tail + ".txt");
  }

  /** The key after `b` steps extends the key after `a` steps by `"_n"`s. */
  lemma {:induction false} ContinuedTail(order: string, a: nat, b: nat) returns (tail: string)
    requires a < b
    ensures Continued(order, b) == Continued(order, a) + tail
    ensures |tail| > 0 && tail[0] == '_'
  {
    if b == a + 1 {
      tail := "_n";
    } else {
      var t := ContinuedTail(order, a, b - 1);
      tail := t + "_n";
    }
  }

  /**
   * Files of a later chapter, and all its continuations, sort after every
   * continuation of an earlier chapter (below 100000 chapters): the sorted
   * directory lists `00001`, `00001_n`, `00002`, ...
   */
  lemma ChapterFilesOrdered(i: nat, a: nat, j: nat, b: nat)
    requires i < j < 100000
    ensures LexLess(FileName(Continued(OrderKey(i), a)), FileName(Continued(OrderKey(j), b)))
  {
    OrderKeyOrdered(i, j);
    OrderKeyWidth(i);
    OrderKeyWidth(j);
    KeyFilesOrdered(OrderKey(i), OrderKey(j), a, b);
  }

  /** Keys of one width in order keep that order through any continuation steps. */
  lemma KeyFilesOrdered(ki: string, kj: string, a: nat, b: nat)
    requires |ki| == |kj| && LexLess(ki, kj)
    ensures LexLess(FileName(Continued(ki, a)), FileName(Continued(kj, b)))
  {
    var ti := ContinuedFileSuffix(ki, a);
    var tj := ContinuedFileSuffix(kj, b);
    LexLessExtend(ki, kj, ti, tj);
  }

  /** The file of a continued key is the key followed by something. */
  lemma ContinuedFileSuffix(order: string, n: nat) returns (tail: string)
    ensures FileName(Continued(order, n)) == order + tail
  {
    var t := ContinuedSuffix(order, n);
    tail := t + ".txt";
    assert (order + t) + ".txt" == order + (t + ".txt");
  }

  lemma {:induction false} ContinuedSuffix(order: string, n: nat) returns (tail: string)
    ensures Continued(order, n) == order + tail
  {
    if n == 0 {
      tail := "";
    } else {
      var t := ContinuedSuffix(order, n - 1);
      tail := t + "_n";
    }
  }

  // ---------------------------------------------------------------------------
  // Seeding the crawl
  // ---------------------------------------------------------------------------

  /** `append_urls_with_orders`: the i-th chapter URL gets key `OrderKey(i + 1)`. */
  function WithOrders(urls: seq<Url>): (r: seq<WorkItem>)
    ensures |r| == |urls|
  {
    seq(|urls|, i requires 0 <= i < |urls| => WorkItem(OrderKey(i + 1), urls[i]))
  }

  /**
   * Keys keep the list order: each URL keeps its place, and below 100000
   * chapters the keys are strictly increasing as strings (so distinct).
   */
  lemma WithOrdersSorted(urls: seq<Url>)
    requires |urls| < 100000
    ensures forall i :: 0 <= i < |urls| ==> WithOrders(urls)[i].url == urls[i]
    ensures forall i, j :: 0 <= i < j < |urls| ==> LexLess(WithOrders(urls)[i].order, WithOrders(urls)[j].order)
    ensures forall i :: 0 <= i < |urls| ==> |WithOrders(urls)[i].order| == 5
  {
    var r := WithOrders(urls);
    forall i | 0 <= i < |urls| ensures r[i] == WorkItem(OrderKey(i + 1), urls[i]) {
    }
    forall i, j | 0 <= i < j < |urls| ensures LexLess(r[i].order, r[j].order) {
      OrderKeyOrdered(i + 1, j + 1);
    }
    forall i | 0 <= i < |urls| ensures |r[i].order| == 5 {
      OrderKeyWidth(i + 1);
    }
  }

  /** The first keys are "00001", "00002", ... */
  lemma FirstKeys()
    ensures OrderKey(1) == "00001" && OrderKey(2) == "00002" && OrderKey(10) == "00010"
  {
    assert Decimal(1) == "1";
    assert Decimal(2) == "2";
    assert Decimal(10) == "10";
    assert Zeros(3) == "000" && Zeros(4) == "0000";
  }

  /** `remove_url_with_exist_file`: keep the items whose `<order>.txt` is not yet a file. */
  function RemoveExisting(items: seq<WorkItem>, files: Directory): (r: seq<WorkItem>)
    ensures |r| <= |items|
    ensures forall x :: x in r <==> x in items && FileName(x.order) !in files
  {
    if items == [] then []
    else
      (if FileName(items[0].order) in files then [] else [items[0]])
      + RemoveExisting(items[1..], files)
  }

  /** The filter keeps the relative order: it distributes over concatenation. */
  lemma {:induction false} RemoveExistingAppend(a: seq<WorkItem>, b: seq<WorkItem>, files: Directory)
    ensures RemoveExisting(a + b, files) == RemoveExisting(a, files) + RemoveExisting(b, files)
  {
    if a == [] {
      assert a + b == b;
    } else {
      var ab := a + b;
      assert ab != [] && ab[0] == a[0] && ab[1..] == a[1..] + b;
      RemoveExistingAppend(a[1..], b, files);
    }
  }

  /** Filtering twice is filtering once, and nothing is dropped when no chapter file exists. */
  lemma {:induction false} RemoveExistingIdempotent(items: seq<WorkItem>, files: Directory)
    ensures RemoveExisting(RemoveExisting(items, files), files) == RemoveExisting(items, files)
    ensures (forall x :: x in items ==> FileName(x.order) !in files) ==> RemoveExisting(items, files) == items
  {
    if items != [] {
      RemoveExistingIdempotent(items[1..], files);
      var head := if FileName(items[0].order) in files then [] else [items[0]];
      RemoveExistingAppend(head, RemoveExisting(items[1..], files), files);
      if forall x :: x in items ==> FileName(x.order) !in files {
        assert items[0] in items;
        forall x | x in items[1..] ensures FileName(x.order) !in files { assert x in items; }
        assert [items[0]] + items[1..] == items;
      }
    }
  }

  /** What `process_url_contents` hands to the crawl: the initial `tasks` and the queued items. */
  datatype Seed = Seed(tasks: int, queued: seq<WorkItem>)

  /** `process_url_contents`, given the chapter list the site extracted (or its error). */
  function ProcessUrlContents(chapterUrls: Result<seq<Url>>, files: Directory): (r: Result<Seed>)
    ensures r.Err? <==> chapterUrls.Err?
    ensures r.Err? ==> r.error == chapterUrls.error
    ensures r.Ok? ==> r.value.tasks == |r.value.queued|
    ensures r.Ok? ==> forall x :: x in r.value.queued <==> x in WithOrders(chapterUrls.value) && FileName(x.order) !in files
  {
    match chapterUrls
    case Err(e) => Err(e)
    case Ok(urls) =>
      var queued := RemoveExisting(WithOrders(urls), files);
      Ok(Seed(|queued|, queued))
  }

  /** With no chapter file on disk every chapter is queued: ten URLs give ten tasks. */
  lemma FreshStart(urls: seq<Url>)
    ensures ProcessUrlContents(Ok(urls), map[]) == Ok(Seed(|urls|, WithOrders(urls)))
    ensures |urls| == 10 ==> ProcessUrlContents(Ok(urls), map[]).value.tasks == 10
  {
    RemoveExistingIdempotent(WithOrders(urls), map[]);
  }

  /** Resuming: a chapter whose file exists is not queued again. */
  lemma ResumeSkipsSaved(urls: seq<Url>, files: Directory, i: nat)
    requires i < |urls| && FileName(OrderKey(i + 1)) in files
    ensures forall x :: x in ProcessUrlContents(Ok(urls), files).value.queued ==> x.order != OrderKey(i + 1)
  {
  }

  // ---------------------------------------------------------------------------
  // Saving a chapter
  // ---------------------------------------------------------------------------

  /** The effect of `process_save_task`: the counter change, the new directory, the queued continuation. */
  datatype Saved = Saved(delta: int, files: Directory, sent: seq<WorkItem>)

  /** `process_save_task` as a value: the counter change, the written file, the continuation. */
  function SaveTask(chapter: Chapter, next: Option<Url>, files: Directory, writable: bool): (r: Result<Saved>)
    ensures r.Err? <==> !writable
    ensures r.Ok? ==> r.value.delta == |r.value.sent| - 1
    ensures r.Ok? ==> FileName(chapter.order) in r.value.files && r.value.files[FileName(chapter.order)] == chapter.Content()
    ensures r.Ok? ==> forall f :: f != FileName(chapter.order) ==> (f in r.value.files <==> f in files)
    ensures r.Ok? && next.Some? ==> r.value.sent == [WorkItem(chapter.order + "_n", next.value)]
    ensures r.Ok? && next.None? ==> r.value.sent == []
  {
    if !writable then Err(StdIOError)
    else
      var sent := if next.Some? then [WorkItem(ContinuationKey(chapter.order), next.value)] else [];
      Ok(Saved(|sent| - 1, files[FileName(chapter.order) := chapter.Content()], sent))
  }

  /**
   * `process_save_task`: writes `<order>.txt`, then counts the finished task
   * as -1 and, when the chapter has a next page, queues its continuation
   * and counts it as +1. A failed write is an I/O error.
   */
  method ProcessSaveTask(chapter: Chapter, next: Option<Url>, files: Directory, writable: bool)
    returns (r: Result<Saved>)
    ensures !writable <==> r.Err?
    ensures r.Err? ==> r.error == StdIOError
    ensures r.Ok? ==> r.value.files == files[FileName(chapter.order) := chapter.Content()]
    ensures r.Ok? ==> r.value.delta == |r.value.sent| - 1
    ensures r.Ok? ==> r.value.sent == (if next.Some? then [WorkItem(ContinuationKey(chapter.order), next.value)] else [])
    ensures r == SaveTask(chapter, next, files, writable)
  {
    if !writable {
      return Err(StdIOError);
    }
    var written := files[FileName(chapter.order) := chapter.Content()];
    var tasksDone := -1;
    var sent := [];
    if next.Some? {
      tasksDone := tasksDone + 1;
      sent := [WorkItem(ContinuationKey(chapter.order), next.value)];
    }
    return Ok(Saved(tasksDone, written, sent));
  }

  /** The saved file of a chapter `("order", "title", "text")` is `order.txt` holding "title\n\ntext". */
  lemma SavedFileExample()
    ensures FileName("order") == "order.txt"
    ensures Chapter("order", "title", "text").Content() == "title\n\ntext"
  {
  }

  // ---------------------------------------------------------------------------
  // Collecting chapter links
  // ---------------------------------------------------------------------------

  /**
   * Link collection: each anchor's `href` (absent or present) is resolved to a
   * URL and the list is collected into one result; the first anchor without
   * `href` gives `NotFound("href")`, the first failed resolution its error.
   */
  function CollectLinks(hrefs: seq<Option<string>>, resolve: string -> Result<Url>): (r: Result<seq<Url>>)
    ensures r.Ok? ==> |r.value| == |hrefs|
    ensures r.Ok? ==> forall i :: 0 <= i < |hrefs| ==> hrefs[i].Some? && resolve(hrefs[i].value) == Ok(r.value[i])
  {
    if hrefs == [] then Ok([])
    else
      var head := if hrefs[0].None? then Err(NotFound("href")) else resolve(hrefs[0].value);
      if head.Err? then Err(head.error)
      else
        var rest := CollectLinks(hrefs[1..], resolve);
        if rest.Err? then rest else Ok([head.value] + rest.value)
  }

  /** An anchor whose `href` cannot be used. */
  predicate Unusable(h: Option<string>, resolve: string -> Result<Url>) {
    h.None? || resolve(h.value).Err?
  }

  /** The error of the first unusable anchor. */
  function AnchorError(h: Option<string>, resolve: string -> Result<Url>): NovelError
    requires Unusable(h, resolve)
  {
    if h.None? then NotFound("href") else resolve(h.value).error
  }

  /**
   * All or nothing: collection fails exactly when some anchor is unusable,
   * and then with the error of the first one; no partial list is returned.
   */
  lemma {:induction false} CollectLinksFails(hrefs: seq<Option<string>>, resolve: string -> Result<Url>, k: nat)
    requires k < |hrefs| && Unusable(hrefs[k], resolve)
    requires forall i :: 0 <= i < k ==> !Unusable(hrefs[i], resolve)
    ensures CollectLinks(hrefs, resolve) == Err(AnchorError(hrefs[k], resolve))
  {
    if k > 0 {
      CollectLinksFails(hrefs[1..], resolve, k - 1);
    }
  }

  /** Collection succeeds when every anchor is usable. */
  lemma {:induction false} CollectLinksSucceeds(hrefs: seq<Option<string>>, resolve: string -> Result<Url>)
    requires forall i :: 0 <= i < |hrefs| ==> !Unusable(hrefs[i], resolve)
    ensures CollectLinks(hrefs, resolve).Ok?
  {
    if hrefs != [] {
      CollectLinksSucceeds(hrefs[1..], resolve);
    }
  }

  /** Index of the first unusable anchor. */
  function FirstUnusable(hrefs: seq<Option<string>>, resolve: string -> Result<Url>): (k: nat)
    requires exists i :: 0 <= i < |hrefs| && Unusable(hrefs[i], resolve)
    ensures k < |hrefs| && Unusable(hrefs[k], resolve)
    ensures forall i :: 0 <= i < k ==> !Unusable(hrefs[i], resolve)
  {
    if Unusable(hrefs[0], resolve) then 0
    else
      var i :| 0 <= i < |hrefs| && Unusable(hrefs[i], resolve);
      assert hrefs[1..][i - 1] == hrefs[i];
      1 + FirstUnusable(hrefs[1..], resolve)
  }

  /** Collection fails exactly when some anchor is unusable. */
  lemma CollectLinksOutcome(hrefs: seq<Option<string>>, resolve: string -> Result<Url>)
    ensures CollectLinks(hrefs, resolve).Err? <==> exists i :: 0 <= i < |hrefs| && Unusable(hrefs[i], resolve)
  {
    if exists i :: 0 <= i < |hrefs| && Unusable(hrefs[i], resolve) {
      CollectLinksFails(hrefs, resolve, FirstUnusable(hrefs, resolve));
    } else {
      CollectLinksSucceeds(hrefs, resolve);
    }
  }

  // ---------------------------------------------------------------------------
  // Replacer lists
  // ---------------------------------------------------------------------------

  /** Applying a list of text substitutions one after the other. */
  function ApplyAll(replacers: seq<string -> string>, text: string): string
    decreases |replacers|
  {
    if replacers == [] then text else ApplyAll(replacers[1..], replacers[0](text))
  }

  /** The loop `for re in replacers { text = re(text) }`. */
  method ApplyReplacers(replacers: seq<string -> string>, text: string) returns (r: string)
    ensures r == ApplyAll(replacers, text)
  {
    r := text;
    for i := 0 to |replacers|
      invariant ApplyAll(replacers[i..], r) == ApplyAll(replacers, text)
    {
      assert replacers[i..][1..] == replacers[i + 1..];
      r := replacers[i](r);
    }
    assert replacers[|replacers|..] == [];
  }

  /** An empty list of replacers, or a list of identities, leaves the text as it is. */
  lemma {:induction false} ApplyAllIdentity(replacers: seq<string -> string>, text: string)
    requires forall i :: 0 <= i < |replacers| ==> replacers[i](text) == text
    ensures ApplyAll(replacers, text) == text
    decreases |replacers|
  {
    if replacers != [] {
      ApplyAllIdentity(replacers[1..], text);
    }
  }
}
