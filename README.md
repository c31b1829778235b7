# get_novel in Dafny

`get_novel` downloads a web novel from one of six Chinese fiction sites and
saves it as one text file. The program works in four stages:

- **Dispatch.** The address of the book's table of contents selects the
  site by its prefix. The site also fixes how many chapters are fetched at
  once: 2 for 稷下書院, 10 for the others.
- **Seeding.** The table of contents gives the book's name and author and
  the chapter links. Each link gets a zero-padded key `00001`, `00002`, ….
  A link whose `<key>.txt` file already exists in the book directory is
  skipped, so an interrupted download resumes.
- **Crawl.** A coordinator loop keeps a signed counter `tasks`, a queue of
  `(key, url)` items and the set of URLs it has already dispatched. It runs
  while `tasks > 0`. Each turn it either receives an item or joins a
  finished download.
  - An item whose URL was seen before spawns a task that reports `-1`.
  - A new item spawns a download. The download fetches the page, extracts
    the title, text and next-page link, runs the site's clean-up and writes
    `<key>.txt` holding "title, blank line, text".
  - A page with a next page queues the key `<key>_n` and reports `0`. Other
    pages report `-1`.
  - A timed-out fetch re-sends its item and reports `0`.
  - Any other error aborts the crawl.
- **Combine.** The chapter files are sorted by name. Each is appended,
  followed by a blank line, to `<author>_<name>.txt` next to the book
  directory `temp/<site>/<author>_<name>`.

The model has one module per source file:

- `Noveler`: the shared types and the helpers of `src/noveler.rs`.
- `Crawl`: the coordinator loop, as a state machine driven by a schedule
  of events, plus the method that runs it.
- `Combine`: `combine_txt`, with an in-place sort of the file names.
- `UUkanshu`, `Hjwzw`, `Qbtr`, `Piaotia`, `Novel543`, `Czbooks`: each
  site's book-info, link, chapter, next-page and text clean-up rules.
- `Dispatch`: the site choice of `src/main.rs`.
- `Strings`: the string operations these rely on, with their lemmas. These
  are Rust's `split`, `trim`, `replace`, `split_inclusive` and `join`.

A timeout does not retry the chapter. The re-sent item's URL is already in
the visited set (`src/noveler.rs:204-210`, `223-230`), so receiving it
again only spawns the `-1` placeholder. The chapter is never fetched again
and its file is never written (`Crawl.TimeoutDropsChapter`,
`Crawl.TimeoutNeverRefetched`, `Crawl.TimeoutScenarioEnds`).

A second consequence of the code as written: a panicked download is joined
without changing `tasks`, so the counter can never reach 0 again
(`Crawl.PanicHangs`).

## Model

| member | source | states |
|---|---|---|
| Dispatch.GetNovelSelects | src/main.rs:44-101 | an address selects a site exactly when it starts with that site's prefix, whatever the order of the tests |
| Dispatch.GetNovelRefuses | src/main.rs:100 | an address that starts with none of the six prefixes is refused ("Not support") |
| Dispatch.PrefixesDisjoint | src/main.rs:46-91 | no address starts with two site prefixes, so the choice of site is unambiguous |
| Dispatch.PrefixesIndependent | src/main.rs:46-91 | no site's prefix is a prefix of another's |
| Dispatch.UUkanshuMainHostRefused | src/main.rs:64 | UU看書 is accepted only under its `tw.` host; `https://www.uukanshu.com/` addresses are refused |
| Dispatch.Limit | src/main.rs:51-96 | the concurrency limit is positive, and it is 2 exactly for 稷下書院 (10 for every other site) |
| Dispatch.SiteNamesDistinct | src/main.rs:44-101 | different sites save their books under different directory names |
| Noveler.ContentRoundTrip | src/noveler.rs:72-75 | the saved content, title, blank line, text, loses nothing when the title has no newline: splitting it at the first blank line (`ParseContent`, an inverse written only to state this) gives back the same chapter |
| Noveler.FileName | src/noveler.rs:116-118 | a chapter's file name is its key followed by `.txt` |
| Noveler.FileNameInjective | src/noveler.rs:116-118 | different keys are saved to different files, and equal file names mean equal keys |
| Noveler.OrderKeyValue | src/noveler.rs:104-109 | a `{:05}` key is at least five decimal digits and reads back as its number |
| Noveler.OrderKeyWidth | src/noveler.rs:104-109 | below 100000 a key is exactly five characters wide |
| Noveler.OrderKeyInjective | src/noveler.rs:104-109 | two chapters get the same key exactly when they have the same index |
| Noveler.OrderKeyOrdered | src/noveler.rs:104-109 | below 100000, keys sort as strings in the order of their numbers |
| Noveler.OrderKeyOverflow | src/noveler.rs:104-109 | from 100000 on the padding no longer keeps the order: "100000" sorts before "99999" |
| Noveler.FirstKeys | src/noveler.rs:104-109 | the first keys are "00001", "00002", and the tenth is "00010" |
| Noveler.DecimalShape | src/noveler.rs:107 | decimal notation is a non-empty string of digits that reads back as the number |
| Noveler.LexLessOfValue | src/noveler.rs:104-109 | for digit strings of one width, the smaller number is the smaller string |
| Noveler.WithOrders | src/noveler.rs:104-109 | numbering keeps one item per chapter URL |
| Noveler.WithOrdersSorted | src/noveler.rs:104-109 | the i-th item carries the i-th URL, and the keys are five wide and strictly increasing in list order |
| Noveler.ContinuationAfter | src/noveler.rs:116-118 | a chapter's file sorts before the files of its continuation pages, and those sort in page order |
| Noveler.ContinuedTail | src/noveler.rs:159 | each further continuation key extends the previous one by a suffix starting with `_` |
| Noveler.ChapterFilesOrdered | src/noveler.rs:104-109 | every page file of chapter i, continuations included, sorts before every page file of a later chapter j |
| Noveler.KeyFilesOrdered | src/noveler.rs:159 | keys of one width keep their order through any number of `_n` continuation steps |
| Noveler.RemoveExisting | src/noveler.rs:311-315 | an item is kept exactly when it was an input item and its `<key>.txt` does not exist |
| Noveler.RemoveExistingAppend | src/noveler.rs:311-315 | the filter keeps the relative order of the items: it distributes over concatenation |
| Noveler.RemoveExistingIdempotent | src/noveler.rs:311-315 | filtering twice is filtering once, and nothing is dropped when no item's file exists |
| Noveler.ProcessUrlContents | src/noveler.rs:120-143 | the chapter list's error is passed on unchanged; otherwise the initial counter equals the number of queued items, and those are exactly the numbered chapters without a saved file |
| Noveler.FreshStart | src/noveler.rs:120-143 | with no chapter file on disk every numbered chapter is queued, so ten URLs give ten tasks |
| Noveler.ResumeSkipsSaved | src/noveler.rs:120-143 | a chapter whose file exists is not queued again |
| Noveler.SaveTask | src/noveler.rs:145-167 | a save fails exactly when the directory is not writable; on success it writes the chapter's file, leaves every other file as it was, queues `<key>_n` exactly when there is a next page, and changes the counter by the number queued minus one |
| Noveler.ProcessSaveTask | src/noveler.rs:145-167 | a failed write is an IO error; otherwise the chapter's content is written under its key, a next page is queued under key `<key>_n`, and the counter changes by the number of queued items minus one; the method computes exactly `SaveTask` |
| Noveler.SavedFileExample | src/noveler.rs:448-466 | chapter ("order", "title", "text") is saved as `order.txt` holding "title\n\ntext" |
| Noveler.CollectLinks | src/noveler/hjwzw.rs:61-73 | on success there is one URL per anchor, each the resolution of that anchor's href |
| Noveler.CollectLinksFails | src/noveler/hjwzw.rs:61-73 | the result is the error of the first anchor without a usable href |
| Noveler.CollectLinksSucceeds | src/noveler/hjwzw.rs:61-73 | collection succeeds when every anchor has a usable href |
| Noveler.CollectLinksOutcome | src/noveler/hjwzw.rs:61-73 | collection fails exactly when some anchor has no usable href |
| Noveler.ApplyReplacers | src/noveler/hjwzw.rs:101-103 | the substitution loop applies the replacers one after the other, in list order |
| Noveler.ApplyAllIdentity | src/noveler/hjwzw.rs:101-103 | a list of substitutions that each leave the text alone leaves it alone |
| Crawl.BookDir | src/noveler.rs:189-192 | the book directory is `<base>/temp/<site>/<author>_<name>` |
| Crawl.Start | src/noveler.rs:169-199 | the crawl starts with a balanced counter, nothing visited and nothing running, so every running download's URL is visited |
| Crawl.DownloadNovel | src/noveler.rs:169-262 | the coordinator loop run over a schedule ends exactly as the specified run of that schedule |
| Crawl.ReceiveTurn | src/noveler.rs:203-243 | receiving takes the next queued item: a visited URL spawns the `-1` placeholder, a new one is marked visited and spawns a download |
| Crawl.JoinTurn | src/noveler.rs:244-257 | joining applies the finished task's counter change, written file and queued items, or ends with its error |
| Crawl.Without | src/noveler.rs:244 | joining removes one task from the running set and adds none |
| Crawl.StepSurplus | src/noveler.rs:201-259 | every turn keeps `tasks` equal to queued plus running, except joining a panicked download, which leaves one too many |
| Crawl.BalancedStep | src/noveler.rs:201-259 | a turn that joins no panic keeps the counter balanced and non-negative |
| Crawl.BalancedExit | src/noveler.rs:201 | with a balanced counter the loop runs exactly while some item is queued or some task is unjoined |
| Crawl.FinishedIsEmpty | src/noveler.rs:201-261 | a run without panics that finishes has nothing queued and nothing running, with the counter at 0 |
| Crawl.SurplusNeverFinishes | src/noveler.rs:250-255 | once the counter exceeds the outstanding work, no schedule makes the loop finish |
| Crawl.PanicHangs | src/noveler.rs:250-255 | one panicked download makes the crawl unable to finish |
| Crawl.ErrorsAbort | src/noveler.rs:223-236 | a fetch error other than a timeout ends the crawl with that error; a timeout does not end it |
| Crawl.StepVisited | src/noveler.rs:204-210 | the visited set only grows, and only by the URL a receive dispatches to a download |
| Crawl.ReceiveVisited | src/noveler.rs:204-208 | an already visited URL only spawns a task whose join lowers the counter by one, whatever outcome the join carries |
| Crawl.StepWorkersVisited | src/noveler.rs:204-210 | every turn keeps the URL of each running download in the visited set |
| Crawl.RunWorkersVisited | src/noveler.rs:201-259 | every state the loop reaches keeps the URL of each running download in the visited set |
| Crawl.DispatchedOnce | src/noveler.rs:204-210 | every URL is downloaded at most once: the dispatched URLs are distinct and none was visited before |
| Crawl.TimeoutDropsChapter | src/noveler.rs:223-230 | in any state where running downloads' URLs are visited, a timeout re-queues the item with the counter unchanged and no file written, while the item's URL stays visited |
| Crawl.TimeoutNeverRefetched | src/noveler.rs:204-230 | after a timeout, no schedule of later turns ever spawns a new download of the timed-out URL |
| Crawl.TimeoutScenarioEnds | src/noveler.rs:204-230 | a one-chapter crawl whose fetch times out finishes with no file written: the chapter is dropped, not retried |
| Crawl.JoinFetched | src/noveler.rs:241 | joining a fetched page writes its file under the item's key and queues `<key>_n` exactly when the page has a next page |
| Crawl.StepKeepsFiles | src/noveler.rs:151 | a file, once written, is never removed by the crawl |
| Combine.LastIndexOf | src/noveler.rs:266 | the result is the position of the last occurrence of the character, or -1 when it does not occur |
| Combine.FileStem | src/noveler.rs:266 | the stem is a prefix of the file name |
| Combine.SetExtension | src/noveler.rs:266 | setting the extension changes only the last path component |
| Combine.SavePathOfLabel | src/noveler.rs:265-266 | a directory name without a dot gets `.txt` appended |
| Combine.CombinedBookPath | src/noveler.rs:264-268 | the combined book is saved as `<base>/temp/<site>/<author>_<name>.txt` |
| Combine.DottedLabelTruncated | src/noveler.rs:266 | a book label containing a dot loses its text after the last dot: `author_v1.5` is saved as `author_v1.txt` |
| Combine.SortUnstable | src/noveler.rs:272 | the file names end up sorted and are a permutation of the input |
| Combine.Insert | src/noveler.rs:272 | one insertion step extends the sorted prefix by one element and keeps the multiset of names |
| Combine.SwapStep | src/noveler.rs:272 | swapping the moving name past a larger neighbour keeps the names and keeps the rest of the prefix in order |
| Combine.SortedDistinct | src/noveler.rs:272 | sorted names without repeats are strictly sorted |
| Combine.SortedUnique | src/noveler.rs:270-272 | two strictly sorted lists of the same names are equal, so the order of `read_dir` does not matter |
| Combine.ReadDir | src/noveler.rs:270-271 | the directory listing names every file exactly once |
| Combine.AppendFiles | src/noveler.rs:273-283 | the copy loop yields each named file's content followed by a blank line, in the given order |
| Combine.CombineTxt | src/noveler.rs:264-287 | the output goes to the `.txt` path next to the directory and is every file's content plus a blank line, in strictly increasing name order, each file once |
| Combine.DistinctAfterSort | src/noveler.rs:272 | sorting a listing without repeats leaves no repeats |
| Combine.ContinuationFileAfter | src/noveler.rs:159 | a continuation page's file sorts right after its chapter's file, because '.' comes before '_' |
| Combine.TwoChapterOrder | src/noveler.rs:272 | for a chapter with one continuation page and a later chapter, the files sort as chapter, continuation, next chapter |
| Combine.TwoChapterCombined | src/noveler.rs:264-287 | combining such a book gives the chapter, its continuation, then the next chapter, each followed by a blank line |
| UUkanshu.GetBookInfo | src/noveler/uukanshu.rs:61-72 | the author is kept, and a name without "最新章節" or "最新章节" is kept unchanged |
| UUkanshu.BookNameOnePass | src/noveler/uukanshu.rs:66-67 | each removal is one left-to-right pass: "最新最新章節章節" keeps one "最新章節" |
| UUkanshu.GetChapterUrlsSorted | src/noveler/uukanshu.rs:74-87 | the chapter links come out in reverse page order, one per anchor, and collection fails exactly when some anchor has no usable href |
| UUkanshu.GetChapter | src/noveler/uukanshu.rs:89-98 | the chapter keeps its key and raw text, and its title is trimmed |
| UUkanshu.GetNextPage | src/noveler/uukanshu.rs:100-102 | chapters are single pages |
| UUkanshu.ProcessChapter | src/noveler/uukanshu.rs:104-125 | the key and title are kept; the text goes through the substitutions in order, then both line passes |
| UUkanshu.FirstPassShape | src/noveler/uukanshu.rs:111-116 | after the first pass no ideographic space, no-break space or carriage return is left, no line is blank, and the text is trimmed |
| UUkanshu.FirstPassFixedPoint | src/noveler/uukanshu.rs:111-116 | clean, trimmed lines joined by newlines pass the first pass unchanged |
| UUkanshu.SecondPassShape | src/noveler/uukanshu.rs:117-122 | the second pass leaves no doubled space, adds no character but '\n', and keeps text without blank lines free of them |
| UUkanshu.SecondPassFixedPoint | src/noveler/uukanshu.rs:117-122 | trimmed text without a doubled space passes the second pass unchanged |
| UUkanshu.NormalizeShape | src/noveler/uukanshu.rs:111-122 | the processed text has none of the dropped separators, no doubled space and no blank line |
| Hjwzw.GetBookInfo | src/noveler/hjwzw.rs:51-59 | the name is kept, and an author without the "作者 / " label is kept unchanged |
| Hjwzw.AuthorUnlabelled | src/noveler/hjwzw.rs:57 | a labelled author comes out as the bare name |
| Hjwzw.GetChapterUrlsSorted | src/noveler/hjwzw.rs:61-73 | one URL per anchor in page order, each the resolution of its href; collection fails exactly when some anchor has no usable href |
| Hjwzw.GetChapter | src/noveler/hjwzw.rs:75-86 | the chapter keeps its key and raw text, and its title is trimmed |
| Hjwzw.GetNextPage | src/noveler/hjwzw.rs:88-90 | chapters are single pages |
| Hjwzw.ProcessChapter | src/noveler/hjwzw.rs:92-106 | the key and title are kept; the text is cleaned, then run through the substitutions in order |
| Hjwzw.SiteReplacersIdentity | src/noveler/hjwzw.rs:27-31 | the site's one substitution (empty pattern, empty replacement) leaves the text unchanged |
| Hjwzw.CleanShape | src/noveler/hjwzw.rs:94-100 | the cleaned text has no carriage return and no blank line, and its lines are the input's non-blank trimmed lines minus the first two |
| Hjwzw.CleanTwice | src/noveler/hjwzw.rs:94-100 | cleaning is not idempotent: a second clean drops two more lines |
| Qbtr.GetBookInfo | src/noveler/qbtr.rs:51-58 | the name is kept, and an author without the "作者：" label is kept unchanged |
| Qbtr.AuthorUnlabelled | src/noveler/qbtr.rs:56 | a labelled author comes out as the bare name |
| Qbtr.GetChapterUrlsSorted | src/noveler/qbtr.rs:60-72 | one URL per anchor in page order; collection fails exactly when some anchor has no usable href |
| Qbtr.GetChapter | src/noveler/qbtr.rs:74-88 | the title is trimmed; when no paragraph contains '\n', the text's lines are exactly the trimmed paragraphs (one empty line when there are none) |
| Qbtr.GetNextPage | src/noveler/qbtr.rs:90-92 | chapters are single pages |
| Qbtr.ProcessChapter | src/noveler/qbtr.rs:94-109 | the key and title are kept; the text goes through the substitutions in order, then the clean-up |
| Qbtr.CleanShape | src/noveler/qbtr.rs:100-106 | the cleaned text has no blank line, and its lines are the input's non-blank trimmed lines minus the first two |
| Qbtr.CleanTwice | src/noveler/qbtr.rs:100-106 | cleaning is not idempotent: a second clean drops two more lines |
| Qbtr.ChapterText | src/noveler/qbtr.rs:74-109 | when no paragraph contains '\n', a processed chapter is its non-empty trimmed paragraphs minus the first two, one per line |
| Qbtr.ChapterLines | src/noveler/qbtr.rs:82-84 | when the text's '\n'-separated lines are the trimmed paragraphs (as they are when no paragraph contains '\n'), its non-blank lines are exactly the non-empty trimmed paragraphs |
| Piaotia.GetBookInfo | src/noveler/piaotia.rs:45-56 | a missing author meta tag is the `NotFound("author content")` error; otherwise the author is kept, and a name without "最新章节" is kept unchanged |
| Piaotia.GetChapterUrlsSorted | src/noveler/piaotia.rs:58-70 | one URL per anchor in page order; collection fails exactly when some anchor has no usable href |
| Piaotia.GetChapter | src/noveler/piaotia.rs:72-86 | the text is the whole page, and a title without the book-name prefix is only trimmed |
| Piaotia.TitleWithoutBookName | src/noveler/piaotia.rs:74-79 | a title led by "射手凶猛 " keeps only the chapter's own title |
| Piaotia.GetNextPage | src/noveler/piaotia.rs:88-90 | chapters are single pages |
| Piaotia.CutFooter | src/noveler/piaotia.rs:17 | the result is a prefix of the text without the footer marker, and text without the marker is unchanged |
| Piaotia.CutHeader | src/noveler/piaotia.rs:17 | the result is a suffix of the text without the header marker, text without the marker is unchanged, and no footer marker is created |
| Piaotia.SiteReplacers | src/noveler/piaotia.rs:17-25 | the site's substitution list cuts the footer, then the header |
| Piaotia.StripIdempotent | src/noveler/piaotia.rs:94-96 | after the substitutions neither marker is left, so running them again changes nothing |
| Piaotia.ProcessChapter | src/noveler/piaotia.rs:92-106 | the key and title are kept; the text has footer and header cut, then the line clean-up |
| Piaotia.CleanShape | src/noveler/piaotia.rs:98-103 | the cleaned text has no no-break space and no blank line, and is trimmed |
| Piaotia.CleanIdempotent | src/noveler/piaotia.rs:98-103 | cleaning twice is cleaning once |
| Novel543.GetBookInfo | src/noveler/novel543.rs:39-46 | a name without " 章節列表" and an author without "作者 / " are kept unchanged |
| Novel543.AuthorUnlabelled | src/noveler/novel543.rs:44 | a labelled author comes out as the bare name |
| Novel543.GetChapterUrlsSorted | src/noveler/novel543.rs:48-60 | one URL per anchor in page order; collection fails exactly when some anchor has no usable href |
| Novel543.GetChapter | src/noveler/novel543.rs:62-71 | the chapter keeps its key and raw text, and its title is trimmed |
| Novel543.GetNextPage | src/noveler/novel543.rs:73-100 | each missing or unparsable link gives its own error; there is a next page exactly when the footer link contains the current page's address without ".html", and it is that link resolved |
| Novel543.SamePageIff | src/noveler/novel543.rs:95 | for a stem without dots, the test is plain containment of the stem |
| Novel543.LaterPageContinues | src/noveler/novel543.rs:95 | the chapter's later pages `<stem>_<k>.html` are recognised as its continuation |
| Novel543.Scrub | src/noveler/novel543.rs:106 | a scrubbed sentence has no '㱕', keeps its full stops, and still ends with '。' when the piece did |
| Novel543.ScrubAll | src/noveler/novel543.rs:106 | every sentence is scrubbed in place |
| Novel543.ProcessChapter | src/noveler/novel543.rs:102-111 | the key and title are kept; the text has no '㱕' and exactly the input's full stops |
| Novel543.ProcessedText | src/noveler/novel543.rs:103-109 | the joined lines have no '㱕' and exactly the input's '。' |
| Novel543.LinesShape | src/noveler/novel543.rs:103-109 | every line is non-empty with at most one '。', every line but the last holds exactly one '。' as its last character, and no '。' is lost |
| Novel543.LinesEnd | src/noveler/novel543.rs:103-107 | sentence pieces that end with '。', once scrubbed and with empty ones dropped, give lines that all end with '。' except possibly the last |
| Novel543.TotalCount | src/noveler/novel543.rs:103-107 | splitting after each '。', scrubbing and dropping empty pieces keeps every '。' |
| Czbooks.GetBookInfo | src/noveler/czbooks.rs:35-42 | the author is kept; the name loses every '《' and '》' and is otherwise kept |
| Czbooks.BracketedName | src/noveler/czbooks.rs:37 | a name in brackets comes out bare |
| Czbooks.GetChapterUrlsSorted | src/noveler/czbooks.rs:44-60 | each href is parsed with "https:" in front, one URL per anchor in page order; collection fails exactly when some anchor is missing or unparsable |
| Czbooks.GetChapter | src/noveler/czbooks.rs:62-76 | the chapter keeps its key and raw text, and a title without "《射手凶猛》" is only trimmed |
| Czbooks.TitleWithoutBookName | src/noveler/czbooks.rs:63-69 | a title led by the bracketed book name keeps only the chapter's own title |
| Czbooks.GetNextPage | src/noveler/czbooks.rs:78-80 | chapters are single pages |
| Czbooks.Replace | src/noveler/czbooks.rs:14-20 | the standard non-overlapping matching (for these two patterns the same as leftmost-first) replacement of "\u{3000}" by "" and "\n\n" by "\n" never lengthens the text |
| Czbooks.ReplaceShape | src/noveler/czbooks.rs:82-89 | the result has no ideographic space and no more newlines, and apart from spaces and newlines the text is unchanged |
| Czbooks.ReplaceFixedPoint | src/noveler/czbooks.rs:82-89 | text without ideographic spaces or doubled newlines is left as it is |
| Czbooks.NewlineRun | src/noveler/czbooks.rs:14-15 | a run of n newlines becomes (n+1)/2, so the pass halves runs rather than collapsing them |
| Czbooks.ThreeNewlines | src/noveler/czbooks.rs:14-15 | three newlines become two |
| Czbooks.SpaceBetweenNewlines | src/noveler/czbooks.rs:14-15 | an ideographic space between two newlines is deleted and the two newlines stay |
| Czbooks.ProcessChapter | src/noveler/czbooks.rs:82-89 | the key and title are kept; the text has no ideographic space and keeps every other character except newlines |

## Left out

- Concurrency: the tokio runtime, the channel of capacity 10, the
  semaphore that bounds parallel downloads (the per-site limit) and the
  join set. Interleavings are given as a schedule of receive and join
  events. The queue is unbounded and FIFO, so a send never blocks.
- Channel order: items come from three senders, the seeding loop, the
  continuation send of a saved chapter (`src/noveler.rs:158-163`) and the
  timeout re-send (`src/noveler.rs:226`). In the program their items can
  reach the channel in any relative order, and a re-sent item can arrive
  before its sender is joined. The model queues all seeds first and
  appends a worker's items when it is joined.
- Network: HTTP fetching, the three-minute client timeout, GBK/encoding
  detection and decoding (`get_html_and_fix_encoding`, `need_encoding`).
  A fetch is an outcome carried by each join event: a page, an error or a
  panic.
- HTML: parsing and CSS-selector extraction. The selected strings (titles,
  texts, hrefs, meta contents) are inputs of the site functions.
- URL parsing, joining and `make_relative` are function parameters; their
  own behaviour is not modelled.
- UU看書's seven regular expressions are a parameter list of text
  functions, not regex semantics. Piaotia's two regexes are modelled
  exactly as `CutFooter` and `CutHeader`; Hjwzw's empty pattern as the
  identity.
- Construction of the site objects (`new`): regex and Aho-Corasick build
  errors, UU看書's base URL clearing and its `CannotBeABase` error, and
  Qbtr's loop over its empty pattern list. The `expect("create … ok")`
  panics in `src/main.rs` are not modelled.
- The file system: the book directory is a map from file name to content.
  A write either succeeds or fails with an IO error, as a `writable` flag.
  `create_dir_all`, file creation errors in `combine_txt`, and reads that
  fail are not modelled.
- Console output (`println!`/`eprintln!`), command-line parsing, the
  current-executable directory and `main`'s final `expect`.
- `i32::try_from(urls.len())`: the counter is an unbounded integer.
- `Noveler.OrderKeyOrdered`: holds only below 100000 chapters, since the
  `{:05}` padding stops ordering keys from there on
  (`Noveler.OrderKeyOverflow`).
- `Combine.CombinedBookPath`: stated only for a book name and author
  without dots. `Combine.DottedLabelTruncated` shows what happens
  otherwise.
- Path components: the book label is treated as a single path component;
  a name containing '/' is not modelled.
- `Combine.SortUnstable`: the names are compared by code point, as Rust
  compares paths made of one normal component each.
- Tests that need the network are not modelled.
