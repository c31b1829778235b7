/**
 * The coordinator loop of `download_novel` as a sequential state machine.
 *
 * The coordinator owns the queue of `(order, url)` items, the set of URLs it
 * has already dispatched, the signed counter `tasks`, the tasks it has
 * spawned and not yet joined, and (through the workers) the book directory.
 * Each turn of `while tasks > 0` performs one of two atomic events: receive
 * the next queued item, or join one finished task and apply its effect. The
 * environment (network, pages, scheduler) is the `schedule` of events, each
 * join carrying what the worker's fetch produced.
 */
module Crawl {
  import opened Strings
  import opened Noveler

  /** A file-system path, one component per element. */
  type Path = seq<string>

  /** `dir.join("temp").join(<site>).join(<book>)`. */
  function BookDir(base: Path, site: string, book: Book): (p: Path)
    ensures |p| == |base| + 3 && p[..|base|] == base
    ensures p[|base|..] == ["temp", site, book.author + "_" + book.name]
  {
    base + ["temp", site, book.Label()]
  }

  /** A spawned task: the placeholder for an already-seen URL, or a download of one item. */
  datatype Task = Duplicate | Worker(item: WorkItem)

  /** What a worker's `process_url` produced: the page's title, text and next page, or an error. */
  datatype Outcome =
    | Fetched(title: string, text: string, next: Option<Url>, writable: bool)
    | Failed(error: NovelError)
    | Panicked

  /** One turn of the loop. */
  datatype Event = Receive | Join(index: nat, outcome: Outcome)

  /** The coordinator's state. */
  datatype Crawl = Crawl(
    dir: Path,
    queue: seq<WorkItem>,
    visited: set<Url>,
    tasks: int,
    running: seq<Task>,
    files: Directory)

  /** What a finished task hands to the join: its delta or error, the directory, items it re-queued. */
  datatype WorkerResult = Panic | Done(result: Result<int>, files: Directory, sent: seq<WorkItem>)

  /**
   * The task spawned for a new item: a timeout re-sends the item and reports 0,
   * any other fetch error is returned, a fetched page is saved.
   */
  function Work(item: WorkItem, outcome: Outcome, files: Directory): WorkerResult {
    match outcome
    case Panicked => Panic
    case Failed(e) =>
      if e == ReqwestError(true) then Done(Ok(0), files, [item]) else Done(Err(e), files, [])
    case Fetched(title, text, next, writable) =>
      match SaveTask(Chapter(item.order, title, text), next, files, writable)
      case Err(e) => Done(Err(e), files, [])
      case Ok(s) => Done(Ok(s.delta), s.files, s.sent)
  }

  datatype StepResult = Continue(next: Crawl) | Abort(error: NovelError)

  /** The list of running tasks without the joined one. */
  function Without(running: seq<Task>, i: nat): (r: seq<Task>)
    requires i < |running|
    ensures |r| == |running| - 1
    ensures forall t :: t in r ==> t in running
  {
    running[..i] + running[i + 1..]
  }

  /** One turn of the loop; an event that is not enabled changes nothing. */
  function Step(c: Crawl, e: Event): StepResult {
    match e
    case Receive =>
      if c.queue == [] then Continue(c)
      else
        var item := c.queue[0];
        if item.url in c.visited then
          Continue(c.(queue := c.queue[1..], running := c.running + [Duplicate]))
        else
          Continue(c.(queue := c.queue[1..], visited := c.visited + {item.url}, running := c.running + [Worker(item)]))
    case Join(i, outcome) =>
      if i >= |c.running| then Continue(c)
      else
        var rest := Without(c.running, i);
        match c.running[i]
        case Duplicate => Continue(c.(tasks := c.tasks - 1, running := rest))
        case Worker(item) =>
          match Work(item, outcome, c.files)
          case Panic => Continue(c.(running := rest))
          case Done(result, files, sent) =>
            if result.Err? then Abort(result.error)
            else Continue(c.(tasks := c.tasks + result.value, running := rest, files := files, queue := c.queue + sent))
  }

  /** How the loop ends for a schedule. */
  datatype Ending = Finished(final: Crawl) | Aborted(error: NovelError) | Pending(last: Crawl)

  /** `while tasks > 0 { select! { ... } }` driven by a schedule of events. */
  function Run(c: Crawl, schedule: seq<Event>): Ending
    decreases |schedule|
  {
    if c.tasks <= 0 then Finished(c)
    else if schedule == [] then Pending(c)
    else
      match Step(c, schedule[0])
      case Abort(e) => Aborted(e)
      case Continue(c') => Run(c', schedule[1..])
  }

  /** The state before the loop: the book directory and the items `process_url_contents` queued. */
  function Start(base: Path, site: string, book: Result<Book>, chapterUrls: Result<seq<Url>>, existing: Directory)
    : (r: Result<Crawl>)
    ensures r.Ok? ==> Balanced(r.value) && r.value.visited == {} && r.value.running == []
    ensures r.Ok? ==> WorkersVisited(r.value)
  {
    if book.Err? then Err(book.error)
    else
      match ProcessUrlContents(chapterUrls, existing)
      case Err(e) => Err(e)
      case Ok(seed) => Ok(Crawl(BookDir(base, site, book.value), seed.queued, {}, seed.tasks, [], existing))
  }

  /** `download_novel` after the first page: the start state driven by the schedule. */
  function Download(base: Path, site: string, book: Result<Book>, chapterUrls: Result<seq<Url>>,
                    existing: Directory, schedule: seq<Event>): Ending
  {
    match Start(base, site, book, chapterUrls, existing)
    case Err(e) => Aborted(e)
    case Ok(c) => Run(c, schedule)
  }

  // ---------------------------------------------------------------------------
  // The loop itself
  // ---------------------------------------------------------------------------

  /**
   * `download_novel`: the coordinator loop, one event of the schedule per
   * turn; `Pending` when the schedule runs out while tasks remain.
   */
  method DownloadNovel(base: Path, site: string, book: Result<Book>, chapterUrls: Result<seq<Url>>,
                       existing: Directory, schedule: seq<Event>)
    returns (end: Ending)
    ensures end == Download(base, site, book, chapterUrls, existing, schedule)
  {
    var start := Start(base, site, book, chapterUrls, existing);
    if start.Err? {
      return Aborted(start.error);
    }
    var c := start.value;
    var k := 0;
    while c.tasks > 0
      invariant 0 <= k <= |schedule|
      invariant Run(c, schedule[k..]) == Run(start.value, schedule)
      decreases |schedule| - k
    {
      if k == |schedule| {
        return Pending(c);
      }
      assert schedule[k..][1..] == schedule[k + 1..];
      var r;
      if schedule[k].Receive? {
        r := ReceiveTurn(c);
      } else {
        r := JoinTurn(c, schedule[k].index, schedule[k].outcome);
      }
      if r.Abort? {
        return Aborted(r.error);
      }
      c := r.next;
      k := k + 1;
    }
    end := Finished(c);
  }

  /** The receive branch: take the next item; dispatch it unless its URL was seen. */
  method ReceiveTurn(c: Crawl) returns (r: StepResult)
    ensures r == Step(c, Receive)
  {
    var queue, visited, running := c.queue, c.visited, c.running;
    if |queue| > 0 {
      var item := queue[0];
      queue := queue[1..];
      if item.url in visited {
        running := running + [Duplicate];
      } else {
        visited := visited + {item.url};
        running := running + [Worker(item)];
      }
    }
    r := Continue(c.(queue := queue, visited := visited, running := running));
  }

  /** The join branch: apply the finished task's delta, or stop on its error. */
  method JoinTurn(c: Crawl, i: nat, outcome: Outcome) returns (r: StepResult)
    ensures r == Step(c, Join(i, outcome))
  {
    if i >= |c.running| {
      return Continue(c);
    }
    var tasks, queue, files := c.tasks, c.queue, c.files;
    var task := c.running[i];
    var running := c.running[..i] + c.running[i + 1..];
    match task {
      case Duplicate =>
        tasks := tasks - 1;
      case Worker(item) =>
        match outcome {
          case Panicked =>
          case Failed(e) =>
            if e == ReqwestError(true) {
              queue := queue + [item];
            } else {
              return Abort(e);
            }
          case Fetched(title, text, next, writable) =>
            var saved := ProcessSaveTask(Chapter(item.order, title, text), next, files, writable);
            if saved.Err? {
              return Abort(saved.error);
            }
            tasks := tasks + saved.value.delta;
            files := saved.value.files;
            queue := queue + saved.value.sent;
        }
    }
    r := Continue(c.(tasks := tasks, queue := queue, running := running, files := files));
  }

  // ---------------------------------------------------------------------------
  // The counter
  // ---------------------------------------------------------------------------

  /** How far `tasks` exceeds the work actually outstanding (queued plus spawned). */
  function Surplus(c: Crawl): int {
    c.tasks - |c.queue| - |c.running|
  }

  /** `tasks` counts exactly the queued items and the unjoined tasks. */
  predicate Balanced(c: Crawl) {
    Surplus(c) == 0
  }

  /** The event joins a download task that panicked. */
  predicate JoinsPanic(c: Crawl, e: Event) {
    e.Join? && e.index < |c.running| && c.running[e.index].Worker? && e.outcome.Panicked?
  }

  /**
   * Every event keeps the counter in step with the outstanding work, except
   * joining a panicked task: that removes a task but applies no delta.
   */
  lemma StepSurplus(c: Crawl, e: Event)
    requires Step(c, e).Continue?
    ensures Surplus(Step(c, e).next) == Surplus(c) + (if JoinsPanic(c, e) then 1 else 0)
  {
  }

  /** Every event that is enabled and joins no panic keeps the counter balanced. */
  lemma BalancedStep(c: Crawl, e: Event)
    requires Balanced(c) && Step(c, e).Continue? && !JoinsPanic(c, e)
    ensures Balanced(Step(c, e).next)
    ensures Step(c, e).next.tasks >= 0
  {
    StepSurplus(c, e);
  }

  /** With a balanced counter the loop goes on exactly while some item is queued or some task unjoined. */
  lemma BalancedExit(c: Crawl)
    requires Balanced(c)
    ensures c.tasks >= 0
    ensures c.tasks <= 0 <==> c.queue == [] && c.running == []
  {
  }

  /** A run without panics that finishes has processed everything it queued. */
  lemma {:induction false} FinishedIsEmpty(c: Crawl, schedule: seq<Event>)
    requires Balanced(c)
    requires NoPanic(c, schedule)
    requires Run(c, schedule).Finished?
    ensures Run(c, schedule).final.queue == [] && Run(c, schedule).final.running == []
    ensures Run(c, schedule).final.tasks == 0
    decreases |schedule|
  {
    if c.tasks > 0 {
      var c' := Step(c, schedule[0]).next;
      BalancedStep(c, schedule[0]);
      FinishedIsEmpty(c', schedule[1..]);
    }
  }

  /** No join of the schedule, from state `c`, hits a panicked task. */
  predicate NoPanic(c: Crawl, schedule: seq<Event>)
    decreases |schedule|
  {
    c.tasks <= 0 || schedule == [] ||
    (!JoinsPanic(c, schedule[0]) && (Step(c, schedule[0]).Continue? ==> NoPanic(Step(c, schedule[0]).next, schedule[1..])))
  }

  /**
   * After a panicked task the counter stays above the outstanding work, so
   * `tasks` never reaches 0 again: no schedule lets the loop finish.
   */
  lemma {:induction false} SurplusNeverFinishes(c: Crawl, schedule: seq<Event>)
    requires Surplus(c) > 0
    ensures !Run(c, schedule).Finished?
    decreases |schedule|
  {
    if schedule != [] && Step(c, schedule[0]).Continue? {
      StepSurplus(c, schedule[0]);
      SurplusNeverFinishes(Step(c, schedule[0]).next, schedule[1..]);
    }
  }

  /** So one panicked download makes the crawl unable to finish. */
  lemma PanicHangs(c: Crawl, i: nat, schedule: seq<Event>)
    requires Balanced(c) && c.tasks > 0 && i < |c.running| && c.running[i].Worker?
    ensures !Run(c, [Join(i, Panicked)] + schedule).Finished?
  {
    var e := Join(i, Panicked);
    StepSurplus(c, e);
    assert ([e] + schedule)[1..] == schedule;
    SurplusNeverFinishes(Step(c, e).next, schedule);
  }

  /** A fatal fetch error ends the crawl with that error; a timeout does not. */
  lemma ErrorsAbort(c: Crawl, i: nat, e: NovelError, schedule: seq<Event>)
    requires c.tasks > 0 && i < |c.running| && c.running[i].Worker?
    ensures e != ReqwestError(true) ==> Run(c, [Join(i, Failed(e))] + schedule) == Aborted(e)
    ensures e == ReqwestError(true) ==> Step(c, Join(i, Failed(e))).Continue?
  {
  }

  // ---------------------------------------------------------------------------
  // The visited set
  // ---------------------------------------------------------------------------

  /** The URLs the events of `schedule` send to a new download task, in order. */
  function Dispatched(c: Crawl, schedule: seq<Event>): seq<Url>
    decreases |schedule|
  {
    if c.tasks <= 0 || schedule == [] then []
    else
      var e := schedule[0];
      var here := if e.Receive? && c.queue != [] && c.queue[0].url !in c.visited then [c.queue[0].url] else [];
      match Step(c, e)
      case Abort(_) => here
      case Continue(c') => here + Dispatched(c', schedule[1..])
  }

  /** Every event keeps the visited set, adding only a URL it dispatches. */
  lemma StepVisited(c: Crawl, e: Event)
    requires Step(c, e).Continue?
    ensures c.visited <= Step(c, e).next.visited
    ensures e.Receive? && c.queue != [] && c.queue[0].url !in c.visited ==>
      Step(c, e).next.visited == c.visited + {c.queue[0].url} && Step(c, e).next.running == c.running + [Worker(c.queue[0])]
    ensures !(e.Receive? && c.queue != [] && c.queue[0].url !in c.visited) ==> Step(c, e).next.visited == c.visited
  {
  }

  /** Every running download is for a URL already in the visited set. */
  predicate WorkersVisited(c: Crawl) {
    forall t :: t in c.running && t.Worker? ==> t.item.url in c.visited
  }

  /** Every enabled event keeps each running download's URL in the visited set. */
  lemma StepWorkersVisited(c: Crawl, e: Event)
    requires WorkersVisited(c) && Step(c, e).Continue?
    ensures WorkersVisited(Step(c, e).next)
  {
    var c' := Step(c, e).next;
    forall t | t in c'.running && t.Worker? ensures t.item.url in c'.visited {
      StepVisited(c, e);
      if !(t in c.running) {
        assert e.Receive? && t == Worker(c.queue[0]) && c.queue[0].url !in c.visited;
      }
    }
  }

  /** The invariant holds in every state the loop reaches from a state that has it. */
  lemma {:induction false} RunWorkersVisited(c: Crawl, schedule: seq<Event>)
    requires WorkersVisited(c)
    ensures Run(c, schedule).Finished? ==> WorkersVisited(Run(c, schedule).final)
    ensures Run(c, schedule).Pending? ==> WorkersVisited(Run(c, schedule).last)
    decreases |schedule|
  {
    if c.tasks > 0 && schedule != [] && Step(c, schedule[0]).Continue? {
      StepWorkersVisited(c, schedule[0]);
      RunWorkersVisited(Step(c, schedule[0]).next, schedule[1..]);
    }
  }

  /** An item whose URL was already dispatched only spawns a task that reports -1. */
  lemma ReceiveVisited(c: Crawl)
    requires c.queue != [] && c.queue[0].url in c.visited
    ensures Step(c, Receive) == Continue(c.(queue := c.queue[1..], running := c.running + [Duplicate]))
    ensures forall o :: Step(Step(c, Receive).next, Join(|c.running|, o)).next.tasks == c.tasks - 1
  {
  }

  /**
   * Each URL is downloaded at most once: the dispatched URLs are distinct,
   * none was in the visited set beforehand, and all of them are in it after.
   */
  lemma {:induction false} DispatchedOnce(c: Crawl, schedule: seq<Event>)
    ensures forall u :: u in Dispatched(c, schedule) ==> u !in c.visited
    ensures forall i, j :: 0 <= i < j < |Dispatched(c, schedule)| ==> Dispatched(c, schedule)[i] != Dispatched(c, schedule)[j]
    decreases |schedule|
  {
    if c.tasks > 0 && schedule != [] {
      var e := schedule[0];
      var here := if e.Receive? && c.queue != [] && c.queue[0].url !in c.visited then [c.queue[0].url] else [];
      if Step(c, e).Continue? {
        var c' := Step(c, e).next;
        var rest := Dispatched(c', schedule[1..]);
        DispatchedOnce(c', schedule[1..]);
        StepVisited(c, e);
        assert Dispatched(c, schedule) == here + rest;
        forall u | u in here ensures u in c'.visited { }
      }
    }
  }

  /**
   * A timeout does not retry: the item goes back on the queue, but its URL is
   * already visited, so receiving it spawns no download; the chapter's file is
   * never written and the item only costs one -1.
   */
  lemma TimeoutDropsChapter(c: Crawl, i: nat)
    requires c.tasks > 0 && i < |c.running| && c.running[i].Worker?
    requires WorkersVisited(c)
    ensures Step(c, Join(i, Failed(ReqwestError(true)))).Continue?
    ensures var c' := Step(c, Join(i, Failed(ReqwestError(true)))).next;
      && c'.queue == c.queue + [c.running[i].item]
      && c'.tasks == c.tasks
      && c'.files == c.files
      && c.running[i].item.url in c'.visited
  {
    assert c.running[i] in c.running;
  }

  /** So whatever the schedule after the timeout, no new download of that URL is ever spawned. */
  lemma TimeoutNeverRefetched(c: Crawl, i: nat, schedule: seq<Event>)
    requires c.tasks > 0 && i < |c.running| && c.running[i].Worker?
    requires WorkersVisited(c)
    ensures c.running[i].item.url !in Dispatched(Step(c, Join(i, Failed(ReqwestError(true)))).next, schedule)
  {
    TimeoutDropsChapter(c, i);
    DispatchedOnce(Step(c, Join(i, Failed(ReqwestError(true)))).next, schedule);
  }

  /** The single-chapter crawl whose one download times out. */
  function TimeoutScenario(dir: Path, item: WorkItem): Crawl {
    Crawl(dir, [item], {}, 1, [], map[])
  }

  /** Receive, time out, receive the re-sent item, join its placeholder: the loop ends with no file. */
  lemma TimeoutScenarioEnds(dir: Path, item: WorkItem)
    ensures var schedule := [Receive, Join(0, Failed(ReqwestError(true))), Receive, Join(0, Panicked)];
      Run(TimeoutScenario(dir, item), schedule) == Finished(Crawl(dir, [], {item.url}, 0, [], map[]))
  {
    var schedule := [Receive, Join(0, Failed(ReqwestError(true))), Receive, Join(0, Panicked)];
    var c0 := TimeoutScenario(dir, item);
    var c1 := Crawl(dir, [], {item.url}, 1, [Worker(item)], map[]);
    var c2 := Crawl(dir, [item], {item.url}, 1, [], map[]);
    var c3 := Crawl(dir, [], {item.url}, 1, [Duplicate], map[]);
    var c4 := Crawl(dir, [], {item.url}, 0, [], map[]);
    // The last join is of the `-1` placeholder, whose outcome is ignored
    // (`ReceiveVisited`): it stands for no fetch at all.
    assert Step(c0, Receive) == Continue(c1);
    assert Step(c1, Join(0, Failed(ReqwestError(true)))) == Continue(c2);
    assert Step(c2, Receive) == Continue(c3);
    assert Step(c3, Join(0, Panicked)) == Continue(c4);
    assert schedule[1..][1..][1..][1..] == [];
  }

  // ---------------------------------------------------------------------------
  // Saving
  // ---------------------------------------------------------------------------

  /**
   * Joining a fetched page writes its file under the item's key and, when the
   * page has a next page, queues the continuation with key `order + "_n"`.
   */
  lemma JoinFetched(c: Crawl, i: nat, title: string, text: string, next: Option<Url>)
    requires i < |c.running| && c.running[i].Worker?
    ensures var item := c.running[i].item;
      var r := Step(c, Join(i, Fetched(title, text, next, true)));
      && r.Continue?
      && r.next.files == c.files[FileName(item.order) := title + "\n\n" + text]
      && r.next.queue == c.queue + (if next.Some? then [WorkItem(item.order + "_n", next.value)] else [])
      && r.next.tasks == c.tasks + (if next.Some? then 0 else -1)
  {
  }

  /** A file, once written, stays: joins only add or overwrite files. */
  lemma StepKeepsFiles(c: Crawl, e: Event)
    requires Step(c, e).Continue?
    ensures c.files.Keys <= Step(c, e).next.files.Keys
  {
  }
}
