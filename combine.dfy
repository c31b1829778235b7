/**
 * `combine_txt`: the book directory's files, sorted by name, concatenated into
 * one file next to the directory, each followed by a blank line.
 */
module Combine {
  import opened Strings
  import opened Noveler
  import opened Crawl

  // ---------------------------------------------------------------------------
  // The output path
  // ---------------------------------------------------------------------------

  /** Index of the last `c` in `s`, or -1 when there is none. */
  function LastIndexOf(s: string, c: char): (k: int)
    ensures -1 <= k < |s|
    ensures k >= 0 ==> s[k] == c
    ensures forall i :: k < i < |s| ==> s[i] != c
  {
    if s == [] then -1
    else if s[|s| - 1] == c then |s| - 1
    else LastIndexOf(s[..|s| - 1], c)
  }

  /**
   * `Path::file_stem`: the file name without its last extension; a name with
   * no dot, or whose only dot is the first character, is its own stem.
   */
  function FileStem(name: string): (stem: string)
    ensures |stem| <= |name| && stem == name[..|stem|]
  {
    var k := LastIndexOf(name, '.');
    if k <= 0 then name else name[..k]
  }

  /**
   * `PathBuf::set_extension`: the last component's extension is replaced by
   * `ext`; a path without a file name (empty, or ending in `..`) is unchanged.
   */
  function SetExtension(path: Path, ext: string): (r: Path)
    ensures |r| == |path|
    ensures path != [] ==> r[..|path| - 1] == path[..|path| - 1]
  {
    if path == [] || path[|path| - 1] == ".." then path
    else
      var name := path[|path| - 1];
      path[..|path| - 1] + [FileStem(name) + (if ext == "" then "" else "." + ext)]
  }

  /** A book dirName without a dot is saved as `<dirName>.txt` next to the book directory. */
  lemma SavePathOfLabel(parent: Path, dirName: string)
    requires Avoids(dirName, {'.'}) && dirName != ".."
    ensures SetExtension(parent + [dirName], "txt") == parent + [dirName + ".txt"]
  {
    var p := parent + [dirName];
    assert p[|p| - 1] == dirName;
    assert p[..|p| - 1] == parent;
    var k := LastIndexOf(dirName, '.');
    assert k == -1;
    assert FileStem(dirName) == dirName;
    assert dirName + ("." + "txt") == dirName + ".txt";
  }

  /** The combined book lands in `temp/<site>/<author>_<name>.txt`. */
  lemma CombinedBookPath(base: Path, site: string, book: Book)
    requires Avoids(book.author, {'.'}) && Avoids(book.name, {'.'})
    ensures SetExtension(BookDir(base, site, book), "txt") == base + ["temp", site, book.author + "_" + book.name + ".txt"]
  {
    var dirName := book.Label();
    assert dirName == book.author + "_" + book.name;
    forall i | 0 <= i < |dirName| ensures dirName[i] != '.' {
      if i < |book.author| {
        assert dirName[i] == book.author[i];
      } else if i > |book.author| {
        assert dirName[i] == book.name[i - |book.author| - 1];
      }
    }
    assert dirName[0] != '.';
    assert BookDir(base, site, book) == (base + ["temp", site]) + [dirName];
    SavePathOfLabel(base + ["temp", site], dirName);
  }

  /** A book name containing a dot loses everything after the last dot in the combined file's name. */
  lemma DottedLabelTruncated()
    ensures SetExtension(["temp", "site", "author_v1.5"], "txt") == ["temp", "site", "author_v1.txt"]
  {
    var name := "author_v1.5";
    assert name[..|name| - 1] == "author_v1.";
    assert LastIndexOf("author_v1.", '.') == 9;
    assert LastIndexOf(name, '.') == 9;
    assert FileStem(name) == "author_v1";
    var path := ["temp", "site", name];
    assert path[..2] == ["temp", "site"];
    assert "author_v1" + ("." + "txt") == "author_v1.txt";
    assert SetExtension(path, "txt") == ["temp", "site"] + ["author_v1.txt"];
  }

  // ---------------------------------------------------------------------------
  // Sorting the entries
  // ---------------------------------------------------------------------------

  /** Lexicographically non-decreasing order. */
  predicate LexLeq(a: string, b: string) {
    a == b || LexLess(a, b)
  }

  /** Every earlier element sorts no later than every later one. */
  predicate Sorted(s: seq<string>) {
    forall p, q :: 0 <= p < q < |s| ==> LexLeq(s[p], s[q])
  }

  /** Every earlier element sorts strictly before every later one. */
  predicate StrictlySorted(s: seq<string>) {
    forall p, q :: 0 <= p < q < |s| ==> LexLess(s[p], s[q])
  }

  lemma LexLeqTransitive(a: string, b: string, c: string)
    requires LexLeq(a, b) && LexLeq(b, c)
    ensures LexLeq(a, c)
  {
    if a != b && b != c {
      LexLessTransitive(a, b, c);
    }
  }

  /** `paths.sort_unstable()`: insertion sort in place. */
  method SortUnstable(a: array<string>)
    modifies a
    ensures Sorted(a[..])
    ensures multiset(a[..]) == multiset(old(a[..]))
  {
    for i := 0 to a.Length
      invariant forall p, q :: 0 <= p < q < i ==> LexLeq(a[p], a[q])
      invariant multiset(a[..]) == multiset(old(a[..]))
    {
      Insert(a, i);
    }
  }

  /** Moves `a[i]` left past every larger element, so that `a[..i + 1]` is in order. */
  method Insert(a: array<string>, i: nat)
    requires i < a.Length
    requires forall p, q :: 0 <= p < q < i ==> LexLeq(a[p], a[q])
    modifies a
    ensures forall p, q :: 0 <= p < q <= i ==> LexLeq(a[p], a[q])
    ensures multiset(a[..]) == multiset(old(a[..]))
  {
    var j := i;
    while j > 0 && LexLess(a[j], a[j - 1])
      invariant 0 <= j <= i
      invariant SortedAround(a[..], i, j)
      invariant multiset(a[..]) == multiset(old(a[..]))
    {
      ghost var before := a[..];
      a[j - 1], a[j] := a[j], a[j - 1];
      assert a[..] == before[j - 1 := before[j]][j := before[j - 1]];
      SwapStep(before, a[..], i, j);
      j := j - 1;
    }
    InsertionStep(a[..], i, j);
  }

  /**
   * The inner loop's invariant: `s[..i + 1]` is in order once the moving
   * element `s[j]` is set aside, and that element sorts no later than what
   * follows it.
   */
  predicate SortedAround(s: seq<string>, i: nat, j: nat)
    requires j <= i < |s|
  {
    (forall p, q :: 0 <= p < q <= i && q != j ==> LexLeq(s[p], s[q]))
    && (forall q :: j < q <= i ==> LexLeq(s[j], s[q]))
  }

  /** Swapping the moving element with a larger left neighbour keeps the inner loop's invariants. */
  lemma SwapStep(s: seq<string>, t: seq<string>, i: nat, j: nat)
    requires 0 < j <= i < |s|
    requires t == s[j - 1 := s[j]][j := s[j - 1]]
    requires SortedAround(s, i, j)
    requires LexLess(s[j], s[j - 1])
    ensures SortedAround(t, i, j - 1)
    ensures multiset(t) == multiset(s)
  {
    forall p, q | 0 <= p < q <= i && q != j - 1 ensures LexLeq(t[p], t[q]) {
      if q == j {
        if p < j - 1 {
          assert LexLeq(s[p], s[j - 1]);
        }
      } else if p == j - 1 {
        assert LexLeq(s[j], s[q]);
      } else if p == j {
        assert LexLeq(s[j - 1], s[q]);
      } else {
        assert LexLeq(s[p], s[q]);
      }
    }
  }

  /** Once the new element stops moving, the first `i + 1` elements are in order. */
  lemma InsertionStep(s: seq<string>, i: nat, j: nat)
    requires j <= i < |s|
    requires SortedAround(s, i, j)
    requires j > 0 ==> !LexLess(s[j], s[j - 1])
    ensures forall p, q :: 0 <= p < q <= i ==> LexLeq(s[p], s[q])
  {
    if j > 0 {
      LexLessTotal(s[j], s[j - 1]);
      forall p | 0 <= p < j ensures LexLeq(s[p], s[j]) {
        if p < j - 1 {
          LexLeqTransitive(s[p], s[j - 1], s[j]);
        }
      }
    }
  }

  /** Without repeated names, a sorted list is strictly sorted. */
  lemma SortedDistinct(s: seq<string>)
    requires Sorted(s)
    requires forall p, q :: 0 <= p < q < |s| ==> s[p] != s[q]
    ensures StrictlySorted(s)
  {
  }

  /**
   * A set of names has only one strictly sorted enumeration, so the combined
   * output does not depend on the order in which the directory was read.
   */
  lemma {:induction false} SortedUnique(a: seq<string>, b: seq<string>)
    requires StrictlySorted(a) && StrictlySorted(b)
    requires forall x :: x in a <==> x in b
    ensures a == b
  {
    if a != [] {
      assert a[0] in b;
    }
    if b != [] {
      assert b[0] in a;
    }
    if a != [] && b != [] {
      if a[0] != b[0] {
        var k :| 0 < k < |b| && b[k] == a[0];
        var m :| 0 < m < |a| && a[m] == b[0];
        LexLessAsymmetric(a[0], a[m]);
      }
      forall x ensures x in a[1..] <==> x in b[1..] {
        if x in a[1..] {
          var i :| 1 <= i < |a| && a[i] == x;
          LexLessIrreflexive(a[0]);
          assert x != a[0];
          assert x in b;
          var j :| 0 <= j < |b| && b[j] == x;
          assert j != 0;
          assert b[1..][j - 1] == x;
        }
        if x in b[1..] {
          var j :| 1 <= j < |b| && b[j] == x;
          LexLessIrreflexive(b[0]);
          assert x != b[0];
          assert x in a;
          var i :| 0 <= i < |a| && a[i] == x;
          assert i != 0;
          assert a[1..][i - 1] == x;
        }
      }
      SortedUnique(a[1..], b[1..]);
      assert a == [a[0]] + a[1..] && b == [b[0]] + b[1..];
    }
  }

  // ---------------------------------------------------------------------------
  // Concatenating
  // ---------------------------------------------------------------------------

  /** Each named file's content followed by a blank line, in the given order. */
  function Concatenated(files: Directory, names: seq<string>): string
    requires forall n :: n in names ==> n in files
  {
    if names == [] then "" else files[names[0]] + "\n\n" + Concatenated(files, names[1..])
  }

  /**
   * `combine_txt`: collect the directory entries (in whatever order the
   * directory yields them), sort them, and append each file's content and a
   * blank line; the output goes to the directory path with extension `txt`.
   */
  method CombineTxt(dir: Path, files: Directory) returns (savePath: Path, names: seq<string>, output: string)
    ensures savePath == SetExtension(dir, "txt")
    ensures StrictlySorted(names)
    ensures forall n :: n in names <==> n in files
    ensures output == Concatenated(files, names)
  {
    savePath := SetExtension(dir, "txt");
    var entries := ReadDir(files);
    var paths := new string[|entries|](i requires 0 <= i < |entries| => entries[i]);
    assert paths[..] == entries;
    SortUnstable(paths);
    names := paths[..];
    assert forall n :: n in names <==> n in multiset(entries);
    DistinctAfterSort(entries, names);
    SortedDistinct(names);
    output := AppendFiles(files, names);
  }

  /** `read_dir`: every name of the directory once, in an order the model does not fix. */
  method ReadDir(files: Directory) returns (entries: seq<string>)
    ensures forall n :: n in entries <==> n in files
    ensures forall p, q :: 0 <= p < q < |entries| ==> entries[p] != entries[q]
  {
    entries := [];
    var remaining := files.Keys;
    while remaining != {}
      invariant forall n :: n in entries ==> n in files && n !in remaining
      invariant forall n :: n in files ==> n in entries || n in remaining
      invariant remaining <= files.Keys
      invariant forall p, q :: 0 <= p < q < |entries| ==> entries[p] != entries[q]
      decreases |remaining|
    {
      var n :| n in remaining;
      entries := entries + [n];
      remaining := remaining - {n};
    }
  }

  /** The copy loop: each file's content, then a blank line. */
  method AppendFiles(files: Directory, names: seq<string>) returns (output: string)
    requires forall n :: n in names ==> n in files
    ensures output == Concatenated(files, names)
  {
    output := "";
    for i := 0 to |names|
      invariant output + Concatenated(files, names[i..]) == Concatenated(files, names)
    {
      assert names[i..][1..] == names[i + 1..];
      output := output + files[names[i]] + "\n\n";
    }
    assert names[|names|..] == [];
  }

  /** A permutation of a list without repeats has no repeats. */
  lemma DistinctAfterSort(entries: seq<string>, names: seq<string>)
    requires multiset(names) == multiset(entries)
    requires forall p, q :: 0 <= p < q < |entries| ==> entries[p] != entries[q]
    ensures forall p, q :: 0 <= p < q < |names| ==> names[p] != names[q]
  {
    forall x | x in multiset(entries) ensures multiset(entries)[x] == 1 {
      CountOnce(entries, x);
    }
    forall p, q | 0 <= p < q < |names| ensures names[p] != names[q] {
      if names[p] == names[q] {
        TwoOccurrences(names, p, q);
      }
    }
  }

  lemma {:induction false} CountOnce(s: seq<string>, x: string)
    requires forall p, q :: 0 <= p < q < |s| ==> s[p] != s[q]
    requires x in s
    ensures multiset(s)[x] == 1
  {
    var k :| 0 <= k < |s| && s[k] == x;
    assert s == s[..k] + [x] + s[k + 1..];
    assert x !in s[..k];
    assert x !in s[k + 1..];
    assert multiset(s) == multiset(s[..k]) + multiset{x} + multiset(s[k + 1..]);
  }

  lemma TwoOccurrences(s: seq<string>, p: nat, q: nat)
    requires p < q < |s| && s[p] == s[q]
    ensures multiset(s)[s[p]] >= 2
  {
    assert s == s[..q] + [s[q]] + s[q + 1..];
    assert s[p] in s[..q];
    assert multiset(s) == multiset(s[..q]) + multiset{s[q]} + multiset(s[q + 1..]);
  }

  // ---------------------------------------------------------------------------
  // A book of two chapters
  // ---------------------------------------------------------------------------

  /** Chapter `k1` with one continuation page and chapter `k2`, as saved on disk. */
  function TwoChapterBook(k1: string, k2: string, c1: string, c1n: string, c2: string): Directory {
    map[FileName(k1) := c1, FileName(ContinuationKey(k1)) := c1n, FileName(k2) := c2]
  }

  /** A continuation page's file sorts right after its chapter's file: '.' comes before '_'. */
  lemma ContinuationFileAfter(k: string)
    ensures LexLess(FileName(k), FileName(ContinuationKey(k)))
  {
    assert FileName(ContinuationKey(k)) == (k + "_n") + ".txt" == k + "_n.txt";
    assert LexLess(".txt", "_n.txt");
    LexLessCommonPrefix(k, ".txt", "_n.txt");
  }

  /** The order the sort must produce: a chapter, its continuation, then the next chapter. */
  lemma TwoChapterOrder(k1: string, k2: string)
    requires |k1| == |k2| && LexLess(k1, k2)
    ensures StrictlySorted([FileName(k1), FileName(ContinuationKey(k1)), FileName(k2)])
  {
    var f1, f1n, f2 := FileName(k1), FileName(ContinuationKey(k1)), FileName(k2);
    ContinuationFileAfter(k1);
    assert Continued(k1, 0) == k1;
    assert Continued(k1, 1) == ContinuationKey(Continued(k1, 0));
    assert Continued(k2, 0) == k2;
    KeyFilesOrdered(k1, k2, 1, 0);
    LexLessTransitive(f1, f1n, f2);
    var e := [f1, f1n, f2];
    assert LexLess(e[0], e[1]) && LexLess(e[1], e[2]) && LexLess(e[0], e[2]);
  }

  /** The three names, each content followed by a blank line. */
  lemma ThreeConcatenated(files: Directory, a: string, b: string, c: string)
    requires a in files && b in files && c in files
    ensures Concatenated(files, [a, b, c]) == files[a] + "\n\n" + files[b] + "\n\n" + files[c] + "\n\n"
  {
    var e := [a, b, c];
    assert e[1..] == [b, c] && [b, c][1..] == [c] && [c][1..] == [];
    assert Concatenated(files, []) == "";
    var z := Concatenated(files, [c]);
    assert z == files[c] + "\n\n" + Concatenated(files, []);
    assert z == files[c] + "\n\n";
    var y := Concatenated(files, [b, c]);
    assert y == files[b] + "\n\n" + z;
    assert Concatenated(files, e) == files[a] + "\n\n" + y;
  }

  /** The book's files are exactly the three names, each holding its own content. */
  lemma TwoChapterFiles(k1: string, k2: string, c1: string, c1n: string, c2: string)
    requires |k1| == |k2| && LexLess(k1, k2)
    ensures forall n :: n in TwoChapterBook(k1, k2, c1, c1n, c2) <==> n in [FileName(k1), FileName(ContinuationKey(k1)), FileName(k2)]
    ensures TwoChapterBook(k1, k2, c1, c1n, c2)[FileName(k1)] == c1
    ensures TwoChapterBook(k1, k2, c1, c1n, c2)[FileName(ContinuationKey(k1))] == c1n
    ensures TwoChapterBook(k1, k2, c1, c1n, c2)[FileName(k2)] == c2
  {
    var f1, f1n, f2 := FileName(k1), FileName(ContinuationKey(k1)), FileName(k2);
    TwoChapterOrder(k1, k2);
    var e := [f1, f1n, f2];
    assert LexLess(e[0], e[1]) && LexLess(e[1], e[2]) && LexLess(e[0], e[2]);
    LexLessIrreflexive(f1);
    LexLessIrreflexive(f1n);
    assert f1 != f1n && f1n != f2 && f1 != f2;
  }

  /**
   * However the directory is read, the combined text is the first chapter,
   * its continuation, then the second chapter, each followed by a blank line.
   */
  lemma TwoChapterCombined(names: seq<string>, k1: string, k2: string, c1: string, c1n: string, c2: string)
    requires |k1| == |k2| && LexLess(k1, k2)
    requires StrictlySorted(names)
    requires forall n :: n in names <==> n in TwoChapterBook(k1, k2, c1, c1n, c2)
    ensures Concatenated(TwoChapterBook(k1, k2, c1, c1n, c2), names) == c1 + "\n\n" + c1n + "\n\n" + c2 + "\n\n"
  {
    var book := TwoChapterBook(k1, k2, c1, c1n, c2);
    var f1, f1n, f2 := FileName(k1), FileName(ContinuationKey(k1)), FileName(k2);
    TwoChapterOrder(k1, k2);
    TwoChapterFiles(k1, k2, c1, c1n, c2);
    SortedUnique(names, [f1, f1n, f2]);
    ThreeConcatenated(book, f1, f1n, f2);
  }
}
