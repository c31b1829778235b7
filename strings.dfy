/**
 * The Rust `str` operations that the crawler's text rules are built from:
 * `trim`, `split` on a set of characters and on a string, `split_inclusive`,
 * `join`, `replace`, `contains`, `starts_with`, and the byte-wise order in
 * which file names are sorted. Strings are sequences of Unicode scalar values,
 * so comparing code points is the same as comparing UTF-8 bytes.
 */
module Strings {

  // ---------------------------------------------------------------------------
  // Characters
  // ---------------------------------------------------------------------------

  /** Rust's `char::is_whitespace`: the Unicode White_Space property. */
  predicate IsWhitespace(c: char) {
    || c == ' '
    || ('\t' <= c <= '\r')
    || c == '\U{85}'
    || c == '\U{a0}'
    || c == '\U{1680}'
    || ('\U{2000}' <= c <= '\U{200a}')
    || c == '\U{2028}'
    || c == '\U{2029}'
    || c == '\U{202f}'
    || c == '\U{205f}'
    || c == '\U{3000}'
  }

  /** No character of `s` belongs to `bad`. */
  predicate Avoids(s: string, bad: set<char>) {
    forall i :: 0 <= i < |s| ==> s[i] !in bad
  }

  /** Avoiding a set of characters avoids every subset of it. */
  lemma AvoidsFewer(s: string, bad: set<char>, fewer: set<char>)
    requires Avoids(s, bad) && fewer <= bad
    ensures Avoids(s, fewer)
  {
  }

  /** `s` never has `a` immediately followed by `b`. */
  predicate NoPair(s: string, a: char, b: char) {
    forall i :: 0 <= i < |s| - 1 ==> !(s[i] == a && s[i + 1] == b)
  }

  /** Neither end of `s` is whitespace (vacuous for the empty string). */
  predicate IsTrimmed(s: string) {
    s != [] ==> !IsWhitespace(s[0]) && !IsWhitespace(s[|s| - 1])
  }

  /** Every line of `s` is non-empty: no leading, trailing or doubled '\n'. */
  predicate NoBlankLine(s: string) {
    && NoPair(s, '\n', '\n')
    && (s != [] ==> s[0] != '\n' && s[|s| - 1] != '\n')
  }

  /** Number of occurrences of `c` in `s`. */
  function Count(s: string, c: char): nat {
    if s == [] then 0 else (if s[0] == c then 1 else 0) + Count(s[1..], c)
  }

  lemma {:induction false} CountAppend(a: string, b: string, c: char)
    ensures Count(a + b, c) == Count(a, c) + Count(b, c)
  {
    if a == [] {
      assert a + b == b;
    } else {
      assert (a + b)[1..] == a[1..] + b;
      CountAppend(a[1..], b, c);
    }
  }

  lemma CountAvoided(s: string, c: char)
    requires Avoids(s, {c})
    ensures Count(s, c) == 0
  {
    if s != [] {
      assert Avoids(s[1..], {c});
      CountAvoided(s[1..], c);
    }
  }

  // ---------------------------------------------------------------------------
  // trim
  // ---------------------------------------------------------------------------

  /** `str::trim_start`: drops the leading whitespace; what remains is a suffix. */
  function TrimStart(s: string): (r: string)
    ensures |r| <= |s| && r == s[|s| - |r|..]
    ensures r != [] ==> !IsWhitespace(r[0])
    ensures forall i :: 0 <= i < |s| - |r| ==> IsWhitespace(s[i])
  {
    if s != [] && IsWhitespace(s[0]) then TrimStart(s[1..]) else s
  }

  /** `str::trim_end`: drops the trailing whitespace; what remains is a prefix. */
  function TrimEnd(s: string): (r: string)
    ensures |r| <= |s| && r == s[..|r|]
    ensures r != [] ==> !IsWhitespace(r[|r| - 1])
    ensures forall i :: |r| <= i < |s| ==> IsWhitespace(s[i])
  {
    if s != [] && IsWhitespace(s[|s| - 1]) then TrimEnd(s[..|s| - 1]) else s
  }

  /** `str::trim`. */
  function Trim(s: string): string {
    TrimEnd(TrimStart(s))
  }

  /** Trimming leaves a string that begins and ends with non-whitespace. */
  lemma TrimIsTrimmed(s: string)
    ensures IsTrimmed(Trim(s))
  {
    var t := TrimStart(s);
    var r := TrimEnd(t);
    if r != [] {
      assert r[0] == t[0];
    }
  }

  /** Trimming changes a string exactly when one of its ends is whitespace. */
  lemma TrimFixedPoint(s: string)
    ensures Trim(s) == s <==> IsTrimmed(s)
  {
    TrimIsTrimmed(s);
    if IsTrimmed(s) && s != [] {
      assert TrimStart(s) == s;
      assert TrimEnd(s) == s;
    }
  }

  /** `str::trim` is idempotent. */
  lemma TrimIdempotent(s: string)
    ensures Trim(Trim(s)) == Trim(s)
  {
    TrimIsTrimmed(s);
    TrimFixedPoint(Trim(s));
  }

  /** Trimming keeps a character-avoidance and a no-pair property of the input. */
  lemma TrimKeeps(s: string, bad: set<char>, a: char, b: char)
    ensures Avoids(s, bad) ==> Avoids(Trim(s), bad)
    ensures NoPair(s, a, b) ==> NoPair(Trim(s), a, b)
  {
    var off := TrimOffset(s);
    var r := Trim(s);
    if Avoids(s, bad) {
      forall i | 0 <= i < |r| ensures r[i] !in bad {
        assert r[i] == s[off + i];
      }
    }
    if NoPair(s, a, b) {
      forall i | 0 <= i < |r| - 1 ensures !(r[i] == a && r[i + 1] == b) {
        assert r[i] == s[off + i] && r[i + 1] == s[off + i + 1];
      }
    }
  }

  /** The trimmed string sits inside the original at some offset. */
  lemma TrimOffset(s: string) returns (off: nat)
    ensures off + |Trim(s)| <= |s|
    ensures forall i :: 0 <= i < |Trim(s)| ==> Trim(s)[i] == s[off + i]
  {
    var t := TrimStart(s);
    off := |s| - |t|;
  }

  /** A string ending in a non-whitespace character still ends in it after trimming. */
  lemma TrimKeepsLast(s: string, c: char)
    requires s != [] && s[|s| - 1] == c && !IsWhitespace(c)
    ensures Trim(s) != [] && Trim(s)[|Trim(s)| - 1] == c
  {
    var t := TrimStart(s);
    assert t != [] && t[|t| - 1] == s[|s| - 1];
    assert TrimEnd(t) == t;
  }

  /** Trimming removes whitespace only, so a non-whitespace character keeps its count. */
  lemma {:induction false} TrimCount(s: string, c: char)
    requires !IsWhitespace(c)
    ensures Count(Trim(s), c) == Count(s, c)
  {
    TrimStartCount(s, c);
    TrimEndCount(TrimStart(s), c);
  }

  lemma {:induction false} TrimStartCount(s: string, c: char)
    requires !IsWhitespace(c)
    ensures Count(TrimStart(s), c) == Count(s, c)
  {
    if s != [] && IsWhitespace(s[0]) {
      TrimStartCount(s[1..], c);
    }
  }

  lemma {:induction false} TrimEndCount(s: string, c: char)
    requires !IsWhitespace(c)
    ensures Count(TrimEnd(s), c) == Count(s, c)
  {
    if s != [] && IsWhitespace(s[|s| - 1]) {
      var n := |s| - 1;
      assert s == s[..n] + [s[n]];
      CountAppend(s[..n], [s[n]], c);
      TrimEndCount(s[..n], c);
    }
  }

  // ---------------------------------------------------------------------------
  // split on characters, join
  // ---------------------------------------------------------------------------

  /**
   * `str::split` with a set of separator characters: the pieces between
   * separators, empty ones included; the empty string gives one empty piece.
   */
  function SplitChars(s: string, seps: set<char>): (r: seq<string>)
    ensures |r| >= 1
  {
    if s == [] then [""]
    else
      var rest := SplitChars(s[1..], seps);
      if s[0] in seps then [""] + rest
      else [[s[0]] + rest[0]] + rest[1..]
  }

  /** `[&str]::join`. */
  function Join(parts: seq<string>, sep: string): string {
    if |parts| == 0 then ""
    else if |parts| == 1 then parts[0]
    else parts[0] + sep + Join(parts[1..], sep)
  }

  /** `.filter(|s| !s.is_empty())`. */
  function NonEmpty(parts: seq<string>): (r: seq<string>)
    ensures forall p :: p in r ==> p in parts && p != ""
    ensures forall p :: p in parts && p != "" ==> p in r
  {
    if parts == [] then []
    else (if parts[0] == "" then [] else [parts[0]]) + NonEmpty(parts[1..])
  }

  /** `.map(str::trim)`. */
  function TrimAll(parts: seq<string>): (r: seq<string>) {
    seq(|parts|, i requires 0 <= i < |parts| => Trim(parts[i]))
  }

  /** The shared first stage of every site's clean-up: split, trim, drop empty pieces. */
  function Pieces(s: string, seps: set<char>): seq<string> {
    NonEmpty(TrimAll(SplitChars(s, seps)))
  }

  /** The pieces of a split contain no separator, and nothing the input avoided. */
  lemma {:induction false} SplitCharsAvoid(s: string, seps: set<char>, bad: set<char>)
    ensures forall p :: p in SplitChars(s, seps) ==> Avoids(p, seps)
    ensures Avoids(s, bad) ==> forall p :: p in SplitChars(s, seps) ==> Avoids(p, bad)
  {
    if s != [] {
      SplitCharsAvoid(s[1..], seps, bad);
      var rest := SplitChars(s[1..], seps);
      assert rest[0] in rest;
      forall p | p in rest[1..] ensures p in rest { }
    }
  }

  /** What `Pieces` produces: non-empty, trimmed pieces free of separators. */
  lemma PiecesShape(s: string, seps: set<char>, bad: set<char>)
    ensures forall p :: p in Pieces(s, seps) ==> p != "" && IsTrimmed(p) && Avoids(p, seps)
    ensures Avoids(s, bad) ==> forall p :: p in Pieces(s, seps) ==> Avoids(p, bad)
  {
    var parts := SplitChars(s, seps);
    SplitCharsAvoid(s, seps, bad);
    var trimmed := TrimAll(parts);
    forall i | 0 <= i < |trimmed|
      ensures IsTrimmed(trimmed[i]) && Avoids(trimmed[i], seps)
      ensures Avoids(s, bad) ==> Avoids(trimmed[i], bad)
    {
      assert parts[i] in parts;
      TrimIsTrimmed(parts[i]);
      TrimKeeps(parts[i], seps, ' ', ' ');
      TrimKeeps(parts[i], bad, ' ', ' ');
    }
  }

  /** A split piece free of separators followed by a separator splits off as one piece. */
  lemma {:induction false} SplitCharsAfter(p: string, c: char, t: string, seps: set<char>)
    requires Avoids(p, seps) && c in seps
    ensures SplitChars(p + [c] + t, seps) == [p] + SplitChars(t, seps)
  {
    if p == [] {
      assert [c] + t == p + [c] + t;
      assert ([c] + t)[1..] == t;
    } else {
      assert (p + [c] + t)[1..] == p[1..] + [c] + t;
      SplitCharsAfter(p[1..], c, t, seps);
      assert [p[0]] + p[1..] == p;
    }
  }

  /** A string free of separators splits into itself. */
  lemma {:induction false} SplitCharsNone(p: string, seps: set<char>)
    requires Avoids(p, seps)
    ensures SplitChars(p, seps) == [p]
  {
    if p != [] {
      SplitCharsNone(p[1..], seps);
      assert [p[0]] + p[1..] == p;
    }
  }

  /** Round trip: joining separator-free pieces with a separator and splitting again. */
  lemma {:induction false} SplitJoin(ps: seq<string>, c: char, seps: set<char>)
    requires |ps| >= 1 && c in seps
    requires forall p :: p in ps ==> Avoids(p, seps)
    ensures SplitChars(Join(ps, [c]), seps) == ps
  {
    assert ps[0] in ps;
    if |ps| == 1 {
      SplitCharsNone(ps[0], seps);
    } else {
      forall p | p in ps[1..] ensures Avoids(p, seps) { assert p in ps; }
      SplitJoin(ps[1..], c, seps);
      SplitCharsAfter(ps[0], c, Join(ps[1..], [c]), seps);
    }
  }

  /**
   * Round trip for the clean-up stage: lines that are already non-empty,
   * trimmed and free of separators come back unchanged from `Pieces` after
   * being joined with '\n'.
   */
  lemma PiecesOfJoin(ps: seq<string>, seps: set<char>)
    requires '\n' in seps
    requires forall p :: p in ps ==> p != "" && IsTrimmed(p) && Avoids(p, seps)
    ensures Pieces(Join(ps, "\n"), seps) == ps
  {
    if ps == [] {
      assert TrimAll([""]) == [""];
    } else {
      SplitJoin(ps, '\n', seps);
      var t := TrimAll(ps);
      forall i | 0 <= i < |ps| ensures t[i] == ps[i] {
        assert ps[i] in ps;
        TrimFixedPoint(ps[i]);
      }
      assert t == ps;
      NonEmptyOfNonEmpty(ps);
    }
  }

  lemma {:induction false} NonEmptyOfNonEmpty(ps: seq<string>)
    requires forall p :: p in ps ==> p != ""
    ensures NonEmpty(ps) == ps
  {
    if ps != [] {
      assert ps[0] in ps;
      forall p | p in ps[1..] ensures p != "" { assert p in ps; }
      NonEmptyOfNonEmpty(ps[1..]);
      assert [ps[0]] + ps[1..] == ps;
    }
  }

  /** Joining keeps every character the pieces and the separator avoid out of the result. */
  lemma {:induction false} JoinAvoids(ps: seq<string>, sep: string, bad: set<char>)
    requires forall p :: p in ps ==> Avoids(p, bad)
    requires Avoids(sep, bad)
    ensures Avoids(Join(ps, sep), bad)
  {
    if |ps| > 1 {
      assert ps[0] in ps;
      forall p | p in ps[1..] ensures Avoids(p, bad) { assert p in ps; }
      JoinAvoids(ps[1..], sep, bad);
    } else if |ps| == 1 {
      assert ps[0] in ps;
    }
  }

  /**
   * Joining non-empty pieces with one character `c` creates the pair `a b`
   * only where a piece boundary would: so it cannot when the pieces avoid it
   * and their ends do not combine with `c` into it.
   */
  lemma {:induction false} JoinNoPair(ps: seq<string>, c: char, a: char, b: char)
    requires forall p :: p in ps ==> p != "" && NoPair(p, a, b)
    requires forall p :: p in ps ==> (c == b ==> p[|p| - 1] != a) && (c == a ==> p[0] != b)
    ensures NoPair(Join(ps, [c]), a, b)
  {
    if |ps| == 1 {
      assert ps[0] in ps;
    } else if |ps| > 1 {
      var p := ps[0];
      assert p in ps;
      forall q | q in ps[1..] ensures q in ps { }
      JoinNoPair(ps[1..], c, a, b);
      var t := Join(ps[1..], [c]);
      forall i | 0 <= i < |ps| - 1 ensures ps[1..][i] != [] { assert ps[i + 1] in ps; }
      JoinEnds(ps[1..], [c]);
      var s := p + [c] + t;
      assert s == Join(ps, [c]);
      forall i | 0 <= i < |s| - 1 ensures !(s[i] == a && s[i + 1] == b) {
        if i < |p| - 1 {
          assert s[i] == p[i] && s[i + 1] == p[i + 1];
        } else if i == |p| - 1 {
          assert s[i] == p[|p| - 1] && s[i + 1] == c;
        } else if i == |p| {
          assert s[i] == c && s[i + 1] == t[0] == ps[1][0];
          assert ps[1] in ps;
        } else {
          assert s[i] == t[i - |p| - 1] && s[i + 1] == t[i - |p|];
        }
      }
    }
  }

  /** A join of non-empty pieces starts with the first piece's first character and ends with the last piece's last. */
  lemma {:induction false} JoinEnds(ps: seq<string>, sep: string)
    requires |ps| >= 1 && forall i :: 0 <= i < |ps| ==> ps[i] != []
    ensures Join(ps, sep) != [] && Join(ps, sep)[0] == ps[0][0]
    ensures Join(ps, sep)[|Join(ps, sep)| - 1] == ps[|ps| - 1][|ps[|ps| - 1]| - 1]
  {
    if |ps| > 1 {
      JoinEnds(ps[1..], sep);
    }
  }

  /** Joining non-empty trimmed pieces free of '\n' with '\n' gives text with no blank line. */
  lemma JoinNoBlankLine(ps: seq<string>)
    requires forall p :: p in ps ==> p != "" && IsTrimmed(p) && NoPair(p, '\n', '\n')
    ensures NoBlankLine(Join(ps, "\n"))
    ensures IsTrimmed(Join(ps, "\n"))
  {
    JoinNoPair(ps, '\n', '\n', '\n');
    if |ps| >= 1 {
      assert ps[0] in ps && ps[|ps| - 1] in ps;
      forall i | 0 <= i < |ps| ensures ps[i] != [] { assert ps[i] in ps; }
      JoinEnds(ps, "\n");
    }
  }

  /** Text with no blank line splits on '\n' into non-empty lines only. */
  lemma NoBlankLineSegments(s: string)
    requires NoBlankLine(s) && s != ""
    ensures forall seg :: seg in SplitChars(s, {'\n'}) ==> seg != ""
  {
    LaterSegmentsNonEmpty(s);
    var r := SplitChars(s, {'\n'});
    assert r[0] != "" by {
      assert r[0] == [s[0]] + SplitChars(s[1..], {'\n'})[0];
    }
  }

  lemma {:induction false} LaterSegmentsNonEmpty(t: string)
    requires NoPair(t, '\n', '\n') && (t != [] ==> t[|t| - 1] != '\n')
    ensures forall k :: 1 <= k < |SplitChars(t, {'\n'})| ==> SplitChars(t, {'\n'})[k] != ""
  {
    if t != [] {
      var u := t[1..];
      assert NoPair(u, '\n', '\n') by {
        forall i | 0 <= i < |u| - 1 ensures !(u[i] == '\n' && u[i + 1] == '\n') {
          assert u[i] == t[i + 1] && u[i + 1] == t[i + 2];
        }
      }
      LaterSegmentsNonEmpty(u);
      var r := SplitChars(u, {'\n'});
      if t[0] == '\n' {
        assert u != [] && u[0] != '\n';
        assert r[0] == [u[0]] + SplitChars(u[1..], {'\n'})[0];
      }
    }
  }

  /**
   * Pieces split at a set of separators that includes '\n', joined back with
   * '\n': no other separator survives, and no line is blank.
   */
  lemma JoinPiecesShape(s: string, seps: set<char>)
    requires '\n' in seps
    ensures Avoids(Join(Pieces(s, seps), "\n"), seps - {'\n'})
    ensures NoBlankLine(Join(Pieces(s, seps), "\n")) && IsTrimmed(Join(Pieces(s, seps), "\n"))
  {
    var ps := Pieces(s, seps);
    PiecesShape(s, seps, {});
    forall p | p in ps ensures Avoids(p, seps - {'\n'}) && NoPair(p, '\n', '\n') {
      AvoidsNoPair(p, seps);
    }
    JoinAvoids(ps, "\n", seps - {'\n'});
    JoinNoBlankLine(ps);
  }

  lemma AvoidsNoPair(p: string, seps: set<char>)
    requires '\n' in seps && Avoids(p, seps)
    ensures Avoids(p, seps - {'\n'}) && NoPair(p, '\n', '\n')
  {
    forall i | 0 <= i < |p| - 1 ensures p[i] != '\n' { }
  }

  /** `Iterator::skip(n)`: everything after the first `n` elements, or nothing. */
  function Drop<T>(xs: seq<T>, n: nat): (r: seq<T>)
    ensures |r| == if |xs| <= n then 0 else |xs| - n
    ensures forall i :: 0 <= i < |r| ==> r[i] == xs[i + n]
  {
    if |xs| <= n then [] else xs[n..]
  }

  /** Skipping twice skips the sum. */
  lemma DropDrop<T>(xs: seq<T>, m: nat, n: nat)
    ensures Drop(Drop(xs, m), n) == Drop(xs, m + n)
  {
    if |xs| > m + n {
      assert Drop(Drop(xs, m), n) == xs[m..][n..];
    }
  }

  /**
   * Pieces with the first `n` skipped, joined with '\n': splitting the result
   * again gives back exactly those pieces, no separator other than '\n'
   * survives, and no line is blank.
   */
  lemma JoinDropPieces(s: string, seps: set<char>, n: nat)
    requires '\n' in seps
    ensures Pieces(Join(Drop(Pieces(s, seps), n), "\n"), seps) == Drop(Pieces(s, seps), n)
    ensures Avoids(Join(Drop(Pieces(s, seps), n), "\n"), seps - {'\n'})
    ensures NoBlankLine(Join(Drop(Pieces(s, seps), n), "\n"))
    ensures IsTrimmed(Join(Drop(Pieces(s, seps), n), "\n"))
  {
    var kept := Drop(Pieces(s, seps), n);
    DropPiecesShape(s, seps, n);
    PiecesOfJoin(kept, seps);
    JoinAvoids(kept, "\n", seps - {'\n'});
    JoinNoBlankLine(kept);
  }

  /** The pieces left after skipping some are still non-empty, trimmed and free of separators. */
  lemma DropPiecesShape(s: string, seps: set<char>, n: nat)
    requires '\n' in seps
    ensures forall p :: p in Drop(Pieces(s, seps), n) ==>
      && p != "" && IsTrimmed(p) && Avoids(p, seps)
      && Avoids(p, seps - {'\n'}) && NoPair(p, '\n', '\n')
  {
    var ps := Pieces(s, seps);
    var kept := Drop(ps, n);
    PiecesShape(s, seps, {});
    forall p | p in kept
      ensures p != "" && IsTrimmed(p) && Avoids(p, seps)
      ensures Avoids(p, seps - {'\n'}) && NoPair(p, '\n', '\n')
    {
      var i :| 0 <= i < |kept| && kept[i] == p;
      assert ps[i + n] in ps;
      AvoidsNoPair(p, seps);
    }
  }

  /** Joining trimmed non-empty pieces creates no doubled space. */
  lemma JoinNoDoubleSpace(ps: seq<string>)
    requires forall p :: p in ps ==> p != "" && IsTrimmed(p) && NoPair(p, ' ', ' ')
    ensures NoPair(Join(ps, "\n"), ' ', ' ')
  {
    JoinNoPair(ps, '\n', ' ', ' ');
  }

  /** Counting a character that is not the separator: a join adds no occurrence. */
  lemma {:induction false} JoinCount(ps: seq<string>, sep: string, c: char)
    requires Avoids(sep, {c})
    ensures Count(Join(ps, sep), c) == SumCount(ps, c)
  {
    if |ps| == 1 {
      assert ps[1..] == [];
    } else if |ps| > 1 {
      JoinCount(ps[1..], sep, c);
      CountAppend(ps[0] + sep, Join(ps[1..], sep), c);
      CountAppend(ps[0], sep, c);
      CountAvoided(sep, c);
    }
  }

  /** Total number of occurrences of `c` over a list of pieces. */
  function SumCount(ps: seq<string>, c: char): nat {
    if ps == [] then 0 else Count(ps[0], c) + SumCount(ps[1..], c)
  }

  /** Dropping empty pieces does not change the total count. */
  lemma {:induction false} NonEmptySumCount(ps: seq<string>, c: char)
    ensures SumCount(NonEmpty(ps), c) == SumCount(ps, c)
  {
    if ps != [] {
      NonEmptySumCount(ps[1..], c);
      if ps[0] != "" {
        assert NonEmpty(ps) == [ps[0]] + NonEmpty(ps[1..]);
        assert (NonEmpty(ps))[1..] == NonEmpty(ps[1..]);
      } else {
        assert NonEmpty(ps) == NonEmpty(ps[1..]);
        assert Count(ps[0], c) == 0;
      }
    }
  }

  /** `Concat` of pieces: the total count is the count in the concatenation. */
  function Concat(ps: seq<string>): string {
    if ps == [] then "" else ps[0] + Concat(ps[1..])
  }

  lemma ConcatCons(x: string, rest: seq<string>)
    ensures Concat([x] + rest) == x + Concat(rest)
  {
    assert ([x] + rest)[1..] == rest;
  }

  lemma {:induction false} ConcatCount(ps: seq<string>, c: char)
    ensures Count(Concat(ps), c) == SumCount(ps, c)
  {
    if ps != [] {
      ConcatCount(ps[1..], c);
      CountAppend(ps[0], Concat(ps[1..]), c);
    }
  }

  // ---------------------------------------------------------------------------
  // Finding, splitting on and replacing a string pattern
  // ---------------------------------------------------------------------------

  /** `pat` occurs in `s` at index `j`. */
  predicate MatchAt(s: string, pat: string, j: int) {
    0 <= j && j + |pat| <= |s| && s[j..j + |pat|] == pat
  }

  lemma MatchAtShift(s: string, pat: string)
    requires s != []
    ensures forall j :: 1 <= j ==> (MatchAt(s, pat, j) <==> MatchAt(s[1..], pat, j - 1))
  {
    forall j | 1 <= j ensures MatchAt(s, pat, j) <==> MatchAt(s[1..], pat, j - 1) {
      if j + |pat| <= |s| {
        var a, b := s[j..j + |pat|], s[1..][j - 1..j - 1 + |pat|];
        forall k | 0 <= k < |pat| ensures a[k] == b[k] {
          assert a[k] == s[j + k] && b[k] == s[1..][j - 1 + k];
        }
        assert a == b;
      }
    }
  }

  /** Index of the leftmost occurrence of `pat` in `s`, or `|s|` when there is none. */
  function Find(s: string, pat: string): (i: nat)
    requires pat != ""
    ensures i <= |s|
    ensures i < |s| ==> i + |pat| <= |s|
  {
    if |s| < |pat| then |s|
    else if s[..|pat|] == pat then 0
    else 1 + Find(s[1..], pat)
  }

  /** `Find` gives a match, and no earlier position matches. */
  lemma {:induction false} FindSpec(s: string, pat: string)
    requires pat != ""
    ensures Find(s, pat) < |s| ==> MatchAt(s, pat, Find(s, pat))
    ensures forall j :: 0 <= j < Find(s, pat) ==> !MatchAt(s, pat, j)
    decreases |s|
  {
    if |s| >= |pat| && s[..|pat|] != pat {
      FindSpec(s[1..], pat);
      MatchAtShift(s, pat);
    }
  }

  /** A match inside a slice is a match in the whole string, shifted by the slice's start. */
  lemma MatchAtSlice(s: string, pat: string, lo: nat, hi: nat, j: nat)
    requires lo <= hi <= |s| && MatchAt(s[lo..hi], pat, j)
    ensures MatchAt(s, pat, lo + j)
  {
    forall k | 0 <= k < |pat| ensures s[lo + j + k] == pat[k] {
      assert s[lo..hi][j..j + |pat|][k] == pat[k];
    }
    assert s[lo + j..lo + j + |pat|] == pat;
  }

  /** The matches in a prefix are the matches in the whole string that end inside it. */
  lemma MatchAtPrefix(s: string, pat: string, n: nat)
    requires n <= |s|
    ensures forall j :: MatchAt(s[..n], pat, j) <==> MatchAt(s, pat, j) && j + |pat| <= n
  {
    forall j ensures MatchAt(s[..n], pat, j) <==> MatchAt(s, pat, j) && j + |pat| <= n {
      if 0 <= j && j + |pat| <= n {
        assert s[..n][j..j + |pat|] == s[j..j + |pat|];
      }
    }
  }

  /** Index of the rightmost occurrence of `pat` in `s`, or -1 when there is none. */
  function FindLast(s: string, pat: string): (i: int)
    requires pat != ""
    ensures -1 <= i
    ensures i >= 0 ==> MatchAt(s, pat, i)
    ensures forall j :: i < j ==> !MatchAt(s, pat, j)
  {
    if |s| < |pat| then -1
    else if MatchAt(s, pat, |s| - |pat|) then |s| - |pat|
    else
      MatchAtPrefix(s, pat, |s| - 1);
      FindLast(s[..|s| - 1], pat)
  }

  /** `str::contains`: the empty pattern is contained in every string. */
  predicate Contains(s: string, pat: string) {
    pat == [] || Find(s, pat) < |s|
  }

  /** A slice none of whose positions starts a match in `s` does not contain the pattern. */
  lemma NotContainsSlice(s: string, pat: string, lo: nat, hi: nat)
    requires pat != "" && lo <= hi <= |s|
    requires forall j :: lo <= j && j + |pat| <= hi ==> !MatchAt(s, pat, j)
    ensures !Contains(s[lo..hi], pat)
  {
    var k := Find(s[lo..hi], pat);
    FindSpec(s[lo..hi], pat);
    if k < hi - lo {
      MatchAtSlice(s, pat, lo, hi, k);
      assert false;
    }
  }

  /** A string without `c` contains no pattern that has `c` in it. */
  lemma AvoidsNotContains(s: string, pat: string, c: char)
    requires pat != "" && Avoids(s, {c}) && c in pat
    ensures !Contains(s, pat)
  {
    var k :| 0 <= k < |pat| && pat[k] == c;
    forall j | 0 <= j && j + |pat| <= |s| ensures !MatchAt(s, pat, j) {
      assert s[j..j + |pat|][k] == s[j + k];
    }
    NotContainsSlice(s, pat, 0, |s|);
    assert s[0..|s|] == s;
  }

  /** A match anywhere means the pattern is contained. */
  lemma ContainsAt(s: string, pat: string, j: nat)
    requires MatchAt(s, pat, j)
    ensures Contains(s, pat)
  {
    if pat != "" {
      var i := Find(s, pat);
      FindSpec(s, pat);
      assert i <= j;
    }
  }

  /** Removing a suffix pattern from a stem that cannot start a match of it. */
  lemma RemoveSuffix(stem: string, tag: string, c: char)
    requires tag != "" && tag[0] == c && Avoids(stem, {c})
    ensures ReplaceStr(stem + tag, tag, "") == stem
  {
    var s := stem + tag;
    forall j | 0 <= j < |stem| ensures !MatchAt(s, tag, j) {
      if j + |tag| <= |s| {
        assert s[j..j + |tag|][0] == s[j] == stem[j];
      }
    }
    assert s[|stem|..] == tag;
    assert MatchAt(s, tag, |stem|);
    FindSpec(s, tag);
    assert Find(s, tag) == |stem|;
    assert s[|stem| + |tag|..] == "";
    assert s[..|stem|] == stem;
  }

  /** `str::starts_with`. */
  predicate StartsWith(s: string, prefix: string) {
    |prefix| <= |s| && s[..|prefix|] == prefix
  }

  /** `str::split` with a string pattern: the pieces between non-overlapping, leftmost matches. */
  function SplitStr(s: string, pat: string): (r: seq<string>)
    requires pat != ""
    ensures |r| >= 1
    decreases |s|
  {
    var i := Find(s, pat);
    if i == |s| then [s] else [s[..i]] + SplitStr(s[i + |pat|..], pat)
  }

  /** Removing a tag that starts the string, and occurs nowhere else, leaves the rest. */
  lemma RemoveLeading(tag: string, rest: string)
    requires tag != "" && !Contains(rest, tag)
    ensures ReplaceStr(tag + rest, tag, "") == rest
  {
    var s := tag + rest;
    assert s[..|tag|] == tag;
    assert s[|tag|..] == rest;
    RemoveUnchanged(rest, tag);
  }

  /** A two-character pattern that never occurs leaves `split` with the whole string. */
  lemma NoPairSplit(s: string, a: char, b: char)
    requires NoPair(s, a, b)
    ensures SplitStr(s, [a, b]) == [s]
  {
    forall j | 0 <= j && j + 2 <= |s| ensures !MatchAt(s, [a, b], j) {
      assert s[j..j + 2][0] == s[j] && s[j..j + 2][1] == s[j + 1];
    }
    FindSpec(s, [a, b]);
  }

  /** `str::replace`: every non-overlapping, leftmost match of `pat` becomes `rep`, in one pass. */
  function ReplaceStr(s: string, pat: string, rep: string): string
    requires pat != ""
    decreases |s|
  {
    var i := Find(s, pat);
    if i == |s| then s else s[..i] + rep + ReplaceStr(s[i + |pat|..], pat, rep)
  }

  /** `replace` is `split` followed by `join` with the replacement. */
  lemma {:induction false} ReplaceIsSplitJoin(s: string, pat: string, rep: string)
    requires pat != ""
    ensures ReplaceStr(s, pat, rep) == Join(SplitStr(s, pat), rep)
    decreases |s|
  {
    var i := Find(s, pat);
    if i < |s| {
      var t := s[i + |pat|..];
      ReplaceIsSplitJoin(t, pat, rep);
      assert SplitStr(s, pat) == [s[..i]] + SplitStr(t, pat);
      assert |SplitStr(s, pat)| >= 2;
    }
  }

  /** Removing a pattern shortens the string by the pattern's length once per removed match. */
  lemma {:induction false} RemoveLength(s: string, pat: string)
    requires pat != ""
    ensures |s| - |ReplaceStr(s, pat, "")| == |pat| * (|SplitStr(s, pat)| - 1)
    decreases |s|
  {
    var i := Find(s, pat);
    if i < |s| {
      var t := s[i + |pat|..];
      RemoveLength(t, pat);
      SplitLength(s, pat, i);
      RemoveMatchStep(s, pat, i);
      var lr, lrt, n := |ReplaceStr(s, pat, "")|, |ReplaceStr(t, pat, "")|, |SplitStr(t, pat)| - 1;
      RemoveStep(|s|, lr, |t|, lrt, i, |pat|, n);
    }
  }

  /** One match found at `i`: the first piece is what precedes it. */
  lemma SplitStep(s: string, pat: string, i: nat)
    requires pat != "" && i == Find(s, pat) && i < |s|
    ensures SplitStr(s, pat) == [s[..i]] + SplitStr(s[i + |pat|..], pat)
  {
    var r := SplitStr(s, pat);
    assert r == [s[..i]] + SplitStr(s[i + |pat|..], pat);
  }

  /** One match found at `i`: splitting yields one more piece than splitting what follows it. */
  lemma SplitLength(s: string, pat: string, i: nat)
    requires pat != "" && i == Find(s, pat) && i < |s|
    ensures |SplitStr(s, pat)| == 1 + |SplitStr(s[i + |pat|..], pat)|
  {
    SplitStep(s, pat, i);
  }

  /** One match found at `i`: removal keeps the `i` characters before it. */
  lemma RemoveMatchStep(s: string, pat: string, i: nat)
    requires pat != "" && i == Find(s, pat) && i < |s|
    ensures |ReplaceStr(s, pat, "")| == i + |ReplaceStr(s[i + |pat|..], pat, "")|
  {
    var t := s[i + |pat|..];
    var rest := SplitStr(t, pat);
    ReplaceIsSplitJoin(s, pat, "");
    ReplaceIsSplitJoin(t, pat, "");
    SplitStep(s, pat, i);
    assert SplitStr(s, pat) == [s[..i]] + rest;
    JoinCons(s[..i], rest, "");
  }

  /** Joining a head onto a non-empty list puts the separator between them. */
  lemma JoinCons(head: string, rest: seq<string>, sep: string)
    requires rest != []
    ensures Join([head] + rest, sep) == head + sep + Join(rest, sep)
  {
    assert ([head] + rest)[1..] == rest;
  }

  /** The length arithmetic of one removed match. */
  lemma RemoveStep(ls: int, lr: int, lt: int, lrt: int, i: int, p: nat, n: nat)
    requires ls == i + p + lt && lr == i + lrt && lt - lrt == p * n
    ensures ls - lr == p * (n + 1)
  {
    MulSucc(p, n);
  }

  lemma MulSucc(p: nat, n: nat)
    ensures p * (n + 1) == p + p * n
  {
  }

  /** Removing a pattern leaves the string unchanged exactly when the pattern does not occur. */
  lemma RemoveUnchanged(s: string, pat: string)
    requires pat != ""
    ensures ReplaceStr(s, pat, "") == s <==> !Contains(s, pat)
  {
    RemoveLength(s, pat);
    if Contains(s, pat) {
      assert |SplitStr(s, pat)| >= 2;
      assert |pat| * (|SplitStr(s, pat)| - 1) >= |pat|;
    }
  }

  /** The pieces of a split on a two-character pattern never contain that pattern. */
  lemma {:induction false} SplitStrNoPair(s: string, a: char, b: char, bad: set<char>)
    ensures forall p :: p in SplitStr(s, [a, b]) ==> NoPair(p, a, b)
    ensures Avoids(s, bad) ==> forall p :: p in SplitStr(s, [a, b]) ==> Avoids(p, bad)
    ensures NoPair(s, '\n', '\n') ==> forall p :: p in SplitStr(s, [a, b]) ==> NoPair(p, '\n', '\n')
    decreases |s|
  {
    var pat := [a, b];
    var i := Find(s, pat);
    var head := s[..i];
    FindSpec(s, pat);
    forall j | 0 <= j < |head| - 1 ensures !(head[j] == a && head[j + 1] == b) {
      assert !MatchAt(s, pat, j);
      assert s[j..j + 2] == [s[j], s[j + 1]];
    }
    if i < |s| {
      SplitStrNoPair(s[i + 2..], a, b, bad);
      assert SplitStr(s, pat) == [head] + SplitStr(s[i + 2..], pat);
    }
  }

  // ---------------------------------------------------------------------------
  // split_inclusive, removing characters
  // ---------------------------------------------------------------------------

  /**
   * `str::split_inclusive` on a character: each piece ends just after an
   * occurrence of `c`, except a last piece with no `c`; no empty piece, and the
   * empty string gives no piece at all.
   */
  function SplitInclusive(s: string, c: char): (r: seq<string>)
    decreases |s|
  {
    if s == [] then []
    else
      var i := Find(s, [c]);
      if i == |s| then [s] else [s[..i + 1]] + SplitInclusive(s[i + 1..], c)
  }

  /** The first piece of `split_inclusive`: the prefix up to the first `c`, which it ends with. */
  lemma SplitInclusiveHead(s: string, c: char, i: nat)
    requires s != [] && i == Find(s, [c])
    ensures i < |s| ==> SplitInclusive(s, c) == [s[..i + 1]] + SplitInclusive(s[i + 1..], c) && s[i] == c
    ensures i == |s| ==> SplitInclusive(s, c) == [s]
    ensures Avoids(s[..i], {c})
  {
    SplitInclusiveUnfold(s, c, i);
    BeforeFirst(s, c, i);
    if i < |s| {
      FoundChar(s, c, i);
    }
  }

  /** One step of `split_inclusive`, with the position of the first `c` given. */
  lemma SplitInclusiveUnfold(s: string, c: char, i: nat)
    requires s != [] && i == Find(s, [c])
    ensures SplitInclusive(s, c) == if i == |s| then [s] else [s[..i + 1]] + SplitInclusive(s[i + 1..], c)
  {
  }

  /** A character found by `Find` is that character. */
  lemma FoundChar(s: string, c: char, i: nat)
    requires i == Find(s, [c]) && i < |s|
    ensures s[i] == c
  {
    FindSpec(s, [c]);
    assert s[i..i + 1] == [c];
  }

  /** No `c` comes before the first `c`. */
  lemma BeforeFirst(s: string, c: char, i: nat)
    requires i == Find(s, [c])
    ensures Avoids(s[..i], {c})
  {
    FindSpec(s, [c]);
    forall j | 0 <= j < i ensures s[j] != c {
      assert !MatchAt(s, [c], j);
      assert s[j..j + 1] == [s[j]];
    }
  }

  /**
   * The pieces of `split_inclusive` put back together give the input; each is
   * non-empty, and every piece but the last ends with `c`.
   */
  lemma SplitInclusiveShape(s: string, c: char)
    ensures Concat(SplitInclusive(s, c)) == s
    ensures forall p :: p in SplitInclusive(s, c) ==> p != ""
    ensures forall k :: 0 <= k < |SplitInclusive(s, c)| - 1 ==>
      SplitInclusive(s, c)[k] != [] && SplitInclusive(s, c)[k][|SplitInclusive(s, c)[k]| - 1] == c
  {
    SplitInclusiveConcat(s, c);
    SplitInclusiveNonEmpty(s, c);
    SplitInclusiveEnds(s, c);
  }

  lemma {:induction false} SplitInclusiveConcat(s: string, c: char)
    ensures Concat(SplitInclusive(s, c)) == s
    decreases |s|
  {
    if s != [] {
      var i := Find(s, [c]);
      SplitInclusiveHead(s, c, i);
      if i < |s| {
        var t := s[i + 1..];
        SplitInclusiveConcat(t, c);
        ConcatCons(s[..i + 1], SplitInclusive(t, c));
        assert s[..i + 1] + t == s;
      } else {
        ConcatCons(s, []);
      }
    }
  }

  lemma {:induction false} SplitInclusiveNonEmpty(s: string, c: char)
    ensures forall p :: p in SplitInclusive(s, c) ==> p != ""
    decreases |s|
  {
    if s != [] {
      var i := Find(s, [c]);
      SplitInclusiveHead(s, c, i);
      if i < |s| {
        SplitInclusiveNonEmpty(s[i + 1..], c);
      }
    }
  }

  lemma {:induction false} SplitInclusiveEnds(s: string, c: char)
    ensures forall k :: 0 <= k < |SplitInclusive(s, c)| - 1 ==>
      SplitInclusive(s, c)[k] != [] && SplitInclusive(s, c)[k][|SplitInclusive(s, c)[k]| - 1] == c
    decreases |s|
  {
    if s != [] {
      var i := Find(s, [c]);
      SplitInclusiveHead(s, c, i);
      if i < |s| {
        var t := s[i + 1..];
        SplitInclusiveEnds(t, c);
        var r := SplitInclusive(s, c);
        forall k | 1 <= k < |r| ensures r[k] == SplitInclusive(t, c)[k - 1] { }
      }
    }
  }

  /**
   * Each piece of `split_inclusive` holds at most one `c`, and every piece
   * but the last holds exactly one.
   */
  lemma SplitInclusiveCount(s: string, c: char)
    ensures forall p :: p in SplitInclusive(s, c) ==> Count(p, c) <= 1
    ensures forall k :: 0 <= k < |SplitInclusive(s, c)| - 1 ==> Count(SplitInclusive(s, c)[k], c) == 1
  {
    SplitInclusiveAtMostOne(s, c);
    SplitInclusiveExactlyOne(s, c);
  }

  /** The count of `c` in the first piece: none before the first `c`, one with it. */
  lemma HeadPieceCount(s: string, c: char)
    requires s != []
    ensures Count(s[..Find(s, [c])], c) == 0
    ensures Find(s, [c]) < |s| ==> Count(s[..Find(s, [c]) + 1], c) == 1
  {
    var i := Find(s, [c]);
    BeforeFirst(s, c, i);
    CountAvoided(s[..i], c);
    FindSpec(s, [c]);
    if i < |s| {
      assert MatchAt(s, [c], i);
      assert s[i..i + 1] == [c];
      assert s[..i + 1] == s[..i] + [c];
      CountAppend(s[..i], [c], c);
    }
  }

  lemma {:induction false} SplitInclusiveAtMostOne(s: string, c: char)
    ensures forall p :: p in SplitInclusive(s, c) ==> Count(p, c) <= 1
    decreases |s|
  {
    if s != [] {
      var i := Find(s, [c]);
      SplitInclusiveHead(s, c, i);
      HeadPieceCount(s, c);
      if i < |s| {
        SplitInclusiveAtMostOne(s[i + 1..], c);
      } else {
        assert s[..i] == s;
      }
    }
  }

  lemma {:induction false} SplitInclusiveExactlyOne(s: string, c: char)
    ensures forall k :: 0 <= k < |SplitInclusive(s, c)| - 1 ==> Count(SplitInclusive(s, c)[k], c) == 1
    decreases |s|
  {
    if s != [] {
      var i := Find(s, [c]);
      SplitInclusiveHead(s, c, i);
      HeadPieceCount(s, c);
      if i < |s| {
        var t := s[i + 1..];
        SplitInclusiveExactlyOne(t, c);
        var r := SplitInclusive(s, c);
        forall k | 1 <= k < |r| ensures r[k] == SplitInclusive(t, c)[k - 1] { }
      }
    }
  }

  /** Dropping empty pieces when only the last can be empty: all pieces, or all but the last. */
  lemma {:induction false} NonEmptyAllButLast(ps: seq<string>)
    requires forall k :: 0 <= k < |ps| - 1 ==> ps[k] != ""
    ensures NonEmpty(ps) == ps || (ps != [] && NonEmpty(ps) == ps[..|ps| - 1])
  {
    if |ps| == 1 {
      assert ps[1..] == [];
      assert NonEmpty(ps) == (if ps[0] == "" then [] else [ps[0]]) + NonEmpty([]);
    } else if |ps| > 1 {
      NonEmptyAllButLast(ps[1..]);
      assert NonEmpty(ps) == [ps[0]] + NonEmpty(ps[1..]);
      assert ps == [ps[0]] + ps[1..];
      if NonEmpty(ps[1..]) != ps[1..] {
        assert ps[..|ps| - 1] == [ps[0]] + ps[1..][..|ps[1..]| - 1];
      }
    }
  }

  /** When every piece but the last ends with `c`, so does every kept piece but the last. */
  lemma NonEmptyKeepsEnds(ps: seq<string>, c: char)
    requires forall k :: 0 <= k < |ps| - 1 ==> ps[k] != [] && ps[k][|ps[k]| - 1] == c
    ensures forall k :: 0 <= k < |NonEmpty(ps)| - 1 ==> NonEmpty(ps)[k] != [] && NonEmpty(ps)[k][|NonEmpty(ps)[k]| - 1] == c
  {
    NonEmptyAllButLast(ps);
    var r := NonEmpty(ps);
    if r != ps {
      forall k | 0 <= k < |r| - 1 ensures r[k] == ps[k] {
        assert r == ps[..|ps| - 1];
      }
    }
  }

  /** Pieces that pairwise hold the same number of `c` hold the same total. */
  lemma {:induction false} SumCountPointwise(ps: seq<string>, qs: seq<string>, c: char)
    requires |ps| == |qs|
    requires forall k :: 0 <= k < |ps| ==> Count(ps[k], c) == Count(qs[k], c)
    ensures SumCount(ps, c) == SumCount(qs, c)
  {
    if ps != [] {
      SumCountPointwise(ps[1..], qs[1..], c);
    }
  }

  /** `str::replace` with a set of characters and an empty replacement: deletes them. */
  function RemoveChars(s: string, cs: set<char>): (r: string) {
    if s == [] then []
    else (if s[0] in cs then [] else [s[0]]) + RemoveChars(s[1..], cs)
  }

  /** Deleting characters: none of them is left, and the others keep their order. */
  lemma {:induction false} RemoveCharsShape(s: string, cs: set<char>, bad: set<char>)
    ensures Avoids(RemoveChars(s, cs), cs)
    ensures |RemoveChars(s, cs)| <= |s|
    ensures Avoids(s, bad) ==> Avoids(RemoveChars(s, cs), bad)
    ensures forall c :: c !in cs ==> Count(RemoveChars(s, cs), c) == Count(s, c)
    ensures Avoids(s, cs) ==> RemoveChars(s, cs) == s
  {
    if s != [] {
      RemoveCharsShape(s[1..], cs, bad);
      var head := if s[0] in cs then [] else [s[0]];
      forall c | c !in cs ensures Count(RemoveChars(s, cs), c) == Count(s, c) {
        CountAppend(head, RemoveChars(s[1..], cs), c);
      }
      if Avoids(s, cs) {
        assert Avoids(s[1..], cs);
      }
    }
  }

  /** A last character that is not deleted stays last. */
  lemma {:induction false} RemoveCharsKeepsLast(s: string, cs: set<char>, c: char)
    requires s != [] && s[|s| - 1] == c && c !in cs
    ensures RemoveChars(s, cs) != [] && RemoveChars(s, cs)[|RemoveChars(s, cs)| - 1] == c
    decreases |s|
  {
    if |s| == 1 {
      assert RemoveChars(s, cs) == [c] + RemoveChars([], cs);
    } else {
      var head := if s[0] in cs then [] else [s[0]];
      RemoveCharsKeepsLast(s[1..], cs, c);
      assert RemoveChars(s, cs) == head + RemoveChars(s[1..], cs);
    }
  }

  /** Deleting characters distributes over concatenation. */
  lemma {:induction false} RemoveCharsAppend(a: string, b: string, cs: set<char>)
    ensures RemoveChars(a + b, cs) == RemoveChars(a, cs) + RemoveChars(b, cs)
    decreases |a|
  {
    if a == [] {
      assert a + b == b;
    } else {
      var ab := a + b;
      assert ab != [] && ab[0] == a[0] && ab[1..] == a[1..] + b;
      var h := if a[0] in cs then [] else [a[0]];
      var ra, rb := RemoveChars(a[1..], cs), RemoveChars(b, cs);
      RemoveCharsAppend(a[1..], b, cs);
      assert RemoveChars(ab, cs) == h + (ra + rb);
      assert RemoveChars(a, cs) == h + ra;
      assert h + (ra + rb) == (h + ra) + rb;
    }
  }

  /** Deleting characters is idempotent. */
  lemma RemoveCharsIdempotent(s: string, cs: set<char>)
    ensures RemoveChars(RemoveChars(s, cs), cs) == RemoveChars(s, cs)
  {
    RemoveCharsShape(s, cs, {});
    RemoveCharsShape(RemoveChars(s, cs), cs, {});
  }

  // ---------------------------------------------------------------------------
  // Lexicographic order (the order of `sort_unstable` on file names)
  // ---------------------------------------------------------------------------

  /** Strict lexicographic order on code points. */
  predicate LexLess(a: string, b: string)
    decreases |a|
  {
    |b| > 0 && (|a| == 0 || a[0] < b[0] || (a[0] == b[0] && LexLess(a[1..], b[1..])))
  }

  lemma {:induction false} LexLessIrreflexive(a: string)
    ensures !LexLess(a, a)
  {
    if |a| > 0 {
      LexLessIrreflexive(a[1..]);
    }
  }

  lemma {:induction false} LexLessAsymmetric(a: string, b: string)
    ensures LexLess(a, b) ==> !LexLess(b, a)
  {
    if |a| > 0 && |b| > 0 && a[0] == b[0] {
      LexLessAsymmetric(a[1..], b[1..]);
    }
  }

  lemma {:induction false} LexLessTransitive(a: string, b: string, c: string)
    requires LexLess(a, b) && LexLess(b, c)
    ensures LexLess(a, c)
  {
    if |a| > 0 && a[0] == b[0] && b[0] == c[0] {
      LexLessTransitive(a[1..], b[1..], c[1..]);
    }
  }

  lemma {:induction false} LexLessTotal(a: string, b: string)
    ensures a == b || LexLess(a, b) || LexLess(b, a)
  {
    if |a| > 0 && |b| > 0 && a[0] == b[0] {
      LexLessTotal(a[1..], b[1..]);
      if a[1..] == b[1..] {
        assert a == [a[0]] + a[1..] && b == [b[0]] + b[1..];
      }
    }
  }

  /** A proper prefix sorts first. */
  lemma {:induction false} LexLessPrefix(a: string, x: string)
    requires x != []
    ensures LexLess(a, a + x)
  {
    if a != [] {
      assert (a + x)[1..] == a[1..] + x;
      LexLessPrefix(a[1..], x);
    }
  }

  /** Strings of equal length in order stay in order whatever follows them. */
  lemma {:induction false} LexLessExtend(a: string, b: string, x: string, y: string)
    requires |a| == |b| && LexLess(a, b)
    ensures LexLess(a + x, b + y)
  {
    if a[0] == b[0] {
      assert (a + x)[1..] == a[1..] + x;
      assert (b + y)[1..] == b[1..] + y;
      LexLessExtend(a[1..], b[1..], x, y);
    }
  }

  /** A common prefix does not change the order. */
  lemma {:induction false} LexLessCommonPrefix(p: string, x: string, y: string)
    requires LexLess(x, y)
    ensures LexLess(p + x, p + y)
  {
    if p == [] {
      assert p + x == x && p + y == y;
    } else {
      assert (p + x)[1..] == p[1..] + x;
      assert (p + y)[1..] == p[1..] + y;
      LexLessCommonPrefix(p[1..], x, y);
    }
  }

  // ---------------------------------------------------------------------------
  // Sequences
  // ---------------------------------------------------------------------------

  /** `.rev()`. */
  function Reverse<T>(xs: seq<T>): (r: seq<T>)
    ensures |r| == |xs|
  {
    if xs == [] then [] else Reverse(xs[1..]) + [xs[0]]
  }

  /** The k-th element of the reversed list is the k-th from the end of the original. */
  lemma {:induction false} ReverseAt<T>(xs: seq<T>, k: nat)
    requires k < |xs|
    ensures Reverse(xs)[k] == xs[|xs| - 1 - k]
  {
    if k < |xs| - 1 {
      ReverseAt(xs[1..], k);
    }
  }

  /** Reversing twice gives the list back. */
  lemma ReverseReverse<T>(xs: seq<T>)
    ensures Reverse(Reverse(xs)) == xs
  {
    var r := Reverse(Reverse(xs));
    forall k | 0 <= k < |xs| ensures r[k] == xs[k] {
      ReverseAt(Reverse(xs), k);
      ReverseAt(xs, |xs| - 1 - k);
    }
  }
}
