/**
 * The few operations on Python `str` that the resolver's ping parser uses:
 * the substring test `sep in s`, `s.split(sep)` with an explicit separator,
 * and `s.strip()` with no argument. Strings are sequences of code points.
 *
 * The functions only compute; what they mean is stated by the lemmas next
 * to them, which callers invoke where they need it.
 */
module Text {
  import opened Wrappers

  /** `sep` occurs in `s` starting at index `j`. */
  predicate OccursAt(s: string, sep: string, j: nat)
  {
    j + |sep| <= |s| && s[j..j + |sep|] == sep
  }

  /** `sep` occurs somewhere in `s`. */
  ghost predicate Occurs(s: string, sep: string)
  {
    exists j: nat :: OccursAt(s, sep, j)
  }

  /** The index of the first occurrence of `sep` in `s` at or after `from`. */
  function FindFrom(s: string, sep: string, from: nat): (r: Option<nat>)
    requires from <= |s|
    ensures r.Some? ==> from <= r.value && r.value + |sep| <= |s|
    decreases |s| - from
  {
    if OccursAt(s, sep, from) then Some(from)
    else if from + |sep| >= |s| then None
    else FindFrom(s, sep, from + 1)
  }

  /** Python's `s.find(sep)`, with `None` for `-1`. */
  function Find(s: string, sep: string): (r: Option<nat>)
    ensures r.Some? ==> r.value + |sep| <= |s|
  {
    FindFrom(s, sep, 0)
  }

  /** Python's `sep in s`. */
  function Contains(s: string, sep: string): bool
  {
    Find(s, sep).Some?
  }

  lemma {:induction false} FindFromFirst(s: string, sep: string, from: nat)
    requires from <= |s|
    ensures var r := FindFrom(s, sep, from);
            && (r.Some? ==> OccursAt(s, sep, r.value))
            && (r.Some? ==> forall j: nat :: from <= j < r.value ==> !OccursAt(s, sep, j))
            && (r.None? ==> forall j: nat :: from <= j ==> !OccursAt(s, sep, j))
    decreases |s| - from
  {
    if !OccursAt(s, sep, from) && from + |sep| < |s| {
      FindFromFirst(s, sep, from + 1);
    }
  }

  /**
   * `Find` returns the first occurrence: `sep` occurs there and at no
   * earlier index, and it returns `None` exactly when `sep` occurs nowhere.
   */
  lemma FindFirst(s: string, sep: string)
    ensures var r := Find(s, sep);
            && (r.Some? <==> Occurs(s, sep))
            && (r.Some? ==> OccursAt(s, sep, r.value))
            && (r.Some? ==> forall j: nat :: j < r.value ==> !OccursAt(s, sep, j))
  {
    FindFromFirst(s, sep, 0);
  }

  /** An occurrence at `i` with none before it is what `Find` returns. */
  lemma FindIs(s: string, sep: string, i: nat)
    requires OccursAt(s, sep, i)
    requires forall j: nat :: j < i ==> !OccursAt(s, sep, j)
    ensures Find(s, sep) == Some(i)
  {
    FindFirst(s, sep);
  }

  /**
   * Python's `s.split(sep)` for a non-empty separator: the pieces between
   * successive non-overlapping occurrences of `sep`, scanning left to right.
   */
  function Split(s: string, sep: string): (pieces: seq<string>)
    requires |sep| > 0
    ensures |pieces| >= 1
    ensures Find(s, sep).Some? ==> |pieces| >= 2
    decreases |s|
  {
    match Find(s, sep)
    case None => [s]
    case Some(i) => [s[..i]] + Split(s[i + |sep|..], sep)
  }

  /** The inverse of `Split`: the pieces glued back with `sep` between them. */
  function Join(pieces: seq<string>, sep: string): string
    requires |pieces| >= 1
  {
    if |pieces| == 1 then pieces[0] else pieces[0] + sep + Join(pieces[1..], sep)
  }

  lemma SplitAt(s: string, sep: string)
    requires |sep| > 0 && Find(s, sep).Some?
    ensures var i := Find(s, sep).value;
            Split(s, sep) == [s[..i]] + Split(s[i + |sep|..], sep)
  {
  }

  lemma JoinCons(head: string, tail: seq<string>, sep: string)
    requires |tail| >= 1
    ensures Join([head] + tail, sep) == head + sep + Join(tail, sep)
  {
    assert ([head] + tail)[1..] == tail;
  }

  /** Splitting loses nothing: joining the pieces restores the text. */
  lemma {:induction false} JoinSplit(s: string, sep: string)
    requires |sep| > 0
    ensures Join(Split(s, sep), sep) == s
    decreases |s|
  {
    var f := Find(s, sep);
    if f.Some? {
      var i := f.value;
      var rest := s[i + |sep|..];
      var head, tail := s[..i], Split(rest, sep);
      SplitAt(s, sep);
      assert Split(s, sep) == [head] + tail;
      JoinCons(head, tail, sep);
      JoinSplit(rest, sep);
      assert Join(tail, sep) == rest;
      FindFirst(s, sep);
      assert s == s[..i] + s[i..i + |sep|] + rest;
    } else {
      assert Split(s, sep) == [s];
    }
  }

  /** No piece of a split contains the separator; a text without it is its own single piece. */
  lemma {:induction false} SplitPiecesFree(s: string, sep: string)
    requires |sep| > 0
    ensures forall k :: 0 <= k < |Split(s, sep)| ==> !Occurs(Split(s, sep)[k], sep)
    ensures !Occurs(s, sep) ==> Split(s, sep) == [s]
    decreases |s|
  {
    FindFirst(s, sep);
    var f := Find(s, sep);
    var pieces := Split(s, sep);
    if f.Some? {
      var i := f.value;
      var rest := s[i + |sep|..];
      var head := s[..i];
      var tail := Split(rest, sep);
      SplitAt(s, sep);
      assert pieces == [head] + tail;
      SplitPiecesFree(rest, sep);
      BeforeFirstFree(s, sep, i);
      forall k | 0 <= k < |pieces| ensures !Occurs(pieces[k], sep) {
        if k > 0 {
          assert pieces[k] == tail[k - 1];
        }
      }
    } else {
      SplitFirst(s, sep);
    }
  }

  /** The text before the first occurrence of `sep` does not contain `sep`. */
  lemma BeforeFirstFree(s: string, sep: string, i: nat)
    requires |sep| > 0 && i <= |s|
    requires forall j: nat :: j < i ==> !OccursAt(s, sep, j)
    ensures !Occurs(s[..i], sep)
  {
    forall j: nat | OccursAt(s[..i], sep, j) ensures false {
      assert s[..i] == s[0..i];
      OccursAtInfix(s, 0, i, sep, j);
    }
  }

  /** The first piece of a split is the text before the first occurrence of `sep`, or all of it. */
  lemma SplitFirst(s: string, sep: string)
    requires |sep| > 0
    ensures Split(s, sep)[0] == if Find(s, sep).Some? then s[..Find(s, sep).value] else s
  {
  }

  /**
   * The second piece of a split, when there is one, starts right after the
   * first occurrence of `sep` and runs up to the next occurrence or the end.
   */
  lemma SplitSecond(s: string, sep: string)
    requires |sep| > 0 && Find(s, sep).Some?
    ensures var i := Find(s, sep).value;
            Split(s, sep)[1] == Split(s[i + |sep|..], sep)[0]
  {
    SplitAt(s, sep);
  }

  /** An occurrence inside an infix of `s` is an occurrence in `s`, shifted by where the infix starts. */
  lemma OccursAtInfix(s: string, a: nat, b: nat, t: string, j: nat)
    requires a <= b <= |s| && OccursAt(s[a..b], t, j)
    ensures OccursAt(s, t, a + j)
  {
    assert j + |t| <= b - a;
    forall k | 0 <= k < |t| ensures s[a + j + k] == t[k] {
      assert t[k] == s[a..b][j..j + |t|][k];
    }
    assert s[a + j..a + j + |t|] == t;
  }

  /** An occurrence in `s` that lies inside `s[a..b]` is an occurrence in that infix. */
  lemma OccursWithin(s: string, a: nat, b: nat, t: string, j: nat)
    requires a <= j && j + |t| <= b <= |s| && OccursAt(s, t, j)
    ensures Occurs(s[a..b], t)
  {
    InfixOfInfix(s, a, b, j - a, j - a + |t|);
    assert OccursAt(s[a..b], t, j - a);
  }

  /** An occurrence inside an infix of `s` is an occurrence in `s`. */
  lemma OccursInInfix(s: string, a: nat, b: nat, t: string)
    requires a <= b <= |s| && Occurs(s[a..b], t)
    ensures Occurs(s, t)
  {
    var j: nat :| OccursAt(s[a..b], t, j);
    OccursAtInfix(s, a, b, t, j);
  }

  /** Every piece of a split is a stretch of the original text, so whatever occurs in a piece occurs in the text. */
  lemma {:induction false} OccursInPiece(s: string, sep: string, k: nat, t: string)
    requires |sep| > 0 && k < |Split(s, sep)| && Occurs(Split(s, sep)[k], t)
    ensures Occurs(s, t)
    decreases |s|
  {
    var j: nat :| OccursAt(Split(s, sep)[k], t, j);
    var at := OccurrenceInPiece(s, sep, k, t, j);
  }

  /** The index in `s` of an occurrence at index `j` of piece `k` of a split. */
  lemma {:induction false} OccurrenceInPiece(s: string, sep: string, k: nat, t: string, j: nat) returns (at: nat)
    requires |sep| > 0 && k < |Split(s, sep)| && OccursAt(Split(s, sep)[k], t, j)
    ensures OccursAt(s, t, at)
    decreases |s|
  {
    var f := Find(s, sep);
    var pieces := Split(s, sep);
    if f.Some? {
      var i := f.value;
      var rest := s[i + |sep|..];
      var tail := Split(rest, sep);
      SplitAt(s, sep);
      assert pieces == [s[..i]] + tail;
      if k == 0 {
        assert pieces[0] == s[0..i];
        OccursAtInfix(s, 0, i, t, j);
        at := j;
      } else {
        assert pieces[k] == tail[k - 1];
        var r := OccurrenceInPiece(rest, sep, k - 1, t, j);
        assert rest == s[i + |sep|..|s|];
        OccursAtInfix(s, i + |sep|, |s|, t, r);
        at := i + |sep| + r;
      }
    } else {
      SplitFirst(s, sep);
      assert k == 0;
      at := j;
    }
  }

  /** The first piece of a split is a prefix of the text that stops at the first `sep` or at the end. */
  lemma SplitFirstStop(s: string, sep: string) returns (p: string)
    requires |sep| > 0
    ensures p == Split(s, sep)[0]
    ensures && |p| <= |s| && p == s[..|p|]
            && (|p| == |s| || OccursAt(s, sep, |p|))
            && !Occurs(p, sep)
  {
    p := Split(s, sep)[0];
    SplitFirst(s, sep);
    FindFirst(s, sep);
    SplitPiecesFree(s, sep);
  }

  /**
   * `s[start..stop]` is the text from `start` up to the next `sep1` or
   * `sep2`, or up to the end: it contains neither, and unless it reaches the
   * end of `s`, one of them starts right at `stop`.
   */
  ghost predicate RunsUpTo(s: string, start: nat, stop: nat, sep1: string, sep2: string)
  {
    && start <= stop <= |s|
    && !Occurs(s[start..stop], sep1) && !Occurs(s[start..stop], sep2)
    && (stop == |s| || OccursAt(s, sep1, stop) || OccursAt(s, sep2, stop))
  }

  /**
   * `s.split(sep1)[1].split(sep2)[0]` is the stretch of `s` that starts right
   * after the first `sep1` and stops before the next `sep1` or `sep2`, or at
   * the end; it contains neither separator.
   */
  lemma {:induction false} BetweenSeparators(s: string, sep1: string, sep2: string)
    requires |sep1| > 0 && |sep2| > 0 && Find(s, sep1).Some?
    ensures var p, start := Split(Split(s, sep1)[1], sep2)[0], Find(s, sep1).value + |sep1|;
            && start + |p| <= |s| && p == s[start..start + |p|]
            && RunsUpTo(s, start, start + |p|, sep1, sep2)
  {
    var start, second := SecondPieceStretch(s, sep1);
    var p := SplitFirstStop(second, sep2);
    StopOfPrefix(s, start, second, p, sep1, sep2);
  }

  /** The second piece of a split starts right after the first `sep` and stops at the next one or at the end. */
  lemma SecondPieceStretch(s: string, sep: string) returns (start: nat, q: string)
    requires |sep| > 0 && Find(s, sep).Some?
    ensures start == Find(s, sep).value + |sep| && q == Split(s, sep)[1]
    ensures && start + |q| <= |s| && q == s[start..start + |q|]
            && (start + |q| == |s| || OccursAt(s, sep, start + |q|))
            && !Occurs(q, sep)
  {
    start := Find(s, sep).value + |sep|;
    var rest := s[start..];
    q := Split(s, sep)[1];
    SplitSecond(s, sep);
    var first := SplitFirstStop(rest, sep);
    assert q == s[start..start + |q|];
    assert !Occurs(q, sep);
    if start + |q| < |s| {
      assert rest == s[start..|s|];
      OccursAtInfix(s, start, |s|, sep, |q|);
    }
  }

  /**
   * A prefix `p` of a stretch `q` of `s` that stops at `sep2` inside `q`, or
   * where `q` stops, stops at `sep2` or wherever `q` stops in `s`, and avoids
   * whatever `q` avoids.
   */
  lemma StopOfPrefix(s: string, start: nat, q: string, p: string, sep1: string, sep2: string)
    requires start + |q| <= |s| && q == s[start..start + |q|]
    requires start + |q| == |s| || OccursAt(s, sep1, start + |q|)
    requires |p| <= |q| && p == q[..|p|]
    requires |p| == |q| || OccursAt(q, sep2, |p|)
    requires !Occurs(q, sep1) && !Occurs(p, sep2)
    ensures p == s[start..start + |p|]
    ensures RunsUpTo(s, start, start + |p|, sep1, sep2)
  {
    if |p| < |q| {
      OccursAtInfix(s, start, start + |q|, sep2, |p|);
    }
    if Occurs(p, sep1) {
      assert p == q[0..|p|];
      OccursInInfix(q, 0, |p|, sep1);
    }
  }

  /** Python's `str.isspace()` on one code point. */
  predicate IsSpace(c: char)
  {
    || c == ' ' || ('\t' <= c <= '\r') || ('\U{1C}' <= c <= '\U{1F}')
    || c == '\U{85}' || c == '\U{A0}' || c == '\U{1680}'
    || ('\U{2000}' <= c <= '\U{200A}') || c == '\U{2028}' || c == '\U{2029}'
    || c == '\U{202F}' || c == '\U{205F}' || c == '\U{3000}'
  }

  /** Python's `s.lstrip()`. */
  function StripLeft(s: string): (r: string)
    ensures |r| <= |s|
  {
    if |s| > 0 && IsSpace(s[0]) then StripLeft(s[1..]) else s
  }

  /** Python's `s.rstrip()`. */
  function StripRight(s: string): (r: string)
    ensures |r| <= |s|
  {
    if |s| > 0 && IsSpace(s[|s| - 1]) then StripRight(s[..|s| - 1]) else s
  }

  /** Python's `s.strip()`. */
  function Strip(s: string): string
  {
    StripRight(StripLeft(s))
  }

  /** `lstrip` removes exactly the leading white space. */
  lemma {:induction false} StripLeftRemovesLeading(s: string)
    ensures var r := StripLeft(s);
            && r == s[|s| - |r|..]
            && (forall k :: 0 <= k < |s| - |r| ==> IsSpace(s[k]))
            && (r != [] ==> !IsSpace(r[0]))
  {
    if |s| > 0 && IsSpace(s[0]) {
      StripLeftRemovesLeading(s[1..]);
    }
  }

  /** `rstrip` removes exactly the trailing white space. */
  lemma {:induction false} StripRightRemovesTrailing(s: string)
    ensures var r := StripRight(s);
            && r == s[..|r|]
            && (forall k :: |r| <= k < |s| ==> IsSpace(s[k]))
            && (r != [] ==> !IsSpace(r[|r| - 1]))
  {
    if |s| > 0 && IsSpace(s[|s| - 1]) {
      StripRightRemovesTrailing(s[..|s| - 1]);
    }
  }

  /**
   * `s.strip()` is the stretch of `s` left once the white space at both ends
   * is removed: everything cut off is white space, and what remains neither
   * starts nor ends with white space.
   */
  lemma StripInfix(s: string)
    ensures exists i, j :: 0 <= i <= j <= |s| && Strip(s) == s[i..j]
                           && (forall k :: 0 <= k < i ==> IsSpace(s[k]))
                           && (forall k :: j <= k < |s| ==> IsSpace(s[k]))
    ensures Strip(s) != [] ==> !IsSpace(Strip(s)[0]) && !IsSpace(Strip(s)[|Strip(s)| - 1])
  {
    var l := StripLeft(s);
    var r := StripRight(l);
    StripLeftRemovesLeading(s);
    StripRightRemovesTrailing(l);
    TrimmedStretch(s, l, r);
    assert Strip(s) == r;
  }

  /**
   * Cutting white space off the front of `s` and then off the back of the
   * rest leaves a stretch of `s` with only white space around it.
   */
  lemma TrimmedStretch(s: string, l: string, r: string)
    requires |l| <= |s| && l == s[|s| - |l|..]
    requires forall k :: 0 <= k < |s| - |l| ==> IsSpace(s[k])
    requires |r| <= |l| && r == l[..|r|]
    requires forall k :: |r| <= k < |l| ==> IsSpace(l[k])
    requires l != [] ==> !IsSpace(l[0])
    requires r != [] ==> !IsSpace(r[|r| - 1])
    ensures exists i, j :: 0 <= i <= j <= |s| && r == s[i..j]
                           && (forall k :: 0 <= k < i ==> IsSpace(s[k]))
                           && (forall k :: j <= k < |s| ==> IsSpace(s[k]))
    ensures r != [] ==> !IsSpace(r[0]) && !IsSpace(r[|r| - 1])
  {
    var i := |s| - |l|;
    var j := i + |r|;
    assert r == s[i..j];
    if r != [] {
      assert r[0] == l[0];
    }
    forall k | j <= k < |s|
      ensures IsSpace(s[k])
    {
      assert s[k] == l[k - i];
    }
  }

  /**
   * `s[a..b]` is what remains of `s[start..stop]` once white space, and only
   * white space, is cut off at both of its ends.
   */
  ghost predicate TrimmedWithin(s: string, start: nat, stop: nat, a: nat, b: nat)
  {
    && start <= a <= b <= stop <= |s|
    && (forall k :: start <= k < a ==> IsSpace(s[k]))
    && (forall k :: b <= k < stop ==> IsSpace(s[k]))
  }

  /**
   * `s.split(sep1)[1].split(sep2)[0].strip()` is what remains of the text
   * running from just after the first `sep1` up to the next `sep1` or `sep2`
   * (or the end) once the white space at both of its ends is cut off: it
   * contains neither separator and neither starts nor ends with white space.
   */
  lemma StripBetween(s: string, sep1: string, sep2: string)
    requires |sep1| > 0 && |sep2| > 0 && Find(s, sep1).Some?
    ensures var t, start := Strip(Split(Split(s, sep1)[1], sep2)[0]), Find(s, sep1).value + |sep1|;
            && (exists a: nat, b: nat, stop: nat :: RunsUpTo(s, start, stop, sep1, sep2) && TrimmedWithin(s, start, stop, a, b)
                                     && t == s[a..b])
            && !Occurs(t, sep1) && !Occurs(t, sep2)
            && (t != [] ==> !IsSpace(t[0]) && !IsSpace(t[|t| - 1]))
  {
    var start, second := SecondPieceStretch(s, sep1);
    var p := SplitFirstStop(second, sep2);
    StopOfPrefix(s, start, second, p, sep1, sep2);
    var a, b := StrippedStretch(s, start, p, sep1, sep2);
    assert RunsUpTo(s, start, start + |p|, sep1, sep2) && TrimmedWithin(s, start, start + |p|, a, b);
  }

  /**
   * Stripping the stretch `p` of `s` that runs from `start` up to a
   * separator leaves the stretch `s[a..b]` inside it, with only white space
   * cut off at either end; it avoids both separators too.
   */
  lemma StrippedStretch(s: string, start: nat, p: string, sep1: string, sep2: string) returns (a: nat, b: nat)
    requires start + |p| <= |s| && p == s[start..start + |p|]
    requires RunsUpTo(s, start, start + |p|, sep1, sep2)
    ensures TrimmedWithin(s, start, start + |p|, a, b) && Strip(p) == s[a..b]
    ensures !Occurs(Strip(p), sep1) && !Occurs(Strip(p), sep2)
    ensures Strip(p) != [] ==> !IsSpace(Strip(p)[0]) && !IsSpace(Strip(p)[|Strip(p)| - 1])
  {
    var t := Strip(p);
    StripInfix(p);
    var i: nat, j: nat :| i <= j <= |p| && t == p[i..j]
                && (forall k :: 0 <= k < i ==> IsSpace(p[k]))
                && (forall k :: j <= k < |p| ==> IsSpace(p[k]));
    a, b := ShiftTrim(s, start, p, i, j);
    assert !Occurs(p, sep1) && !Occurs(p, sep2);
    if Occurs(t, sep1) {
      OccursInInfix(p, i, j, sep1);
    }
    if Occurs(t, sep2) {
      OccursInInfix(p, i, j, sep2);
    }
  }

  /** Trimming `p[i..j]` out of a stretch `p` of `s` trims `s[start + i..start + j]` out of `s`. */
  lemma ShiftTrim(s: string, start: nat, p: string, i: nat, j: nat) returns (a: nat, b: nat)
    requires start + |p| <= |s| && p == s[start..start + |p|]
    requires i <= j <= |p|
    requires forall k :: 0 <= k < i ==> IsSpace(p[k])
    requires forall k :: j <= k < |p| ==> IsSpace(p[k])
    ensures a == start + i && b == start + j
    ensures TrimmedWithin(s, start, start + |p|, a, b) && p[i..j] == s[a..b]
  {
    a, b := start + i, start + j;
    InfixOfInfix(s, start, start + |p|, i, j);
    forall k | start <= k < a ensures IsSpace(s[k]) {
      assert s[k] == p[k - start];
    }
    forall k | b <= k < start + |p| ensures IsSpace(s[k]) {
      assert s[k] == p[k - start];
    }
  }

  /** A stretch of a stretch of `s` is a stretch of `s`. */
  lemma InfixOfInfix(s: string, a: nat, b: nat, i: nat, j: nat)
    requires a <= b <= |s| && i <= j <= b - a
    ensures s[a..b][i..j] == s[a + i..a + j]
  {
    forall k | 0 <= k < j - i ensures s[a..b][i..j][k] == s[a + i..a + j][k] {
      assert s[a..b][i..j][k] == s[a..b][i + k] == s[a + i + k];
    }
  }

  /** A text that neither starts nor ends with white space is its own strip. */
  lemma NoSpaceStrip(s: string)
    requires s != [] && !IsSpace(s[0]) && !IsSpace(s[|s| - 1])
    ensures Strip(s) == s
  {
  }
}
