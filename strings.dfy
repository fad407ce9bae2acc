/** Python's `str.find`, `str.split(sep)` and `sep.join(parts)` on strings,
    for a non-empty separator: the operations the feedback parser is made of. */
module Strings {
  import opened Wrappers

  /** `sep` occurs in `s` starting at index `i`. */
  predicate Occurs(s: string, sep: string, i: int) {
    0 <= i && i + |sep| <= |s| && s[i..i + |sep|] == sep
  }

  /** Python's `sep in s`. */
  predicate Contains(s: string, sep: string) {
    exists i :: 0 <= i <= |s| && Occurs(s, sep, i)
  }

  /** The first occurrence of `sep` in `s` at or after `from`
      (Python's `s.find(sep, from)`, with -1 as None). */
  function FindFrom(s: string, sep: string, from: nat): (r: Option<nat>)
    requires |sep| > 0
    ensures r.Some? ==> from <= r.value && Occurs(s, sep, r.value)
    ensures r.Some? ==> forall j :: from <= j < r.value ==> !Occurs(s, sep, j)
    ensures r.None? ==> forall j :: from <= j ==> !Occurs(s, sep, j)
    decreases |s| - from
  {
    if from + |sep| > |s| then None
    else if s[from..from + |sep|] == sep then Some(from)
    else FindFrom(s, sep, from + 1)
  }

  /** Python's `s.find(sep)`. */
  function Find(s: string, sep: string): (r: Option<nat>)
    requires |sep| > 0
  {
    FindFrom(s, sep, 0)
  }

  /** Python's `sep.join(parts)` for a non-empty list of parts. */
  function Join(parts: seq<string>, sep: string): (s: string)
    requires |parts| > 0
  {
    if |parts| == 1 then parts[0] else parts[0] + sep + Join(parts[1..], sep)
  }

  /** Python's `s.split(sep)`: cut `s` at each occurrence of `sep`, scanning
      left to right for non-overlapping occurrences. */
  function Split(s: string, sep: string): (parts: seq<string>)
    requires |sep| > 0
    ensures |parts| >= 1
    decreases |s|
  {
    match Find(s, sep)
    case None => [s]
    case Some(i) =>
      assert Occurs(s, sep, i);
      [s[..i]] + Split(s[i + |sep|..], sep)
  }

  /** A split yields a single part exactly when the separator does not occur. */
  lemma SplitSingle(s: string, sep: string)
    requires |sep| > 0
    ensures |Split(s, sep)| == 1 <==> !Contains(s, sep)
  {
    match Find(s, sep)
    case None =>
      FindAbsent(s, sep);
    case Some(i) =>
      SplitAt(s, sep, i);
      assert Occurs(s, sep, i);
  }

  /** Joining the parts again with the separator gives back the string. */
  lemma {:induction false} SplitJoin(s: string, sep: string)
    requires |sep| > 0
    ensures Join(Split(s, sep), sep) == s
    decreases |s|
  {
    match Find(s, sep)
    case None =>
    case Some(i) =>
      var rest := s[i + |sep|..];
      SplitJoin(rest, sep);
      SplitAt(s, sep, i);
      JoinCons(s[..i], Split(rest, sep), sep);
      Decompose(s, sep, i);
  }

  lemma JoinCons(head: string, tail: seq<string>, sep: string)
    requires |tail| > 0
    ensures Join([head] + tail, sep) == head + sep + Join(tail, sep)
  {
    assert ([head] + tail)[1..] == tail;
  }

  lemma Decompose(s: string, sep: string, i: nat)
    requires Occurs(s, sep, i)
    ensures s == s[..i] + sep + s[i + |sep|..]
  {
  }

  /** No part contains the separator. */
  lemma {:induction false} SplitPartsFree(s: string, sep: string)
    requires |sep| > 0
    ensures forall k :: 0 <= k < |Split(s, sep)| ==> !Contains(Split(s, sep)[k], sep)
    decreases |s|
  {
    match Find(s, sep)
    case None =>
    case Some(i) =>
      var rest := s[i + |sep|..];
      SplitPartsFree(rest, sep);
      NoOccurrenceInPrefix(s, sep, i);
      var parts := Split(s, sep);
      assert parts[0] == s[..i] && parts[1..] == Split(rest, sep);
      forall k | 0 <= k < |parts|
        ensures !Contains(parts[k], sep)
      {
        if k > 0 {
          assert parts[k] == Split(rest, sep)[k - 1];
        }
      }
  }

  /** Nothing found before the first occurrence means the prefix up to it is free of `sep`. */
  lemma NoOccurrenceInPrefix(s: string, sep: string, i: nat)
    requires |sep| > 0 && i <= |s|
    requires forall j :: 0 <= j < i ==> !Occurs(s, sep, j)
    ensures !Contains(s[..i], sep)
  {
    forall j | 0 <= j <= i
      ensures !Occurs(s[..i], sep, j)
    {
      if j + |sep| <= i {
        assert s[..i][j..j + |sep|] == s[j..j + |sep|];
        assert !Occurs(s, sep, j);
      }
    }
  }

  /** `Find` returns the least occurrence. */
  lemma FindLeast(s: string, sep: string, i: nat)
    requires |sep| > 0 && Occurs(s, sep, i)
    requires forall j :: 0 <= j < i ==> !Occurs(s, sep, j)
    ensures Find(s, sep) == Some(i)
  {
  }

  lemma FindAbsent(s: string, sep: string)
    requires |sep| > 0 && Find(s, sep) == None
    ensures !Contains(s, sep)
  {
    forall j | 0 <= j <= |s|
      ensures !Occurs(s, sep, j)
    {
    }
  }

  lemma FindNone(s: string, sep: string)
    requires |sep| > 0 && !Contains(s, sep)
    ensures Find(s, sep) == None
  {
  }

  /** Unfolding `Split` at its first cut. */
  lemma SplitAt(s: string, sep: string, i: nat)
    requires |sep| > 0 && Find(s, sep) == Some(i)
    ensures Split(s, sep) == [s[..i]] + Split(s[i + |sep|..], sep)
  {
  }

  lemma SplitWhole(s: string, sep: string)
    requires |sep| > 0 && !Contains(s, sep)
    ensures Split(s, sep) == [s]
  {
    FindNone(s, sep);
  }

  /** A string that lacks the first character of `sep` cannot contain `sep`. */
  lemma LacksFirstChar(s: string, sep: string)
    requires |sep| > 0 && sep[0] !in s
    ensures !Contains(s, sep)
  {
    forall j | 0 <= j <= |s|
      ensures !Occurs(s, sep, j)
    {
      if j + |sep| <= |s| {
        assert s[j..j + |sep|][0] == s[j];
      }
    }
  }

  /** No occurrence of `sep` can reach into `y` from `x` when the first
      character of `y` appears nowhere in `sep` past its own first character. */
  lemma ConcatFreeByHead(x: string, y: string, sep: string)
    requires |sep| > 0 && |y| > 0 && y[0] !in sep[1..]
    requires !Contains(x, sep) && !Contains(y, sep)
    ensures !Contains(x + y, sep)
  {
    var s := x + y;
    forall j | 0 <= j <= |s|
      ensures !Occurs(s, sep, j)
    {
      if j + |sep| <= |s| {
        if j + |sep| <= |x| {
          assert s[j..j + |sep|] == x[j..j + |sep|];
          assert !Occurs(x, sep, j);
        } else if j >= |x| {
          assert s[j..j + |sep|] == y[j - |x|..j - |x| + |sep|];
          assert !Occurs(y, sep, j - |x|);
        } else {
          var k := |x| - j;
          assert s[j..j + |sep|][k] == y[0];
          assert sep[1..][k - 1] == sep[k];
        }
      }
    }
  }

  /** Symmetric to `ConcatFreeByHead`: no occurrence reaches out of `x` when the
      last character of `x` appears nowhere in `sep` before its own last character. */
  lemma ConcatFreeByTail(x: string, y: string, sep: string)
    requires |sep| > 0 && |x| > 0 && x[|x| - 1] !in sep[..|sep| - 1]
    requires !Contains(x, sep) && !Contains(y, sep)
    ensures !Contains(x + y, sep)
  {
    var s := x + y;
    forall j | 0 <= j <= |s|
      ensures !Occurs(s, sep, j)
    {
      if j + |sep| <= |s| {
        if j + |sep| <= |x| {
          assert s[j..j + |sep|] == x[j..j + |sep|];
          assert !Occurs(x, sep, j);
        } else if j >= |x| {
          assert s[j..j + |sep|] == y[j - |x|..j - |x| + |sep|];
          assert !Occurs(y, sep, j - |x|);
        } else {
          var k := |x| - 1 - j;
          assert s[j..j + |sep|][k] == x[|x| - 1];
          assert sep[..|sep| - 1][k] == sep[k];
        }
      }
    }
  }

  /** In `x + sep + y` the first occurrence of `sep` is the one placed there,
      provided `x` is free of `sep` and `sep` cannot overlap itself at its head. */
  lemma FindPlaced(x: string, sep: string, y: string)
    requires |sep| > 0 && sep[0] !in sep[1..]
    requires !Contains(x, sep)
    ensures Find(x + sep + y, sep) == Some(|x|)
  {
    var s := x + sep + y;
    assert s[|x|..|x| + |sep|] == sep;
    forall j | 0 <= j < |x|
      ensures !Occurs(s, sep, j)
    {
      if j + |sep| <= |x| {
        assert s[j..j + |sep|] == x[j..j + |sep|];
        assert !Occurs(x, sep, j);
      } else {
        var k := |x| - j;
        assert s[j..j + |sep|][k] == s[|x|] == sep[0];
        assert sep[1..][k - 1] == sep[k];
      }
    }
    FindLeast(s, sep, |x|);
  }

  /** Splitting `x + sep + y` where neither side contains `sep` cuts it once,
      at the placed separator. */
  lemma SplitPlaced(x: string, sep: string, y: string)
    requires |sep| > 0 && sep[0] !in sep[1..]
    requires !Contains(x, sep) && !Contains(y, sep)
    ensures Split(x + sep + y, sep) == [x, y]
  {
    var s := x + sep + y;
    FindPlaced(x, sep, y);
    SplitAt(s, sep, |x|);
    assert s[|x| + |sep|..] == y;
    assert s[..|x|] == x;
    SplitWhole(y, sep);
  }

  /** When the prefix `x[..n]` is free of `sep` and the character at `n`
      appears nowhere in `sep` past its first character, no occurrence of `sep`
      in `x` starts before `n`. */
  lemma FreeBeforeStop(x: string, n: nat, sep: string)
    requires |sep| > 0 && n <= |x| && !Contains(x[..n], sep)
    requires n < |x| ==> x[n] !in sep[1..]
    ensures forall m :: 0 <= m < n ==> !Occurs(x, sep, m)
  {
    forall m | 0 <= m < n
      ensures !Occurs(x, sep, m)
    {
      if m + |sep| <= n {
        assert x[..n][m..m + |sep|] == x[m..m + |sep|];
        assert !Occurs(x[..n], sep, m);
      } else if m + |sep| <= |x| {
        var k := n - m;
        assert x[m..m + |sep|][k] == x[n];
        assert sep[1..][k - 1] == sep[k];
      }
    }
  }
}
