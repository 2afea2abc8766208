/**
 * The parts of Python's `str` behaviour that the scraper relies on:
 * `find`, `split(sep, maxsplit=1)`, `split(c)`, `rfind`, negative slicing,
 * and the code-point ordering that `sorted` and pandas use on strings.
 */
module PyStr {
  import opened Wrappers

  /** `sep` occurs in `s` starting at index `i`. */
  predicate OccursAt(s: string, sep: string, i: int) {
    0 <= i && i + |sep| <= |s| && s[i..i + |sep|] == sep
  }

  /** Python's `sep in s`. */
  predicate Contains(s: string, sep: string) {
    exists i :: 0 <= i <= |s| && OccursAt(s, sep, i)
  }

  predicate StartsWith(s: string, prefix: string) {
    |prefix| <= |s| && s[..|prefix|] == prefix
  }

  predicate EndsWith(s: string, suffix: string) {
    |suffix| <= |s| && s[|s| - |suffix|..] == suffix
  }

  /** Python's `s.find(sep, i)`, with `None` for -1: the lowest index at or after `i`. */
  function FindFrom(s: string, sep: string, i: nat): (r: Option<nat>)
    decreases |s| - i
    ensures r.Some? ==> i <= r.value && OccursAt(s, sep, r.value)
    ensures r.Some? ==> forall j :: i <= j < r.value ==> !OccursAt(s, sep, j)
    ensures r.None? ==> forall j :: i <= j ==> !OccursAt(s, sep, j)
  {
    if i + |sep| > |s| then None
    else if s[i..i + |sep|] == sep then Some(i)
    else FindFrom(s, sep, i + 1)
  }

  lemma OccursInPrefix(s: string, n: nat, sep: string, j: int)
    requires n <= |s|
    requires OccursAt(s[..n], sep, j)
    ensures OccursAt(s, sep, j)
  {
    assert s[..n][j..j + |sep|] == s[j..j + |sep|];
  }

  /**
   * Python's `s.split(sep, maxsplit=1)`: the whole string when `sep` does not
   * occur, otherwise the text before and after its first occurrence.
   */
  function SplitOnce(s: string, sep: string): (r: seq<string>)
    requires sep != []
    ensures |r| == 1 || |r| == 2
    ensures |r| == 1 <==> !Contains(s, sep)
    ensures |r| == 1 ==> r[0] == s
    ensures |r| == 2 ==> r[0] + sep + r[1] == s
    ensures |r| == 2 ==> forall j :: 0 <= j < |r[0]| ==> !OccursAt(s, sep, j)
    ensures |r| == 2 ==> !Contains(r[0], sep)
  {
    match FindFrom(s, sep, 0)
    case None => [s]
    case Some(i) =>
      assert OccursAt(s, sep, i);
      assert s[..i] + sep + s[i + |sep|..] == s by {
        assert s == s[..i] + s[i..i + |sep|] + s[i + |sep|..];
      }
      assert !Contains(s[..i], sep) by {
        forall j | OccursAt(s[..i], sep, j) ensures false {
          OccursInPrefix(s, i, sep, j);
        }
      }
      [s[..i], s[i + |sep|..]]
  }

  /**
   * The first occurrence of `sep` in `a + sep + b` is the displayed one exactly
   * when no occurrence starts inside `a`, that is when `sep` does not occur in `a`
   * followed by all of `sep` but its last character.
   */
  lemma {:induction false} SplitOnceUnique(a: string, sep: string, b: string)
    requires sep != []
    requires !Contains(a + sep[..|sep| - 1], sep)
    ensures SplitOnce(a + sep + b, sep) == [a, b]
  {
    var s := a + sep + b;
    assert s[|a|..|a| + |sep|] == sep;
    assert OccursAt(s, sep, |a|);
    forall j | 0 <= j < |a| ensures !OccursAt(s, sep, j) {
      if OccursAt(s, sep, j) {
        var n := |a| + |sep| - 1;
        assert s[..n] == a + sep[..|sep| - 1];
        assert s[..n][j..j + |sep|] == s[j..j + |sep|];
        assert OccursAt(s[..n], sep, j);
        assert false;
      }
    }
    var f := FindFrom(s, sep, 0);
    assert f == Some(|a|);
    assert s[..|a|] == a;
    assert s[|a| + |sep|..] == b;
  }

  /** Joining with the single separator `c`: the inverse of `SplitAt`. */
  function JoinWith(parts: seq<string>, c: char): string
    requires |parts| >= 1
  {
    if |parts| == 1 then parts[0] else parts[0] + [c] + JoinWith(parts[1..], c)
  }

  /** Python's `s.split(c)` for a one-character separator: every occurrence splits. */
  function SplitAt(s: string, c: char): (r: seq<string>)
    ensures |r| >= 1
    ensures |r| == 1 <==> c !in s
    ensures forall k :: 0 <= k < |r| ==> c !in r[k]
  {
    if s == [] then [[]]
    else
      var rest := SplitAt(s[1..], c);
      if s[0] == c then [[]] + rest
      else
        var r := [[s[0]] + rest[0]] + rest[1..];
        assert c !in r[0];
        assert |rest| == 1 ==> c !in s;
        r
  }

  /** Joining the pieces with the separator gives back the text. */
  lemma {:induction false} JoinWithSplitAt(s: string, c: char)
    ensures JoinWith(SplitAt(s, c), c) == s
  {
    if s != [] {
      JoinWithSplitAt(s[1..], c);
      var rest := SplitAt(s[1..], c);
      if s[0] == c {
        JoinAfterEmpty(rest, c);
      } else {
        JoinAfterChar(s[0], rest, c);
      }
      assert s == [s[0]] + s[1..];
    }
  }

  lemma JoinAfterEmpty(rest: seq<string>, c: char)
    requires |rest| >= 1
    ensures JoinWith([[]] + rest, c) == [c] + JoinWith(rest, c)
  {
    assert ([[]] + rest)[1..] == rest;
  }

  lemma JoinAfterChar(x: char, rest: seq<string>, c: char)
    requires |rest| >= 1
    ensures JoinWith([[x] + rest[0]] + rest[1..], c) == [x] + JoinWith(rest, c)
  {
    var r := [[x] + rest[0]] + rest[1..];
    if |rest| > 1 {
      assert r[1..] == rest[1..];
    }
  }

  /** Splitting what `JoinWith` built gives back the parts. */
  lemma {:induction false} SplitAtJoinWith(parts: seq<string>, c: char)
    requires |parts| >= 1
    requires forall k :: 0 <= k < |parts| ==> c !in parts[k]
    ensures SplitAt(JoinWith(parts, c), c) == parts
  {
    if |parts| == 1 {
      SplitAtNoSeparator(parts[0], c);
    } else {
      SplitAtJoinWith(parts[1..], c);
      SplitAtPrefix(parts[0], c, JoinWith(parts[1..], c));
      assert [parts[0]] + parts[1..] == parts;
    }
  }

  lemma {:induction false} SplitAtNoSeparator(s: string, c: char)
    requires c !in s
    ensures SplitAt(s, c) == [s]
  {
    if s != [] {
      SplitAtNoSeparator(s[1..], c);
      assert [s[0]] + s[1..] == s;
    }
  }

  lemma {:induction false} SplitAtPrefix(a: string, c: char, t: string)
    requires c !in a
    ensures SplitAt(a + [c] + t, c) == [a] + SplitAt(t, c)
  {
    if a == [] {
      assert ([] + [c] + t)[1..] == t;
    } else {
      assert (a + [c] + t)[1..] == a[1..] + [c] + t;
      SplitAtPrefix(a[1..], c, t);
      assert [a[0]] + a[1..] == a;
    }
  }

  /** Python's `s.rfind(c)`: the highest index holding `c`, or -1. */
  function RFind(s: string, c: char): (r: int)
    ensures -1 <= r < |s|
    ensures r >= 0 ==> s[r] == c
    ensures forall k :: r < k < |s| ==> s[k] != c
  {
    if s == [] then -1
    else
      var r := RFind(s[1..], c);
      assert forall k :: r + 1 < k < |s| ==> s[k] == s[1..][k - 1];
      if r >= 0 then r + 1
      else if s[0] == c then 0
      else -1
  }

  /** Python's `s.split(c)[-1] == s[s.rfind(c) + 1:]`: the last piece is the text after the last separator. */
  lemma {:induction false} SplitAtLastIsAfterRFind(s: string, c: char)
    ensures SplitAt(s, c)[|SplitAt(s, c)| - 1] == s[RFind(s, c) + 1..]
  {
    if s != [] {
      SplitAtLastIsAfterRFind(s[1..], c);
      SplitAtLastStep(s, c);
    }
  }

  /** One step of `SplitAtLastIsAfterRFind`: from the text after the first character to the whole text. */
  lemma SplitAtLastStep(s: string, c: char)
    requires s != []
    requires SplitAt(s[1..], c)[|SplitAt(s[1..], c)| - 1] == s[1..][RFind(s[1..], c) + 1..]
    ensures SplitAt(s, c)[|SplitAt(s, c)| - 1] == s[RFind(s, c) + 1..]
  {
    var tail := s[1..];
    var r := RFind(tail, c);
    assert tail[r + 1..] == s[r + 2..];
    if s[0] == c || |SplitAt(tail, c)| > 1 {
      SplitAtLastOfSeveral(s, c);
    } else {
      SplitAtLastOfOne(s, c);
    }
  }

  lemma SplitAtLastOfSeveral(s: string, c: char)
    requires s != [] && (s[0] == c || |SplitAt(s[1..], c)| > 1)
    ensures SplitAt(s, c)[|SplitAt(s, c)| - 1] == SplitAt(s[1..], c)[|SplitAt(s[1..], c)| - 1]
    ensures RFind(s, c) == RFind(s[1..], c) + 1
  {
    if s[0] == c {
      SplitAtLastAfterSeparator(s, c);
    } else {
      SplitAtLastAfterOther(s, c);
    }
  }

  lemma SplitAtLastAfterSeparator(s: string, c: char)
    requires s != [] && s[0] == c
    ensures SplitAt(s, c)[|SplitAt(s, c)| - 1] == SplitAt(s[1..], c)[|SplitAt(s[1..], c)| - 1]
    ensures RFind(s, c) == RFind(s[1..], c) + 1
  {
    var rest := SplitAt(s[1..], c);
    assert SplitAt(s, c) == [[]] + rest;
    LastOfCons([], rest);
  }

  lemma SplitAtLastAfterOther(s: string, c: char)
    requires s != [] && s[0] != c && |SplitAt(s[1..], c)| > 1
    ensures SplitAt(s, c)[|SplitAt(s, c)| - 1] == SplitAt(s[1..], c)[|SplitAt(s[1..], c)| - 1]
    ensures RFind(s, c) == RFind(s[1..], c) + 1
  {
    var rest := SplitAt(s[1..], c);
    assert SplitAt(s, c) == [[s[0]] + rest[0]] + rest[1..];
    LastOfCons([s[0]] + rest[0], rest[1..]);
    assert rest[1..][|rest| - 2] == rest[|rest| - 1];
    var k :| 0 <= k < |s[1..]| && s[1..][k] == c;
  }

  lemma SplitAtLastOfOne(s: string, c: char)
    requires s != [] && s[0] != c && |SplitAt(s[1..], c)| == 1
    ensures SplitAt(s, c)[|SplitAt(s, c)| - 1] == s
    ensures RFind(s, c) == -1
  {
    assert c !in s[1..];
    assert SplitAt(s[1..], c)[0] == s[1..];
    assert s == [s[0]] + s[1..];
  }

  lemma LastOfCons<T>(x: T, xs: seq<T>)
    requires xs != []
    ensures ([x] + xs)[|xs|] == xs[|xs| - 1]
  {
  }

  /** Python's `re.sub(r'[\(\)]', '', s)`: every parenthesis removed. */
  function StripParens(s: string): (r: string)
    ensures '(' !in r && ')' !in r
    ensures forall ch :: ch != '(' && ch != ')' ==> multiset(r)[ch] == multiset(s)[ch]
  {
    if s == [] then []
    else
      assert s == [s[0]] + s[1..];
      (if s[0] == '(' || s[0] == ')' then [] else [s[0]]) + StripParens(s[1..])
  }

  /**
   * Stripping works character by character, in order: a parenthesis is
   * dropped, any other character is kept in place.
   */
  lemma {:induction false} StripParensAppend(a: string, b: string)
    ensures StripParens(a + b) == StripParens(a) + StripParens(b)
  {
    if a != [] {
      StripParensAppend(a[1..], b);
      assert (a + b)[1..] == a[1..] + b;
    } else {
      assert a + b == b;
    }
  }

  lemma StripParensChar(ch: char)
    ensures StripParens([ch]) == if ch == '(' || ch == ')' then [] else [ch]
  {
    assert [ch][1..] == [];
  }

  /** A string without parentheses is left as it is, so stripping twice is stripping once. */
  lemma {:induction false} StripParensIdempotent(s: string)
    ensures StripParens(StripParens(s)) == StripParens(s)
  {
    StripParensNoParens(StripParens(s));
  }

  lemma {:induction false} StripParensNoParens(s: string)
    requires '(' !in s && ')' !in s
    ensures StripParens(s) == s
  {
    if s != [] {
      StripParensNoParens(s[1..]);
      assert [s[0]] + s[1..] == s;
    }
  }

  /** Python's `s[-n:]` for `n > 0`: the last `n` characters, or all of a shorter `s`. */
  function LastChars(s: string, n: nat): (r: string)
    requires n > 0
    ensures |r| == if |s| < n then |s| else n
    ensures EndsWith(s, r)
  {
    if |s| >= n then s[|s| - n..] else s
  }

  /** Python's `<` on `str`: lexicographic by code point, a proper prefix first. */
  predicate StrLess(a: string, b: string)
    decreases |a|
  {
    |b| > 0 && (|a| == 0 || a[0] < b[0] || (a[0] == b[0] && StrLess(a[1..], b[1..])))
  }

  lemma {:induction false} StrLessTrichotomy(a: string, b: string)
    ensures a == b || StrLess(a, b) || StrLess(b, a)
  {
    if |a| > 0 && |b| > 0 && a[0] == b[0] {
      StrLessTrichotomy(a[1..], b[1..]);
      if a[1..] == b[1..] {
        assert a == [a[0]] + a[1..] && b == [b[0]] + b[1..];
      }
    }
  }

  lemma {:induction false} StrLessIrreflexive(a: string)
    ensures !StrLess(a, a)
  {
    if |a| > 0 {
      StrLessIrreflexive(a[1..]);
    }
  }

  predicate StrictlySorted(s: seq<string>) {
    forall k :: 0 <= k < |s| - 1 ==> StrLess(s[k], s[k + 1])
  }

  predicate Distinct<T(==)>(s: seq<T>) {
    forall i, j :: 0 <= i < j < |s| ==> s[i] != s[j]
  }

  /** Adding `x` to a sorted, duplicate-free sequence of strings, at its place. */
  function InsertSorted(x: string, s: seq<string>): (r: seq<string>)
    requires StrictlySorted(s)
    ensures StrictlySorted(r)
    ensures forall y :: y in r <==> y == x || y in s
    ensures x in s ==> r == s
    ensures x !in s ==> |r| == |s| + 1
    ensures |r| > 0 && (r[0] == x || r[0] == s[0])
  {
    if x in s then s
    else if s == [] then [x]
    else if StrLess(x, s[0]) then [x] + s
    else
      StrLessTrichotomy(x, s[0]);
      assert s[1..] == [] || StrLess(s[0], s[1]);
      [s[0]] + InsertSorted(x, s[1..])
  }

  lemma {:induction false} InsertSortedDistinct(x: string, s: seq<string>)
    requires StrictlySorted(s) && Distinct(s)
    ensures Distinct(InsertSorted(x, s))
  {
    if x !in s && s != [] && !StrLess(x, s[0]) {
      InsertSortedDistinct(x, s[1..]);
      var r := InsertSorted(x, s);
      assert r == [s[0]] + InsertSorted(x, s[1..]);
      assert s[0] !in s[1..];
      assert s[0] !in InsertSorted(x, s[1..]);
    }
  }
}
