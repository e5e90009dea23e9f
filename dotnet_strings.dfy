/** Models on `seq<char>` of the three .NET string helpers the command relies on:
    `String.Split(char)` without options, `String.Join(string, IEnumerable<string>)`
    and `String.Replace(string, string)` with ordinal matching. */
module DotNetStrings {

  /** True when `p` is a prefix of `s`. */
  predicate StartsWith(s: string, p: string)
  {
    |p| <= |s| && s[..|p|] == p
  }

  /** True when `p` occurs somewhere in `s`. */
  predicate Occurs(s: string, p: string)
  {
    exists i :: 0 <= i <= |s| && StartsWith(s[i..], p)
  }

  /** Number of occurrences of the character `c` in `s`. */
  function Count(s: string, c: char): nat
  {
    if s == [] then 0 else Count(s[1..], c) + (if s[0] == c then 1 else 0)
  }

  // ---------------------------------------------------------------------------
  // String.Split(char)

  /** `s.Split(sep)`: the maximal runs of characters between separators, empty
      entries kept, so the result is never empty. */
  function Split(s: string, sep: char): (r: seq<string>)
    ensures |r| >= 1
    decreases |s|
  {
    if s == [] then [[]]
    else
      var rest := Split(s[1..], sep);
      if s[0] == sep then [[]] + rest
      else [[s[0]] + rest[0]] + rest[1..]
  }

  /** True when no segment contains the separator. */
  predicate SeparatorFree(segs: seq<string>, sep: char)
  {
    forall i :: 0 <= i < |segs| ==> sep !in segs[i]
  }

  /** No segment of a split contains the separator. */
  lemma {:induction false} SplitSeparatorFree(s: string, sep: char)
    ensures SeparatorFree(Split(s, sep), sep)
    decreases |s|
  {
    if s != [] {
      SplitSeparatorFree(s[1..], sep);
      var rest := Split(s[1..], sep);
      if s[0] != sep {
        assert sep !in [s[0]] + rest[0];
      }
    }
  }

  // ---------------------------------------------------------------------------
  // String.Join(string, IEnumerable<string>)

  /** `String.Join(sep, segs)`: the segments with `sep` between neighbours. */
  function Join(sep: string, segs: seq<string>): string
  {
    if segs == [] then []
    else if |segs| == 1 then segs[0]
    else segs[0] + sep + Join(sep, segs[1..])
  }

  // ---------------------------------------------------------------------------
  // String.Replace(string, string)

  /** `s.Replace(oldValue, newValue)`: scanning left to right, every
      non-overlapping occurrence of `oldValue` is replaced by `newValue`.
      .NET throws for an empty `oldValue`; callers never pass one. */
  function Replace(s: string, oldValue: string, newValue: string): (r: string)
    requires oldValue != []
    ensures newValue == [] ==> |r| <= |s|
    decreases |s|
  {
    if s == [] then []
    else if StartsWith(s, oldValue) then newValue + Replace(s[|oldValue|..], oldValue, newValue)
    else [s[0]] + Replace(s[1..], oldValue, newValue)
  }

  // ---------------------------------------------------------------------------
  // Split and Join

  /** Split returns one more segment than there are separators. */
  lemma {:induction false} SplitCount(s: string, sep: char)
    ensures |Split(s, sep)| == Count(s, sep) + 1
    decreases |s|
  {
    if s != [] {
      SplitCount(s[1..], sep);
    }
  }

  /** Prepending to the first segment prepends to the joined string. */
  lemma JoinExtendFirst(sep: string, x: string, segs: seq<string>)
    requires segs != []
    ensures Join(sep, [x + segs[0]] + segs[1..]) == x + Join(sep, segs)
  {
    var t := [x + segs[0]] + segs[1..];
    assert t[1..] == segs[1..];
    if |segs| > 1 {
      calc {
        Join(sep, t);
        t[0] + sep + Join(sep, t[1..]);
        x + (segs[0] + sep + Join(sep, segs[1..]));
      }
    }
  }

  /** Joining the pieces of a split gives back the original string. */
  lemma {:induction false} JoinSplit(s: string, sep: char)
    ensures Join([sep], Split(s, sep)) == s
    decreases |s|
  {
    if s != [] {
      JoinSplit(s[1..], sep);
      var rest := Split(s[1..], sep);
      if s[0] == sep {
        assert ([[]] + rest)[1..] == rest;
      } else {
        JoinExtendFirst([sep], [s[0]], rest);
        assert [s[0]] + s[1..] == s;
      }
    }
  }

  /** Splitting after a separator-free prefix extends the first segment only. */
  lemma {:induction false} SplitAfterPrefix(x: string, t: string, sep: char)
    requires sep !in x
    ensures Split(x + t, sep) == [x + Split(t, sep)[0]] + Split(t, sep)[1..]
    decreases |x|
  {
    if x == [] {
      var st := Split(t, sep);
      assert x + t == t && x + st[0] == st[0];
      assert st == [st[0]] + st[1..];
    } else {
      var st := Split(t, sep);
      assert (x + t)[0] == x[0] && x[0] in x;
      assert (x + t)[1..] == x[1..] + t;
      SplitAfterPrefix(x[1..], t, sep);
      assert ([x[1..] + st[0]] + st[1..])[1..] == st[1..];
      assert [x[0]] + (x[1..] + st[0]) == x + st[0];
    }
  }

  /** A string without the separator splits into itself alone. */
  lemma SplitNoSeparator(x: string, sep: char)
    requires sep !in x
    ensures Split(x, sep) == [x]
  {
    SplitAfterPrefix(x, [], sep);
    assert x + [] == x;
  }

  /** Split undoes Join when no segment contains the separator. */
  lemma {:induction false} SplitJoin(segs: seq<string>, sep: char)
    requires |segs| >= 1
    requires SeparatorFree(segs, sep)
    ensures Split(Join([sep], segs), sep) == segs
    decreases |segs|
  {
    if |segs| == 1 {
      SplitNoSeparator(segs[0], sep);
    } else {
      SplitJoin(segs[1..], sep);
      var tail := Join([sep], segs[1..]);
      assert Join([sep], segs) == segs[0] + ([sep] + tail);
      SplitAfterPrefix(segs[0], [sep] + tail, sep);
      assert ([sep] + tail)[1..] == tail;
      assert segs[0] + [] == segs[0];
      assert [segs[0]] + segs[1..] == segs;
    }
  }

  /** Joining two non-empty lists puts one separator between the two joins. */
  lemma {:induction false} JoinAppend(sep: string, a: seq<string>, b: seq<string>)
    requires a != [] && b != []
    ensures Join(sep, a + b) == Join(sep, a) + sep + Join(sep, b)
    decreases |a|
  {
    if |a| == 1 {
      assert (a + b)[1..] == b;
    } else {
      assert (a + b)[1..] == a[1..] + b;
      JoinAppend(sep, a[1..], b);
    }
  }

  /** A join starts with its first segment, followed by the separator when
      more segments follow. */
  lemma JoinStartsWithFirst(sep: string, segs: seq<string>)
    requires segs != []
    ensures var r := Join(sep, segs);
      |segs[0]| <= |r| && r[..|segs[0]|] == segs[0] &&
      (|segs| > 1 ==> r[|segs[0]|..][..|sep|] == sep)
  {
    if |segs| > 1 {
      var r := Join(sep, segs);
      assert r == segs[0] + (sep + Join(sep, segs[1..]));
      assert r[|segs[0]|..] == sep + Join(sep, segs[1..]);
    }
  }

  /** Splitting at a separator splits both sides independently. */
  lemma SplitConcat(a: string, b: string, sep: char)
    ensures Split(a + [sep] + b, sep) == Split(a, sep) + Split(b, sep)
  {
    var segs := Split(a, sep) + Split(b, sep);
    JoinSplit(a, sep);
    JoinSplit(b, sep);
    JoinAppend([sep], Split(a, sep), Split(b, sep));
    SplitSeparatorFree(a, sep);
    SplitSeparatorFree(b, sep);
    assert SeparatorFree(segs, sep);
    SplitJoin(segs, sep);
  }

  /** Every tail of the segment list joins to a textual suffix of the string,
      preceded by a separator unless it is the whole string. */
  lemma JoinSplitTail(s: string, sep: char, i: nat)
    requires i < |Split(s, sep)|
    ensures var t := Join([sep], Split(s, sep)[i..]);
      |t| <= |s| && s[|s| - |t|..] == t && (i == 0 <==> |t| == |s|) &&
      (i > 0 ==> s[|s| - |t| - 1] == sep)
  {
    var segs := Split(s, sep);
    JoinSplit(s, sep);
    var t := Join([sep], segs[i..]);
    if i == 0 {
      assert segs[i..] == segs;
    } else {
      assert segs == segs[..i] + segs[i..];
      JoinAppend([sep], segs[..i], segs[i..]);
      assert s == Join([sep], segs[..i]) + [sep] + t;
    }
  }

  /** `r` is the text of `s` after its last separator, or all of `s` when it
      has no separator. */
  predicate IsLastSegment(r: string, s: string, sep: char)
  {
    sep !in r && |r| <= |s| && s[|s| - |r|..] == r &&
    (|r| == |s| || s[|s| - |r| - 1] == sep)
  }

  /** The last segment of a split is the tail of the string after its last
      separator (or the whole string when there is none). */
  lemma SplitLastIsTail(s: string, sep: char)
    ensures IsLastSegment(Split(s, sep)[|Split(s, sep)| - 1], s, sep)
  {
    var segs := Split(s, sep);
    var n := |segs|;
    SplitSeparatorFree(s, sep);
    JoinSplitTail(s, sep, n - 1);
    assert segs[n - 1..] == [segs[n - 1]];
    if n > 1 {
      JoinAppend([sep], segs[..n - 1], segs[n - 1..]);
      assert segs == segs[..n - 1] + segs[n - 1..];
      JoinSplit(s, sep);
      var head := Join([sep], segs[..n - 1]);
      assert s == head + [sep] + segs[n - 1];
      assert s[|s| - |segs[n - 1]| - 1] == sep;
    }
  }

  // ---------------------------------------------------------------------------
  // Replace

  /** A character in neither the old nor the new value is present after
      Replace exactly when it was present before. */
  lemma {:induction false} ReplaceKeepsOtherChars(s: string, p: string, n: string, c: char)
    requires p != [] && c !in p && c !in n
    ensures c in Replace(s, p, n) <==> c in s
    decreases |s|
  {
    if s != [] {
      if StartsWith(s, p) {
        ReplaceKeepsOtherChars(s[|p|..], p, n, c);
        assert s == s[..|p|] + s[|p|..];
      } else {
        ReplaceKeepsOtherChars(s[1..], p, n, c);
        assert s == [s[0]] + s[1..];
      }
    }
  }

  /** Replace leaves a string without occurrences unchanged. */
  lemma {:induction false} ReplaceNoOccurrence(s: string, p: string, n: string)
    requires p != [] && !Occurs(s, p)
    ensures Replace(s, p, n) == s
    decreases |s|
  {
    if s != [] {
      assert s[0..] == s;
      assert !StartsWith(s, p);
      forall i | 0 <= i <= |s[1..]|
        ensures !StartsWith(s[1..][i..], p)
      {
        assert s[1..][i..] == s[i + 1..];
      }
      ReplaceNoOccurrence(s[1..], p, n);
    }
  }

  /** Whether `a + t` starts with `p` depends on `a` alone when `a` is at
      least as long as `p`. */
  lemma StartsWithLonger(a: string, t: string, p: string)
    requires |p| <= |a|
    ensures StartsWith(a + t, p) <==> StartsWith(a, p)
  {
    assert (a + t)[..|p|] == a[..|p|];
  }

  /** A prefix shorter than `p`, followed by a character `p` lacks, cannot
      start an occurrence of `p`. */
  lemma NotStartsWithAcross(a: string, c: char, b: string, p: string)
    requires c !in p && |a| < |p|
    ensures !StartsWith(a + [c] + b, p)
  {
    var s := a + [c] + b;
    assert s[|a|] == c && p[|a|] in p;
    if |p| <= |s| {
      assert s[..|p|][|a|] == c;
    }
  }

  /** An occurrence cannot straddle a character that the pattern lacks, so
      Replace works on each side of such a character independently. */
  lemma {:induction false} ReplaceAround(a: string, c: char, b: string, p: string, n: string)
    requires p != [] && c !in p
    ensures Replace(a + [c] + b, p, n) == Replace(a, p, n) + [c] + Replace(b, p, n)
    decreases |a|
  {
    var s := a + [c] + b;
    if a == [] {
      NotStartsWithAcross(a, c, b, p);
      assert s == [c] + b && s[1..] == b;
      assert Replace(s, p, n) == [c] + Replace(b, p, n);
    } else {
      if |p| <= |a| {
        assert s == a + ([c] + b);
        StartsWithLonger(a, [c] + b, p);
      } else {
        NotStartsWithAcross(a, c, b, p);
      }
      if StartsWith(a, p) {
        var a' := a[|p|..];
        assert s[|p|..] == a' + [c] + b;
        ReplaceAround(a', c, b, p, n);
        assert Replace(s, p, n) == n + Replace(a' + [c] + b, p, n);
        assert Replace(a, p, n) == n + Replace(a', p, n);
      } else {
        var a' := a[1..];
        assert s[0] == a[0] && s[1..] == a' + [c] + b;
        ReplaceAround(a', c, b, p, n);
        assert Replace(s, p, n) == [a[0]] + Replace(a' + [c] + b, p, n);
        assert Replace(a, p, n) == [a[0]] + Replace(a', p, n);
      }
    }
  }

  /** A pattern whose first character does not recur in it is found at the end
      of a string that does not otherwise contain it, and only there. */
  lemma {:induction false} ReplaceTrailing(s: string, p: string, n: string)
    requires p != [] && p[0] !in p[1..] && !Occurs(s, p)
    ensures Replace(s + p, p, n) == s + n
    decreases |s|
  {
    var t := s + p;
    if s == [] {
      assert t == p && t[|p|..] == [];
      assert StartsWith(t, p);
    } else {
      assert s[0..] == s;
      if |p| <= |s| {
        assert t[..|p|] == s[..|p|];
      } else {
        assert t[..|p|][|s|] == p[0];
        assert p[|s|] == p[1..][|s| - 1] && p[1..][|s| - 1] in p[1..];
      }
      forall i | 0 <= i <= |s[1..]|
        ensures !StartsWith(s[1..][i..], p)
      {
        assert s[1..][i..] == s[i + 1..];
      }
      assert t[1..] == s[1..] + p;
      ReplaceTrailing(s[1..], p, n);
      assert [s[0]] + (s[1..] + n) == s + n;
    }
  }

  /** Replacing is not idempotent: removing ".sln" from "..slnsln" leaves the
      later occurrence that the removal brings together. */
  lemma ReplaceCanLeaveOccurrence()
    ensures Replace("..slnsln", ".sln", "") == ".sln"
  {
    var s := "..slnsln";
    assert !StartsWith(s, ".sln") by { assert s[..4][1] == '.'; }
    assert s[1..] == ".slnsln";
    assert StartsWith(s[1..], ".sln");
    assert s[1..][4..] == "sln";
    assert !StartsWith("sln", ".sln");
    assert "sln"[1..] == "ln";
    assert !StartsWith("ln", ".sln");
    assert "ln"[1..] == "n";
    assert !StartsWith("n", ".sln");
    assert "n"[1..] == "";
  }
}
