/** String helpers shared by the Python and the JavaScript parts: separator search, split and
    join (both languages split alike on a non-empty separator), suffix and substring tests,
    code-point order and sorting, decimal rendering. */
module Strings {
  import opened Wrappers

  /** `sep` occurs in `s` starting at index `j`. */
  predicate OccursAt(s: string, sep: string, j: nat) {
    j + |sep| <= |s| && s[j..j + |sep|] == sep
  }

  /** Python's `w in s` on strings: `w` is a contiguous substring of `s` (the empty string always is). */
  predicate IsSubstring(w: string, s: string) {
    exists j :: 0 <= j <= |s| && OccursAt(s, w, j)
  }

  /** JavaScript's `s.endsWith(suffix)`. */
  predicate EndsWith(s: string, suffix: string) {
    |suffix| <= |s| && s[|s| - |suffix|..] == suffix
  }

  /** Index of the first occurrence of `sep` in `s` at or after `from`. */
  function FindFrom(s: string, sep: string, from: nat): (r: Option<nat>)
    requires sep != []
    ensures r.Some? ==> from <= r.value && OccursAt(s, sep, r.value)
    ensures r.Some? ==> forall j :: from <= j < r.value ==> !OccursAt(s, sep, j)
    ensures r.None? ==> forall j :: from <= j ==> !OccursAt(s, sep, j)
    decreases |s| - from
  {
    if from + |sep| > |s| then None
    else if s[from..from + |sep|] == sep then Some(from)
    else FindFrom(s, sep, from + 1)
  }

  function Find(s: string, sep: string): (r: Option<nat>)
    requires sep != []
    ensures r.Some? ==> OccursAt(s, sep, r.value) && forall j :: 0 <= j < r.value ==> !OccursAt(s, sep, j)
    ensures r.None? ==> forall j :: 0 <= j ==> !OccursAt(s, sep, j)
  {
    FindFrom(s, sep, 0)
  }

  /** `s.split(sep)` for a non-empty separator: the pieces between the non-overlapping occurrences
      of `sep`, scanning left to right. There is always at least one piece: `"".split(",") == [""]`. */
  function Split(s: string, sep: string): (r: seq<string>)
    requires sep != []
    ensures |r| >= 1
    decreases |s|
  {
    match Find(s, sep)
    case None => [s]
    case Some(i) => [s[..i]] + Split(s[i + |sep|..], sep)
  }

  /** `sep.join(xs)` in Python, `xs.join(sep)` in JavaScript. */
  function Join(sep: string, xs: seq<string>): string {
    if |xs| == 0 then "" else if |xs| == 1 then xs[0] else xs[0] + sep + Join(sep, xs[1..])
  }

  /** Joining the pieces of a split gives the string back, for every string and separator. */
  lemma {:induction false} JoinSplit(s: string, sep: string)
    requires sep != []
    ensures Join(sep, Split(s, sep)) == s
    decreases |s|
  {
    var f := Find(s, sep);
    if f.Some? {
      var i := f.value;
      var rest := s[i + |sep|..];
      var pieces := Split(rest, sep);
      JoinSplit(rest, sep);
      assert Split(s, sep) == [s[..i]] + pieces;
      assert ([s[..i]] + pieces)[1..] == pieces;
      assert s == s[..i] + sep + rest by {
        assert s[i..i + |sep|] == sep;
      }
    }
  }

  /** With a one-character separator, `[c]` occurs exactly where `c` is. */
  lemma OccursAtChar(s: string, c: char, j: nat)
    ensures OccursAt(s, [c], j) <==> j < |s| && s[j] == c
  {
    if j < |s| {
      assert s[j..j + 1] == [s[j]];
    }
  }

  /** Splitting a one-character-separated join gives the pieces back when no piece holds the
      separator character. The join of `[]` is `""`, which splits to `[""]`, so `xs` must be non-empty. */
  lemma {:induction false} SplitJoin(xs: seq<string>, c: char)
    requires xs != []
    requires forall k :: 0 <= k < |xs| ==> c !in xs[k]
    ensures Split(Join([c], xs), [c]) == xs
  {
    var s := Join([c], xs);
    if |xs| == 1 {
      forall j: nat ensures !OccursAt(s, [c], j) {
        OccursAtChar(s, c, j);
      }
    } else {
      var rest := Join([c], xs[1..]);
      var n := |xs[0]|;
      assert s == xs[0] + [c] + rest;
      OccursAtChar(s, c, n);
      match Find(s, [c])
      case None =>
        assert false;
      case Some(i) =>
        forall j: nat | j < n ensures !OccursAt(s, [c], j) {
          OccursAtChar(s, c, j);
          assert s[j] == xs[0][j];
        }
        assert i == n;
        assert s[..i] == xs[0];
        assert s[i + 1..] == rest;
        SplitJoin(xs[1..], c);
    }
  }

  /** `r` is a suffix of `s` free of `c`, and either all of `s` or preceded by `c`. */
  predicate LastCFree(s: string, c: char, r: string) {
    c !in r && EndsWith(s, r) && (|r| < |s| ==> s[|s| - |r| - 1] == c)
  }

  /** A `c`-free maximal suffix of the text after a `c` is one of the whole text. */
  lemma SuffixAfterSep(s: string, c: char, i: nat, r: string)
    requires i < |s| && s[i] == c
    requires LastCFree(s[i + 1..], c, r)
    ensures LastCFree(s, c, r)
  {
    var rest := s[i + 1..];
    var m := |rest| - |r|;
    assert |s| - |r| == i + 1 + m;
    forall j | 0 <= j < |r| ensures s[i + 1 + m + j] == r[j] {
      assert rest[m..][j] == r[j];
      assert rest[m + j] == s[i + 1 + m + j];
    }
    assert s[|s| - |r|..] == r;
    if m > 0 {
      assert s[i + m] == rest[m - 1];
    }
  }

  /** A string without `c` is its own maximal `c`-free suffix. */
  lemma WholeCFree(s: string, c: char)
    requires forall j: nat :: !OccursAt(s, [c], j)
    ensures LastCFree(s, c, s)
  {
    forall j: nat | j < |s| ensures s[j] != c {
      OccursAtChar(s, c, j);
    }
    assert s[|s| - |s|..] == s;
  }

  /** The last piece of `Split(s, [c])` is the longest suffix of `s` free of `c`. */
  lemma {:induction false} SplitLast(s: string, c: char)
    ensures var pieces := Split(s, [c]); LastCFree(s, c, pieces[|pieces| - 1])
    decreases |s|
  {
    match Find(s, [c])
    case None =>
      assert Split(s, [c]) == [s];
      WholeCFree(s, c);
    case Some(i) =>
      OccursAtChar(s, c, i);
      var pieces := Split(s[i + 1..], [c]);
      assert Split(s, [c]) == [s[..i]] + pieces;
      SplitLast(s[i + 1..], c);
      SuffixAfterSep(s, c, i, pieces[|pieces| - 1]);
  }

  /** Code-point (lexicographic) order on strings, as Python's `<=` on `str`. */
  predicate StrLe(a: string, b: string) {
    |a| == 0 || (|b| > 0 && (a[0] < b[0] || (a[0] == b[0] && StrLe(a[1..], b[1..]))))
  }

  lemma StrLeReflexive(a: string)
    ensures StrLe(a, a)
  {
  }

  lemma StrLeTotal(a: string, b: string)
    ensures StrLe(a, b) || StrLe(b, a)
  {
  }

  lemma StrLeAntisymmetric(a: string, b: string)
    requires StrLe(a, b) && StrLe(b, a)
    ensures a == b
  {
    if |a| > 0 && |b| > 0 {
      StrLeAntisymmetric(a[1..], b[1..]);
      assert a == [a[0]] + a[1..] && b == [b[0]] + b[1..];
    }
  }

  lemma StrLeTransitive(a: string, b: string, c: string)
    requires StrLe(a, b) && StrLe(b, c)
    ensures StrLe(a, c)
  {
    if |a| > 0 && |b| > 0 && |c| > 0 && a[0] == b[0] == c[0] {
      StrLeTransitive(a[1..], b[1..], c[1..]);
    }
  }

  predicate SortedStrings(s: seq<string>) {
    forall i, j :: 0 <= i < j < |s| ==> StrLe(s[i], s[j])
  }

  /** Insert `x` into the sorted `s`, before the first element it precedes. */
  function Insert(x: string, s: seq<string>): (r: seq<string>)
    requires SortedStrings(s)
    ensures SortedStrings(r)
    ensures multiset(r) == multiset(s) + multiset{x}
  {
    if s == [] then [x]
    else if StrLe(x, s[0]) then
      assert forall j :: 0 < j < |s| ==> StrLe(x, s[j]) by {
        forall j | 0 < j < |s| ensures StrLe(x, s[j]) {
          StrLeTransitive(x, s[0], s[j]);
        }
      }
      [x] + s
    else
      var t := Insert(x, s[1..]);
      StrLeTotal(x, s[0]);
      assert s == [s[0]] + s[1..];
      assert forall j :: 0 <= j < |t| ==> StrLe(s[0], t[j]) by {
        forall j | 0 <= j < |t| ensures StrLe(s[0], t[j]) {
          assert t[j] in multiset(t);
          if t[j] != x {
            assert t[j] in multiset(s[1..]);
            var k :| 0 <= k < |s[1..]| && s[1..][k] == t[j];
            assert s[k + 1] == t[j];
          }
        }
      }
      [s[0]] + t
  }

  /** Python's `sorted` on a list of strings (insertion sort; which stable sort is used does not matter
      for strings, see SortedUnique). */
  function Sort(s: seq<string>): (r: seq<string>)
    ensures SortedStrings(r)
    ensures multiset(r) == multiset(s)
  {
    if s == [] then []
    else
      assert s == [s[0]] + s[1..];
      Insert(s[0], Sort(s[1..]))
  }

  /** Two sorted sequences with the same elements (counted with multiplicity) are equal. */
  lemma {:induction false} SortedUnique(a: seq<string>, b: seq<string>)
    requires SortedStrings(a) && SortedStrings(b)
    requires multiset(a) == multiset(b)
    ensures a == b
  {
    if a != [] {
      assert |b| == |a| by {
        assert |b| == |multiset(b)| == |multiset(a)| == |a|;
      }
      assert a[0] == b[0] by {
        assert a[0] in multiset(b) && b[0] in multiset(a);
        SortedHeadLeast(b, a[0]);
        SortedHeadLeast(a, b[0]);
        StrLeAntisymmetric(a[0], b[0]);
      }
      assert multiset(a[1..]) == multiset(b[1..]) by {
        assert a == [a[0]] + a[1..] && b == [b[0]] + b[1..];
        assert multiset(a[1..]) == multiset(a) - multiset{a[0]};
        assert multiset(b[1..]) == multiset(b) - multiset{b[0]};
      }
      assert SortedStrings(a[1..]) && SortedStrings(b[1..]) by {
        SortedTail(a);
        SortedTail(b);
      }
      SortedUnique(a[1..], b[1..]);
      assert a == [a[0]] + a[1..] && b == [b[0]] + b[1..];
    }
  }

  /** The tail of an ordered list is ordered. */
  lemma SortedTail(s: seq<string>)
    requires SortedStrings(s) && s != []
    ensures SortedStrings(s[1..])
  {
    forall i, j | 0 <= i < j < |s| - 1 ensures StrLe(s[1..][i], s[1..][j]) {
      assert s[1..][i] == s[i + 1] && s[1..][j] == s[j + 1];
    }
  }

  /** The first element of an ordered list is at most every element. */
  lemma SortedHeadLeast(s: seq<string>, x: string)
    requires SortedStrings(s) && x in s
    ensures StrLe(s[0], x)
  {
    StrLeReflexive(s[0]);
    var j :| 0 <= j < |s| && s[j] == x;
    if j > 0 {
      assert StrLe(s[0], s[j]);
    }
  }


  /** `sorted(a) == sorted(b)` holds exactly when `a` and `b` hold the same strings with the same
      multiplicities. */
  lemma SortEqualIffSameMultiset(a: seq<string>, b: seq<string>)
    ensures Sort(a) == Sort(b) <==> multiset(a) == multiset(b)
  {
    if multiset(a) == multiset(b) {
      SortedUnique(Sort(a), Sort(b));
    }
  }

  function DigitChar(d: nat): char
    requires d < 10
  {
    "0123456789"[d]
  }

  /** Decimal rendering of a natural number, as JavaScript's template literals print one. */
  function NatToString(n: nat): (r: string)
    ensures |r| >= 1
    ensures forall i :: 0 <= i < |r| ==> '0' <= r[i] <= '9'
    decreases n
  {
    if n < 10 then [DigitChar(n)] else NatToString(n / 10) + [DigitChar(n % 10)]
  }

  /** The value of a string of decimal digits. */
  function ParseNat(s: string): nat
    requires forall i :: 0 <= i < |s| ==> '0' <= s[i] <= '9'
    decreases |s|
  {
    if s == [] then 0
    else ParseNat(s[..|s| - 1]) * 10 + ((s[|s| - 1] as int) - ('0' as int))
  }

  /** Printing a number and reading its digits back gives the number. */
  lemma {:induction false} ParseNatToString(n: nat)
    ensures ParseNat(NatToString(n)) == n
    decreases n
  {
    var r := NatToString(n);
    var d := if n < 10 then n else n % 10;
    assert r[|r| - 1] == DigitChar(d);
    assert (DigitChar(d) as int) - ('0' as int) == d;
    if n >= 10 {
      assert r[..|r| - 1] == NatToString(n / 10);
      ParseNatToString(n / 10);
    }
  }
}
