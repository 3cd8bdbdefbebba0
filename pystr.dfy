/**
 * The parts of Python's `str` that the email-discovery code relies on:
 * whitespace (`isspace`, `strip`, `split()`), ASCII case (`lower`, `isalpha`),
 * `split(sep)` and `join`, `replace`, `startswith`/`endswith`/`in`,
 * `rstrip(c)`, list slicing `[:n]`, and the code-point ordering that
 * `sorted` uses on strings.
 */
module PyString {

  // ---------------------------------------------------------------------------
  // Characters
  // ---------------------------------------------------------------------------

  /** `c.isspace()`: the characters Python's `strip()` and `split()` treat as whitespace. */
  predicate IsSpace(c: char) {
    || c == ' ' || ('\t' <= c <= '\r') || ('\U{1C}' <= c <= '\U{1F}')
    || c == '\U{85}' || c == '\U{A0}' || c == '\U{1680}'
    || ('\U{2000}' <= c <= '\U{200A}') || c == '\U{2028}' || c == '\U{2029}'
    || c == '\U{202F}' || c == '\U{205F}' || c == '\U{3000}'
  }

  predicate IsUpper(c: char) { 'A' <= c <= 'Z' }

  predicate IsLetter(c: char) { 'a' <= c <= 'z' || 'A' <= c <= 'Z' }

  predicate IsDigit(c: char) { '0' <= c <= '9' }

  function LowerChar(c: char): (r: char)
    ensures !IsUpper(r)
    ensures IsSpace(r) <==> IsSpace(c)
    ensures IsLetter(r) <==> IsLetter(c)
    ensures !IsUpper(c) ==> r == c
  {
    if IsUpper(c) then (c as int + 32) as char else c
  }

  // ---------------------------------------------------------------------------
  // Case
  // ---------------------------------------------------------------------------

  predicate IsLower(s: string) {
    forall i :: 0 <= i < |s| ==> !IsUpper(s[i])
  }

  /** `s.lower()`, on the ASCII letters. */
  function Lower(s: string): (r: string)
    ensures |r| == |s|
    ensures forall i :: 0 <= i < |s| ==> r[i] == LowerChar(s[i])
    ensures IsLower(r)
    ensures IsLower(s) ==> r == s
  {
    seq(|s|, i requires 0 <= i < |s| => LowerChar(s[i]))
  }

  lemma LowerConcat(a: string, b: string)
    ensures Lower(a + b) == Lower(a) + Lower(b)
  {
    assert forall i :: 0 <= i < |a + b| ==> Lower(a + b)[i] == (Lower(a) + Lower(b))[i];
  }

  /** `s.isalpha()`: non-empty and letters only. */
  predicate IsAlpha(s: string) {
    s != [] && forall i :: 0 <= i < |s| ==> IsLetter(s[i])
  }

  lemma LowerKeepsAlpha(s: string)
    ensures IsAlpha(Lower(s)) <==> IsAlpha(s)
  {
    var r := Lower(s);
    assert forall i :: 0 <= i < |s| ==> (IsLetter(r[i]) <==> IsLetter(s[i]));
  }

  // ---------------------------------------------------------------------------
  // Whitespace: strip() and split()
  // ---------------------------------------------------------------------------

  predicate NoSpace(s: string) {
    forall i :: 0 <= i < |s| ==> !IsSpace(s[i])
  }

  /** Neither end of `s` is whitespace. */
  predicate IsStripped(s: string) {
    s == [] || (!IsSpace(s[0]) && !IsSpace(s[|s| - 1]))
  }

  function TrimLeft(s: string): (r: string)
    ensures |r| <= |s| && r == s[|s| - |r|..]
    ensures r == [] || !IsSpace(r[0])
    ensures forall i :: 0 <= i < |s| - |r| ==> IsSpace(s[i])
    decreases |s|
  {
    if s != [] && IsSpace(s[0]) then TrimLeft(s[1..]) else s
  }

  function TrimRight(s: string): (r: string)
    ensures |r| <= |s| && r == s[..|r|]
    ensures r == [] || !IsSpace(r[|r| - 1])
    ensures forall i :: |r| <= i < |s| ==> IsSpace(s[i])
    decreases |s|
  {
    if s != [] && IsSpace(s[|s| - 1]) then TrimRight(s[..|s| - 1]) else s
  }

  /** `s.strip()`: drops the leading and trailing whitespace. */
  function Strip(s: string): (r: string)
    ensures IsStripped(r) && |r| <= |s|
    ensures IsStripped(s) ==> r == s
  {
    TrimRight(TrimLeft(s))
  }

  /** Concatenation regroups freely. */
  lemma ConcatAssoc<T>(a: seq<T>, b: seq<T>, c: seq<T>)
    ensures (a + b) + c == a + (b + c)
  {
  }

  /**
   * A suffix `t` of `s` after whitespace, and a prefix `r` of `t` before
   * whitespace, leave `s` as `r` with whitespace around it.
   */
  lemma SpaceAround(s: string, t: string, r: string) returns (pre: string, post: string)
    requires |t| <= |s| && t == s[|s| - |t|..]
    requires forall i :: 0 <= i < |s| - |t| ==> IsSpace(s[i])
    requires |r| <= |t| && r == t[..|r|]
    requires forall i :: |r| <= i < |t| ==> IsSpace(t[i])
    ensures s == pre + (r + post)
    ensures forall i :: 0 <= i < |pre| ==> IsSpace(pre[i])
    ensures forall i :: 0 <= i < |post| ==> IsSpace(post[i])
  {
    pre, post := s[..|s| - |t|], t[|r|..];
    assert s == pre + t;
    assert t == r + post;
    forall i | 0 <= i < |post|
      ensures IsSpace(post[i])
    {
      assert post[i] == t[|r| + i];
    }
  }

  /** `s.strip()` drops only whitespace: `s` is its stripped form with whitespace around it. */
  lemma StripSplit(s: string) returns (pre: string, post: string)
    ensures s == pre + (Strip(s) + post)
    ensures forall i :: 0 <= i < |pre| ==> IsSpace(pre[i])
    ensures forall i :: 0 <= i < |post| ==> IsSpace(post[i])
  {
    pre, post := SpaceAround(s, TrimLeft(s), TrimRight(TrimLeft(s)));
  }

  /** Lower-casing never turns an end character into whitespace or back. */
  lemma LowerKeepsStripped(s: string)
    requires IsStripped(s)
    ensures IsStripped(Lower(s))
  {
  }

  /** Length of the leading run of non-whitespace characters. */
  function WordLen(s: string): (n: nat)
    ensures n <= |s|
    ensures forall i :: 0 <= i < n ==> !IsSpace(s[i])
    ensures n == |s| || IsSpace(s[n])
    decreases |s|
  {
    if s == [] || IsSpace(s[0]) then 0 else 1 + WordLen(s[1..])
  }

  /** `s.split()` with no separator: the maximal runs of non-whitespace, in order. */
  function Words(s: string): (r: seq<string>)
    ensures forall k :: 0 <= k < |r| ==> r[k] != [] && NoSpace(r[k])
    decreases |s|
  {
    if s == [] then []
    else if IsSpace(s[0]) then Words(s[1..])
    else var n := WordLen(s); [s[..n]] + Words(s[n..])
  }

  lemma {:induction false} WordLenUnique(s: string, n: nat)
    requires n <= |s|
    requires forall i :: 0 <= i < n ==> !IsSpace(s[i])
    requires n == |s| || IsSpace(s[n])
    ensures WordLen(s) == n
    decreases |s|
  {
    if n > 0 {
      WordLenUnique(s[1..], n - 1);
    }
  }

  lemma {:induction false} WordsAllSpace(y: string)
    requires forall i :: 0 <= i < |y| ==> IsSpace(y[i])
    ensures Words(y) == []
    decreases |y|
  {
    if y != [] {
      WordsAllSpace(y[1..]);
    }
  }

  /** Trailing whitespace contributes no word. */
  lemma {:induction false} WordsTrailingSpace(x: string, y: string)
    requires forall i :: 0 <= i < |y| ==> IsSpace(y[i])
    ensures Words(x + y) == Words(x)
    decreases |x|
  {
    if x == [] {
      assert x + y == y;
      WordsAllSpace(y);
    } else if IsSpace(x[0]) {
      assert (x + y)[1..] == x[1..] + y;
      WordsTrailingSpace(x[1..], y);
    } else {
      var n := WordLen(x);
      WordLenUnique(x + y, n);
      assert (x + y)[..n] == x[..n];
      assert (x + y)[n..] == x[n..] + y;
      WordsTrailingSpace(x[n..], y);
    }
  }

  /** Leading whitespace contributes no word. */
  lemma {:induction false} WordsLeadingSpace(x: string, y: string)
    requires forall i :: 0 <= i < |x| ==> IsSpace(x[i])
    ensures Words(x + y) == Words(y)
    decreases |x|
  {
    if x != [] {
      assert (x + y)[1..] == x[1..] + y;
      WordsLeadingSpace(x[1..], y);
    } else {
      assert x + y == y;
    }
  }

  /** Two words separated by one space split into those two words. */
  lemma WordsOfTwo(a: string, b: string)
    requires a != [] && b != [] && NoSpace(a) && NoSpace(b)
    ensures Words(a + " " + b) == [a, b]
  {
    var s := a + " " + b;
    assert s[0] == a[0];
    assert s[|a|] == ' ';
    WordLenUnique(s, |a|);
    assert s[..|a|] == a;
    assert s[|a|..] == " " + b;
    assert Words(" " + b) == Words(b) by {
      assert (" " + b)[1..] == b;
    }
    assert Words(b) == [b] by {
      WordLenUnique(b, |b|);
      assert b[..|b|] == b && b[|b|..] == [];
    }
    assert Words(s) == [s[..|a|]] + Words(s[|a|..]);
  }

  /** `s.strip().split() == s.split()`. */
  lemma WordsStrip(s: string)
    ensures Words(Strip(s)) == Words(s)
  {
    var r := Strip(s);
    var pre, post := StripSplit(s);
    WordsLeadingSpace(pre, r + post);
    WordsTrailingSpace(r, post);
  }

  // ---------------------------------------------------------------------------
  // Prefixes, suffixes, substrings
  // ---------------------------------------------------------------------------

  predicate StartsWith(s: string, p: string) {
    |p| <= |s| && s[..|p|] == p
  }

  predicate EndsWith(s: string, p: string) {
    |p| <= |s| && s[|s| - |p|..] == p
  }

  lemma EndsWithAppend(x: string, p: string)
    ensures EndsWith(x + p, p)
  {
    assert (x + p)[|x|..] == p;
  }

  /** `p in s` for strings: `p` occurs in `s` as a contiguous substring. */
  predicate Contains(s: string, p: string)
    decreases |s|
  {
    StartsWith(s, p) || (s != [] && Contains(s[1..], p))
  }

  lemma {:induction false} ContainsChar(s: string, c: char)
    ensures Contains(s, [c]) <==> c in s
    decreases |s|
  {
    if s != [] {
      ContainsChar(s[1..], c);
      assert s == [s[0]] + s[1..];
    }
  }

  /** An occurrence of `p` in `a + b` lies in `b` when `a` holds no `p[0]`. */
  lemma {:induction false} ContainsConcat(a: string, b: string, p: string)
    requires p != [] && p[0] !in a
    ensures Contains(a + b, p) <==> Contains(b, p)
    decreases |a|
  {
    if a == [] {
      assert a + b == b;
    } else {
      assert (a + b)[0] == a[0];
      assert (a + b)[1..] == a[1..] + b;
      ContainsConcat(a[1..], b, p);
    }
  }

  /** An occurrence in a suffix is an occurrence in the whole string. */
  lemma {:induction false} ContainsInSuffix(s: string, k: nat, p: string)
    requires k <= |s| && Contains(s[k..], p)
    ensures Contains(s, p)
    decreases k
  {
    if k > 0 {
      assert s[1..][k - 1..] == s[k..];
      ContainsInSuffix(s[1..], k - 1, p);
    }
  }

  /** Every character of a contained pattern occurs in the string. */
  lemma {:induction false} ContainsAllChars(s: string, p: string, i: nat)
    requires i < |p|
    ensures Contains(s, p) ==> p[i] in s
    decreases |s|
  {
    if Contains(s, p) {
      if StartsWith(s, p) {
        assert s[i] == p[i];
      } else {
        ContainsAllChars(s[1..], p, i);
        assert s[1..] <= s[1..] && p[i] in s[1..];
        assert s == [s[0]] + s[1..];
      }
    }
  }

  /** Whoever contains `p + q` contains `p`. */
  lemma {:induction false} ContainsPrefix(s: string, p: string, q: string)
    requires Contains(s, p + q)
    ensures Contains(s, p)
    decreases |s|
  {
    if StartsWith(s, p + q) {
      assert s[..|p|] == (p + q)[..|p|] == p;
    } else {
      ContainsPrefix(s[1..], p, q);
    }
  }

  /** `s.rstrip(c)`: drops every trailing `c` and nothing else. */
  function RStrip(s: string, c: char): (r: string)
    ensures |r| <= |s| && r == s[..|r|]
    ensures r == [] || r[|r| - 1] != c
    ensures forall i :: |r| <= i < |s| ==> s[i] == c
    decreases |s|
  {
    if s != [] && s[|s| - 1] == c then RStrip(s[..|s| - 1], c) else s
  }

  /** `rstrip(c)` keeps everything up to the last character other than `c`. */
  lemma RStripKeeps(s: string, c: char, i: nat)
    requires i < |s| && s[i] != c
    ensures |RStrip(s, c)| > i
  {
  }

  /** `xs[:n]` for a Python integer `n`, negative counts included. */
  function TakePrefix<T>(xs: seq<T>, n: int): (r: seq<T>)
    ensures |r| <= |xs| && r == xs[..|r|]
    ensures n >= 0 ==> |r| == if n < |xs| then n else |xs|
    ensures n < 0 ==> |r| == if -n < |xs| then |xs| + n else 0
  {
    if n >= 0 then (if n < |xs| then xs[..n] else xs)
    else if -n < |xs| then xs[..|xs| + n] else []
  }

  // ---------------------------------------------------------------------------
  // split(sep) and join
  // ---------------------------------------------------------------------------

  /** `s.split(sep)` for a non-empty `sep`: cut at the non-overlapping occurrences found left to right. */
  function SplitOn(s: string, sep: string): (r: seq<string>)
    requires sep != []
    ensures |r| >= 1
    decreases |s|
  {
    if |s| < |sep| then [s]
    else if s[..|sep|] == sep then [""] + SplitOn(s[|sep|..], sep)
    else var rest := SplitOn(s[1..], sep); [[s[0]] + rest[0]] + rest[1..]
  }

  /** `sep.join(items)`. */
  function Join(sep: string, items: seq<string>): string
    decreases |items|
  {
    if items == [] then ""
    else if |items| == 1 then items[0]
    else items[0] + sep + Join(sep, items[1..])
  }

  lemma JoinConsHead(sep: string, a: string, x: string, rest: seq<string>)
    ensures Join(sep, [a + x] + rest) == a + Join(sep, [x] + rest)
  {
    if rest != [] {
      assert ([a + x] + rest)[1..] == rest;
      assert ([x] + rest)[1..] == rest;
    }
  }

  /** Joining the pieces of a split with the same separator gives the string back. */
  lemma {:induction false} JoinSplitOn(s: string, sep: string)
    requires sep != []
    ensures Join(sep, SplitOn(s, sep)) == s
    decreases |s|
  {
    if |s| < |sep| {
    } else if s[..|sep|] == sep {
      var rest := SplitOn(s[|sep|..], sep);
      JoinSplitOn(s[|sep|..], sep);
      assert ([""] + rest)[1..] == rest;
      assert s == sep + s[|sep|..];
    } else {
      var rest := SplitOn(s[1..], sep);
      JoinSplitOn(s[1..], sep);
      assert rest == [rest[0]] + rest[1..];
      JoinConsHead(sep, [s[0]], rest[0], rest[1..]);
      assert s == [s[0]] + s[1..];
    }
  }

  /** A string without the separator splits into itself alone. */
  lemma {:induction false} SplitOnAbsent(x: string, sep: string)
    requires sep != [] && !Contains(x, sep)
    ensures SplitOn(x, sep) == [x]
    decreases |x|
  {
    if |x| >= |sep| {
      SplitOnAbsent(x[1..], sep);
      assert x == [x[0]] + x[1..];
    }
  }

  /** The first separator after a piece free of `sep[0]` ends that piece. */
  lemma {:induction false} SplitOnFirst(x: string, sep: string, rest: string)
    requires sep != [] && sep[0] !in x
    ensures SplitOn(x + sep + rest, sep) == [x] + SplitOn(rest, sep)
    decreases |x|
  {
    var s := x + sep + rest;
    if x == [] {
      assert s == sep + rest;
      assert s[..|sep|] == sep;
      assert s[|sep|..] == rest;
    } else {
      assert s[0] == x[0] != sep[0];
      assert s[..|sep|] != sep;
      assert s[1..] == x[1..] + sep + rest;
      SplitOnFirst(x[1..], sep, rest);
      assert x == [x[0]] + x[1..];
    }
  }

  /** When no item holds the separator's first character, splitting undoes joining. */
  lemma {:induction false} SplitOnJoin(sep: string, items: seq<string>)
    requires sep != [] && items != []
    requires forall k :: 0 <= k < |items| ==> sep[0] !in items[k]
    ensures SplitOn(Join(sep, items), sep) == items
    decreases |items|
  {
    if |items| == 1 {
      ContainsChar(items[0], sep[0]);
      if Contains(items[0], sep) {
        assert sep == [sep[0]] + sep[1..];
        ContainsPrefix(items[0], [sep[0]], sep[1..]);
      }
      SplitOnAbsent(items[0], sep);
    } else {
      SplitOnJoin(sep, items[1..]);
      SplitOnFirst(items[0], sep, Join(sep, items[1..]));
      assert items == [items[0]] + items[1..];
    }
  }

  // ---------------------------------------------------------------------------
  // replace
  // ---------------------------------------------------------------------------

  /** `s.replace(pat, rep)` for a non-empty `pat`: non-overlapping occurrences, left to right. */
  function Replace(s: string, pat: string, rep: string): (r: string)
    requires pat != []
    ensures !Contains(s, pat) ==> r == s
    decreases |s|
  {
    if |s| < |pat| then s
    else if s[..|pat|] == pat then rep + Replace(s[|pat|..], pat, rep)
    else [s[0]] + Replace(s[1..], pat, rep)
  }

  /** Replacing a single character works piece by piece. */
  lemma {:induction false} ReplaceCharConcat(a: string, b: string, c: char, rep: string)
    ensures Replace(a + b, [c], rep) == Replace(a, [c], rep) + Replace(b, [c], rep)
    decreases |a|
  {
    if a == [] {
      assert a + b == b;
    } else {
      assert (a + b)[1..] == a[1..] + b;
      assert (a + b)[..1] == a[..1];
      ReplaceCharConcat(a[1..], b, c, rep);
    }
  }

  /** After replacing every `c` by a string without `c`, no `c` is left. */
  lemma {:induction false} ReplaceCharRemoves(s: string, c: char, rep: string)
    requires c !in rep
    ensures c !in Replace(s, [c], rep)
    decreases |s|
  {
    if |s| >= 1 {
      ReplaceCharRemoves(s[1..], c, rep);
    }
  }

  // ---------------------------------------------------------------------------
  // Ordering, as Python compares strings, and sorted() of a set
  // ---------------------------------------------------------------------------

  /** `a < b` on Python strings: code points compared left to right, a proper prefix first. */
  predicate Less(a: string, b: string)
    decreases |a|
  {
    if a == [] then b != []
    else if b == [] then false
    else if a[0] != b[0] then a[0] < b[0]
    else Less(a[1..], b[1..])
  }

  lemma {:induction false} LessIrreflexive(a: string)
    ensures !Less(a, a)
    decreases |a|
  {
    if a != [] {
      LessIrreflexive(a[1..]);
    }
  }

  lemma {:induction false} LessTransitive(a: string, b: string, c: string)
    requires Less(a, b) && Less(b, c)
    ensures Less(a, c)
    decreases |a|
  {
    if a != [] && a[0] == b[0] && b[0] == c[0] {
      LessTransitive(a[1..], b[1..], c[1..]);
    }
  }

  lemma {:induction false} LessTotal(a: string, b: string)
    requires a != b
    ensures Less(a, b) || Less(b, a)
    decreases |a|
  {
    if a != [] && b != [] && a[0] == b[0] {
      assert a == [a[0]] + a[1..] && b == [b[0]] + b[1..];
      LessTotal(a[1..], b[1..]);
    }
  }

  predicate StrictlySorted(r: seq<string>) {
    forall i, j :: 0 <= i < j < |r| ==> Less(r[i], r[j])
  }

  /** A strictly sorted sequence repeats no element. */
  lemma SortedDistinct(r: seq<string>)
    requires StrictlySorted(r)
    ensures forall i, j :: 0 <= i < j < |r| ==> r[i] != r[j]
  {
    forall i, j | 0 <= i < j < |r| ensures r[i] != r[j] {
      LessIrreflexive(r[i]);
    }
  }

  /** The least element of a non-empty set of strings. */
  method Least(s: set<string>) returns (m: string)
    requires s != {}
    ensures m in s
    ensures forall y :: y in s && y != m ==> Less(m, y)
  {
    m :| m in s;
    var rest := s - {m};
    while rest != {}
      invariant rest <= s && m in s && m !in rest
      invariant forall y :: y in s && y !in rest && y != m ==> Less(m, y)
      decreases |rest|
    {
      var y :| y in rest;
      if Less(y, m) {
        forall z | z in s && z !in rest && z != m
          ensures Less(y, z)
        {
          LessTransitive(y, m, z);
        }
        m := y;
      } else {
        LessTotal(m, y);
      }
      rest := rest - {y};
    }
  }

  /** `sorted(s)` for a set of strings. */
  method SortedList(s: set<string>) returns (r: seq<string>)
    ensures StrictlySorted(r)
    ensures forall x :: x in r <==> x in s
    ensures |r| == |s|
  {
    r := [];
    var rest := s;
    while rest != {}
      invariant rest <= s
      invariant StrictlySorted(r)
      invariant forall x :: x in s <==> x in r || x in rest
      invariant forall x :: x in r ==> x !in rest
      invariant forall x, y :: x in r && y in rest ==> Less(x, y)
      invariant |r| + |rest| == |s|
      decreases |rest|
    {
      var m := Least(rest);
      r := r + [m];
      rest := rest - {m};
    }
  }
}
