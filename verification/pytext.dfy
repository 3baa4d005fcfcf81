/**
 * The handful of Python `str` operations the protocol client is built from:
 * `strip()`, `upper()`, `startswith`, the `in` substring test, `split(sep)`
 * and `replace(part, "")`. Strings are sequences of characters; case mapping
 * is ASCII-only.
 */
module PyText {

  /** The characters Python's `str.isspace` accepts, i.e. what `strip()` removes. */
  predicate IsSpace(c: char) {
    || c == ' '
    || ('\t' <= c <= '\r')
    || ('\U{1c}' <= c <= '\U{1f}')
    || c == '\U{85}' || c == '\U{a0}' || c == '\U{1680}'
    || ('\U{2000}' <= c <= '\U{200a}')
    || c == '\U{2028}' || c == '\U{2029}' || c == '\U{202f}' || c == '\U{205f}' || c == '\U{3000}'
  }

  /** The first index at or after `i` that does not hold whitespace, or `|s|`. */
  function SkipSpaces(s: string, i: nat): (j: nat)
    requires i <= |s|
    ensures i <= j <= |s|
    ensures forall k :: i <= k < j ==> IsSpace(s[k])
    ensures j < |s| ==> !IsSpace(s[j])
    decreases |s| - i
  {
    if i < |s| && IsSpace(s[i]) then SkipSpaces(s, i + 1) else i
  }

  /** The end of `s[lo..hi]` once its trailing whitespace is dropped. */
  function TrimEnd(s: string, lo: nat, hi: nat): (j: nat)
    requires lo <= hi <= |s|
    ensures lo <= j <= hi
    ensures forall k :: j <= k < hi ==> IsSpace(s[k])
    ensures j > lo ==> !IsSpace(s[j - 1])
    decreases hi - lo
  {
    if hi > lo && IsSpace(s[hi - 1]) then TrimEnd(s, lo, hi - 1) else hi
  }

  /** Number of whitespace characters `strip()` removes from the front of `s`. */
  function LeadingSpaces(s: string): nat {
    SkipSpaces(s, 0)
  }

  /** `s.strip()`: `s` without its leading and trailing whitespace. */
  function Strip(s: string): (r: string)
    ensures |r| <= |s|
    ensures r == [] || (!IsSpace(r[0]) && !IsSpace(r[|r| - 1]))
  {
    s[LeadingSpaces(s)..TrimEnd(s, LeadingSpaces(s), |s|)]
  }

  /**
   * `strip()` keeps one infix of `s`, starting after the leading whitespace,
   * and everything outside that infix is whitespace.
   */
  lemma StripInfix(s: string)
    ensures LeadingSpaces(s) + |Strip(s)| <= |s|
    ensures Strip(s) == s[LeadingSpaces(s)..LeadingSpaces(s) + |Strip(s)|]
    ensures forall i :: 0 <= i < |s| && !(LeadingSpaces(s) <= i < LeadingSpaces(s) + |Strip(s)|) ==> IsSpace(s[i])
  {
  }

  /** A string with no whitespace at either end is its own `strip()`. */
  lemma StripTrimmed(s: string)
    requires s == [] || (!IsSpace(s[0]) && !IsSpace(s[|s| - 1]))
    ensures Strip(s) == s
  {
  }

  /** The whitespace run starting at `i` ends at `k` when `k` is the first non-blank position. */
  lemma SkipSpacesAt(s: string, i: nat, k: nat)
    requires i <= k <= |s|
    requires forall j :: i <= j < k ==> IsSpace(s[j])
    requires k < |s| ==> !IsSpace(s[k])
    ensures SkipSpaces(s, i) == k
  {
  }

  /** Trailing whitespace of `s[lo..hi]` starts at `m` when `m` follows the last non-blank position. */
  lemma TrimEndAt(s: string, lo: nat, hi: nat, m: nat)
    requires lo <= m <= hi <= |s|
    requires forall j :: m <= j < hi ==> IsSpace(s[j])
    requires m > lo ==> !IsSpace(s[m - 1])
    ensures TrimEnd(s, lo, hi) == m
  {
  }

  /** A string of whitespace only strips to the empty string. */
  lemma StripBlank(x: string)
    requires forall k :: 0 <= k < |x| ==> IsSpace(x[k])
    ensures Strip(x) == []
  {
    SkipSpacesAt(x, 0, |x|);
  }

  /** Whitespace added around `s` is removed again: `(pre + s + post).strip() == s.strip()`. */
  lemma StripPadded(pre: string, s: string, post: string)
    requires forall i :: 0 <= i < |pre| ==> IsSpace(pre[i])
    requires forall i :: 0 <= i < |post| ==> IsSpace(post[i])
    ensures Strip(pre + s + post) == Strip(s)
  {
    var x := pre + s + post;
    if LeadingSpaces(s) == |s| {
      forall k | 0 <= k < |x| ensures IsSpace(x[k]) {
        if k < |pre| {
          assert x[k] == pre[k];
        } else if k < |pre| + |s| {
          assert x[k] == s[k - |pre|];
        } else {
          assert x[k] == post[k - |pre| - |s|];
        }
      }
      StripBlank(x);
    } else {
      LeadingPadded(pre, s, post);
      TrimEndPadded(pre, s, post);
      StripShifted(pre, s, post);
    }
  }

  /** With its bounds shifted by `|pre|`, the strip of `pre + s + post` is the strip of `s`. */
  lemma StripShifted(pre: string, s: string, post: string)
    requires LeadingSpaces(s) < |s|
    requires LeadingSpaces(pre + s + post) == |pre| + LeadingSpaces(s)
    requires TrimEnd(pre + s + post, |pre| + LeadingSpaces(s), |pre + s + post|)
          == |pre| + TrimEnd(s, LeadingSpaces(s), |s|)
    ensures Strip(pre + s + post) == Strip(s)
  {
    SlicePadded(pre, s, post, LeadingSpaces(s), TrimEnd(s, LeadingSpaces(s), |s|));
  }

  lemma LeadingPadded(pre: string, s: string, post: string)
    requires forall i :: 0 <= i < |pre| ==> IsSpace(pre[i])
    requires LeadingSpaces(s) < |s|
    ensures LeadingSpaces(pre + s + post) == |pre| + LeadingSpaces(s)
  {
    var x := pre + s + post;
    var a := LeadingSpaces(s);
    forall k | 0 <= k < |pre| + a ensures IsSpace(x[k]) {
      if k < |pre| { assert x[k] == pre[k]; } else { assert x[k] == s[k - |pre|]; }
    }
    assert x[|pre| + a] == s[a];
    SkipSpacesAt(x, 0, |pre| + a);
  }

  lemma TrimEndPadded(pre: string, s: string, post: string)
    requires forall i :: 0 <= i < |post| ==> IsSpace(post[i])
    requires LeadingSpaces(s) < |s|
    ensures TrimEnd(pre + s + post, |pre| + LeadingSpaces(s), |pre + s + post|)
         == |pre| + TrimEnd(s, LeadingSpaces(s), |s|)
  {
    var x := pre + s + post;
    var a := LeadingSpaces(s);
    var b := TrimEnd(s, a, |s|);
    assert b > a;
    forall k | |pre| + b <= k < |x| ensures IsSpace(x[k]) {
      if k < |pre| + |s| { assert x[k] == s[k - |pre|]; } else { assert x[k] == post[k - |pre| - |s|]; }
    }
    assert x[|pre| + b - 1] == s[b - 1];
    TrimEndAt(x, |pre| + a, |x|, |pre| + b);
  }

  lemma SlicePadded(pre: string, s: string, post: string, a: nat, b: nat)
    requires a <= b <= |s|
    ensures (pre + s + post)[|pre| + a..|pre| + b] == s[a..b]
  {
    var x := pre + s + post;
    assert forall k :: 0 <= k < b - a ==> x[|pre| + a..|pre| + b][k] == s[a..b][k];
  }

  /** ASCII upper-casing of one character. */
  function UpperChar(c: char): char {
    if 'a' <= c <= 'z' then (c as int - 32) as char else c
  }

  /** `s.upper()` with ASCII case mapping: the same length, every letter a-z mapped to A-Z. */
  function Upper(s: string): (r: string)
    ensures |r| == |s|
    ensures forall i :: 0 <= i < |s| ==> r[i] == UpperChar(s[i])
    decreases |s|
  {
    if s == [] then [] else [UpperChar(s[0])] + Upper(s[1..])
  }

  /** `upper()` is idempotent. */
  lemma UpperIdempotent(s: string)
    ensures Upper(Upper(s)) == Upper(s)
  {
  }

  /** Upper-casing turns no character into whitespace and no whitespace into anything else. */
  lemma UpperCharSpace(c: char)
    ensures IsSpace(UpperChar(c)) <==> IsSpace(c)
  {
  }

  /** `s.upper().strip() == s.strip().upper()`: case mapping leaves the whitespace where it was. */
  lemma StripUpper(s: string)
    ensures Strip(Upper(s)) == Upper(Strip(s))
  {
    var a := LeadingSpaces(s);
    var b := TrimEnd(s, a, |s|);
    UpperStripBounds(s);
    UpperSlice(s, a, b);
  }

  /** Upper-casing keeps both strip bounds. */
  lemma UpperStripBounds(s: string)
    ensures LeadingSpaces(Upper(s)) == LeadingSpaces(s)
    ensures TrimEnd(Upper(s), LeadingSpaces(s), |s|) == TrimEnd(s, LeadingSpaces(s), |s|)
  {
    SkipSpacesUpper(s, 0);
    TrimEndUpper(s, LeadingSpaces(s), |s|);
  }

  lemma {:induction false} SkipSpacesUpper(s: string, i: nat)
    requires i <= |s|
    ensures SkipSpaces(Upper(s), i) == SkipSpaces(s, i)
    decreases |s| - i
  {
    if i < |s| {
      UpperCharSpace(s[i]);
      if IsSpace(s[i]) {
        SkipSpacesUpper(s, i + 1);
      }
    }
  }

  lemma {:induction false} TrimEndUpper(s: string, lo: nat, hi: nat)
    requires lo <= hi <= |s|
    ensures TrimEnd(Upper(s), lo, hi) == TrimEnd(s, lo, hi)
    decreases hi - lo
  {
    if hi > lo {
      UpperCharSpace(s[hi - 1]);
      if IsSpace(s[hi - 1]) {
        TrimEndUpper(s, lo, hi - 1);
      }
    }
  }

  lemma UpperSlice(s: string, a: nat, b: nat)
    requires a <= b <= |s|
    ensures Upper(s[a..b]) == Upper(s)[a..b]
  {
  }

  /** A string with no lower-case ASCII letter is its own `upper()`. */
  lemma UpperOfUpper(s: string)
    requires forall i :: 0 <= i < |s| ==> !('a' <= s[i] <= 'z')
    ensures Upper(s) == s
  {
  }

  /** `s.startswith(prefix)`. */
  predicate StartsWith(s: string, prefix: string) {
    |prefix| <= |s| && s[..|prefix|] == prefix
  }

  /** `part in s`: `part` occurs somewhere in `s`. */
  predicate Contains(s: string, part: string)
    decreases |s|
  {
    StartsWith(s, part) || (|s| > 0 && Contains(s[1..], part))
  }

  /** An occurrence at position `i` makes `part in s` true. */
  lemma {:induction false} ContainsAt(s: string, part: string, i: nat)
    requires i <= |s| && StartsWith(s[i..], part)
    ensures Contains(s, part)
    decreases i
  {
    if i > 0 {
      assert s[1..][i - 1..] == s[i..];
      ContainsAt(s[1..], part, i - 1);
    }
  }

  /** A part that starts with a character absent from `s` does not occur in `s`. */
  lemma {:induction false} NotContainsMissingChar(s: string, part: string)
    requires |part| > 0 && part[0] !in s
    ensures !Contains(s, part)
    decreases |s|
  {
    if |s| > 0 {
      assert s[0] in s;
      assert forall c :: c in s[1..] ==> c in s;
      NotContainsMissingChar(s[1..], part);
    }
  }

  /**
   * `s.split(sep)`: the pieces of `s` between separators. Never empty; no
   * piece holds the separator.
   */
  function Split(s: string, sep: char): (parts: seq<string>)
    ensures |parts| >= 1
    ensures forall i :: 0 <= i < |parts| ==> sep !in parts[i]
    decreases |s|
  {
    if s == [] then [[]]
    else
      var rest := Split(s[1..], sep);
      if s[0] == sep then [[]] + rest else [[s[0]] + rest[0]] + rest[1..]
  }

  /** `sep.join(parts)`. */
  function Join(parts: seq<string>, sep: char): string
    requires |parts| >= 1
    decreases |parts|
  {
    if |parts| == 1 then parts[0] else parts[0] + [sep] + Join(parts[1..], sep)
  }

  /** Splitting `a + sep + t` with `sep` not in `a` peels off `a` as the first piece. */
  lemma {:induction false} SplitCons(a: string, sep: char, t: string)
    requires sep !in a
    ensures Split(a + [sep] + t, sep) == [a] + Split(t, sep)
    decreases |a|
  {
    if a == [] {
      assert a + [sep] + t == [sep] + t;
      assert ([sep] + t)[1..] == t;
    } else {
      assert (a + [sep] + t)[1..] == a[1..] + [sep] + t;
      assert forall c :: c in a[1..] ==> c in a;
      SplitCons(a[1..], sep, t);
      assert [a[0]] + a[1..] == a;
    }
  }

  /** A string without the separator splits into itself alone. */
  lemma {:induction false} SplitNoSep(a: string, sep: char)
    requires sep !in a
    ensures Split(a, sep) == [a]
    decreases |a|
  {
    if a != [] {
      assert forall c :: c in a[1..] ==> c in a;
      SplitNoSep(a[1..], sep);
      assert [a[0]] + a[1..] == a;
    }
  }

  /** Splitting a join of separator-free pieces gives back the pieces. */
  lemma {:induction false} SplitJoin(parts: seq<string>, sep: char)
    requires |parts| >= 1
    requires forall i :: 0 <= i < |parts| ==> sep !in parts[i]
    ensures Split(Join(parts, sep), sep) == parts
    decreases |parts|
  {
    if |parts| == 1 {
      SplitNoSep(parts[0], sep);
    } else {
      SplitJoin(parts[1..], sep);
      SplitCons(parts[0], sep, Join(parts[1..], sep));
      assert [parts[0]] + parts[1..] == parts;
    }
  }

  /** Splitting a join of two separator-free pieces gives back the two pieces. */
  lemma SplitJoinTwo(a: string, b: string, sep: char)
    requires sep !in a && sep !in b
    ensures Split(Join([a, b], sep), sep) == [a, b]
  {
    var p := [a, b];
    assert forall i :: 0 <= i < |p| ==> sep !in p[i];
    SplitJoin(p, sep);
  }

  /** Splitting a join of three separator-free pieces gives back the three pieces. */
  lemma SplitJoinThree(a: string, b: string, c: string, sep: char)
    requires sep !in a && sep !in b && sep !in c
    ensures Split(Join([a, b, c], sep), sep) == [a, b, c]
  {
    var p := [a, b, c];
    assert forall i :: 0 <= i < |p| ==> sep !in p[i];
    SplitJoin(p, sep);
  }

  /** The first piece of a split is the longest prefix free of the separator. */
  lemma {:induction false} SplitHead(s: string, sep: char)
    ensures StartsWith(s, Split(s, sep)[0])
    ensures |Split(s, sep)[0]| < |s| ==> s[|Split(s, sep)[0]|] == sep
    ensures |Split(s, sep)[0]| == |s| ==> sep !in s
    decreases |s|
  {
    if s != [] {
      SplitHead(s[1..], sep);
      if s[0] != sep {
        assert forall c :: c in s ==> c == s[0] || c in s[1..];
      }
    }
  }

  /** `s.split(sep)[0]`: the text before the first separator, or all of `s`. */
  function BeforeFirst(s: string, sep: char): (r: string)
    ensures StartsWith(s, r) && sep !in r
    ensures |r| < |s| ==> s[|r|] == sep
    ensures |r| == |s| ==> sep !in s
  {
    SplitHead(s, sep);
    Split(s, sep)[0]
  }

  /** Position of the first `c` in `s`. */
  function IndexOf(s: string, c: char): (i: nat)
    requires c in s
    ensures i < |s| && s[i] == c && c !in s[..i]
    decreases |s|
  {
    if s[0] == c then 0
    else
      assert s == [s[0]] + s[1..];
      var j := IndexOf(s[1..], c);
      assert s[..1 + j] == [s[0]] + s[1..][..j];
      1 + j
  }

  /** `s.split(sep, 1)[1]`: the text after the first separator. */
  function AfterFirst(s: string, sep: char): (r: string)
    requires sep in s
    ensures |r| < |s| && r == s[|s| - |r|..] && s[|s| - |r| - 1] == sep
    ensures sep !in s[..|s| - |r| - 1]
  {
    s[IndexOf(s, sep) + 1..]
  }

  /**
   * `s.replace(part, "")`: every non-overlapping occurrence of `part`,
   * found scanning from the left, is removed; an empty `part` changes nothing.
   */
  function RemoveAll(s: string, part: string): (r: string)
    ensures |r| <= |s|
    ensures !Contains(s, part) ==> r == s
    decreases |s|
  {
    if part == [] || s == [] then s
    else if StartsWith(s, part) then RemoveAll(s[|part|..], part)
    else [s[0]] + RemoveAll(s[1..], part)
  }

  /**
   * A string that opens with `part` and holds no other occurrence of it loses
   * exactly that leading copy.
   */
  lemma RemoveLeading(part: string, t: string)
    requires part != [] && !Contains(t, part)
    ensures RemoveAll(part + t, part) == t
  {
    assert (part + t)[..|part|] == part;
    assert (part + t)[|part|..] == t;
  }
}
