/**
 * The Python string operations the convertor relies on, stated over
 * `seq<char>`: `str.strip()`, `str.startswith`, `str.endswith`,
 * `str.replace(old, "")`, `str.split(sep)`, `str.split("=", 1)` and the
 * code-point ordering behind `<` on strings.
 */
module Text {

  /** The characters Python's `str.strip()` treats as whitespace (`str.isspace`). */
  predicate IsSpace(c: char)
  {
    c == ' ' || ('\t' <= c <= '\r') || ('\U{1C}' <= c <= '\U{1F}')
    || c == '\U{85}' || c == '\U{A0}' || c == '\U{1680}'
    || ('\U{2000}' <= c <= '\U{200A}') || c == '\U{2028}' || c == '\U{2029}'
    || c == '\U{202F}' || c == '\U{205F}' || c == '\U{3000}'
  }

  predicate AllSpace(s: string)
  {
    forall i :: 0 <= i < |s| ==> IsSpace(s[i])
  }

  /** How many whitespace characters `s` starts with. */
  function LeadingSpaces(s: string): (n: nat)
    ensures n <= |s|
    ensures forall i :: 0 <= i < n ==> IsSpace(s[i])
    ensures n == |s| || !IsSpace(s[n])
  {
    if s != [] && IsSpace(s[0]) then 1 + LeadingSpaces(s[1..]) else 0
  }

  /** How many whitespace characters `s` ends with. */
  function TrailingSpaces(s: string): (n: nat)
    ensures n <= |s|
    ensures forall i :: |s| - n <= i < |s| ==> IsSpace(s[i])
    ensures n == |s| || !IsSpace(s[|s| - n - 1])
  {
    if s != [] && IsSpace(s[|s| - 1]) then 1 + TrailingSpaces(s[..|s| - 1]) else 0
  }

  /** The leading-space count is the one position where a run of spaces meets a non-space (or the end). */
  lemma LeadingSpacesAt(s: string, n: nat)
    requires n <= |s| && (forall i :: 0 <= i < n ==> IsSpace(s[i])) && (n == |s| || !IsSpace(s[n]))
    ensures LeadingSpaces(s) == n
  {
  }

  /** The trailing-space count is the one position where a non-space (or the start) meets a run of spaces. */
  lemma TrailingSpacesAt(s: string, n: nat)
    requires n <= |s| && (forall i :: |s| - n <= i < |s| ==> IsSpace(s[i])) && (n == |s| || !IsSpace(s[|s| - n - 1]))
    ensures TrailingSpaces(s) == n
  {
  }

  /** `s.lstrip()`: `s` without its leading whitespace. */
  function TrimLeft(s: string): string
  {
    s[LeadingSpaces(s)..]
  }

  /** `s.rstrip()`: `s` without its trailing whitespace. */
  function TrimRight(s: string): string
  {
    s[..|s| - TrailingSpaces(s)]
  }

  /** `s.lstrip()` drops a run of whitespace and keeps the rest, which does not start with whitespace. */
  lemma TrimLeftSplit(s: string)
    ensures |TrimLeft(s)| <= |s| && s == s[..|s| - |TrimLeft(s)|] + TrimLeft(s)
    ensures AllSpace(s[..|s| - |TrimLeft(s)|])
    ensures TrimLeft(s) == [] || !IsSpace(TrimLeft(s)[0])
  {
    var n := LeadingSpaces(s);
    assert s == s[..n] + s[n..];
  }

  /** `s.rstrip()` keeps a prefix that does not end with whitespace and drops a run of whitespace. */
  lemma TrimRightSplit(s: string)
    ensures |TrimRight(s)| <= |s| && s == TrimRight(s) + s[|TrimRight(s)|..]
    ensures AllSpace(s[|TrimRight(s)|..])
    ensures TrimRight(s) == [] || !IsSpace(TrimRight(s)[|TrimRight(s)| - 1])
  {
    var n := TrailingSpaces(s);
    var k := |s| - n;
    var trail := s[k..];
    assert s == s[..k] + trail;
    assert forall i :: 0 <= i < n ==> trail[i] == s[k + i];
  }

  /**
   * Python's `s.strip()`: whitespace dropped at both ends; the result begins
   * and ends with a non-space character when non-empty.
   */
  function Strip(s: string): (r: string)
    ensures |r| <= |s|
    ensures r == [] || (!IsSpace(r[0]) && !IsSpace(r[|r| - 1]))
  {
    TrimRight(TrimLeft(s))
  }

  /** `strip()` keeps an infix of `s`: only whitespace lies before and after it. */
  lemma StripInfix(s: string)
    ensures LeadingSpaces(s) + |Strip(s)| <= |s|
    ensures Strip(s) == s[LeadingSpaces(s)..LeadingSpaces(s) + |Strip(s)|]
    ensures AllSpace(s[..LeadingSpaces(s)]) && AllSpace(s[LeadingSpaces(s) + |Strip(s)|..])
  {
    var n := LeadingSpaces(s);
    var t := TrimLeft(s);
    assert t == s[n..];
    var m := TrailingSpaces(t);
    var r := t[..|t| - m];
    assert Strip(s) == r;
    assert r == s[n..n + |r|];
    var lead := s[..n];
    forall i | 0 <= i < n
      ensures IsSpace(lead[i])
    {
      assert lead[i] == s[i];
    }
    var trail := s[n + |r|..];
    forall i | 0 <= i < |trail|
      ensures IsSpace(trail[i])
    {
      assert trail[i] == t[|t| - m + i];
    }
  }

  /** A string with no whitespace at either end is its own strip. */
  lemma StripUnpadded(s: string)
    requires s == [] || (!IsSpace(s[0]) && !IsSpace(s[|s| - 1]))
    ensures Strip(s) == s
  {
    assert TrimLeft(s) == s;
    assert s[..|s|] == s;
  }

  /** Stripping twice is stripping once. */
  lemma StripIdempotent(s: string)
    ensures Strip(Strip(s)) == Strip(s)
  {
    StripUnpadded(Strip(s));
  }

  /** `strip()` removes only whitespace, so a non-space character survives it exactly when present. */
  lemma StripKeeps(s: string, c: char)
    requires !IsSpace(c)
    ensures c in Strip(s) <==> c in s
  {
    var n := LeadingSpaces(s);
    var t := s[n..];
    var m := TrailingSpaces(t);
    var r := t[..|t| - m];
    if c in s {
      var j :| 0 <= j < |s| && s[j] == c;
      assert t[j - n] == c;
      assert r[j - n] == c;
    }
    if c in r {
      var j :| 0 <= j < |r| && r[j] == c;
      assert s[n + j] == c;
    }
  }

  /** `strip()` of a text padded with whitespace around a core without outer whitespace is that core. */
  lemma StripUnique(left: string, core: string, right: string)
    requires AllSpace(left) && AllSpace(right)
    requires core == [] || (!IsSpace(core[0]) && !IsSpace(core[|core| - 1]))
    ensures Strip(left + core + right) == core
  {
    var s := left + core + right;
    if core == [] {
      LeadingSpacesAt(s, |s|);
      assert TrimLeft(s) == [];
    } else {
      LeadingSpacesAt(s, |left|);
      var t := s[|left|..];
      assert t == core + right;
      TrailingSpacesAt(t, |right|);
      assert t[..|t| - |right|] == core;
    }
  }

  lemma AllSpaceConcat(a: string, b: string)
    requires AllSpace(a) && AllSpace(b)
    ensures AllSpace(a + b)
  {
    forall j | 0 <= j < |a + b|
      ensures IsSpace((a + b)[j])
    {
      if j < |a| {
        assert (a + b)[j] == a[j];
      } else {
        assert (a + b)[j] == b[j - |a|];
      }
    }
  }

  /** Extra whitespace around a text does not change its `strip()`. */
  lemma StripPadded(left: string, s: string, right: string)
    requires AllSpace(left) && AllSpace(right)
    ensures Strip(left + s + right) == Strip(s)
  {
    StripInfix(s);
    var i, r := LeadingSpaces(s), Strip(s);
    var sl, sr := s[..i], s[i + |r|..];
    var x := left + s + right;
    Regroup(left, s, right, i, r);
    AllSpaceConcat(left, sl);
    AllSpaceConcat(sr, right);
    StripUnique(left + sl, r, sr + right);
    assert x == (left + sl) + r + (sr + right);
  }

  lemma Regroup(left: string, s: string, right: string, i: nat, r: string)
    requires i + |r| <= |s| && s[i..i + |r|] == r
    ensures left + s + right == (left + s[..i]) + r + (s[i + |r|..] + right)
  {
    assert s == s[..i] + r + s[i + |r|..];
  }

  /** Stripping `key c value` around a non-space separator `c` trims the key on the left and the value on the right. */
  lemma StripAroundSeparator(key: string, c: char, value: string)
    requires !IsSpace(c)
    ensures Strip(key + [c] + value) == TrimLeft(key) + [c] + TrimRight(value)
  {
    var tk, tv := TrimLeft(key), TrimRight(value);
    TrimLeftSplit(key);
    TrimRightSplit(value);
    var lead, trail := key[..|key| - |tk|], value[|tv|..];
    var t := tk + [c] + tv;
    Surround(key, |key| - |tk|, c, value, |tv|);
    assert t[0] == if tk == [] then c else tk[0];
    assert t[|t| - 1] == if tv == [] then c else tv[|tv| - 1];
    StripUnique(lead, t, trail);
  }

  /** Cutting `key` at `i` and `value` at `j` regroups `key c value` around the middle part. */
  lemma Surround<T>(key: seq<T>, i: nat, c: T, value: seq<T>, j: nat)
    requires i <= |key| && j <= |value|
    ensures key + [c] + value == key[..i] + (key[i..] + [c] + value[..j]) + value[j..]
  {
    assert key == key[..i] + key[i..];
    assert value == value[..j] + value[j..];
  }

  /** Trimming the left first does not change `strip()`. */
  lemma StripTrimLeft(s: string)
    ensures Strip(TrimLeft(s)) == Strip(s)
  {
    TrimLeftSplit(s);
    assert TrimLeft(TrimLeft(s)) == TrimLeft(s);
  }

  /** Trimming the right first does not change `strip()`. */
  lemma StripTrimRight(s: string)
    ensures Strip(TrimRight(s)) == Strip(s)
  {
    TrimRightSplit(s);
    var t := TrimRight(s);
    var trail := s[|t|..];
    assert [] + t + trail == s;
    StripPadded([], t, trail);
  }

  /** `s.startswith(prefix)`. */
  predicate StartsWith(s: string, prefix: string)
  {
    |prefix| <= |s| && s[..|prefix|] == prefix
  }

  /** `s.endswith(c)` for a one-character suffix. */
  predicate EndsWith(s: string, c: char)
  {
    s != [] && s[|s| - 1] == c
  }

  /** A text starts with `prefix` exactly when it is `prefix` followed by some rest. */
  lemma StartsWithConcat(s: string, prefix: string)
    ensures StartsWith(s, prefix) <==> exists rest :: s == prefix + rest
  {
    if StartsWith(s, prefix) {
      assert s == prefix + s[|prefix|..];
    }
  }

  /** A text ends with `c` exactly when it is some text followed by `c`. */
  lemma EndsWithConcat(s: string, c: char)
    ensures EndsWith(s, c) <==> exists init :: s == init + [c]
  {
    if EndsWith(s, c) {
      assert s == s[..|s| - 1] + [c];
    }
  }

  /** Whether `pat` occurs anywhere in `s`. */
  predicate Occurs(s: string, pat: string)
  {
    StartsWith(s, pat) || (s != [] && Occurs(s[1..], pat))
  }

  /**
   * Python's `s.replace(pat, "")`: every non-overlapping occurrence of `pat`,
   * found left to right, is removed.
   */
  function RemoveAll(s: string, pat: string): (r: string)
    requires pat != []
    ensures |r| <= |s|
    decreases |s|
  {
    if |s| < |pat| then s
    else if s[..|pat|] == pat then RemoveAll(s[|pat|..], pat)
    else [s[0]] + RemoveAll(s[1..], pat)
  }

  /** A text in which `pat` does not occur is left unchanged by the removal. */
  lemma {:induction false} RemoveAllAbsent(s: string, pat: string)
    requires pat != [] && !Occurs(s, pat)
    ensures RemoveAll(s, pat) == s
    decreases |s|
  {
    if |s| >= |pat| {
      RemoveAllAbsent(s[1..], pat);
      assert [s[0]] + s[1..] == s;
    }
  }

  /** Whether `pat` occurs in `s` at position `i`. */
  predicate MatchAt(s: string, pat: string, i: nat)
  {
    i + |pat| <= |s| && s[i..i + |pat|] == pat
  }

  /**
   * The removal keeps the text before the first occurrence of `pat`, drops
   * that occurrence, and goes on after it.
   */
  lemma {:induction false} RemoveAllFirst(a: string, pat: string, b: string)
    requires pat != []
    requires forall i: nat {:trigger MatchAt(a + pat + b, pat, i)} :: i < |a| ==> !MatchAt(a + pat + b, pat, i)
    ensures RemoveAll(a + pat + b, pat) == a + RemoveAll(b, pat)
    decreases |a|
  {
    var s := a + pat + b;
    if a == [] {
      assert s == pat + b;
      assert s[..|pat|] == pat && s[|pat|..] == b;
    } else {
      var a' := a[1..];
      var t := a' + pat + b;
      assert s == [a[0]] + t;
      assert !MatchAt(s, pat, 0);
      assert RemoveAll(s, pat) == [s[0]] + RemoveAll(t, pat);
      forall i: nat | i < |a'|
        ensures !MatchAt(t, pat, i)
      {
        assert !MatchAt(s, pat, i + 1);
        MatchShift(a[0], t, pat, i);
      }
      RemoveAllFirst(a', pat, b);
      assert a == [a[0]] + a';
    }
  }

  /** Solver helper: a match one position further into `[x] + t` is a match in `t`. */
  lemma MatchShift(x: char, t: string, pat: string, i: nat)
    ensures MatchAt([x] + t, pat, i + 1) == MatchAt(t, pat, i)
  {
    if i + |pat| <= |t| {
      assert ([x] + t)[i + 1..i + 1 + |pat|] == t[i..i + |pat|];
    }
  }

  /** Reference definition: `s` with every `c` deleted, the other characters kept in order. */
  function DropChar(s: string, c: char): (r: string)
    ensures c !in r
    ensures |r| <= |s|
  {
    if s == [] then []
    else if s[0] == c then DropChar(s[1..], c)
    else [s[0]] + DropChar(s[1..], c)
  }

  /** Removing a one-character pattern deletes every occurrence of that character. */
  lemma {:induction false} RemoveAllChar(s: string, c: char)
    ensures RemoveAll(s, [c]) == DropChar(s, c)
  {
    if s != [] {
      RemoveAllChar(s[1..], c);
    }
  }

  /** Deleting a character from a concatenation deletes it from each part. */
  lemma {:induction false} DropCharAppend(s: string, t: string, c: char)
    ensures DropChar(s + t, c) == DropChar(s, c) + DropChar(t, c)
  {
    if s == [] {
      assert s + t == t;
    } else {
      var st := s + t;
      assert st[0] == s[0] && st[1..] == s[1..] + t;
      DropCharAppend(s[1..], t, c);
      if s[0] != c {
        ConsAppend(s[0], DropChar(s[1..], c), DropChar(t, c));
      }
    }
  }

  /** Solver helper: regrouping a cons over a concatenation. */
  lemma ConsAppend<T>(x: T, a: seq<T>, b: seq<T>)
    ensures [x] + (a + b) == ([x] + a) + b
  {
  }

  lemma {:induction false} DropCharAbsent(s: string, c: char)
    requires c !in s
    ensures DropChar(s, c) == s
  {
    if s != [] {
      DropCharAbsent(s[1..], c);
    }
  }

  /** Python's `s.split(sep)` with an explicit one-character separator. */
  function SplitOn(s: string, sep: char): (parts: seq<string>)
    ensures |parts| >= 1
    ensures forall i :: 0 <= i < |parts| ==> sep !in parts[i]
  {
    if s == [] then [[]]
    else
      var rest := SplitOn(s[1..], sep);
      if s[0] == sep then [[]] + rest else [[s[0]] + rest[0]] + rest[1..]
  }

  /** Python's `sep.join(parts)`. */
  function Join(parts: seq<string>, sep: char): string
    requires |parts| >= 1
  {
    if |parts| == 1 then parts[0] else parts[0] + [sep] + Join(parts[1..], sep)
  }

  /** Splitting loses nothing: joining the pieces back gives the original text. */
  lemma {:induction false} JoinSplit(s: string, sep: char)
    ensures Join(SplitOn(s, sep), sep) == s
  {
    if s != [] {
      var rest := SplitOn(s[1..], sep);
      JoinSplit(s[1..], sep);
      if s[0] != sep {
        var parts := SplitOn(s, sep);
        assert parts[1..] == rest[1..];
        if |rest| > 1 {
          assert rest[1..][1..] == rest[2..];
          assert Join(rest, sep) == rest[0] + [sep] + Join(rest[1..], sep);
        }
      }
    }
  }

  lemma {:induction false} SplitPrefix(p: string, t: string, sep: char)
    requires sep !in p
    ensures SplitOn(p + t, sep) == [p + SplitOn(t, sep)[0]] + SplitOn(t, sep)[1..]
  {
    var x := SplitOn(t, sep);
    if p == [] {
      assert p + t == t && p + x[0] == x[0];
      assert [x[0]] + x[1..] == x;
    } else {
      SplitPrefix(p[1..], t, sep);
      assert p[0] != sep by { assert p[0] in p; }
      assert (p + t)[0] == p[0] && (p + t)[1..] == p[1..] + t;
      var rest := SplitOn(p[1..] + t, sep);
      assert rest[0] == p[1..] + x[0] && rest[1..] == x[1..];
      assert [p[0]] + (p[1..] + x[0]) == p + x[0];
    }
  }

  /** Joining pieces free of the separator and splitting again gives the pieces back. */
  lemma {:induction false} SplitJoin(parts: seq<string>, sep: char)
    requires |parts| >= 1
    requires forall i :: 0 <= i < |parts| ==> sep !in parts[i]
    ensures SplitOn(Join(parts, sep), sep) == parts
  {
    if |parts| == 1 {
      SplitPrefix(parts[0], [], sep);
      assert parts[0] + [] == parts[0];
    } else {
      SplitJoin(parts[1..], sep);
      var tail := [sep] + Join(parts[1..], sep);
      assert Join(parts, sep) == parts[0] + tail;
      SplitPrefix(parts[0], tail, sep);
      assert tail[1..] == Join(parts[1..], sep);
      assert SplitOn(tail, sep) == [[]] + parts[1..];
      assert parts[0] + [] == parts[0];
    }
  }

  /** Index of the first occurrence of `c`, as `str.split(c, 1)` finds it. */
  function FirstIndex(s: string, c: char): (i: nat)
    requires c in s
    ensures i < |s| && s[i] == c && c !in s[..i]
    ensures forall m :: 0 <= m < i ==> s[m] != c
  {
    if s[0] == c then 0
    else
      assert c in s[1..] by { var j :| 0 <= j < |s| && s[j] == c; assert s[1..][j - 1] == c; }
      var i := 1 + FirstIndex(s[1..], c);
      assert s[..i] == [s[0]] + s[1..][..i - 1];
      i
  }

  /** `s.split(c, 1)` when `c` occurs: the text before the first `c` and the text after it. */
  function SplitFirst(s: string, c: char): (parts: (string, string))
    requires c in s
    ensures c !in parts.0 && s == parts.0 + [c] + parts.1
  {
    var i := FirstIndex(s, c);
    assert s == s[..i] + [c] + s[i + 1..];
    (s[..i], s[i + 1..])
  }

  /** The split is unique: in `p c q` with no `c` in `p`, the first `c` is the one after `p`. */
  lemma SplitFirstAfter(p: string, c: char, q: string)
    requires c !in p
    ensures SplitFirst(p + [c] + q, c) == (p, q)
  {
    var s := p + [c] + q;
    assert forall m :: 0 <= m < |p| ==> s[m] == p[m];
    assert s[|p|] == c;
    assert s[..|p|] == p && s[|p| + 1..] == q;
  }

  /** Python's `a < b` on strings: lexicographic order by code point. */
  predicate LexLess(a: string, b: string)
  {
    if a == [] then b != []
    else if b == [] then false
    else if a[0] != b[0] then a[0] < b[0]
    else LexLess(a[1..], b[1..])
  }

  lemma {:induction false} LexLessIrreflexive(a: string)
    ensures !LexLess(a, a)
  {
    if a != [] {
      LexLessIrreflexive(a[1..]);
    }
  }

  lemma {:induction false} LexLessTransitive(a: string, b: string, c: string)
    requires LexLess(a, b) && LexLess(b, c)
    ensures LexLess(a, c)
  {
    if a != [] && b != [] && c != [] && a[0] == b[0] == c[0] {
      LexLessTransitive(a[1..], b[1..], c[1..]);
    }
  }

  /** Any two distinct strings are ordered one way or the other, never both. */
  lemma {:induction false} LexLessTotal(a: string, b: string)
    ensures a != b ==> LexLess(a, b) || LexLess(b, a)
    ensures !(LexLess(a, b) && LexLess(b, a))
  {
    if a != [] && b != [] && a[0] == b[0] {
      LexLessTotal(a[1..], b[1..]);
      if a[1..] == b[1..] {
        assert a == [a[0]] + a[1..] && b == [b[0]] + b[1..];
      }
    }
  }
}
