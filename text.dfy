/** The Python string operations the core relies on: `str.strip`, the
    substring test `t in s`, `str.replace`, and deletion-only
    (subsequence) relations between sequences. */
module Text {

  /** `c.isspace()` in Python: the characters `str.strip()` removes. */
  predicate IsSpace(c: char) {
    var n := c as int;
    (9 <= n <= 13) || (28 <= n <= 32) || n == 0x85 || n == 0xA0 || n == 0x1680
    || (0x2000 <= n <= 0x200A) || n == 0x2028 || n == 0x2029
    || n == 0x202F || n == 0x205F || n == 0x3000
  }

  predicate AllSpace(s: string) {
    forall i :: 0 <= i < |s| ==> IsSpace(s[i])
  }

  /** `s.lstrip()`. */
  function TrimStart(s: string): string {
    if s != [] && IsSpace(s[0]) then TrimStart(s[1..]) else s
  }

  /** `s.rstrip()`. */
  function TrimEnd(s: string): string {
    if s != [] && IsSpace(s[|s| - 1]) then TrimEnd(s[..|s| - 1]) else s
  }

  /** `s.strip()`. */
  function Strip(s: string): string {
    TrimEnd(TrimStart(s))
  }

  lemma {:induction false} TrimStartEmptyIff(s: string)
    ensures TrimStart(s) == [] <==> AllSpace(s)
  {
    if s != [] && IsSpace(s[0]) {
      TrimStartEmptyIff(s[1..]);
      assert forall i :: 1 <= i < |s| ==> s[i] == s[1..][i - 1];
    }
  }

  lemma {:induction false} TrimEndEmptyIff(s: string)
    ensures TrimEnd(s) == [] <==> AllSpace(s)
  {
    if s != [] && IsSpace(s[|s| - 1]) {
      TrimEndEmptyIff(s[..|s| - 1]);
      assert forall i :: 0 <= i < |s| - 1 ==> s[i] == s[..|s| - 1][i];
    }
  }

  lemma {:induction false} TrimStartKeepsNonSpace(s: string)
    requires !AllSpace(s)
    ensures !AllSpace(TrimStart(s))
  {
    TrimStartEmptyIff(s);
    var t := TrimStart(s);
    assert t != [];
    TrimStartFirst(s);
    assert !IsSpace(t[0]);
  }

  lemma {:induction false} TrimStartFirst(s: string)
    ensures TrimStart(s) != [] ==> !IsSpace(TrimStart(s)[0])
  {
    if s != [] && IsSpace(s[0]) { TrimStartFirst(s[1..]); }
  }

  /** `s.strip()` is empty exactly when `s` is made only of whitespace
      (in particular for the empty string). */
  lemma {:induction false} StripEmptyIff(s: string)
    ensures Strip(s) == [] <==> AllSpace(s)
  {
    TrimEndEmptyIff(TrimStart(s));
    if !AllSpace(s) {
      TrimStartKeepsNonSpace(s);
    } else {
      TrimStartEmptyIff(s);
    }
  }

  /** Python's `t in s` for strings: `t` occurs in `s` as a contiguous block. */
  predicate Contains(s: string, t: string) {
    t <= s || (s != [] && Contains(s[1..], t))
  }

  /** An occurrence at a known position. */
  lemma {:induction false} ContainsAt(s: string, t: string, i: nat)
    requires i + |t| <= |s| && s[i..i + |t|] == t
    ensures Contains(s, t)
  {
    if i == 0 {
      assert t <= s;
    } else {
      assert s[1..][i - 1..i - 1 + |t|] == t;
      ContainsAt(s[1..], t, i - 1);
    }
  }

  lemma {:induction false} ContainsAppend(b: string, c: string, t: string)
    requires Contains(b, t)
    ensures Contains(b + c, t)
  {
    if !(t <= b) {
      ContainsAppend(b[1..], c, t);
      assert (b + c)[1..] == b[1..] + c;
    }
  }

  lemma {:induction false} ContainsPrepend(a: string, b: string, t: string)
    requires Contains(b, t)
    ensures Contains(a + b, t)
  {
    if a == [] {
      assert a + b == b;
    } else {
      ContainsPrepend(a[1..], b, t);
      assert (a + b)[1..] == a[1..] + b;
    }
  }

  /** A token in either side of `a + sep + b` is in the whole. */
  lemma ContainsEither(a: string, sep: string, b: string, t: string)
    requires Contains(a, t) || Contains(b, t)
    ensures Contains(a + (sep + b), t)
  {
    if Contains(a, t) {
      ContainsAppend(a, sep + b, t);
    } else {
      ContainsPrepend(sep, b, t);
      ContainsPrepend(a, sep + b, t);
    }
  }

  /** An occurrence is never longer than the text it occurs in. */
  lemma {:induction false} ContainsLength(s: string, t: string)
    requires Contains(s, t)
    ensures |t| <= |s|
  {
    if !(t <= s) { ContainsLength(s[1..], t); }
  }

  /** A text without the token's first character cannot contain the token. */
  lemma {:induction false} AbsentFirstChar(s: string, t: string)
    requires t != [] && t[0] !in s
    ensures !Contains(s, t)
  {
    if s != [] {
      assert s[0] != t[0];
      assert forall c :: c in s[1..] ==> c in s;
      AbsentFirstChar(s[1..], t);
    }
  }

  /** An occurrence in a part is an occurrence in the whole. */
  lemma {:induction false} ContainsInfix(a: string, b: string, c: string, t: string)
    requires Contains(b, t)
    ensures Contains(a + b + c, t)
  {
    ContainsAppend(b, c, t);
    ContainsPrepend(a, b + c, t);
    assert a + b + c == a + (b + c);
  }

  /** Python's `s.replace(m, r)` for a non-empty pattern `m`: occurrences
      are found left to right and do not overlap. */
  function ReplaceAll(s: string, m: string, r: string): string
    requires m != []
  {
    if |s| < |m| then s
    else if s[..|m|] == m then r + ReplaceAll(s[|m|..], m, r)
    else [s[0]] + ReplaceAll(s[1..], m, r)
  }

  /** Without an occurrence of the pattern, replacing changes nothing. */
  lemma {:induction false} ReplaceAbsent(s: string, m: string, r: string)
    requires m != [] && !Contains(s, m)
    ensures ReplaceAll(s, m, r) == s
  {
    if |s| >= |m| {
      assert !(m <= s);
      assert s[..|m|] != m;
      ReplaceAbsent(s[1..], m, r);
    }
  }

  /** Replacing by the empty string only deletes characters. */
  lemma {:induction false} ReplaceDeletes(s: string, m: string)
    requires m != []
    ensures IsSubsequence(ReplaceAll(s, m, ""), s)
  {
    if |s| < |m| {
      SubsequenceRefl(s);
    } else if s[..|m|] == m {
      ReplaceDeletes(s[|m|..], m);
      SubsequenceSkip(s[..|m|], ReplaceAll(s[|m|..], m, ""), s[|m|..]);
      assert s == s[..|m|] + s[|m|..];
      assert ReplaceAll(s, m, "") == ReplaceAll(s[|m|..], m, "");
    } else {
      ReplaceDeletes(s[1..], m);
      assert s == [s[0]] + s[1..];
    }
  }

  /** `m + y` begins with `m`, whatever follows. */
  lemma {:induction false} ReplaceHead(m: string, y: string, r: string)
    requires m != []
    ensures ReplaceAll(m + y, m, r) == r + ReplaceAll(y, m, r)
  {
    assert (m + y)[..|m|] == m;
    assert (m + y)[|m|..] == y;
  }

  /** Where no occurrence of `m` starts inside `p`, `p` passes through. */
  lemma {:induction false} ReplaceSkip(p: string, y: string, m: string, r: string)
    requires m != []
    requires forall k :: 0 <= k < |p| ==> !(m <= (p + y)[k..])
    ensures ReplaceAll(p + y, m, r) == p + ReplaceAll(y, m, r)
  {
    if p != [] {
      var s := p + y;
      assert s[1..] == p[1..] + y;
      forall k | 0 <= k < |p[1..]|
        ensures !(m <= (p[1..] + y)[k..])
      {
        assert (p[1..] + y)[k..] == s[k + 1..];
      }
      ReplaceSkip(p[1..], y, m, r);
      if |s| < |m| {
        ReplaceShort(y, m, r);
        ReplaceShort(s, m, r);
      } else {
        assert s[0..] == s;
        assert s[..|m|] != m;
        calc {
          ReplaceAll(s, m, r);
          [s[0]] + ReplaceAll(s[1..], m, r);
          [p[0]] + ReplaceAll(p[1..] + y, m, r);
          [p[0]] + (p[1..] + ReplaceAll(y, m, r));
          ([p[0]] + p[1..]) + ReplaceAll(y, m, r);
          { assert [p[0]] + p[1..] == p; }
          p + ReplaceAll(y, m, r);
        }
      }
    } else {
      assert p + y == y;
    }
  }

  lemma {:induction false} ReplaceShort(s: string, m: string, r: string)
    requires m != [] && |s| < |m|
    ensures ReplaceAll(s, m, r) == s
  {
  }

  /** Membership in a non-empty sequence, split at its last element. */
  lemma InSnoc<T>(s: seq<T>)
    requires s != []
    ensures forall x :: x in s <==> x in s[..|s| - 1] || x == s[|s| - 1]
  {
    assert s == s[..|s| - 1] + [s[|s| - 1]];
  }

  /** Concatenation is associative. */
  lemma {:induction false} AppendAssoc<T>(a: seq<T>, b: seq<T>, c: seq<T>)
    ensures (a + b) + c == a + (b + c)
  {
  }

  /** `xs` is obtained from `ys` by deleting elements (order kept, elements unchanged). */
  predicate IsSubsequence<T(==)>(xs: seq<T>, ys: seq<T>) {
    if xs == [] then true
    else if ys == [] then false
    else (xs[0] == ys[0] && IsSubsequence(xs[1..], ys[1..])) || IsSubsequence(xs, ys[1..])
  }

  lemma {:induction false} SubsequenceRefl<T>(xs: seq<T>)
    ensures IsSubsequence(xs, xs)
  {
    if xs != [] { SubsequenceRefl(xs[1..]); }
  }

  /** Deleting a whole prefix. */
  lemma {:induction false} SubsequenceSkip<T>(p: seq<T>, xs: seq<T>, ys: seq<T>)
    requires IsSubsequence(xs, ys)
    ensures IsSubsequence(xs, p + ys)
  {
    if p == [] {
      assert p + ys == ys;
    } else {
      SubsequenceSkip(p[1..], xs, ys);
      assert (p + ys)[1..] == p[1..] + ys;
    }
  }

  /** Appending an element to the larger sequence only. */
  lemma {:induction false} SubsequenceSnocRight<T>(xs: seq<T>, ys: seq<T>, y: T)
    requires IsSubsequence(xs, ys)
    ensures IsSubsequence(xs, ys + [y])
  {
    if xs != [] {
      assert (ys + [y])[1..] == ys[1..] + [y];
      if xs[0] == ys[0] && IsSubsequence(xs[1..], ys[1..]) {
        SubsequenceSnocRight(xs[1..], ys[1..], y);
      } else {
        SubsequenceSnocRight(xs, ys[1..], y);
      }
    }
  }

  /** Appending the same element to both. */
  lemma {:induction false} SubsequenceSnoc<T>(xs: seq<T>, ys: seq<T>, y: T)
    requires IsSubsequence(xs, ys)
    ensures IsSubsequence(xs + [y], ys + [y])
  {
    if xs == [] {
      if ys == [] {
        assert IsSubsequence<T>([], []);
      } else {
        SubsequenceSnoc(xs, ys[1..], y);
        assert (ys + [y])[1..] == ys[1..] + [y];
      }
    } else {
      assert (ys + [y])[1..] == ys[1..] + [y];
      assert (xs + [y])[1..] == xs[1..] + [y];
      if xs[0] == ys[0] && IsSubsequence(xs[1..], ys[1..]) {
        SubsequenceSnoc(xs[1..], ys[1..], y);
      } else {
        SubsequenceSnoc(xs, ys[1..], y);
      }
    }
  }

  lemma {:induction false} SubsequenceTrans<T>(xs: seq<T>, ys: seq<T>, zs: seq<T>)
    requires IsSubsequence(xs, ys) && IsSubsequence(ys, zs)
    ensures IsSubsequence(xs, zs)
    decreases |zs|
  {
    if xs != [] {
      assert ys != [] && zs != [];
      if ys[0] == zs[0] && IsSubsequence(ys[1..], zs[1..]) {
        if xs[0] == ys[0] && IsSubsequence(xs[1..], ys[1..]) {
          SubsequenceTrans(xs[1..], ys[1..], zs[1..]);
        } else {
          SubsequenceTrans(xs, ys[1..], zs[1..]);
        }
      } else {
        SubsequenceTrans(xs, ys, zs[1..]);
      }
    }
  }

  /** A subsequence is never longer, and every element comes from the larger sequence. */
  lemma {:induction false} SubsequenceBounds<T>(xs: seq<T>, ys: seq<T>)
    requires IsSubsequence(xs, ys)
    ensures |xs| <= |ys|
    ensures forall x :: x in xs ==> x in ys
  {
    if xs != [] {
      if xs[0] == ys[0] && IsSubsequence(xs[1..], ys[1..]) {
        SubsequenceBounds(xs[1..], ys[1..]);
        assert forall x :: x in xs ==> x == xs[0] || x in xs[1..];
      } else {
        SubsequenceBounds(xs, ys[1..]);
      }
    }
  }
}
