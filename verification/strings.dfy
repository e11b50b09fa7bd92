/** The Python `str` operations and the few regular-expression substitutions
    the scraper relies on, stated over `seq<char>`. Every string the model
    handles is taken to be newline-free, so `.` and `$` in a pattern mean
    "any character" and "end of string". */
module Strings {

  /** Python's `str.isspace` for one character; CPython's `\s` in a `str`
      pattern uses the same table. */
  predicate IsSpace(c: char) {
    var n := c as int;
    || (9 <= n <= 13) || (28 <= n <= 32) || n == 0x85 || n == 0xA0 || n == 0x1680
    || (0x2000 <= n <= 0x200A) || n == 0x2028 || n == 0x2029 || n == 0x202F
    || n == 0x205F || n == 0x3000
  }

  predicate AllSpace(s: string) {
    forall i :: 0 <= i < |s| ==> IsSpace(s[i])
  }

  /** `\d`, restricted to the ASCII digits. */
  predicate IsDigit(c: char) {
    '0' <= c <= '9'
  }

  predicate StartsWith(s: string, p: string) {
    p <= s
  }

  predicate EndsWith(s: string, p: string) {
    |p| <= |s| && s[|s| - |p|..] == p
  }

  /** `url.startswith(('http://', 'https://'))`. */
  predicate HasHttpScheme(s: string) {
    StartsWith(s, "http://") || StartsWith(s, "https://")
  }

  /** `p in s` for two strings: some suffix of `s` starts with `p`. */
  predicate Contains(s: string, p: string)
    decreases |s|
  {
    p <= s || (|s| > 0 && Contains(s[1..], p))
  }

  /** What `lstrip()` leaves. */
  function TrimLeft(s: string): (r: string)
    ensures |r| <= |s| && r == s[|s| - |r|..]
    ensures forall k :: 0 <= k < |s| - |r| ==> IsSpace(s[k])
    ensures r == [] || !IsSpace(r[0])
  {
    if |s| == 0 || !IsSpace(s[0]) then s else TrimLeft(s[1..])
  }

  /** What `rstrip()` leaves. */
  function TrimRight(s: string): (r: string)
    ensures r <= s
    ensures forall k :: |r| <= k < |s| ==> IsSpace(s[k])
    ensures r == [] || !IsSpace(r[|r| - 1])
  {
    if |s| == 0 || !IsSpace(s[|s| - 1]) then s else TrimRight(s[..|s| - 1])
  }

  /** The two halves of a concatenation, taken apart again. */
  lemma ConcatSlices(a: string, b: string)
    ensures (a + b)[..|a|] == a && (a + b)[|a|..] == b
  {
  }

  /** Concatenation regrouped to the right. */
  lemma ConcatAssoc(a: string, b: string, c: string, d: string)
    ensures a + b + c + d == a + (b + c + d)
  {
  }

  /** Cutting at a character that `a` does not hold keeps all of `a`. */
  lemma CutAtCharSkip(a: string, b: string, c: char)
    requires c !in a
    ensures CutAt(a + b, [c]) == a + CutAt(b, [c])
  {
    NoMatchBefore(a, b, [c], 0);
    CutAtSkip(a, b, [c]);
  }

  /** The middle part of a four-part concatenation. */
  lemma MiddleSlice(n: string, x: string, o: string, y: string, c: string)
    requires n == x + o + y + c
    ensures n[|x| + |o|..|x| + |o| + |y|] == y
  {
    assert n == (x + o) + y + c;
  }

  /** A slice of a suffix is a slice of the whole. */
  lemma SliceOfSuffix(s: string, k: nat, i: nat, j: nat)
    requires k <= |s| && i <= j <= |s| - k
    ensures s[k..][i..j] == s[k + i..k + j]
  {
  }

  /** Neither the first nor the last character is whitespace. */
  predicate NoSpaceAtEnds(s: string) {
    s == [] || (!IsSpace(s[0]) && !IsSpace(s[|s| - 1]))
  }

  /** Python's `str.strip()` with no argument. */
  function Strip(s: string): (r: string)
    ensures |r| <= |s|
    ensures NoSpaceAtEnds(r)
  {
    TrimRight(TrimLeft(s))
  }

  /** ASCII lower-casing of one character. */
  function LowerChar(c: char): char {
    if 'A' <= c <= 'Z' then (c as int + 32) as char else c
  }

  /** `str.lower()`, on the ASCII letters. */
  function Lower(s: string): (r: string)
    ensures |r| == |s|
    ensures forall i :: 0 <= i < |r| ==> !('A' <= r[i] <= 'Z')
    ensures forall i :: 0 <= i < |s| && !('A' <= s[i] <= 'Z') ==> r[i] == s[i]
    ensures forall i :: 0 <= i < |s| && 'A' <= s[i] <= 'Z' ==> r[i] as int == s[i] as int + 32
  {
    seq(|s|, i requires 0 <= i < |s| => LowerChar(s[i]))
  }

  /** The text before the first occurrence of `p`, or `s` itself when `p` does
      not occur: `s.split(p)[0]`, and what `re.sub(p + '.*$', '', s)` leaves. */
  function CutAt(s: string, p: string): (r: string)
    requires |p| > 0
    ensures r <= s
    ensures !Contains(r, p)
    ensures |r| < |s| ==> p <= s[|r|..]
    decreases |s|
  {
    if |s| == 0 || p <= s then [] else [s[0]] + CutAt(s[1..], p)
  }

  /** The text before the first character that belongs to `delims`. */
  function CutAtAny(s: string, delims: string): (r: string)
    ensures r <= s
    ensures forall i :: 0 <= i < |r| ==> r[i] !in delims
    ensures |r| < |s| ==> s[|r|] in delims
    decreases |s|
  {
    if |s| == 0 || s[0] in delims then [] else [s[0]] + CutAtAny(s[1..], delims)
  }

  /** `s.replace(p, q)`: every non-overlapping occurrence of `p`, scanning from
      the left, replaced by `q`. */
  function ReplaceAll(s: string, p: string, q: string): (r: string)
    requires |p| > 0
    ensures !Contains(s, p) ==> r == s
    ensures |q| <= |p| ==> |r| <= |s|
    decreases |s|
  {
    if |s| == 0 then []
    else if p <= s then q + ReplaceAll(s[|p|..], p, q)
    else [s[0]] + ReplaceAll(s[1..], p, q)
  }

  // ---------------------------------------------------------------------------
  // Facts about Contains

  lemma {:induction false} ContainsAt(s: string, p: string, i: nat)
    requires i <= |s| && p <= s[i..]
    ensures Contains(s, p)
    decreases i
  {
    if i == 0 {
      assert s[0..] == s;
    } else {
      assert s[1..][i - 1..] == s[i..];
      ContainsAt(s[1..], p, i - 1);
    }
  }

  lemma {:induction false} ContainsWitness(s: string, p: string) returns (i: nat)
    requires Contains(s, p)
    ensures i <= |s| && p <= s[i..]
    decreases |s|
  {
    if p <= s {
      i := 0;
    } else {
      var j := ContainsWitness(s[1..], p);
      i := j + 1;
      assert s[1..][j..] == s[i..];
    }
  }

  /** A one-character pattern occurs exactly when the character does. */
  lemma ContainsChar(s: string, c: char)
    ensures Contains(s, [c]) <==> c in s
  {
    if c in s {
      var i :| 0 <= i < |s| && s[i] == c;
      ContainsAt(s, [c], i);
    }
    if Contains(s, [c]) {
      var i := ContainsWitness(s, [c]);
      assert s[i] == c;
    }
  }

  /** Every character of an occurring pattern is a character of the text. */
  lemma ContainsHasChar(s: string, p: string, k: nat)
    requires Contains(s, p) && k < |p|
    ensures p[k] in s
  {
    var i := ContainsWitness(s, p);
    assert s[i..][k] == p[k];
    assert s[i + k] == p[k];
  }

  /** A pattern with a character the text lacks does not occur in it. */
  lemma MissingChar(s: string, p: string, k: nat)
    requires k < |p| && p[k] !in s
    ensures !Contains(s, p)
  {
    if Contains(s, p) {
      ContainsHasChar(s, p, k);
    }
  }

  /** A prefix of an occurring pattern occurs as well. */
  lemma ContainsPrefixOfPattern(s: string, p: string, q: string)
    requires Contains(s, p) && q <= p
    ensures Contains(s, q)
  {
    var i := ContainsWitness(s, p);
    ContainsAt(s, q, i);
  }

  /** An occurrence in a prefix of `s` is an occurrence in `s`. */
  lemma ContainsInPrefix(t: string, s: string, p: string)
    requires t <= s && Contains(t, p)
    ensures Contains(s, p)
  {
    var i := ContainsWitness(t, p);
    assert t[i..] <= s[i..];
    ContainsAt(s, p, i);
  }

  /** When the first character of `p` is not in `a`, every occurrence of `p`
      in `a + b` lies in `b`. */
  lemma ContainsAfter(a: string, b: string, p: string)
    requires |p| > 0 && p[0] !in a && Contains(a + b, p)
    ensures Contains(b, p)
  {
    var i := ContainsWitness(a + b, p);
    assert i >= |a|;
    assert (a + b)[i..] == b[i - |a|..];
    ContainsAt(b, p, i - |a|);
  }

  /** A sufficient condition for `m` to start nowhere inside `a` when `a` is
      followed by text that itself starts like `m`: some character `m[k]` is
      absent from `a`, and `m[0]` does not reappear in `m[1..k]`. */
  lemma NoMatchBefore(a: string, b: string, m: string, k: nat)
    requires k < |m|
    requires m[k] !in a
    requires forall j :: 0 < j <= k ==> m[j] != m[0]
    requires k > 0 && |b| > 0 ==> b[0] == m[0]
    ensures forall i :: 0 <= i < |a| ==> !(m <= (a + b)[i..])
  {
    forall i | 0 <= i < |a|
      ensures !(m <= (a + b)[i..])
    {
      var s := (a + b)[i..];
      if i + k < |a| {
        assert s[k] == a[i + k];
      } else if |m| <= |s| {
        var j := |a| - i;
        assert 0 < j <= k;
        assert s[j] == b[0];
      }
    }
  }

  // ---------------------------------------------------------------------------
  // Facts about CutAt and Strip

  /** Cutting `a + b` where `p` starts nowhere inside `a` keeps all of `a`. */
  lemma {:induction false} CutAtSkip(a: string, b: string, p: string)
    requires |p| > 0
    requires forall i :: 0 <= i < |a| ==> !(p <= (a + b)[i..])
    ensures CutAt(a + b, p) == a + CutAt(b, p)
    decreases |a|
  {
    if |a| == 0 {
      assert a + b == b;
    } else {
      assert (a + b)[0..] == a + b;
      assert (a + b)[1..] == a[1..] + b;
      forall i | 0 <= i < |a[1..]|
        ensures !(p <= (a[1..] + b)[i..])
      {
        assert (a[1..] + b)[i..] == (a + b)[i + 1..];
      }
      CutAtSkip(a[1..], b, p);
    }
  }

  /** Cutting at a pattern that does not occur changes nothing. */
  lemma CutAtAbsent(s: string, p: string)
    requires |p| > 0 && !Contains(s, p)
    ensures CutAt(s, p) == s
  {
    var r := CutAt(s, p);
    if |r| < |s| {
      ContainsAt(s, p, |r|);
    }
  }

  /** Cutting at a character keeps any prefix that does not contain it. */
  lemma CutAtCharKeepsPrefix(s: string, q: string, c: char)
    requires q <= s && c !in q
    ensures q <= CutAt(s, [c])
  {
    var b := s[|q|..];
    assert s == q + b;
    NoMatchBefore(q, b, [c], 0);
    CutAtSkip(q, b, [c]);
  }

  /** Replacing in `a + b`, where no occurrence starts inside `a`, keeps
      all of `a`. */
  lemma {:induction false} ReplaceAllSkip(a: string, b: string, p: string, q: string)
    requires |p| > 0
    requires forall i :: 0 <= i < |a| ==> !(p <= (a + b)[i..])
    ensures ReplaceAll(a + b, p, q) == a + ReplaceAll(b, p, q)
    decreases |a|
  {
    if |a| == 0 {
      assert a + b == b;
    } else {
      assert (a + b)[0..] == a + b;
      assert (a + b)[1..] == a[1..] + b;
      forall i | 0 <= i < |a[1..]|
        ensures !(p <= (a[1..] + b)[i..])
      {
        assert (a[1..] + b)[i..] == (a + b)[i + 1..];
      }
      ReplaceAllSkip(a[1..], b, p, q);
    }
  }

  /** The three properties `CutAtAny` promises pin its result down. */
  lemma CutAtAnyUnique(s: string, delims: string, r: string)
    requires r <= s
    requires forall i :: 0 <= i < |r| ==> r[i] !in delims
    requires |r| < |s| ==> s[|r|] in delims
    ensures CutAtAny(s, delims) == r
  {
    var c := CutAtAny(s, delims);
    assert c == s[..|c|] && r == s[..|r|];
  }

  /** An occurrence in `b` is an occurrence in `a + b`. */
  lemma ContainsExtend(a: string, b: string, p: string)
    requires Contains(b, p)
    ensures Contains(a + b, p)
  {
    var i := ContainsWitness(b, p);
    assert (a + b)[|a| + i..] == b[i..];
    ContainsAt(a + b, p, |a| + i);
  }

  /** Stripping a string that neither starts nor ends with whitespace is the
      identity. */
  lemma StripTrimmed(s: string)
    requires NoSpaceAtEnds(s)
    ensures Strip(s) == s
  {
  }

  /** Stripping whitespace only leaves nothing. */
  lemma {:induction false} StripAllSpace(s: string)
    requires AllSpace(s)
    ensures Strip(s) == []
  {
    assert TrimLeft(s) == [];
  }

  /** `rstrip` removes exactly a whitespace tail that follows a non-space
      character. */
  lemma TrimRightOf(x: string, w: string)
    requires AllSpace(w) && (x == [] || !IsSpace(x[|x| - 1]))
    ensures TrimRight(x + w) == x
  {
    var s := x + w;
    var r := TrimRight(s);
    assert r == s[..|x|];
  }

  /** `lstrip` removes exactly a whitespace run in front of a character that
      is not whitespace. */
  lemma TrimLeftOf(w: string, x: string)
    requires AllSpace(w) && (x == [] || !IsSpace(x[0]))
    ensures TrimLeft(w + x) == x
  {
    var s := w + x;
    if x != [] {
      assert s[|w|] == x[0];
    }
    assert s[|w|..] == x;
  }

  /** `strip` of a text padded with whitespace on both sides gives the text
      back. */
  lemma StripOfPadded(v: string, x: string, w: string)
    requires AllSpace(v) && AllSpace(w) && NoSpaceAtEnds(x)
    ensures Strip(v + x + w) == x
  {
    if x == [] {
      assert AllSpace(v + x + w) by {
        forall i | 0 <= i < |v + x + w|
          ensures IsSpace((v + x + w)[i])
        {
          if i >= |v| {
            assert (v + x + w)[i] == w[i - |v|];
          }
        }
      }
      StripAllSpace(v + x + w);
    } else {
      assert v + x + w == v + (x + w);
      TrimLeftOf(v, x + w);
      TrimRightOf(x, w);
    }
  }

  /** `strip` removes whitespace from the two ends and nothing else. */
  lemma StripRemovesSpace(s: string) returns (i: nat)
    ensures i + |Strip(s)| <= |s| && Strip(s) == s[i..i + |Strip(s)|]
    ensures forall k :: 0 <= k < i ==> IsSpace(s[k])
    ensures forall k :: i + |Strip(s)| <= k < |s| ==> IsSpace(s[k])
  {
    var t := TrimLeft(s);
    i := |s| - |t|;
    TrimRightInside(t, s, i);
    assert Strip(s) == TrimRight(t);
  }

  /** What `rstrip` leaves of a suffix `t` of `s` sits inside `s`. */
  lemma TrimRightInside(t: string, s: string, i: nat)
    requires i <= |s| && t == s[i..]
    ensures i + |TrimRight(t)| <= |s| && TrimRight(t) == s[i..i + |TrimRight(t)|]
    ensures forall k :: i + |TrimRight(t)| <= k < |s| ==> IsSpace(s[k])
  {
    var r := TrimRight(t);
    assert r == t[..|r|];
    forall k | i + |r| <= k < |s|
      ensures IsSpace(s[k])
    {
      assert s[k] == t[k - i];
    }
  }

  // ---------------------------------------------------------------------------
  // Facts about Lower

  lemma LowerIdempotent(s: string)
    ensures Lower(Lower(s)) == Lower(s)
  {
  }

  /** `lower()` works character by character, so it distributes over
      concatenation. */
  lemma LowerAppend(a: string, b: string)
    ensures Lower(a + b) == Lower(a) + Lower(b)
  {
    assert forall i :: 0 <= i < |a + b| ==> Lower(a + b)[i] == (Lower(a) + Lower(b))[i];
  }
}
