/** String helpers with JavaScript meaning: truthiness, `trim`, `startsWith`,
    `includes`, `split(c)[0]`, `join`, and decimal rendering of a count. */
module Strings {
  import opened Wrappers

  /** A string is truthy in JavaScript exactly when it is non-empty. */
  predicate Truthy(s: string) {
    |s| > 0
  }

  /** An optional string (`null`/`undefined` as `None`) is truthy when it is
      present and non-empty. */
  predicate PresentAndTruthy(o: Option<string>) {
    o.Some? && |o.value| > 0
  }

  /** `o || fallback` for an optional string. */
  function OrElse(o: Option<string>, fallback: string): (r: string)
    ensures PresentAndTruthy(o) ==> r == o.value
    ensures !PresentAndTruthy(o) ==> r == fallback
  {
    if PresentAndTruthy(o) then o.value else fallback
  }

  /** `o || null` for an optional string: an empty string collapses to `null`. */
  function OrNull(o: Option<string>): (r: Option<string>)
    ensures r.Some? <==> PresentAndTruthy(o)
    ensures r.Some? ==> r == o
  {
    if PresentAndTruthy(o) then o else None
  }

  /** The characters `String.prototype.trim` removes: ECMAScript WhiteSpace and
      LineTerminator code points. */
  predicate IsSpace(c: char) {
    c == ' ' || c == '\t' || c == '\n' || c == '\r' || c == '\U{000B}' || c == '\U{000C}'
    || c == '\U{00A0}' || c == '\U{1680}' || ('\U{2000}' <= c <= '\U{200A}')
    || c == '\U{2028}' || c == '\U{2029}' || c == '\U{202F}' || c == '\U{205F}'
    || c == '\U{3000}' || c == '\U{FEFF}'
  }

  /** `s` with its leading whitespace removed. */
  function TrimStart(s: string): (r: string)
    ensures |r| <= |s| && r == s[|s| - |r|..]
    ensures |r| == 0 || !IsSpace(r[0])
    ensures forall i :: 0 <= i < |s| - |r| ==> IsSpace(s[i])
    decreases |s|
  {
    if |s| > 0 && IsSpace(s[0]) then TrimStart(s[1..]) else s
  }

  /** `s` with its trailing whitespace removed. */
  function TrimEnd(s: string): (r: string)
    ensures |r| <= |s| && r == s[..|r|]
    ensures |r| == 0 || !IsSpace(r[|r| - 1])
    ensures forall i :: |r| <= i < |s| ==> IsSpace(s[i])
    decreases |s|
  {
    if |s| > 0 && IsSpace(s[|s| - 1]) then TrimEnd(s[..|s| - 1]) else s
  }

  /** `s.trim()`: a contiguous slice of `s` that neither starts nor ends with
      whitespace, and everything cut off is whitespace. */
  function Trim(s: string): (r: string)
    ensures exists lo :: 0 <= lo <= |s| - |r| && OccursAt(s, r, lo)
                         && IsBlank(s[..lo]) && IsBlank(s[lo + |r|..])
    ensures |r| == 0 || (!IsSpace(r[0]) && !IsSpace(r[|r| - 1]))
  {
    var a := TrimStart(s);
    var r := TrimEnd(a);
    var lo := |s| - |a|;
    assert r == s[lo..][..|r|] == s[lo..lo + |r|];
    assert OccursAt(s, r, lo);
    assert IsBlank(s[..lo]) && IsBlank(s[lo + |r|..]);
    r
  }

  /** `!s.trim()`: every character of `s` is whitespace. */
  predicate IsBlank(s: string) {
    forall i :: 0 <= i < |s| ==> IsSpace(s[i])
  }

  /** The guard the forms use: the trimmed text is empty exactly when the text
      is all whitespace. */
  lemma TrimEmptyIffBlank(s: string)
    ensures Trim(s) == [] <==> IsBlank(s)
  {
    var a := TrimStart(s);
    if !IsBlank(s) {
      var i :| 0 <= i < |s| && !IsSpace(s[i]);
      assert i >= |s| - |a|;
      assert a[i - (|s| - |a|)] == s[i];
      assert |a| > 0 && !IsSpace(a[0]);
      assert |TrimEnd(a)| > 0;
    }
  }

  /** Trimming twice changes nothing more than trimming once. */
  lemma TrimIdempotent(s: string)
    ensures Trim(Trim(s)) == Trim(s)
  {
    var t := Trim(s);
    assert TrimStart(t) == t;
    assert TrimEnd(t) == t;
  }

  /** The UTF-16 code units a character takes: two outside the Basic
      Multilingual Plane, one inside it. */
  function CodeUnits(c: char): nat {
    if c as int >= 0x1_0000 then 2 else 1
  }

  /** JavaScript's `s.length`: the number of UTF-16 code units of `s`, which
      exceeds the number of characters by one for each astral character. */
  function Utf16Length(s: string): (n: nat)
    ensures |s| <= n <= 2 * |s|
    ensures n == 0 <==> |s| == 0
  {
    if |s| == 0 then 0 else CodeUnits(s[0]) + Utf16Length(s[1..])
  }

  /** The length of a concatenation is the sum of the lengths. */
  lemma {:induction false} Utf16LengthAppend(s: string, t: string)
    ensures Utf16Length(s + t) == Utf16Length(s) + Utf16Length(t)
    decreases |s|
  {
    if |s| > 0 {
      assert (s + t)[0] == s[0] && (s + t)[1..] == s[1..] + t;
      Utf16LengthAppend(s[1..], t);
    } else {
      assert s + t == t;
    }
  }

  /** A string of Basic Multilingual Plane characters has one code unit per
      character. */
  lemma {:induction false} Utf16LengthBmp(s: string)
    requires forall i :: 0 <= i < |s| ==> s[i] as int < 0x1_0000
    ensures Utf16Length(s) == |s|
    decreases |s|
  {
    if |s| > 0 {
      Utf16LengthBmp(s[1..]);
    }
  }

  /** `s.startsWith(p)`. */
  predicate StartsWith(s: string, p: string) {
    |p| <= |s| && s[..|p|] == p
  }

  /** `q` occurs in `s` starting at offset `i`. */
  predicate OccursAt(s: string, q: string, i: int) {
    0 <= i <= |s| - |q| && s[i..i + |q|] == q
  }

  /** `s.includes(q)`: `q` occurs in `s` at some offset. */
  predicate Contains(s: string, q: string) {
    exists i :: 0 <= i <= |s| - |q| && OccursAt(s, q, i)
  }

  lemma ContainsEmpty(s: string)
    ensures Contains(s, [])
  {
    assert OccursAt(s, [], 0);
  }

  /** `s.split(c)[0]`: the part of `s` before the first `c` (all of `s` when
      there is none). */
  function Before(s: string, c: char): (r: string)
    ensures |r| <= |s| && r == s[..|r|]
    ensures c !in r
    ensures |r| < |s| ==> s[|r|] == c
    decreases |s|
  {
    if |s| == 0 then []
    else if s[0] == c then []
    else
      var rest := Before(s[1..], c);
      assert [s[0]] + rest == s[..1 + |rest|];
      [s[0]] + rest
  }

  /** The part of `s` after the first `c`, empty when there is none. */
  function After(s: string, c: char): (r: string)
    ensures |r| <= |s|
    ensures |Before(s, c)| < |s| ==> r == s[|Before(s, c)| + 1..]
    decreases |s|
  {
    if |s| == 0 then []
    else if s[0] == c then s[1..]
    else After(s[1..], c)
  }

  /** A string without `c` is its own part before `c`. */
  lemma {:induction false} BeforeAbsent(s: string, c: char)
    requires c !in s
    ensures Before(s, c) == s
    decreases |s|
  {
    if |s| > 0 {
      assert s[0] != c;
      assert forall x :: x in s[1..] ==> x in s;
      BeforeAbsent(s[1..], c);
      assert [s[0]] + s[1..] == s;
    }
  }

  /** Splitting a string built as `a + c + b`, where `a` has no `c`, at its first
      `c` gives back `a` and `b`. */
  lemma {:induction false} SplitJoinRoundTrip(a: string, c: char, b: string)
    requires c !in a
    ensures Before(a + [c] + b, c) == a
    ensures After(a + [c] + b, c) == b
    decreases |a|
  {
    if |a| > 0 {
      assert (a + [c] + b)[1..] == a[1..] + [c] + b;
      SplitJoinRoundTrip(a[1..], c, b);
      assert [a[0]] + a[1..] == a;
    }
  }

  /** `xs.join(sep)`. */
  function Join(xs: seq<string>, sep: string): string
    decreases |xs|
  {
    if |xs| == 0 then []
    else if |xs| == 1 then xs[0]
    else xs[0] + sep + Join(xs[1..], sep)
  }

  /** Every element of a joined list occurs in the joined string. */
  lemma {:induction false} JoinContains(xs: seq<string>, sep: string, k: nat)
    requires k < |xs|
    ensures Contains(Join(xs, sep), xs[k])
    decreases |xs|
  {
    if |xs| == 1 {
      assert OccursAt(Join(xs, sep), xs[0], 0);
    } else if k == 0 {
      assert Join(xs, sep) == xs[0] + (sep + Join(xs[1..], sep));
      assert OccursAt(Join(xs, sep), xs[0], 0);
    } else {
      JoinContains(xs[1..], sep, k - 1);
      var rest := Join(xs[1..], sep);
      assert xs[1..][k - 1] == xs[k];
      var q := xs[k];
      var i :| 0 <= i <= |rest| - |q| && OccursAt(rest, q, i);
      var off := |xs[0]| + |sep|;
      var j := Join(xs, sep);
      assert j == (xs[0] + sep) + rest;
      assert j[off + i..off + i + |q|] == rest[i..i + |q|];
      assert OccursAt(j, q, off + i);
    }
  }

  /** A string that occurs inside a part of a concatenation occurs in the
      whole. */
  lemma ContainsInMiddle(a: string, b: string, c: string, q: string)
    requires Contains(b, q)
    ensures Contains(a + b + c, q)
  {
    var i :| 0 <= i <= |b| - |q| && OccursAt(b, q, i);
    assert (a + b + c)[|a| + i..|a| + i + |q|] == b[i..i + |q|];
    assert OccursAt(a + b + c, q, |a| + i);
  }

  /** Containment is transitive. */
  lemma ContainsTrans(s: string, m: string, q: string)
    requires Contains(s, m) && Contains(m, q)
    ensures Contains(s, q)
  {
    var i :| 0 <= i <= |s| - |m| && OccursAt(s, m, i);
    var j :| 0 <= j <= |m| - |q| && OccursAt(m, q, j);
    forall t | 0 <= t < |q|
      ensures s[i + j..i + j + |q|][t] == q[t]
    {
      assert q[t] == m[j + t] == s[i..i + |m|][j + t];
    }
    assert OccursAt(s, q, i + j);
  }

  /** The decimal digit for `d`. */
  function Digit(d: nat): char
    requires d < 10
  {
    "0123456789"[d]
  }

  /** `String(n)` for a non-negative integer: its decimal digits. */
  function NatToString(n: nat): (r: string)
    ensures |r| > 0
    ensures forall i :: 0 <= i < |r| ==> '0' <= r[i] <= '9'
    decreases n
  {
    if n < 10 then [Digit(n)] else NatToString(n / 10) + [Digit(n % 10)]
  }
}
