/**
  Models of the JavaScript built-ins the sanitizer and the directory rely on:
  String.prototype.trim, toLowerCase, split with a one-character separator and
  includes, Array.prototype.slice with non-negative bounds, and Math.ceil of a
  quotient of non-negative integers.  Whitespace is the ASCII subset of what
  trim removes, and case folding covers A-Z only.
*/
module Js {

  // ---------------------------------------------------------------- trim

  /** The ASCII characters that String.prototype.trim removes. */
  predicate IsWhitespace(c: char) {
    c == ' ' || c == '\t' || c == '\n' || c == '\r' || c == '\U{000B}' || c == '\U{000C}'
  }

  ghost predicate AllWhitespace(s: string) {
    forall i :: 0 <= i < |s| ==> IsWhitespace(s[i])
  }

  /** Neither begins nor ends with whitespace. */
  predicate Trimmed(s: string) {
    s == [] || (!IsWhitespace(s[0]) && !IsWhitespace(s[|s| - 1]))
  }

  /** `r` is what remains of `s` once its leading and trailing whitespace is cut off. */
  ghost predicate IsTrimOf(r: string, s: string) {
    Trimmed(r) &&
    exists i :: 0 <= i <= |s| - |r| && s[i..i + |r|] == r && AllWhitespace(s[..i]) && AllWhitespace(s[i + |r|..])
  }

  function TrimStart(s: string): string {
    if s != [] && IsWhitespace(s[0]) then TrimStart(s[1..]) else s
  }

  function TrimEnd(s: string): string {
    if s != [] && IsWhitespace(s[|s| - 1]) then TrimEnd(s[..|s| - 1]) else s
  }

  /** TrimStart keeps a suffix of s, drops only whitespace, and stops at a non-whitespace character. */
  lemma {:induction false} TrimStartSpec(s: string)
    ensures var r := TrimStart(s);
      |r| <= |s| && r == s[|s| - |r|..] && AllWhitespace(s[..|s| - |r|]) && (r == [] || !IsWhitespace(r[0]))
    decreases |s|
  {
    if s != [] && IsWhitespace(s[0]) {
      TrimStartSpec(s[1..]);
      var r := TrimStart(s);
      assert s[1..][|s| - 1 - |r|..] == s[|s| - |r|..];
    }
  }

  /** TrimEnd keeps a prefix of s, drops only whitespace, and stops at a non-whitespace character. */
  lemma {:induction false} TrimEndSpec(s: string)
    ensures var r := TrimEnd(s);
      |r| <= |s| && r == s[..|r|] && AllWhitespace(s[|r|..]) && (r == [] || !IsWhitespace(r[|r| - 1]))
    decreases |s|
  {
    if s != [] && IsWhitespace(s[|s| - 1]) {
      var t := s[..|s| - 1];
      TrimEndSpec(t);
      var r := TrimEnd(s);
      assert t[..|r|] == s[..|r|];
      assert forall k :: 0 <= k < |s| - 1 - |r| ==> s[|r|..][k] == t[|r|..][k];
    }
  }

  /** String.prototype.trim. */
  function Trim(s: string): string {
    TrimEnd(TrimStart(s))
  }

  /** Trim cuts off exactly the leading and the trailing whitespace. */
  lemma TrimSpec(s: string)
    ensures IsTrimOf(Trim(s), s)
  {
    TrimEndOfTrimStart(s, TrimStart(s));
  }

  lemma TrimEndOfTrimStart(s: string, t: string)
    requires t == TrimStart(s)
    ensures IsTrimOf(TrimEnd(t), s)
  {
    TrimStartSpec(s);
    TrimEndSpec(t);
    var r := TrimEnd(t);
    var i := |s| - |t|;
    assert t == s[i..];
    assert r == t[..|r|];
    assert s[i..i + |r|] == r;
    assert s[i + |r|..] == t[|r|..];
    assert r != [] ==> r[0] == t[0];
    assert Trimmed(r);
  }

  lemma {:induction false} TrimStartOf(w: string, t: string)
    requires AllWhitespace(w)
    requires t == [] || !IsWhitespace(t[0])
    ensures TrimStart(w + t) == t
    decreases |w|
  {
    if w != [] {
      assert (w + t)[1..] == w[1..] + t;
      TrimStartOf(w[1..], t);
    } else {
      assert w + t == t;
    }
  }

  lemma {:induction false} TrimEndOf(t: string, w: string)
    requires AllWhitespace(w)
    requires t == [] || !IsWhitespace(t[|t| - 1])
    ensures TrimEnd(t + w) == t
    decreases |w|
  {
    if w != [] {
      assert (t + w)[..|t + w| - 1] == t + w[..|w| - 1];
      TrimEndOf(t, w[..|w| - 1]);
    } else {
      assert t + w == t;
    }
  }

  lemma AllWhitespaceConcat(a: string, b: string)
    requires AllWhitespace(a) && AllWhitespace(b)
    ensures AllWhitespace(a + b)
  {
    forall k | 0 <= k < |a + b| ensures IsWhitespace((a + b)[k]) {
      if k < |a| { assert (a + b)[k] == a[k]; } else { assert (a + b)[k] == b[k - |a|]; }
    }
  }

  lemma TrimAllWhitespace(r: string, s: string, i: int)
    requires r == [] && 0 <= i <= |s| && AllWhitespace(s[..i]) && AllWhitespace(s[i..])
    ensures Trim(s) == r
  {
    var w1, w2 := s[..i], s[i..];
    assert s == w1 + w2;
    AllWhitespaceConcat(w1, w2);
    assert s == (w1 + w2) + [];
    TrimStartOf(w1 + w2, []);
    assert TrimStart(s) == [];
  }

  lemma TrimAround(r: string, s: string, i: int)
    requires r != [] && Trimmed(r)
    requires 0 <= i <= |s| - |r| && s[i..i + |r|] == r && AllWhitespace(s[..i]) && AllWhitespace(s[i + |r|..])
    ensures Trim(s) == r
  {
    var w1, w2 := s[..i], s[i + |r|..];
    assert s == w1 + (r + w2);
    TrimStartOf(w1, r + w2);
    assert TrimStart(s) == r + w2;
    TrimEndOf(r, w2);
  }

  /** Trim is the only string that satisfies IsTrimOf: the two definitions agree. */
  lemma TrimUnique(r: string, s: string)
    requires IsTrimOf(r, s)
    ensures Trim(s) == r
  {
    var i :| 0 <= i <= |s| - |r| && s[i..i + |r|] == r && AllWhitespace(s[..i]) && AllWhitespace(s[i + |r|..]);
    if r == [] {
      TrimAllWhitespace(r, s, i);
    } else {
      TrimAround(r, s, i);
    }
  }

  /** A string without surrounding whitespace is its own trim. */
  lemma TrimOfTrimmed(s: string)
    requires Trimmed(s)
    ensures Trim(s) == s
  {
    assert s[0..0 + |s|] == s && s[..0] == [] && s[0 + |s|..] == [];
    TrimUnique(s, s);
  }

  lemma TrimIdempotent(s: string)
    ensures Trim(Trim(s)) == Trim(s)
  {
    TrimSpec(s);
    TrimOfTrimmed(Trim(s));
  }

  // ---------------------------------------------------------------- toLowerCase

  predicate IsUpper(c: char) { 'A' <= c <= 'Z' }

  function ToLowerChar(c: char): (d: char)
    ensures !IsUpper(d)
    ensures IsWhitespace(d) == IsWhitespace(c)
  {
    if IsUpper(c) then (c as int + 32) as char else c
  }

  /** String.prototype.toLowerCase, restricted to A-Z. */
  function ToLower(s: string): (r: string)
    ensures |r| == |s|
    ensures forall i :: 0 <= i < |s| ==> r[i] == ToLowerChar(s[i])
  {
    if s == [] then [] else [ToLowerChar(s[0])] + ToLower(s[1..])
  }

  predicate HasNoUpper(s: string) {
    forall i :: 0 <= i < |s| ==> !IsUpper(s[i])
  }

  lemma ToLowerIdempotent(s: string)
    ensures HasNoUpper(ToLower(s))
    ensures ToLower(ToLower(s)) == ToLower(s)
  {
  }

  lemma ToLowerSlice(s: string, i: int, j: int)
    requires 0 <= i <= j <= |s|
    ensures ToLower(s)[i..j] == ToLower(s[i..j])
  {
    var a, b := ToLower(s)[i..j], ToLower(s[i..j]);
    forall k | 0 <= k < j - i
      ensures a[k] == b[k]
    {
      assert a[k] == ToLower(s)[i + k];
      assert b[k] == ToLowerChar(s[i..j][k]);
    }
    assert |a| == |b|;
    SameElements(a, b);
  }

  lemma SameElements<T>(a: seq<T>, b: seq<T>)
    requires |a| == |b|
    requires forall k :: 0 <= k < |a| ==> a[k] == b[k]
    ensures a == b
  {
  }

  lemma ToLowerTrimmed(s: string)
    requires Trimmed(s)
    ensures Trimmed(ToLower(s))
  {
  }

  lemma {:induction false} TrimStartToLower(s: string)
    ensures TrimStart(ToLower(s)) == ToLower(TrimStart(s))
    decreases |s|
  {
    if s != [] {
      assert ToLower(s)[1..] == ToLower(s[1..]);
      TrimStartToLower(s[1..]);
    }
  }

  lemma {:induction false} TrimEndToLower(s: string)
    ensures TrimEnd(ToLower(s)) == ToLower(TrimEnd(s))
    decreases |s|
  {
    if s != [] {
      ToLowerSlice(s, 0, |s| - 1);
      assert s[0..|s| - 1] == s[..|s| - 1];
      assert ToLower(s)[0..|s| - 1] == ToLower(s)[..|s| - 1];
      TrimEndToLower(s[..|s| - 1]);
    }
  }

  /** Lower-casing and trimming commute: case folding never turns whitespace into text or back. */
  lemma TrimToLowerCommute(s: string)
    ensures Trim(ToLower(s)) == ToLower(Trim(s))
  {
    TrimStartToLower(s);
    TrimEndToLower(TrimStart(s));
  }

  // ---------------------------------------------------------------- includes

  predicate StartsWith(s: string, prefix: string) {
    |prefix| <= |s| && s[..|prefix|] == prefix
  }

  /** String.prototype.includes. */
  predicate Includes(s: string, w: string)
    decreases |s|
  {
    StartsWith(s, w) || (s != [] && Includes(s[1..], w))
  }

  ghost predicate OccursAt(s: string, w: string, i: int) {
    0 <= i && i + |w| <= |s| && s[i..i + |w|] == w
  }

  /** The recursive scan agrees with "w occurs at some index of s". */
  lemma {:induction false} IncludesIff(s: string, w: string)
    ensures Includes(s, w) <==> exists i :: OccursAt(s, w, i)
    decreases |s|
  {
    if s != [] {
      OccursShift(s, w);
      IncludesIff(s[1..], w);
    }
    assert OccursAt(s, w, 0) <==> StartsWith(s, w);
  }

  lemma OccursShift(s: string, w: string)
    requires s != []
    ensures forall j :: 0 <= j ==> (OccursAt(s[1..], w, j) <==> OccursAt(s, w, j + 1))
    ensures forall i :: 0 < i ==> (OccursAt(s, w, i) <==> OccursAt(s[1..], w, i - 1))
  {
    forall j | 0 <= j ensures OccursAt(s[1..], w, j) <==> OccursAt(s, w, j + 1) {
      if j + 1 + |w| <= |s| {
        assert s[1..][j..j + |w|] == s[j + 1..j + 1 + |w|];
      }
    }
  }

  ghost predicate NoWhitespace(w: string) {
    forall k :: 0 <= k < |w| ==> !IsWhitespace(w[k])
  }

  lemma {:induction false} TrimStartKeepsWord(s: string, w: string, i: int)
    requires OccursAt(s, w, i) && w != [] && NoWhitespace(w)
    ensures OccursAt(TrimStart(s), w, i - (|s| - |TrimStart(s)|))
    decreases |s|
  {
    if IsWhitespace(s[0]) {
      assert i != 0 by { assert s[i..i + |w|][0] == s[i]; }
      OccursShift(s, w);
      TrimStartKeepsWord(s[1..], w, i - 1);
    }
  }

  lemma {:induction false} TrimEndKeepsWord(s: string, w: string, i: int)
    requires OccursAt(s, w, i) && w != [] && NoWhitespace(w)
    ensures OccursAt(TrimEnd(s), w, i)
    decreases |s|
  {
    if IsWhitespace(s[|s| - 1]) {
      assert i + |w| != |s| by { assert s[i..i + |w|][|w| - 1] == s[i + |w| - 1]; }
      var t := s[..|s| - 1];
      assert t[i..i + |w|] == s[i..i + |w|];
      TrimEndKeepsWord(t, w, i);
    }
  }

  /** An occurrence of a word without whitespace survives trimming. */
  lemma TrimKeepsWord(s: string, w: string, i: int)
    requires OccursAt(s, w, i) && w != [] && NoWhitespace(w)
    ensures exists j :: OccursAt(Trim(s), w, j)
  {
    var t := TrimStart(s);
    TrimStartKeepsWord(s, w, i);
    TrimEndKeepsWord(t, w, i - (|s| - |t|));
    assert OccursAt(Trim(s), w, i - (|s| - |t|));
  }

  /** An occurrence of a word that lower-casing leaves alone survives lower-casing. */
  lemma ToLowerKeepsWord(s: string, w: string, i: int)
    requires OccursAt(s, w, i) && ToLower(w) == w
    ensures OccursAt(ToLower(s), w, i)
  {
    var ls := ToLower(s);
    assert forall k :: 0 <= k < |w| ==> ls[i..i + |w|][k] == ToLowerChar(w[k]) == ToLower(w)[k];
    assert ls[i..i + |w|] == w;
  }

  // ---------------------------------------------------------------- split

  /** Array.prototype.join, the inverse of Split. */
  function Join(parts: seq<string>, sep: char): string {
    if |parts| == 0 then [] else if |parts| == 1 then parts[0] else parts[0] + [sep] + Join(parts[1..], sep)
  }

  /** String.prototype.split with a one-character separator: always at least one part. */
  function Split(s: string, sep: char): (parts: seq<string>)
    ensures |parts| >= 1
    decreases |s|
  {
    if s == [] then [[]]
    else
      var rest := Split(s[1..], sep);
      if s[0] == sep then [[]] + rest else [[s[0]] + rest[0]] + rest[1..]
  }

  /** No part contains the separator, and joining the parts gives the string back. */
  lemma SplitSpec(s: string, sep: char)
    ensures forall k :: 0 <= k < |Split(s, sep)| ==> sep !in Split(s, sep)[k]
    ensures Join(Split(s, sep), sep) == s
  {
    SplitPartsAvoidSep(s, sep);
    SplitJoinsBack(s, sep);
  }

  lemma {:induction false} SplitPartsAvoidSep(s: string, sep: char)
    ensures forall k :: 0 <= k < |Split(s, sep)| ==> sep !in Split(s, sep)[k]
    decreases |s|
  {
    if s != [] {
      var rest := Split(s[1..], sep);
      SplitPartsAvoidSep(s[1..], sep);
      var parts := Split(s, sep);
      if s[0] == sep {
        assert parts == [[]] + rest;
      } else {
        assert parts == [[s[0]] + rest[0]] + rest[1..];
        assert sep !in [s[0]] + rest[0];
      }
    }
  }

  lemma {:induction false} SplitJoinsBack(s: string, sep: char)
    ensures Join(Split(s, sep), sep) == s
    decreases |s|
  {
    if s != [] {
      var rest := Split(s[1..], sep);
      SplitJoinsBack(s[1..], sep);
      var parts := Split(s, sep);
      if s[0] == sep {
        assert parts == [[]] + rest;
        assert parts[1..] == rest;
        assert Join(parts, sep) == [sep] + s[1..];
      } else {
        assert parts == [[s[0]] + rest[0]] + rest[1..];
        assert |rest| > 1 ==> Join(rest, sep) == rest[0] + [sep] + Join(rest[1..], sep);
        assert parts[1..] == rest[1..];
        assert Join(parts, sep) == [s[0]] + Join(rest, sep);
      }
    }
  }

  lemma {:induction false} SplitNoSep(a: string, sep: char)
    requires sep !in a
    ensures Split(a, sep) == [a]
    decreases |a|
  {
    if a != [] {
      SplitNoSep(a[1..], sep);
      assert [a[0]] + a[1..] == a;
    }
  }

  lemma {:induction false} SplitCons(a: string, t: string, sep: char)
    requires sep !in a
    ensures Split(a + [sep] + t, sep) == [a] + Split(t, sep)
    decreases |a|
  {
    var s := a + [sep] + t;
    if a == [] {
      assert s[1..] == t;
    } else {
      assert s[1..] == a[1..] + [sep] + t;
      SplitCons(a[1..], t, sep);
      assert [a[0]] + a[1..] == a;
    }
  }

  /** Split inverts Join on parts that do not contain the separator. */
  lemma {:induction false} SplitJoin(parts: seq<string>, sep: char)
    requires |parts| >= 1
    requires forall k :: 0 <= k < |parts| ==> sep !in parts[k]
    ensures Split(Join(parts, sep), sep) == parts
  {
    if |parts| == 1 {
      SplitNoSep(parts[0], sep);
    } else {
      SplitJoin(parts[1..], sep);
      SplitCons(parts[0], Join(parts[1..], sep), sep);
      assert [parts[0]] + parts[1..] == parts;
    }
  }

  /** With two parts or more, the string starts with the first two parts and the separator between them. */
  lemma SplitFirstTwo(s: string, sep: char)
    requires |Split(s, sep)| >= 2
    ensures var parts := Split(s, sep);
      exists rest :: s == parts[0] + [sep] + parts[1] + rest && (rest == [] || rest[0] == sep)
  {
    var parts := Split(s, sep);
    SplitSpec(s, sep);
    var tail := parts[1..];
    assert Join(parts, sep) == parts[0] + [sep] + Join(tail, sep);
    if |tail| == 1 {
      assert Join(tail, sep) == parts[1];
      assert s == parts[0] + [sep] + parts[1] + [];
    } else {
      assert Join(tail, sep) == parts[1] + [sep] + Join(tail[1..], sep);
      var rest := [sep] + Join(tail[1..], sep);
      assert s == parts[0] + [sep] + parts[1] + rest;
    }
  }

  // ---------------------------------------------------------------- slice and ceil

  function Min(a: int, b: int): int { if a < b then a else b }

  /** Array.prototype.slice(start, end) for non-negative bounds: both are clamped to the length. */
  function Slice<T>(s: seq<T>, start: int, end: int): (r: seq<T>)
    requires 0 <= start && 0 <= end
    ensures |r| == if start < end && start < |s| then Min(end, |s|) - start else 0
    ensures forall k :: 0 <= k < |r| ==> start + k < |s| && r[k] == s[start + k]
  {
    var lo := Min(start, |s|);
    var hi := Min(end, |s|);
    if lo < hi then s[lo..hi] else []
  }

  /** Math.ceil(n / d) for a non-negative n and a positive d. */
  function CeilDiv(n: nat, d: nat): (r: nat)
    requires d >= 1
    ensures (r - 1) * d < n <= r * d
  {
    var q, m := (n + d - 1) / d, (n + d - 1) % d;
    assert q * d + m == n + d - 1;
    assert (q - 1) * d == q * d - d;
    q
  }

  /** Page k exists below the ceiling exactly when k full pages do not cover n. */
  lemma BelowCeilDiv(k: int, n: nat, d: nat)
    requires d >= 1 && k >= 0
    ensures k < CeilDiv(n, d) <==> k * d < n
  {
    var r := CeilDiv(n, d);
    if k < r {
      assert k * d <= (r - 1) * d by { MulMono(k, r - 1, d); }
    } else {
      assert r * d <= k * d by { MulMono(r, k, d); }
    }
  }

  lemma MulMono(a: int, b: int, d: nat)
    requires a <= b
    ensures a * d <= b * d
  {
    assert b * d - a * d == (b - a) * d;
  }
}
