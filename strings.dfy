/** The JavaScript string built-ins the application relies on (`trim`,
    `toUpperCase`, `toLowerCase`, `startsWith`, `includes`, `split`, `join`,
    `substring` and number-to-string conversion), over ASCII. */
module Strings {
  import opened Wrappers

  /** The white space `trim` removes, restricted to ASCII. */
  predicate IsSpace(c: char) {
    c == ' ' || c == '\t' || c == '\n' || c == '\r' || c == '\U{B}' || c == '\U{C}'
  }

  predicate AllSpace(s: string) {
    forall i :: 0 <= i < |s| ==> IsSpace(s[i])
  }

  // ---------------------------------------------------------------- trim

  /** `s.trimStart()`: the longest suffix of `s` that does not start with white space. */
  function TrimStart(s: string): (r: string)
    ensures |r| <= |s| && r == s[|s| - |r|..]
    ensures AllSpace(s[..|s| - |r|])
    ensures r == [] || !IsSpace(r[0])
    decreases |s|
  {
    if s != [] && IsSpace(s[0]) then TrimStart(s[1..]) else s
  }

  /** `s.trimEnd()`: the longest prefix of `s` that does not end with white space. */
  function TrimEnd(s: string): (r: string)
    ensures |r| <= |s| && r == s[..|r|]
    ensures AllSpace(s[|r|..])
    ensures r == [] || !IsSpace(r[|r| - 1])
    decreases |s|
  {
    if s != [] && IsSpace(s[|s| - 1]) then
      var t := s[..|s| - 1];
      var r := TrimEnd(t);
      assert s[|r|..] == t[|r|..] + [s[|s| - 1]];
      assert t[..|r|] == s[..|r|];
      r
    else s
  }

  /** `s.trim()`: `s` with its leading and trailing white space cut off; what
      is left starts and ends with a visible character, or is empty. */
  function Trim(s: string): (r: string)
    ensures |r| <= |TrimStart(s)| <= |s|
    ensures r == s[|s| - |TrimStart(s)|..][..|r|]
    ensures AllSpace(s[..|s| - |TrimStart(s)|])
    ensures AllSpace(s[|s| - |TrimStart(s)| + |r|..])
    ensures r == [] || (!IsSpace(r[0]) && !IsSpace(r[|r| - 1]))
  {
    var u := TrimStart(s);
    var r := TrimEnd(u);
    TrimCuts(s, u, r);
    r
  }

  /** Trimming the start and then the end cuts white space off both ends. */
  lemma TrimCuts(s: string, u: string, r: string)
    requires |u| <= |s| && u == s[|s| - |u|..] && AllSpace(s[..|s| - |u|])
    requires |r| <= |u| && r == u[..|r|] && AllSpace(u[|r|..])
    ensures r == s[|s| - |u|..][..|r|]
    ensures AllSpace(s[|s| - |u| + |r|..])
  {
    assert s[|s| - |u| + |r|..] == u[|r|..];
  }

  lemma TrimIdempotent(s: string)
    ensures Trim(Trim(s)) == Trim(s)
  {
    var t := Trim(s);
    assert TrimStart(t) == t;
    assert TrimEnd(t) == t;
  }

  /** A string that starts and ends with a visible character is its own trim. */
  lemma TrimKeepsVisibleEnds(s: string)
    requires s != [] && !IsSpace(s[0]) && !IsSpace(s[|s| - 1])
    ensures Trim(s) == s
  {
  }

  /** A stretch of `s` that starts and ends with a visible character is
      still there after trimming. */
  lemma VisibleInsideTrim(s: string, k: nat, n: nat)
    requires 0 < n && k + n <= |s| && !IsSpace(s[k]) && !IsSpace(s[k + n - 1])
    ensures Contains(Trim(s), s[k..k + n])
  {
    var i := |s| - |TrimStart(s)|;
    TrimStartBefore(s, k);
    TrimStartIndex(s, k + n - 1);
    TrimEndAfter(TrimStart(s), k + n - 1 - i);
    InsideSlice(s, i, Trim(s), k, n);
  }

  /** `trimStart` only drops a prefix: the characters after it keep their order. */
  lemma TrimStartIndex(s: string, j: nat)
    requires |s| - |TrimStart(s)| <= j < |s|
    ensures TrimStart(s)[j - (|s| - |TrimStart(s)|)] == s[j]
  {
  }

  lemma InsideSlice(s: string, i: nat, t: string, k: nat, n: nat)
    requires i <= k && k + n <= |s| && i + |t| <= |s| && k + n - i <= |t|
    requires t == s[i..][..|t|]
    ensures Contains(t, s[k..k + n])
  {
    assert t[k - i..k - i + n] == s[k..k + n];
    ContainsSlice(t, k - i, s[k..k + n]);
  }

  /** `trimStart` stops at or before the first visible character. */
  lemma TrimStartBefore(s: string, k: nat)
    requires k < |s| && !IsSpace(s[k])
    ensures |s| - |TrimStart(s)| <= k
  {
    var i := |s| - |TrimStart(s)|;
    assert forall j :: 0 <= j < i ==> IsSpace(s[j]);
  }

  /** `trimEnd` keeps every visible character. */
  lemma TrimEndAfter(u: string, m: nat)
    requires m < |u| && !IsSpace(u[m])
    ensures m < |TrimEnd(u)|
  {
    var t := TrimEnd(u);
    assert forall j :: |t| <= j < |u| ==> IsSpace(u[j]);
  }

  /** A string contains each of its slices. */
  lemma ContainsSlice(s: string, j: nat, p: string)
    requires j + |p| <= |s| && s[j..j + |p|] == p
    ensures Contains(s, p)
  {
    ContainsAt(s, p);
    assert StartsWith(s[j..], p);
  }

  /** A string that starts with a visible character is its own `trimStart`. */
  lemma TrimStartVisible(s: string)
    requires s != [] && !IsSpace(s[0])
    ensures TrimStart(s) == s
  {
  }

  /** A string of white space trims to nothing, and only such a string does. */
  lemma {:induction false} TrimEmptyIffAllSpace(s: string)
    ensures Trim(s) == [] <==> AllSpace(s)
  {
    var u := TrimStart(s);
    if u == [] {
      assert s == s[..|s| - |u|];
    } else {
      assert TrimEnd(u) != [] by { assert u == u[..1] + u[1..]; TrimEndKeepsPrefix(u[..1], u[1..]); }
      assert !IsSpace(s[|s| - |u|]);
    }
  }

  /** Trimming never removes a character that is not white space. */
  lemma NonSpaceSurvivesTrim(s: string, c: char)
    requires c in s && !IsSpace(c)
    ensures c in Trim(s)
  {
    var i :| 0 <= i < |s| && s[i] == c;
    var u := TrimStart(s);
    var a := |s| - |u|;
    assert !IsSpace(s[i]);
    assert i >= a;
    assert u[i - a] == c;
    var t := TrimEnd(u);
    assert i - a < |t|;
    assert t[i - a] == c;
  }

  /** Trailing white space never eats into a prefix that ends with a visible character. */
  lemma {:induction false} TrimEndKeepsPrefix(p: string, q: string)
    requires p != [] && !IsSpace(p[|p| - 1])
    ensures StartsWith(TrimEnd(p + q), p)
    decreases |q|
  {
    if q == [] {
      assert p + q == p;
    } else if IsSpace(q[|q| - 1]) {
      assert (p + q)[..|p + q| - 1] == p + q[..|q| - 1];
      TrimEndKeepsPrefix(p, q[..|q| - 1]);
    } else {
      assert StartsWith(p + q, p);
    }
  }

  /** Leading white space does not change the result of `trim`. */
  lemma TrimSkipsLeadingSpace(w: string, s: string)
    requires AllSpace(w)
    ensures Trim(w + s) == Trim(s)
  {
    TrimStartSkips(w, s);
  }

  lemma {:induction false} TrimStartSkips(w: string, s: string)
    requires AllSpace(w)
    ensures TrimStart(w + s) == TrimStart(s)
    decreases |w|
  {
    if w != [] {
      assert (w + s)[1..] == w[1..] + s;
      TrimStartSkips(w[1..], s);
    } else {
      assert w + s == s;
    }
  }

  // ---------------------------------------------------------------- case

  function UpperChar(c: char): char {
    if 'a' <= c <= 'z' then (c as int - 32) as char else c
  }

  function LowerChar(c: char): char {
    if 'A' <= c <= 'Z' then (c as int + 32) as char else c
  }

  /** `s.toUpperCase()`, ASCII letters only. */
  function Upper(s: string): (r: string)
    ensures |r| == |s| && forall i :: 0 <= i < |s| ==> r[i] == UpperChar(s[i])
  {
    seq(|s|, i requires 0 <= i < |s| => UpperChar(s[i]))
  }

  /** `s.toLowerCase()`, ASCII letters only. */
  function Lower(s: string): (r: string)
    ensures |r| == |s| && forall i :: 0 <= i < |s| ==> r[i] == LowerChar(s[i])
  {
    seq(|s|, i requires 0 <= i < |s| => LowerChar(s[i]))
  }

  lemma LowerIdempotent(s: string)
    ensures Lower(Lower(s)) == Lower(s)
  {
  }

  /** Lower-casing leaves white space alone, so it commutes with trimming. */
  lemma TrimLower(s: string)
    ensures Trim(Lower(s)) == Lower(Trim(s))
  {
    TrimStartLower(s);
    TrimEndLower(TrimStart(s));
  }

  lemma {:induction false} TrimStartLower(s: string)
    ensures TrimStart(Lower(s)) == Lower(TrimStart(s))
    decreases |s|
  {
    if s != [] {
      LowerKeepsSpace(s[0]);
      assert Lower(s)[1..] == Lower(s[1..]);
      if IsSpace(s[0]) {
        TrimStartLower(s[1..]);
      }
    }
  }

  lemma LowerKeepsSpace(c: char)
    ensures IsSpace(LowerChar(c)) == IsSpace(c)
  {
  }

  lemma {:induction false} TrimEndLower(s: string)
    ensures TrimEnd(Lower(s)) == Lower(TrimEnd(s))
    decreases |s|
  {
    if s != [] {
      LowerKeepsSpace(s[|s| - 1]);
      assert Lower(s)[..|s| - 1] == Lower(s[..|s| - 1]);
      if IsSpace(s[|s| - 1]) {
        TrimEndLower(s[..|s| - 1]);
      }
    }
  }

  // ---------------------------------------------------------------- search

  /** `s.startsWith(p)` */
  predicate StartsWith(s: string, p: string) {
    |p| <= |s| && s[..|p|] == p
  }

  /** A string starts with each of its prefixes. */
  lemma StartsWithPrefix(a: string, b: string)
    ensures StartsWith(a + b, a)
  {
    assert (a + b)[..|a|] == a;
  }

  /** Upper-casing keeps a prefix. */
  lemma UpperKeepsStartsWith(s: string, p: string)
    requires StartsWith(s, p)
    ensures StartsWith(Upper(s), Upper(p))
  {
    assert Upper(s)[..|p|] == Upper(p);
  }

  /** One differing character rules a prefix out. */
  lemma DifferAt(s: string, p: string, k: nat)
    requires k < |s| && k < |p| && s[k] != p[k]
    ensures !StartsWith(s, p)
  {
    if |p| <= |s| {
      assert s[..|p|][k] == s[k];
    }
  }

  /** `s.includes(p)` */
  predicate Contains(s: string, p: string)
    decreases |s|
  {
    StartsWith(s, p) || (s != [] && Contains(s[1..], p))
  }

  /** `includes` holds exactly when `p` occurs at some position of `s`. */
  lemma {:induction false} ContainsAt(s: string, p: string)
    ensures Contains(s, p) <==> exists i :: 0 <= i <= |s| && StartsWith(s[i..], p)
    decreases |s|
  {
    assert s[0..] == s;
    if s != [] {
      ContainsAt(s[1..], p);
      if Contains(s[1..], p) {
        var i :| 0 <= i <= |s| - 1 && StartsWith(s[1..][i..], p);
        assert s[1..][i..] == s[i + 1..];
      }
      if exists i :: 0 <= i <= |s| && StartsWith(s[i..], p) {
        var i :| 0 <= i <= |s| && StartsWith(s[i..], p);
        if i > 0 {
          assert s[1..][i - 1..] == s[i..];
        }
      }
    }
  }

  /** Upper-casing keeps every occurrence. */
  lemma UpperKeepsContains(s: string, p: string)
    requires Contains(s, p)
    ensures Contains(Upper(s), Upper(p))
  {
    ContainsAt(s, p);
    var i :| 0 <= i <= |s| && StartsWith(s[i..], p);
    assert Upper(s)[i..][..|p|] == Upper(p);
    ContainsAt(Upper(s), Upper(p));
    assert StartsWith(Upper(s)[i..], Upper(p));
  }

  /** A string that contains `p` contains the first character of `p`. */
  lemma {:induction false} ContainsFirstChar(s: string, p: string)
    requires p != [] && Contains(s, p)
    ensures p[0] in s
    decreases |s|
  {
    if StartsWith(s, p) {
      assert s[0] == p[0];
    } else {
      ContainsFirstChar(s[1..], p);
    }
  }

  /** The index of the first occurrence of `c`, if any. */
  function IndexOf(s: string, c: char): (r: Option<nat>)
    ensures r.Some? ==> r.value < |s| && s[r.value] == c
    ensures r.Some? ==> forall j :: 0 <= j < r.value ==> s[j] != c
    ensures r.None? ==> forall j :: 0 <= j < |s| ==> s[j] != c
    decreases |s|
  {
    if s == [] then None
    else if s[0] == c then Some(0)
    else
      match IndexOf(s[1..], c)
      case None => None
      case Some(i) => Some(i + 1)
  }

  /** `xs.find(p)`, giving the index of the element found. */
  function Find<X>(xs: seq<X>, p: X -> bool): (r: Option<nat>)
    ensures r.Some? ==> r.value < |xs| && p(xs[r.value])
    ensures r.Some? ==> forall j :: 0 <= j < r.value ==> !p(xs[j])
    ensures r.None? ==> forall j :: 0 <= j < |xs| ==> !p(xs[j])
  {
    if xs == [] then None
    else if p(xs[0]) then Some(0)
    else
      match Find(xs[1..], p)
      case None => None
      case Some(i) => Some(i + 1)
  }

  // ---------------------------------------------------------------- split and join

  /** `s.split(c)` for a one-character separator: the pieces between the
      occurrences of `c`, in order; there is always at least one. */
  function Split(s: string, c: char): (r: seq<string>)
    ensures |r| >= 1
    ensures forall i :: 0 <= i < |r| ==> c !in r[i]
    decreases |s|
  {
    match IndexOf(s, c)
    case None => [s]
    case Some(i) => [s[..i]] + Split(s[i + 1..], c)
  }

  /** `parts.join(c)` */
  function Join(parts: seq<string>, c: char): string
  {
    if parts == [] then ""
    else if |parts| == 1 then parts[0]
    else parts[0] + [c] + Join(parts[1..], c)
  }

  /** Joining the pieces again gives back the string: `split` loses nothing. */
  lemma {:induction false} JoinSplit(s: string, c: char)
    ensures Join(Split(s, c), c) == s
    decreases |s|
  {
    match IndexOf(s, c)
    case None =>
    case Some(i) =>
      var rest := Split(s[i + 1..], c);
      JoinSplit(s[i + 1..], c);
      assert Split(s, c) == [s[..i]] + rest;
      assert Join([s[..i]] + rest, c) == s[..i] + [c] + Join(rest, c) by {
        assert ([s[..i]] + rest)[1..] == rest;
      }
      assert s == s[..i] + [c] + s[i + 1..];
  }

  /** A string without the separator splits into itself. */
  lemma SplitWithout(a: string, c: char)
    requires c !in a
    ensures Split(a, c) == [a]
  {
  }

  /** The first piece ends at the first separator. */
  lemma SplitAtFirst(a: string, b: string, c: char)
    requires c !in a
    ensures Split(a + [c] + b, c) == [a] + Split(b, c)
  {
    var s := a + [c] + b;
    IndexOfPrefix(a, b, c);
    assert s[..|a|] == a;
    assert s[|a| + 1..] == b;
  }

  lemma {:induction false} IndexOfPrefix(a: string, b: string, c: char)
    requires c !in a
    ensures IndexOf(a + [c] + b, c) == Some(|a|)
  {
    var s := a + [c] + b;
    assert s[|a|] == c;
    assert s[..|a|] == a;
  }

  /** Everything after the first separator, with later separators kept:
      `s.split(c).slice(1).join(c)`. */
  lemma AfterFirst(s: string, c: char, i: nat)
    requires IndexOf(s, c) == Some(i)
    ensures |Split(s, c)| > 1
    ensures Split(s, c)[0] == s[..i]
    ensures Join(Split(s, c)[1..], c) == s[i + 1..]
  {
    assert Split(s, c)[1..] == Split(s[i + 1..], c);
    JoinSplit(s[i + 1..], c);
  }

  /** Every character of a piece is a character of the whole string. */
  lemma {:induction false} PieceInWhole(s: string, c: char, j: nat, x: char)
    requires j < |Split(s, c)| && x in Split(s, c)[j]
    ensures x in s
    decreases |s|
  {
    match IndexOf(s, c)
    case None =>
    case Some(i) =>
      if j == 0 {
        assert x in s[..i];
      } else {
        assert Split(s, c)[j] == Split(s[i + 1..], c)[j - 1];
        PieceInWhole(s[i + 1..], c, j - 1, x);
        assert x in s[i + 1..];
      }
  }

  // ---------------------------------------------------------------- substring and numbers

  /** `s.substring(0, n)` */
  function Take(s: string, n: nat): (r: string)
    ensures |r| == (if n <= |s| then n else |s|)
    ensures StartsWith(s, r)
  {
    if n <= |s| then s[..n] else s
  }

  function DigitChar(d: nat): char
    requires d < 10
  {
    ('0' as int + d) as char
  }

  /** The decimal rendering of a natural number, as template literals print it. */
  function NatToString(n: nat): (r: string)
    ensures |r| >= 1
    ensures forall i :: 0 <= i < |r| ==> '0' <= r[i] <= '9'
    ensures r[0] == '0' <==> n == 0
    decreases n
  {
    if n < 10 then [DigitChar(n)] else NatToString(n / 10) + [DigitChar(n % 10)]
  }

  /** The number a string of decimal digits denotes. */
  function DecimalValue(s: string): nat
    requires forall i :: 0 <= i < |s| ==> '0' <= s[i] <= '9'
  {
    if s == [] then 0 else 10 * DecimalValue(s[..|s| - 1]) + (s[|s| - 1] as int - '0' as int)
  }

  /** Reading the decimal rendering back gives the number. */
  lemma {:induction false} NatToStringValue(n: nat)
    ensures DecimalValue(NatToString(n)) == n
    decreases n
  {
    var r := NatToString(n);
    if n >= 10 {
      NatToStringValue(n / 10);
      assert r[..|r| - 1] == NatToString(n / 10);
    }
  }
}
