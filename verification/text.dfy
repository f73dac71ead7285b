/**
 * The few pieces of Python's `str` behaviour the converter relies on:
 * `strip`, `lower`, `in`, `split`, `partition`, `startswith`, `"\n".join`
 * and the decimal rendering of an integer in an f-string.
 */
module Text {
  import opened Results

  /** The characters `str.isspace()` accepts, which `str.strip()` removes. */
  predicate IsSpace(c: char) {
    || c == ' '
    || ('\t' <= c <= '\r')
    || ('\U{1c}' <= c <= '\U{1f}')
    || c == '\U{85}' || c == '\U{a0}' || c == '\U{1680}'
    || ('\U{2000}' <= c <= '\U{200a}')
    || c == '\U{2028}' || c == '\U{2029}' || c == '\U{202f}'
    || c == '\U{205f}' || c == '\U{3000}'
  }

  predicate AllSpace(s: string) {
    forall i :: 0 <= i < |s| ==> IsSpace(s[i])
  }

  function TrimStart(s: string): (r: string)
    ensures |r| <= |s| && r == s[|s| - |r|..]
    ensures AllSpace(s[..|s| - |r|])
    ensures r == [] || !IsSpace(r[0])
    decreases |s|
  {
    if |s| > 0 && IsSpace(s[0]) then
      var t := s[1..];
      var r := TrimStart(t);
      assert s[|s| - |r|..] == t[|t| - |r|..];
      AllSpaceCons(s[0], t[..|t| - |r|]);
      assert s[..|s| - |r|] == [s[0]] + t[..|t| - |r|];
      r
    else s
  }

  lemma AllSpaceCons(c: char, x: string)
    requires IsSpace(c) && AllSpace(x)
    ensures AllSpace([c] + x)
  {
    forall i | 0 < i <= |x| ensures IsSpace(([c] + x)[i]) {
      assert ([c] + x)[i] == x[i - 1];
    }
  }

  function TrimEnd(s: string): (r: string)
    ensures |r| <= |s| && r == s[..|r|]
    ensures AllSpace(s[|r|..])
    ensures r == [] || !IsSpace(r[|r| - 1])
    decreases |s|
  {
    if |s| > 0 && IsSpace(s[|s| - 1]) then
      var t := s[..|s| - 1];
      var r := TrimEnd(t);
      AllSpaceSnoc(t[|r|..], s[|s| - 1]);
      assert s[|r|..] == t[|r|..] + [s[|s| - 1]];
      r
    else s
  }

  lemma AllSpaceSnoc(x: string, c: char)
    requires AllSpace(x) && IsSpace(c)
    ensures AllSpace(x + [c])
  {
    forall i | 0 <= i < |x| ensures IsSpace((x + [c])[i]) {
      assert (x + [c])[i] == x[i];
    }
  }

  /** `s` is `pad1 + r + pad2` with both pads made of whitespace. */
  ghost predicate StrippedAt(s: string, r: string, k: nat) {
    && k + |r| <= |s|
    && r == s[k..k + |r|]
    && AllSpace(s[..k])
    && AllSpace(s[k + |r|..])
  }

  /** Python's `str.strip()` with no argument. */
  function Strip(s: string): (r: string)
    ensures r == [] <==> AllSpace(s)
    ensures r == [] || (!IsSpace(r[0]) && !IsSpace(r[|r| - 1]))
    ensures StrippedAt(s, r, |s| - |TrimStart(s)|)
  {
    StripShape(s);
    StripEnds(s);
    TrimEnd(TrimStart(s))
  }

  /** Neither end of the stripped text is whitespace. */
  lemma StripEnds(s: string)
    ensures var r := TrimEnd(TrimStart(s));
      r == [] || (!IsSpace(r[0]) && !IsSpace(r[|r| - 1]))
  {
    var t := TrimStart(s);
    var r := TrimEnd(t);
    assert r == [] || r[0] == t[0];
  }

  lemma StripShape(s: string)
    ensures var t := TrimStart(s); var r := TrimEnd(t);
      && (r == [] <==> AllSpace(s))
      && StrippedAt(s, r, |s| - |t|)
  {
    StripIsInfix(s);
    StripEmptyIfBlank(s);
    StripNonEmptyIfNotBlank(s);
  }

  lemma {:induction false} StripIsInfix(s: string)
    ensures var t := TrimStart(s); var r := TrimEnd(t);
      StrippedAt(s, r, |s| - |t|)
  {
    var t := TrimStart(s);
    var r := TrimEnd(t);
    StrippedFrom(s, t, r, |s| - |t|);
  }

  /** Leading pad, then a text whose trailing pad is cut off. */
  lemma StrippedFrom(s: string, t: string, r: string, k: nat)
    requires k <= |s| && t == s[k..] && AllSpace(s[..k])
    requires |r| <= |t| && r == t[..|r|] && AllSpace(t[|r|..])
    ensures StrippedAt(s, r, k)
  {
    assert s[k..k + |r|] == t[..|r|];
    assert s[k + |r|..] == t[|r|..];
  }

  lemma {:induction false} StripEmptyIfBlank(s: string)
    ensures var t := TrimStart(s); var r := TrimEnd(t);
      r == [] ==> AllSpace(s)
  {
    var t := TrimStart(s);
    var r := TrimEnd(t);
    var k := |s| - |t|;
    assert t == s[k..];
    if r == [] {
      forall i | 0 <= i < |s| ensures IsSpace(s[i]) {
        if i < k {
          assert s[i] == s[..k][i];
        } else {
          assert s[i] == t[i - k];
          assert t[i - k] == t[|r|..][i - k];
        }
      }
    }
  }

  lemma {:induction false} StripNonEmptyIfNotBlank(s: string)
    ensures var t := TrimStart(s); var r := TrimEnd(t);
      AllSpace(s) ==> r == []
  {
    var t := TrimStart(s);
    var r := TrimEnd(t);
    var k := |s| - |t|;
    assert t == s[k..];
    if r != [] {
      assert r[|r| - 1] == s[k + |r| - 1];
    }
  }

  lemma {:induction false} TrimStartPadded(pad: string, rest: string)
    requires AllSpace(pad)
    requires rest == [] || !IsSpace(rest[0])
    ensures TrimStart(pad + rest) == rest
    decreases |pad|
  {
    if pad != [] {
      assert (pad + rest)[1..] == pad[1..] + rest;
      TrimStartPadded(pad[1..], rest);
    }
  }

  lemma {:induction false} TrimEndPadded(rest: string, pad: string)
    requires AllSpace(pad)
    requires rest == [] || !IsSpace(rest[|rest| - 1])
    ensures TrimEnd(rest + pad) == rest
    decreases |pad|
  {
    if pad != [] {
      assert (rest + pad)[..|rest + pad| - 1] == rest + pad[..|pad| - 1];
      TrimEndPadded(rest, pad[..|pad| - 1]);
    }
  }

  /** Stripping undoes whitespace padding around a string with non-blank ends. */
  lemma StripPadded(pad1: string, core: string, pad2: string)
    requires AllSpace(pad1) && AllSpace(pad2)
    requires core == [] || (!IsSpace(core[0]) && !IsSpace(core[|core| - 1]))
    ensures Strip(pad1 + core + pad2) == core
  {
    if core == [] {
      assert pad1 + core + pad2 == pad1 + pad2;
      assert AllSpace(pad1 + pad2) by {
        forall i | 0 <= i < |pad1 + pad2| ensures IsSpace((pad1 + pad2)[i]) {
          if i >= |pad1| {
            assert (pad1 + pad2)[i] == pad2[i - |pad1|];
          }
        }
      }
    } else {
      assert pad1 + core + pad2 == pad1 + (core + pad2);
      TrimStartPadded(pad1, core + pad2);
      TrimEndPadded(core, pad2);
    }
  }

  function LowerChar(c: char): char {
    if 'A' <= c <= 'Z' then (c as int - 'A' as int + 'a' as int) as char else c
  }

  /** `str.lower()`, restricted to the ASCII letters. */
  function Lower(s: string): (r: string)
    ensures |r| == |s|
    ensures forall i :: 0 <= i < |s| ==> r[i] == LowerChar(s[i])
  {
    seq(|s|, i requires 0 <= i < |s| => LowerChar(s[i]))
  }

  /** Lower-casing twice is lower-casing once. */
  lemma LowerIdempotent(s: string)
    ensures Lower(Lower(s)) == Lower(s)
  {
  }

  /** The two characters are equal, or one is an ASCII capital and the
      other its small letter. */
  predicate SameUpToCase(a: char, b: char) {
    || a == b
    || ('A' <= a <= 'Z' && b as int == a as int + 32)
    || ('A' <= b <= 'Z' && a as int == b as int + 32)
  }

  lemma LowerCharSame(a: char, b: char)
    ensures LowerChar(a) == LowerChar(b) <==> SameUpToCase(a, b)
  {
  }

  /** Two strings lower-case alike exactly when they differ only in the case
      of ASCII letters: header names match without regard to that case. */
  lemma SameLowerIff(s: string, t: string)
    ensures Lower(s) == Lower(t) <==>
      |s| == |t| && forall i :: 0 <= i < |s| ==> SameUpToCase(s[i], t[i])
  {
    if Lower(s) == Lower(t) {
      forall i | 0 <= i < |s| ensures SameUpToCase(s[i], t[i]) {
        assert Lower(s)[i] == Lower(t)[i];
        LowerCharSame(s[i], t[i]);
      }
    }
    if |s| == |t| && forall i :: 0 <= i < |s| ==> SameUpToCase(s[i], t[i]) {
      forall i | 0 <= i < |s| ensures Lower(s)[i] == Lower(t)[i] {
        LowerCharSame(s[i], t[i]);
      }
    }
  }

  /** Index of the first `c` in `s` (`str.find`). */
  function IndexOfChar(s: string, c: char): (r: Option<nat>)
    ensures r.None? <==> c !in s
    ensures r.Some? ==> r.value < |s| && s[r.value] == c && c !in s[..r.value]
  {
    if |s| == 0 then None
    else if s[0] == c then Some(0)
    else match IndexOfChar(s[1..], c)
      case None => None
      case Some(i) =>
        assert s[1..][..i] == s[1..i + 1];
        Some(i + 1)
  }

  /** Index of the last `c` in `s` (`str.rfind`). */
  function LastIndexOfChar(s: string, c: char): (r: Option<nat>)
    ensures r.None? <==> c !in s
    ensures r.Some? ==> r.value < |s| && s[r.value] == c && c !in s[r.value + 1..]
  {
    if |s| == 0 then None
    else if s[|s| - 1] == c then Some(|s| - 1)
    else match LastIndexOfChar(s[..|s| - 1], c)
      case None => None
      case Some(i) =>
        assert s[i + 1..] == s[..|s| - 1][i + 1..] + [s[|s| - 1]];
        Some(i)
  }

  predicate StartsWith(s: string, prefix: string) {
    |prefix| <= |s| && s[..|prefix|] == prefix
  }

  /** `pat` occurs in `s` starting at index `i`. */
  predicate OccursAt(s: string, pat: string, i: nat) {
    i <= |s| && StartsWith(s[i..], pat)
  }

  /** First index at or after `from` where `pat` occurs. */
  function IndexOfFrom(s: string, pat: string, from: nat): (r: Option<nat>)
    requires from <= |s|
    ensures r.Some? ==> from <= r.value <= |s| && OccursAt(s, pat, r.value)
    ensures r.Some? ==> forall i :: from <= i < r.value ==> !OccursAt(s, pat, i)
    ensures r.None? ==> forall i :: from <= i <= |s| ==> !OccursAt(s, pat, i)
    decreases |s| - from
  {
    if OccursAt(s, pat, from) then Some(from)
    else if from == |s| then None
    else IndexOfFrom(s, pat, from + 1)
  }

  function IndexOf(s: string, pat: string): (r: Option<nat>)
    ensures r.Some? ==> r.value <= |s| && OccursAt(s, pat, r.value)
    ensures r.Some? ==> forall i :: 0 <= i < r.value ==> !OccursAt(s, pat, i)
    ensures r.None? ==> forall i :: 0 <= i <= |s| ==> !OccursAt(s, pat, i)
  {
    IndexOfFrom(s, pat, 0)
  }

  /** Python's `pat in s`. */
  predicate Contains(s: string, pat: string)
    ensures Contains(s, pat) <==> exists i :: 0 <= i <= |s| && OccursAt(s, pat, i)
  {
    IndexOf(s, pat).Some?
  }

  /** `s.partition(sep)` without the middle component: the text before the
      first `sep` and the text after it, or `(s, "")` when `sep` does not occur. */
  function Partition(s: string, sep: string): (r: (string, string))
    ensures !Contains(s, sep) ==> r == (s, "")
    ensures Contains(s, sep) ==>
      var i := |r.0|;
      && i + |sep| <= |s| && OccursAt(s, sep, i)
      && (forall j :: 0 <= j < i ==> !OccursAt(s, sep, j))
      && r == (s[..i], s[i + |sep|..])
  {
    match IndexOf(s, sep)
    case None => (s, "")
    case Some(i) => (s[..i], s[i + |sep|..])
  }

  /** `sep.join(xs)`. */
  function Join(xs: seq<string>, sep: string): string {
    if |xs| == 0 then ""
    else if |xs| == 1 then xs[0]
    else xs[0] + sep + Join(xs[1..], sep)
  }

  /** `s.split(sep)` for a one-character separator: the pieces contain no
      separator and joining them back with it gives `s`. */
  function Split(s: string, sep: char): (r: seq<string>)
    ensures |r| >= 1
    ensures forall i :: 0 <= i < |r| ==> sep !in r[i]
    ensures Join(r, [sep]) == s
    decreases |s|
  {
    match IndexOfChar(s, sep)
    case None => [s]
    case Some(i) =>
      var rest := Split(s[i + 1..], sep);
      assert ([s[..i]] + rest)[1..] == rest;
      assert s == s[..i] + [sep] + s[i + 1..];
      [s[..i]] + rest
  }

  /** Splitting undoes joining, as long as no piece holds the separator. */
  lemma {:induction false} SplitJoin(xs: seq<string>, sep: char)
    requires |xs| >= 1
    requires forall i :: 0 <= i < |xs| ==> sep !in xs[i]
    ensures Split(Join(xs, [sep]), sep) == xs
    decreases |xs|
  {
    if |xs| > 1 {
      var s := Join(xs, [sep]);
      var n := |xs[0]|;
      assert s == xs[0] + [sep] + Join(xs[1..], [sep]);
      assert s[n] == sep;
      assert s[..n] == xs[0];
      IndexOfCharIs(s, sep, n);
      assert s[n + 1..] == Join(xs[1..], [sep]);
      SplitJoin(xs[1..], sep);
      assert Split(s, sep) == [xs[0]] + xs[1..];
      assert xs == [xs[0]] + xs[1..];
    }
  }

  /** The last element of a non-empty sequence (Python's `xs[-1]`). */
  function Last<T>(xs: seq<T>): T
    requires |xs| > 0
  {
    xs[|xs| - 1]
  }

  /** `t` is the longest suffix of `s` that does not contain `sep`. */
  predicate IsLastField(s: string, sep: char, t: string) {
    && |t| <= |s| && s[|s| - |t|..] == t && sep !in t
    && (|t| < |s| ==> s[|s| - |t| - 1] == sep)
  }

  /** The last piece of `s.split(sep)` is the longest suffix of `s` free of `sep`. */
  lemma {:induction false} LastPieceIsSuffix(s: string, sep: char)
    ensures IsLastField(s, sep, Last(Split(s, sep)))
    decreases |s|
  {
    var found := IndexOfChar(s, sep);
    if found.None? {
      assert Split(s, sep) == [s];
    } else {
      var i := found.value;
      var rest := s[i + 1..];
      LastPieceIsSuffix(rest, sep);
      var pieces := Split(rest, sep);
      LastFieldOfSuffix(s, i, sep, Last(pieces));
      SplitStep(s, sep, i);
      LastAppend([s[..i]], pieces);
    }
  }

  lemma SplitStep(s: string, sep: char, i: nat)
    requires IndexOfChar(s, sep) == Some(i)
    ensures Split(s, sep) == [s[..i]] + Split(s[i + 1..], sep)
  {
  }

  lemma LastAppend<T>(a: seq<T>, b: seq<T>)
    requires |b| > 0
    ensures Last(a + b) == Last(b)
  {
  }

  /** Where the last `sep`-separated field of `s` begins (`s.rfind(sep) + 1`):
      no `sep` from there on, and a `sep` just before. */
  predicate IsFieldStart(s: string, sep: char, k: nat) {
    && k <= |s|
    && (forall j :: k <= j < |s| ==> s[j] != sep)
    && (k > 0 ==> s[k - 1] == sep)
  }

  function FieldStart(s: string, sep: char): (k: nat)
    ensures IsFieldStart(s, sep, k)
  {
    match LastIndexOfChar(s, sep)
    case None => 0
    case Some(i) =>
      assert forall j :: i + 1 <= j < |s| ==> s[j] == s[i + 1..][j - i - 1];
      i + 1
  }

  /** Only one index has the properties of a field start. */
  lemma FieldStartUnique(s: string, sep: char, k: nat)
    requires IsFieldStart(s, sep, k)
    ensures FieldStart(s, sep) == k
  {
  }

  /** `s.split(sep)[-1]` is the text from the field start on. */
  lemma LastPieceFromFieldStart(s: string, sep: char)
    ensures Last(Split(s, sep)) == s[FieldStart(s, sep)..]
  {
    var t := Last(Split(s, sep));
    LastPieceIsSuffix(s, sep);
    var k := |s| - |t|;
    assert s[k..] == t;
    assert forall j :: k <= j < |s| ==> s[j] == t[j - k];
    FieldStartUnique(s, sep, k);
  }

  /** Appending `sep`-free text extends the last field by that text. */
  lemma LastFieldExtends(s: string, sep: char, t: string, x: string)
    requires IsLastField(s, sep, t) && sep !in x
    ensures IsLastField(s + x, sep, t + x)
  {
    var p := s + x;
    assert p[|p| - |t + x|..] == s[|s| - |t|..] + x;
    if |t| < |s| {
      assert p[|p| - |t + x| - 1] == s[|s| - |t| - 1];
    }
  }

  /** There is only one longest `sep`-free suffix. */
  lemma LastFieldUnique(s: string, sep: char, t1: string, t2: string)
    requires IsLastField(s, sep, t1) && IsLastField(s, sep, t2)
    ensures t1 == t2
  {
    assert forall k :: |s| - |t1| <= k < |s| ==> s[k] != sep by {
      forall k | |s| - |t1| <= k < |s| ensures s[k] != sep {
        assert s[k] == t1[k - (|s| - |t1|)];
      }
    }
    assert forall k :: |s| - |t2| <= k < |s| ==> s[k] != sep by {
      forall k | |s| - |t2| <= k < |s| ensures s[k] != sep {
        assert s[k] == t2[k - (|s| - |t2|)];
      }
    }
    assert |t1| == |t2|;
  }

  /** `IndexOfChar` finds the only first occurrence there is. */
  lemma IndexOfCharIs(s: string, c: char, i: nat)
    requires i < |s| && s[i] == c && c !in s[..i]
    ensures IndexOfChar(s, c) == Some(i)
  {
    assert forall k :: 0 <= k < i ==> s[k] != c by {
      forall k | 0 <= k < i ensures s[k] != c {
        assert s[k] == s[..i][k];
      }
    }
    var j := IndexOfChar(s, c).value;
    assert forall k :: 0 <= k < j ==> s[k] != c by {
      forall k | 0 <= k < j ensures s[k] != c {
        assert s[k] == s[..j][k];
      }
    }
  }

  /** `LastIndexOfChar` finds the only last occurrence there is. */
  lemma LastIndexOfCharIs(s: string, c: char, i: nat)
    requires i < |s| && s[i] == c && c !in s[i + 1..]
    ensures LastIndexOfChar(s, c) == Some(i)
  {
    assert forall k :: i < k < |s| ==> s[k] != c by {
      forall k | i < k < |s| ensures s[k] != c {
        assert s[k] == s[i + 1..][k - i - 1];
      }
    }
    var j := LastIndexOfChar(s, c).value;
    assert forall k :: j < k < |s| ==> s[k] != c by {
      forall k | j < k < |s| ensures s[k] != c {
        assert s[k] == s[j + 1..][k - j - 1];
      }
    }
  }

  lemma LastFieldOfSuffix(s: string, i: nat, sep: char, t: string)
    requires i < |s| && s[i] == sep
    requires IsLastField(s[i + 1..], sep, t)
    ensures IsLastField(s, sep, t)
  {
    var rest := s[i + 1..];
    assert s[|s| - |t|..] == rest[|rest| - |t|..];
    if |t| == |rest| {
      assert s[|s| - |t| - 1] == s[i];
    } else {
      assert s[|s| - |t| - 1] == rest[|rest| - |t| - 1];
    }
  }

  function DigitChar(d: nat): char
    requires d < 10
  {
    ('0' as int + d) as char
  }

  predicate IsDigit(c: char) {
    '0' <= c <= '9'
  }

  function DigitValue(c: char): nat
    requires IsDigit(c)
  {
    c as int - '0' as int
  }

  /** The decimal rendering of `n`, as `f"{n}"` produces it. */
  function Decimal(n: nat): (r: string)
    ensures |r| >= 1
    ensures forall i :: 0 <= i < |r| ==> IsDigit(r[i])
    ensures |r| > 1 ==> r[0] != '0'
  {
    if n < 10 then [DigitChar(n)] else Decimal(n / 10) + [DigitChar(n % 10)]
  }

  /** The number a string of decimal digits denotes. */
  function DigitsValue(s: string): nat
    requires forall i :: 0 <= i < |s| ==> IsDigit(s[i])
  {
    if s == [] then 0
    else 10 * DigitsValue(s[..|s| - 1]) + DigitValue(s[|s| - 1])
  }

  lemma {:induction false} DecimalRoundTrip(n: nat)
    ensures DigitsValue(Decimal(n)) == n
  {
    if n >= 10 {
      var r := Decimal(n);
      assert r[..|r| - 1] == Decimal(n / 10);
      DecimalRoundTrip(n / 10);
    }
  }

  /** Distinct numbers render as distinct strings. */
  lemma DecimalInjective(m: nat, n: nat)
    ensures Decimal(m) == Decimal(n) ==> m == n
  {
    DecimalRoundTrip(m);
    DecimalRoundTrip(n);
  }
}
