/**
 * The handful of JavaScript string operations the service and its forms rely on,
 * on strings as sequences of characters: truthiness, `trim`, `startsWith`,
 * `split` on one separator character, and the code-point order used to compare
 * and sort strings.
 */
module Text {
  import opened Wrappers

  /** JavaScript truthiness of a request field that is a string or absent. */
  predicate Truthy(f: Option<string>) {
    f.Some? && |f.value| > 0
  }

  /** A template literal's rendering of a value that is a string or unset (`undefined`). */
  function Interpolate(v: Option<string>): (r: string)
    ensures v.Some? ==> r == v.value
    ensures v.None? ==> r == "undefined"
  {
    v.GetOr("undefined")
  }

  /** JavaScript's `s.length`: UTF-16 code units, two for each character outside the Basic Multilingual Plane. */
  function Utf16Length(s: string): (n: nat)
    ensures |s| <= n <= 2 * |s|
    ensures (forall k :: 0 <= k < |s| ==> s[k] as int < 0x1_0000) ==> n == |s|
  {
    if |s| == 0 then 0
    else Utf16Length(s[..|s| - 1]) + (if s[|s| - 1] as int < 0x1_0000 then 1 else 2)
  }

  predicate IsNumeral(s: string) {
    |s| > 0 && forall k :: 0 <= k < |s| ==> '0' <= s[k] <= '9'
  }

  function NumeralValue(s: string): nat
    requires forall k :: 0 <= k < |s| ==> '0' <= s[k] <= '9'
  {
    if |s| == 0 then 0
    else 10 * NumeralValue(s[..|s| - 1]) + (s[|s| - 1] as int - '0' as int)
  }

  /** `parseInt(s)` and `Number(s)` on an optional minus sign followed by decimal digits; absent (NaN) otherwise. */
  function ParseInt(s: string): (r: Option<int>)
    ensures IsNumeral(s) ==> r == Some(NumeralValue(s))
    ensures |s| > 1 && s[0] == '-' && IsNumeral(s[1..]) ==> r == Some(0 - NumeralValue(s[1..]))
    ensures r.Some? ==> IsNumeral(s) || (|s| > 1 && s[0] == '-' && IsNumeral(s[1..]))
  {
    if IsNumeral(s) then Some(NumeralValue(s))
    else if |s| > 1 && s[0] == '-' && IsNumeral(s[1..]) then
      var v: int := 0 - NumeralValue(s[1..]);
      Some(v)
    else None
  }

  /** Text with no decimal digit never reads as a number. */
  lemma ParseIntNeedsDigit(s: string)
    requires forall k :: 0 <= k < |s| ==> !('0' <= s[k] <= '9')
    ensures ParseInt(s).None?
  {
    if |s| > 1 {
      assert s[1..][0] == s[1];
    }
  }

  /** The characters JavaScript's `trim` removes: WhiteSpace and LineTerminator. */
  predicate IsSpace(c: char) {
    || c == ' ' || c == '\t' || c == '\n' || c == '\r'
    || c == '\U{000B}' || c == '\U{000C}' || c == '\U{00A0}' || c == '\U{FEFF}'
    || c == '\U{1680}' || ('\U{2000}' <= c <= '\U{200A}')
    || c == '\U{2028}' || c == '\U{2029}' || c == '\U{202F}' || c == '\U{205F}'
    || c == '\U{3000}'
  }

  /** Drops leading whitespace. */
  function TrimStart(s: string): (r: string)
    ensures |r| <= |s| && r == s[|s| - |r|..]
    ensures forall k :: 0 <= k < |s| - |r| ==> IsSpace(s[k])
    ensures |r| == 0 || !IsSpace(r[0])
  {
    if |s| > 0 && IsSpace(s[0]) then TrimStart(s[1..]) else s
  }

  /** Drops trailing whitespace. */
  function TrimEnd(s: string): (r: string)
    ensures |r| <= |s| && r == s[..|r|]
    ensures forall k :: |r| <= k < |s| ==> IsSpace(s[k])
    ensures |r| == 0 || !IsSpace(r[|r| - 1])
  {
    if |s| > 0 && IsSpace(s[|s| - 1]) then TrimEnd(s[..|s| - 1]) else s
  }

  /** JavaScript's `s.trim()`. */
  function Trim(s: string): string {
    TrimEnd(TrimStart(s))
  }

  /** A string made only of whitespace (the empty string included). */
  predicate AllSpace(s: string) {
    forall k :: 0 <= k < |s| ==> IsSpace(s[k])
  }

  /** `!s.trim()`: the trimmed string is empty exactly when every character is whitespace. */
  lemma TrimEmptyIff(s: string)
    ensures Trim(s) == [] <==> AllSpace(s)
  {
    var t := TrimStart(s);
    assert |t| > 0 ==> t[0] == s[|s| - |t|];
  }

  /** Trimming leaves a string with no whitespace at either end. */
  lemma TrimHasNoOuterSpace(s: string)
    ensures var r := Trim(s); |r| == 0 || (!IsSpace(r[0]) && !IsSpace(r[|r| - 1]))
  {
    var t := TrimStart(s);
    var r := TrimEnd(t);
    if |r| > 0 {
      assert r[0] == t[0];
    }
  }

  /** JavaScript's `s.startsWith(p)`. */
  predicate StartsWith(s: string, p: string) {
    |p| <= |s| && s[..|p|] == p
  }

  /** JavaScript's `s.endsWith(p)`. */
  predicate EndsWith(s: string, p: string) {
    |p| <= |s| && s[|s| - |p|..] == p
  }

  /** Index of the first occurrence of `c` in `s`, or `|s|` when there is none. */
  function FirstIndex(s: string, c: char): (k: nat)
    ensures k <= |s|
    ensures k < |s| ==> s[k] == c
    ensures forall i :: 0 <= i < k ==> s[i] != c
    ensures k == |s| <==> c !in s
  {
    if |s| == 0 then 0
    else if s[0] == c then 0
    else 1 + FirstIndex(s[1..], c)
  }

  /** JavaScript's `s.split(sep)` for a one-character separator. */
  function Split(s: string, sep: char): (parts: seq<string>)
    ensures |parts| >= 1
    ensures forall i :: 0 <= i < |parts| ==> sep !in parts[i]
    decreases |s|
  {
    var k := FirstIndex(s, sep);
    if k == |s| then [s] else [s[..k]] + Split(s[k + 1..], sep)
  }

  /** JavaScript's `parts.join(sep)` for a one-character separator. */
  function Join(parts: seq<string>, sep: char): string
    requires |parts| >= 1
  {
    if |parts| == 1 then parts[0] else parts[0] + [sep] + Join(parts[1..], sep)
  }

  /** Splitting and joining back on the same separator gives the original string. */
  lemma {:induction false} JoinSplit(s: string, sep: char)
    ensures Join(Split(s, sep), sep) == s
    decreases |s|
  {
    var k := FirstIndex(s, sep);
    if k < |s| {
      var rest := Split(s[k + 1..], sep);
      var parts := [s[..k]] + rest;
      assert Split(s, sep) == parts;
      assert parts[1..] == rest;
      JoinSplit(s[k + 1..], sep);
      calc {
        Join(parts, sep);
        s[..k] + [sep] + Join(rest, sep);
        s[..k] + [sep] + s[k + 1..];
        s;
      }
    }
  }

  /** Joining separator-free parts and splitting again gives the parts back. */
  lemma {:induction false} SplitJoin(parts: seq<string>, sep: char)
    requires |parts| >= 1
    requires forall i :: 0 <= i < |parts| ==> sep !in parts[i]
    ensures Split(Join(parts, sep), sep) == parts
  {
    var s := Join(parts, sep);
    if |parts| == 1 {
      assert FirstIndex(s, sep) == |s|;
    } else {
      var rest := Join(parts[1..], sep);
      assert s == parts[0] + [sep] + rest;
      var k := FirstIndex(s, sep);
      assert s[|parts[0]|] == sep;
      assert k == |parts[0]|;
      assert s[..k] == parts[0];
      assert s[k + 1..] == rest;
      SplitJoin(parts[1..], sep);
    }
  }

  /** The `i`-th element of `s.split(sep)`, absent (JavaScript's `undefined`) past the end. */
  function SplitPart(s: string, sep: char, i: nat): (r: Option<string>)
    ensures r.Some? <==> i < |Split(s, sep)|
    ensures r.Some? ==> sep !in r.value
  {
    var parts := Split(s, sep);
    if i < |parts| then Some(parts[i]) else None
  }

  /** Splitting `p + [sep] + t` when `p` holds no separator: `p` is the first part and the parts of `t` follow. */
  lemma SplitAfterPrefix(p: string, sep: char, t: string)
    requires sep !in p
    ensures Split(p + [sep] + t, sep) == [p] + Split(t, sep)
    ensures SplitPart(p + [sep] + t, sep, 0) == Some(p)
    ensures SplitPart(p + [sep] + t, sep, 1) == Some(Split(t, sep)[0])
    ensures sep !in t ==> SplitPart(p + [sep] + t, sep, 1) == Some(t)
  {
    var s := p + [sep] + t;
    var k := FirstIndex(s, sep);
    assert s[|p|] == sep;
    assert forall i :: 0 <= i < |p| ==> s[i] == p[i];
    assert k == |p|;
    assert s[..k] == p;
    assert s[k + 1..] == t;
    assert Split(s, sep) == [p] + Split(t, sep);
    if sep !in t {
      assert Split(t, sep) == [t];
    }
  }

  /** Code-point order of strings: the order in which the datastore compares and sorts them. */
  predicate LexLess(a: string, b: string) {
    if |a| == 0 then |b| > 0
    else if |b| == 0 then false
    else if a[0] != b[0] then a[0] < b[0]
    else LexLess(a[1..], b[1..])
  }

  lemma {:induction false} LexLessIrreflexive(a: string)
    ensures !LexLess(a, a)
  {
    if |a| > 0 {
      LexLessIrreflexive(a[1..]);
    }
  }

  lemma {:induction false} LexLessAsymmetric(a: string, b: string)
    ensures !(LexLess(a, b) && LexLess(b, a))
  {
    if |a| > 0 && |b| > 0 && a[0] == b[0] {
      LexLessAsymmetric(a[1..], b[1..]);
    }
  }

  lemma {:induction false} LexLessTransitive(a: string, b: string, c: string)
    requires LexLess(a, b) && LexLess(b, c)
    ensures LexLess(a, c)
  {
    if |a| > 0 && a[0] == b[0] && b[0] == c[0] {
      LexLessTransitive(a[1..], b[1..], c[1..]);
    }
  }

  /** Any two distinct strings are ordered one way or the other. */
  lemma {:induction false} LexLessTotal(a: string, b: string)
    requires a != b
    ensures LexLess(a, b) || LexLess(b, a)
  {
    if |a| > 0 && |b| > 0 && a[0] == b[0] {
      assert a == [a[0]] + a[1..];
      assert b == [b[0]] + b[1..];
      LexLessTotal(a[1..], b[1..]);
    }
  }

  /** With prefixes of equal length, the prefixes decide the order unless they are equal. */
  lemma {:induction false} LexLessConcat(x: string, s: string, y: string, t: string)
    requires |x| == |y|
    ensures LexLess(x + s, y + t) <==> LexLess(x, y) || (x == y && LexLess(s, t))
  {
    if |x| > 0 {
      assert (x + s)[1..] == x[1..] + s;
      assert (y + t)[1..] == y[1..] + t;
      LexLessConcat(x[1..], s, y[1..], t);
      if x[0] == y[0] && x[1..] == y[1..] {
        assert x == [x[0]] + x[1..];
        assert y == [y[0]] + y[1..];
      }
    } else {
      assert x + s == s;
      assert y + t == t;
    }
  }
}
