/**
 * The string operations of Go's standard library that the pipeline relies
 * on: `strings.Join`, decimal formatting of an `int` (`%v`),
 * `unicode.IsSpace` and `strings.TrimSpace`.  Strings are sequences of
 * runes (Unicode code points).
 */
module Text {

  /** `strings.Join(parts, sep)`. */
  function Join(parts: seq<string>, sep: string): string
  {
    if |parts| == 0 then ""
    else if |parts| == 1 then parts[0]
    else parts[0] + sep + Join(parts[1..], sep)
  }

  function Digit(d: nat): char
    requires d < 10
  {
    "0123456789"[d]
  }

  function NatToString(n: nat): (r: string)
    ensures |r| > 0
  {
    if n < 10 then [Digit(n)] else NatToString(n / 10) + [Digit(n % 10)]
  }

  /** The decimal text of an `int`, as `%v` prints it. */
  function IntToString(n: int): string
  {
    if n < 0 then "-" + NatToString(-n) else NatToString(n)
  }

  /**
   * `unicode.IsSpace`: the Latin-1 spaces '\t', '\n', '\v', '\f', '\r',
   * ' ', U+0085 and U+00A0, and above Latin-1 the White_Space property.
   */
  predicate IsSpace(c: char)
  {
    c == '\t' || c == '\n' || c == '\U{000B}' || c == '\U{000C}' || c == '\r' || c == ' '
    || c == '\U{0085}' || c == '\U{00A0}' || c == '\U{1680}'
    || ('\U{2000}' <= c <= '\U{200A}')
    || c == '\U{2028}' || c == '\U{2029}' || c == '\U{202F}' || c == '\U{205F}' || c == '\U{3000}'
  }

  predicate AllSpace(s: string)
  {
    forall i :: 0 <= i < |s| ==> IsSpace(s[i])
  }

  /** Drops the leading spaces (`strings.TrimLeftFunc(s, unicode.IsSpace)`). */
  function TrimLeftSpace(s: string): string
  {
    if s != [] && IsSpace(s[0]) then TrimLeftSpace(s[1..]) else s
  }

  /** Drops the trailing spaces (`strings.TrimRightFunc(s, unicode.IsSpace)`). */
  function TrimRightSpace(s: string): string
  {
    if s != [] && IsSpace(s[|s| - 1]) then TrimRightSpace(s[..|s| - 1]) else s
  }

  /** `strings.TrimSpace(s)`: `s` without its surrounding spaces. */
  function TrimSpace(s: string): string
  {
    TrimRightSpace(TrimLeftSpace(s))
  }

  /** Left-trimming keeps the suffix of `s` that starts at its first
      non-space rune. */
  lemma {:induction false} TrimLeftSpaceIsSuffix(s: string)
    ensures var r := TrimLeftSpace(s);
      && |r| <= |s| && r == s[|s| - |r|..]
      && AllSpace(s[..|s| - |r|])
      && (r == [] || !IsSpace(r[0]))
  {
    if s != [] && IsSpace(s[0]) {
      TrimLeftSpaceIsSuffix(s[1..]);
      var r := TrimLeftSpace(s[1..]);
      assert s[1..][|s| - 1 - |r|..] == s[|s| - |r|..];
      assert s[..|s| - |r|] == [s[0]] + s[1..][..|s| - 1 - |r|];
    }
  }

  /** Right-trimming keeps the prefix of `s` that ends at its last
      non-space rune. */
  lemma {:induction false} TrimRightSpaceIsPrefix(s: string)
    ensures var r := TrimRightSpace(s);
      && |r| <= |s| && r == s[..|r|]
      && AllSpace(s[|r|..])
      && (r == [] || !IsSpace(r[|r| - 1]))
  {
    if s != [] && IsSpace(s[|s| - 1]) {
      var t := s[..|s| - 1];
      TrimRightSpaceIsPrefix(t);
      var r := TrimRightSpace(t);
      assert t[..|r|] == s[..|r|];
      assert s[|r|..] == t[|r|..] + [s[|s| - 1]];
    }
  }

  /**
   * The trimmed text is a slice `s[i..j]` where everything before `i` and
   * from `j` on is space, and it neither starts nor ends with a space.
   */
  lemma TrimSpaceIsSlice(s: string)
    ensures var r := TrimSpace(s);
      && (exists i, j :: 0 <= i <= j <= |s| && r == s[i..j] && AllSpace(s[..i]) && AllSpace(s[j..]))
      && (r == [] || (!IsSpace(r[0]) && !IsSpace(r[|r| - 1])))
  {
    var l := TrimLeftSpace(s);
    var r := TrimRightSpace(l);
    TrimLeftSpaceIsSuffix(s);
    TrimRightSpaceIsPrefix(l);
    var i, j := |s| - |l|, |s| - |l| + |r|;
    assert l == s[i..];
    assert l[|r|..] == s[j..];
    assert r == s[i..j];
    if r != [] {
      assert r[0] == l[0];
    }
  }

  /** Trimming twice is trimming once. */
  lemma TrimSpaceIdempotent(s: string)
    ensures TrimSpace(TrimSpace(s)) == TrimSpace(s)
  {
    TrimSpaceIsSlice(s);
  }

  /** Surrounding spaces never change the trimmed text: `a + s + b` with
      `a` and `b` made of spaces trims to what `s` trims to. */
  lemma {:induction false} TrimSpaceAbsorbsPadding(a: string, s: string, b: string)
    requires AllSpace(a) && AllSpace(b)
    ensures TrimSpace(a + s + b) == TrimSpace(s)
  {
    TrimLeftPadding(a, s + b);
    assert a + s + b == a + (s + b);
    TrimLeftOfAppend(s, b);
  }

  lemma {:induction false} TrimLeftPadding(a: string, s: string)
    requires AllSpace(a)
    ensures TrimLeftSpace(a + s) == TrimLeftSpace(s)
  {
    if a == [] {
      assert a + s == s;
    } else {
      assert (a + s)[0] == a[0] && (a + s)[1..] == a[1..] + s;
      TrimLeftPadding(a[1..], s);
    }
  }

  /** Trimming spaces off the right of `l + b` where `b` is all space. */
  lemma {:induction false} TrimRightPadding(l: string, b: string)
    requires AllSpace(b)
    ensures TrimRightSpace(l + b) == TrimRightSpace(l)
  {
    if b != [] {
      assert (l + b)[..|l + b| - 1] == l + b[..|b| - 1];
      TrimRightPadding(l, b[..|b| - 1]);
    } else {
      assert l + b == l;
    }
  }

  /** Left-trimming `s + b` with `b` all space, then right-trimming, equals
      trimming `s` alone. */
  lemma {:induction false} TrimLeftOfAppend(s: string, b: string)
    requires AllSpace(b)
    ensures TrimRightSpace(TrimLeftSpace(s + b)) == TrimRightSpace(TrimLeftSpace(s))
  {
    if s == [] {
      assert s + b == b;
      AllSpaceTrimsToEmpty(b);
    } else if IsSpace(s[0]) {
      assert (s + b)[1..] == s[1..] + b;
      TrimLeftOfAppend(s[1..], b);
    } else {
      TrimRightPadding(s, b);
    }
  }

  lemma {:induction false} AllSpaceTrimsToEmpty(b: string)
    requires AllSpace(b)
    ensures TrimLeftSpace(b) == []
  {
    if b != [] {
      AllSpaceTrimsToEmpty(b[1..]);
    }
  }

}
