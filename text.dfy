/** The few Python string operations the core relies on: character classes of the
    `re` module, `str.lower`, `str.strip`, `in`, `startswith`, `replace` and `int`. */
module Text {

  /** `\d`: an ASCII decimal digit. */
  predicate IsDigit(c: char) {
    '0' <= c <= '9'
  }

  /** Python's `str.isspace()`, which is what both `\s` and `str.strip()` use. */
  predicate IsSpace(c: char) {
    ('\t' <= c <= '\r') || ('\U{1C}' <= c <= ' ') || c == '\U{85}' || c == '\U{A0}'
    || c == '\U{1680}' || ('\U{2000}' <= c <= '\U{200A}') || c == '\U{2028}'
    || c == '\U{2029}' || c == '\U{202F}' || c == '\U{205F}' || c == '\U{3000}'
  }

  /** `\w`: a letter, a digit or the underscore (ASCII). */
  predicate IsWordChar(c: char) {
    'a' <= c <= 'z' || 'A' <= c <= 'Z' || IsDigit(c) || c == '_'
  }

  /** `str.lower()` on one character (ASCII letters only). */
  function LowerChar(c: char): (r: char)
    ensures !('A' <= r <= 'Z')
    ensures IsDigit(r) == IsDigit(c) && IsSpace(r) == IsSpace(c) && IsWordChar(r) == IsWordChar(c)
  {
    if 'A' <= c <= 'Z' then (c as int + 32) as char else c
  }

  /** `str.lower()`. */
  function Lower(s: string): (r: string)
    ensures |r| == |s|
    ensures forall i :: 0 <= i < |s| ==> r[i] == LowerChar(s[i])
  {
    seq(|s|, i requires 0 <= i < |s| => LowerChar(s[i]))
  }

  /** Number of whitespace characters at the start of `s`. */
  function LeadingSpaces(s: string): (n: nat)
    ensures n <= |s|
    ensures forall j :: 0 <= j < n ==> IsSpace(s[j])
    ensures n == |s| || !IsSpace(s[n])
  {
    if s != [] && IsSpace(s[0]) then 1 + LeadingSpaces(s[1..]) else 0
  }

  /** Number of whitespace characters at the end of `s`. */
  function TrailingSpaces(s: string): (n: nat)
    ensures n <= |s|
    ensures forall j :: |s| - n <= j < |s| ==> IsSpace(s[j])
    ensures n == |s| || !IsSpace(s[|s| - n - 1])
  {
    if s != [] && IsSpace(s[|s| - 1]) then 1 + TrailingSpaces(s[..|s| - 1]) else 0
  }

  /** `str.strip()`: drops leading and trailing whitespace. */
  function Strip(s: string): (r: string)
    ensures |r| <= |s|
    ensures r == [] || (!IsSpace(r[0]) && !IsSpace(r[|r| - 1]))
    ensures (forall j :: 0 <= j < |s| ==> !IsSpace(s[j])) ==> r == s
    // `r` is the middle of `s`: only whitespace before it and after it.
    ensures LeadingSpaces(s) + |r| <= |s|
    ensures r == s[LeadingSpaces(s)..LeadingSpaces(s) + |r|]
    ensures forall j :: 0 <= j < LeadingSpaces(s) ==> IsSpace(s[j])
    ensures forall j :: LeadingSpaces(s) + |r| <= j < |s| ==> IsSpace(s[j])
  {
    var a := LeadingSpaces(s);
    if a == |s| then ""
    else
      var b := |s| - TrailingSpaces(s);
      s[a..b]
  }

  /** Whitespace on both sides is dropped and the middle is kept whole. */
  lemma StripExample()
    ensures Strip(" ab ") == "ab"
  {
    assert !IsSpace('a') && !IsSpace('b');
    assert LeadingSpaces(" ab ") == 1;
  }

  /** `needle` occurs in `hay` at index `k`. */
  predicate OccursAt(hay: string, needle: string, k: int) {
    0 <= k && k + |needle| <= |hay| && hay[k..k + |needle|] == needle
  }

  /** Python's `needle in hay` on strings. */
  predicate Contains(hay: string, needle: string) {
    exists k :: 0 <= k <= |hay| && OccursAt(hay, needle, k)
  }

  /** Python's `s.startswith(prefix)`. */
  predicate StartsWith(s: string, prefix: string) {
    |prefix| <= |s| && s[..|prefix|] == prefix
  }

  /** Python's `s.replace(pat, rep)` for a non-empty `pat`: scans from the left and
      replaces every occurrence it meets, never one that overlaps a replaced one. */
  function Replace(s: string, pat: string, rep: string): string
    requires pat != []
    decreases |s|
  {
    if |s| < |pat| then s
    else if s[..|pat|] == pat then rep + Replace(s[|pat|..], pat, rep)
    else [s[0]] + Replace(s[1..], pat, rep)
  }

  /** `sep.join(pieces)`. */
  function Join(pieces: seq<string>, sep: string): string
    requires |pieces| >= 1
    decreases |pieces|
  {
    if |pieces| == 1 then pieces[0] else pieces[0] + sep + Join(pieces[1..], sep)
  }

  /** Two occurrences of `pat` can never overlap: its first character does not
      occur again in it. True of `{periode}` and `{datum}`. */
  predicate Unbordered(pat: string) {
    pat != [] && forall j :: 1 <= j < |pat| ==> pat[j] != pat[0]
  }

  /** A string without `pat` in it is left unchanged by `replace`. */
  lemma {:induction false} ReplaceAbsent(s: string, pat: string, rep: string)
    requires pat != [] && !Contains(s, pat)
    ensures Replace(s, pat, rep) == s
    decreases |s|
  {
    if |s| >= |pat| {
      assert !OccursAt(s, pat, 0);
      forall k | 0 <= k <= |s[1..]|
        ensures !OccursAt(s[1..], pat, k)
      {
        assert !OccursAt(s, pat, k + 1);
        if k + |pat| <= |s[1..]| {
          assert s[1..][k..k + |pat|] == s[k + 1..k + 1 + |pat|];
        }
      }
      ReplaceAbsent(s[1..], pat, rep);
    }
  }

  /** `replace` copies a prefix in which no occurrence of `pat` starts. */
  lemma {:induction false} ReplaceSkip(a: string, b: string, pat: string, rep: string)
    requires pat != []
    requires forall k :: 0 <= k < |a| ==> !OccursAt(a + b, pat, k)
    ensures Replace(a + b, pat, rep) == a + Replace(b, pat, rep)
    decreases |a|
  {
    if a == [] {
      assert a + b == b;
    } else if |a + b| >= |pat| {
      var s := a + b;
      assert !OccursAt(s, pat, 0);
      assert s[1..] == a[1..] + b;
      forall k | 0 <= k < |a[1..]|
        ensures !OccursAt(a[1..] + b, pat, k)
      {
        var t := a[1..] + b;
        assert t == s[1..];
        assert !OccursAt(s, pat, k + 1);
        if k + |pat| <= |t| {
          assert t[k..k + |pat|] == s[k + 1..k + 1 + |pat|];
        }
      }
      ReplaceSkip(a[1..], b, pat, rep);
      assert a == [a[0]] + a[1..];
    }
  }

  /** Every occurrence of an unbordered placeholder is replaced: a text made of
      placeholder-free pieces separated by `pat` becomes the same pieces separated
      by `rep`, whatever `rep` is. */
  lemma {:induction false} ReplaceJoin(pieces: seq<string>, pat: string, rep: string)
    requires Unbordered(pat) && |pieces| >= 1
    requires forall i :: 0 <= i < |pieces| ==> !Contains(pieces[i], pat)
    ensures Replace(Join(pieces, pat), pat, rep) == Join(pieces, rep)
    decreases |pieces|
  {
    if |pieces| == 1 {
      ReplaceAbsent(pieces[0], pat, rep);
    } else {
      var p := pieces[0];
      var rest := Join(pieces[1..], pat);
      var s := p + (pat + rest);
      assert Join(pieces, pat) == s;
      forall k | 0 <= k < |p|
        ensures !OccursAt(s, pat, k)
      {
        if k + |pat| <= |p| {
          assert p[k..k + |pat|] == s[k..k + |pat|];
          assert !OccursAt(p, pat, k);
        } else if k + |pat| <= |s| {
          var j := |p| - k;
          assert s[|p|] == pat[0];
          assert pat[j] != pat[0];
          assert s[k..k + |pat|][j] == s[|p|];
        }
      }
      ReplaceSkip(p, pat + rest, pat, rep);
      assert (pat + rest)[..|pat|] == pat;
      assert (pat + rest)[|pat|..] == rest;
      ReplaceJoin(pieces[1..], pat, rep);
      assert Join(pieces, rep) == p + (rep + Join(pieces[1..], rep));
    }
  }

  /** 10 to the power `n`. */
  function Pow10(n: nat): (r: nat)
    ensures r >= 1
  {
    if n == 0 then 1 else 10 * Pow10(n - 1)
  }

  predicate AllDigits(s: string) {
    forall i :: 0 <= i < |s| ==> IsDigit(s[i])
  }

  function DigitValue(c: char): (v: nat)
    requires IsDigit(c)
    ensures v < 10
  {
    c as int - '0' as int
  }

  function DigitChar(v: nat): (c: char)
    requires v < 10
    ensures IsDigit(c) && DigitValue(c) == v
  {
    ('0' as int + v) as char
  }

  /** `int(s)` on a string of ASCII digits: at most `|s|` decimal digits. */
  function DigitsValue(s: string): (n: nat)
    requires AllDigits(s)
    ensures n < Pow10(|s|)
  {
    if s == [] then 0 else DigitsValue(s[..|s| - 1]) * 10 + DigitValue(s[|s| - 1])
  }

  /** The last `width` decimal digits of `n`, zero-padded on the left. */
  function Pad(n: nat, width: nat): (r: string)
    ensures |r| == width && AllDigits(r)
  {
    if width == 0 then [] else Pad(n / 10, width - 1) + [DigitChar(n % 10)]
  }

  /** Zero-padding is undone by `int()` when the number fits. */
  lemma {:induction false} PadRoundTrip(n: nat, width: nat)
    requires n < Pow10(width)
    ensures DigitsValue(Pad(n, width)) == n
  {
    if width > 0 {
      assert n / 10 < Pow10(width - 1);
      PadRoundTrip(n / 10, width - 1);
      var r := Pad(n, width);
      assert r[..|r| - 1] == Pad(n / 10, width - 1);
      assert DigitValue(r[|r| - 1]) == n % 10;
      assert DigitsValue(r) == (n / 10) * 10 + n % 10;
    }
  }
}
