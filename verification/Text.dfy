/** Text primitives shared by the components: Rust's trimming and ASCII case folding,
    and decimal numerals. Characters are Unicode scalar values. */
module Text {

  /** Rust's `char::is_whitespace`: the Unicode White_Space property. */
  predicate IsWhitespace(c: char) {
    var n := c as int;
    || 0x09 <= n <= 0x0D || n == 0x20 || n == 0x85 || n == 0xA0 || n == 0x1680
    || 0x2000 <= n <= 0x200A || n == 0x2028 || n == 0x2029 || n == 0x202F || n == 0x205F || n == 0x3000
  }

  function TrimStart(s: string): string {
    if s != [] && IsWhitespace(s[0]) then TrimStart(s[1..]) else s
  }

  function TrimEnd(s: string): string {
    if s != [] && IsWhitespace(s[|s| - 1]) then TrimEnd(s[..|s| - 1]) else s
  }

  function Trim(s: string): string {
    TrimEnd(TrimStart(s))
  }

  /** A text is its own trimmed form exactly when no whitespace is at either end. */
  lemma {:induction false} TrimFixed(s: string)
    ensures Trim(s) == s <==> s == [] || (!IsWhitespace(s[0]) && !IsWhitespace(s[|s| - 1]))
  {
    TrimStartBounds(s);
    TrimEndBounds(TrimStart(s));
  }

  lemma {:induction false} TrimStartBounds(s: string)
    ensures |TrimStart(s)| <= |s|
    ensures s != [] && IsWhitespace(s[0]) ==> |TrimStart(s)| < |s|
    ensures TrimStart(s) == [] || !IsWhitespace(TrimStart(s)[0])
    decreases |s|
  {
    if s != [] && IsWhitespace(s[0]) {
      TrimStartBounds(s[1..]);
    }
  }

  lemma {:induction false} TrimEndBounds(s: string)
    ensures |TrimEnd(s)| <= |s|
    ensures s != [] && IsWhitespace(s[|s| - 1]) ==> |TrimEnd(s)| < |s|
    ensures TrimEnd(s) <= s
    ensures TrimEnd(s) == [] || !IsWhitespace(TrimEnd(s)[|TrimEnd(s)| - 1])
    decreases |s|
  {
    if s != [] && IsWhitespace(s[|s| - 1]) {
      TrimEndBounds(s[..|s| - 1]);
    }
  }

  /** Trimming twice is trimming once. */
  lemma {:induction false} TrimIdempotent(s: string)
    ensures Trim(Trim(s)) == Trim(s)
  {
    TrimStartBounds(s);
    TrimEndBounds(TrimStart(s));
    TrimFixed(Trim(s));
  }

  ghost predicate AllWhite(s: string) {
    forall i :: 0 <= i < |s| ==> IsWhitespace(s[i])
  }

  lemma {:induction false} TrimStartCuts(s: string) returns (n: nat)
    ensures n <= |s| && AllWhite(s[..n]) && TrimStart(s) == s[n..]
    ensures n < |s| ==> !IsWhitespace(s[n])
  {
    n := 0;
    if s != [] && IsWhitespace(s[0]) {
      var k := TrimStartCuts(s[1..]);
      n := k + 1;
      assert s[1..][k..] == s[n..];
      forall i | 0 <= i < n ensures IsWhitespace(s[i]) {
        assert i > 0 ==> s[1..][..k][i - 1] == s[i];
      }
    }
  }

  lemma {:induction false} TrimEndCuts(s: string) returns (n: nat)
    ensures n <= |s| && AllWhite(s[n..]) && TrimEnd(s) == s[..n]
    ensures n > 0 ==> !IsWhitespace(s[n - 1])
  {
    n := |s|;
    if s != [] && IsWhitespace(s[|s| - 1]) {
      var front := s[..|s| - 1];
      n := TrimEndCuts(front);
      assert front[..n] == s[..n];
      forall i | n <= i < |s| ensures IsWhitespace(s[i]) {
        assert i < |s| - 1 ==> front[n..][i - n] == s[i];
      }
    }
  }

  /** Trimming takes white space off both ends and nothing else. */
  lemma {:induction false} TrimCuts(s: string) returns (before: string, after: string)
    ensures s == before + Trim(s) + after && AllWhite(before) && AllWhite(after)
    ensures Trim(s) == "" || (!IsWhitespace(Trim(s)[0]) && !IsWhitespace(Trim(s)[|Trim(s)| - 1]))
  {
    var a := TrimStartCuts(s);
    var b := TrimEndCuts(s[a..]);
    before, after := s[..a], s[a..][b..];
    assert s[a..] == s[a..][..b] + s[a..][b..];
    if Trim(s) != "" {
      assert Trim(s)[0] == s[a] && Trim(s)[|Trim(s)| - 1] == s[a..][b - 1];
    }
  }

  lemma {:induction false} FirstVisibleUnique(s: string, i: nat, j: nat)
    requires i < |s| && j < |s| && AllWhite(s[..i]) && AllWhite(s[..j])
    requires !IsWhitespace(s[i]) && !IsWhitespace(s[j])
    ensures i == j
  {
    forall k | 0 <= k < i ensures IsWhitespace(s[k]) {
      assert s[..i][k] == s[k];
    }
    forall k | 0 <= k < j ensures IsWhitespace(s[k]) {
      assert s[..j][k] == s[k];
    }
  }

  lemma {:induction false} LastVisibleUnique(s: string, i: nat, j: nat)
    requires i < |s| && j < |s| && AllWhite(s[i + 1..]) && AllWhite(s[j + 1..])
    requires !IsWhitespace(s[i]) && !IsWhitespace(s[j])
    ensures i == j
  {
    forall k | i < k < |s| ensures IsWhitespace(s[k]) {
      assert s[i + 1..][k - i - 1] == s[k];
    }
    forall k | j < k < |s| ensures IsWhitespace(s[k]) {
      assert s[j + 1..][k - j - 1] == s[k];
    }
  }

  /** There is only one way to do so. */
  lemma {:induction false} TrimMiddle(before: string, text: string, after: string)
    requires AllWhite(before) && AllWhite(after)
    requires text != "" && !IsWhitespace(text[0]) && !IsWhitespace(text[|text| - 1])
    ensures Trim(before + text + after) == text
  {
    var s := before + text + after;
    TrimEmptyIff(s);
    assert s[|before|] == text[0];
    var x, y := TrimCuts(s);
    var t := Trim(s);
    assert s[..|before|] == before && s[..|x|] == x && s[|x|] == t[0];
    FirstVisibleUnique(s, |before|, |x|);
    var i, j := |before| + |text| - 1, |x| + |t| - 1;
    assert s[i + 1..] == after && s[j + 1..] == y && s[i] == text[|text| - 1] && s[j] == t[|t| - 1];
    LastVisibleUnique(s, i, j);
    assert text == s[|before|..i + 1] == t;
  }

  lemma {:induction false} TrimEmptyIff(s: string)
    ensures Trim(s) == "" <==> AllWhite(s)
  {
    var before, after := TrimCuts(s);
    if Trim(s) == "" {
      assert s == before + after;
    } else {
      assert s[|before|] == Trim(s)[0];
    }
  }

  function AsciiLower(c: char): char {
    if 'A' <= c <= 'Z' then (c as int + 32) as char else c
  }

  function ToAsciiLower(s: string): (r: string)
    ensures |r| == |s| && forall i :: 0 <= i < |s| ==> r[i] == AsciiLower(s[i])
  {
    seq(|s|, i requires 0 <= i < |s| => AsciiLower(s[i]))
  }

  /** The same letter, capital or small, or the same character. */
  predicate SameLetter(c: char, d: char) {
    || c == d
    || ('a' <= c <= 'z' && c as int - 'a' as int == d as int - 'A' as int)
    || ('a' <= d <= 'z' && d as int - 'a' as int == c as int - 'A' as int)
  }

  predicate SameLetters(a: string, b: string) {
    |a| == |b| && forall i :: 0 <= i < |a| ==> SameLetter(a[i], b[i])
  }

  lemma {:induction false} LowerSame(a: string, b: string)
    ensures ToAsciiLower(a) == ToAsciiLower(b) <==> SameLetters(a, b)
  {
    if ToAsciiLower(a) == ToAsciiLower(b) {
      forall i | 0 <= i < |a| ensures |a| == |b| && SameLetter(a[i], b[i]) {
        assert ToAsciiLower(a)[i] == ToAsciiLower(b)[i];
      }
    }
  }

  predicate IsDigit(c: char) {
    '0' <= c <= '9'
  }

  function Digit(n: nat): (c: char)
    requires n < 10
    ensures IsDigit(c)
  {
    ('0' as int + n) as char
  }

  /** The decimal numeral of a natural number, as both languages print it. */
  function Decimal(n: nat): (s: string)
    ensures s != [] && forall i :: 0 <= i < |s| ==> IsDigit(s[i])
  {
    if n < 10 then [Digit(n)] else Decimal(n / 10) + [Digit(n % 10)]
  }

  lemma {:induction false} DecimalInjective(m: nat, n: nat)
    requires Decimal(m) == Decimal(n)
    ensures m == n
  {
    var s, t := Decimal(m), Decimal(n);
    assert s[|s| - 1] == t[|t| - 1];
    if m >= 10 && n >= 10 {
      assert s[..|s| - 1] == Decimal(m / 10) && t[..|t| - 1] == Decimal(n / 10);
      DecimalInjective(m / 10, n / 10);
    }
  }
}
