/**
 * String primitives the service relies on: searching for a character, substring
 * containment (the SQL `LIKE '%v%'` of a partial filter), decimal rendering of an
 * integer (PHP's int-to-string conversion) and code-point lexicographic order.
 */
module Strings {

  /** Position of the last `c` in `s`, or -1 when `s` has none (PHP's strrpos). */
  function LastIndexOf(s: string, c: char): (r: int)
    ensures -1 <= r < |s|
    ensures r >= 0 ==> s[r] == c
    ensures forall k :: r < k < |s| ==> s[k] != c
  {
    if |s| == 0 then -1
    else if s[|s| - 1] == c then |s| - 1
    else LastIndexOf(s[..|s| - 1], c)
  }

  /** Position of the first `c` in `s`, or -1 when `s` has none (PHP's strpos). */
  function IndexOf(s: string, c: char): (r: int)
    ensures -1 <= r < |s|
    ensures r >= 0 ==> s[r] == c
    ensures forall k :: 0 <= k < |s| && (r < 0 || k < r) ==> s[k] != c
  {
    if |s| == 0 then -1
    else if s[0] == c then 0
    else
      var i := IndexOf(s[1..], c);
      if i < 0 then -1 else i + 1
  }

  /** The last `c` of `a + [c] + b` is the separator itself when `b` has no `c`. */
  lemma {:induction false} LastIndexOfSeparator(a: string, c: char, b: string)
    requires c !in b
    ensures LastIndexOf(a + [c] + b, c) == |a|
    decreases |b|
  {
    var s := a + [c] + b;
    if |b| > 0 {
      assert s[|s| - 1] == b[|b| - 1];
      assert s[..|s| - 1] == a + [c] + b[..|b| - 1];
      LastIndexOfSeparator(a, c, b[..|b| - 1]);
    }
  }

  /** The first `c` of `a + [c] + b` is the separator itself when `a` has no `c`. */
  lemma IndexOfSeparator(a: string, c: char, b: string)
    requires c !in a
    ensures IndexOf(a + [c] + b, c) == |a|
  {
    var s := a + [c] + b;
    var r := IndexOf(s, c);
    assert s[|a|] == c;
    assert forall k :: 0 <= k < |a| ==> s[k] == a[k];
  }

  // ---------------------------------------------------------------------------
  // Substring containment

  /** `needle` occurs in `hay` starting at position `i`. */
  predicate OccursAt(hay: string, needle: string, i: nat)
  {
    i + |needle| <= |hay| && hay[i..i + |needle|] == needle
  }

  /** Substring test as a scan: try each starting position in turn. */
  function Contains(hay: string, needle: string): bool
    decreases |hay|
  {
    if |needle| <= |hay| && hay[..|needle|] == needle then true
    else if |hay| == 0 then false
    else Contains(hay[1..], needle)
  }

  /** An occurrence in the tail is an occurrence one position further on. */
  lemma OccursInTail(hay: string, needle: string, i: nat)
    requires |hay| > 0 && OccursAt(hay[1..], needle, i)
    ensures OccursAt(hay, needle, i + 1)
  {
    assert hay[i + 1..i + 1 + |needle|] == hay[1..][i..i + |needle|];
  }

  /** An occurrence past the first position is an occurrence in the tail. */
  lemma OccursPastHead(hay: string, needle: string, i: nat)
    requires i > 0 && OccursAt(hay, needle, i)
    ensures OccursAt(hay[1..], needle, i - 1)
  {
    assert hay[1..][i - 1..i - 1 + |needle|] == hay[i..i + |needle|];
  }

  /** The scan agrees with the definition: some position holds the needle. */
  lemma {:induction false} ContainsIff(hay: string, needle: string)
    ensures Contains(hay, needle) <==> exists i: nat :: OccursAt(hay, needle, i)
    decreases |hay|
  {
    if |needle| <= |hay| && hay[..|needle|] == needle {
      assert OccursAt(hay, needle, 0);
    } else if |hay| == 0 {
      assert |needle| > 0;
    } else {
      ContainsIff(hay[1..], needle);
      if exists i: nat :: OccursAt(hay[1..], needle, i) {
        var i: nat :| OccursAt(hay[1..], needle, i);
        OccursInTail(hay, needle, i);
      }
      if exists i: nat :: OccursAt(hay, needle, i) {
        var i: nat :| OccursAt(hay, needle, i);
        assert hay[..|needle|] == hay[0..|needle|];
        if i > 0 {
          OccursPastHead(hay, needle, i);
        }
      }
    }
  }

  // ---------------------------------------------------------------------------
  // Decimal rendering of a non-negative integer

  predicate IsDigit(c: char)
  {
    '0' <= c <= '9'
  }

  predicate AllDigits(s: string)
  {
    forall k :: 0 <= k < |s| ==> IsDigit(s[k])
  }

  function DigitChar(d: nat): (c: char)
    requires d < 10
    ensures IsDigit(c) && c as int - '0' as int == d
  {
    ('0' as int + d) as char
  }

  /** PHP's rendering of a non-negative int: decimal digits, no sign, no leading zeros. */
  function Decimal(n: nat): (s: string)
    ensures |s| >= 1 && AllDigits(s)
    ensures |s| > 1 ==> s[0] != '0'
  {
    if n < 10 then [DigitChar(n)] else Decimal(n / 10) + [DigitChar(n % 10)]
  }

  /** The value of a string of decimal digits. */
  function DecimalValue(s: string): nat
    requires AllDigits(s)
  {
    if |s| == 0 then 0
    else 10 * DecimalValue(s[..|s| - 1]) + (s[|s| - 1] as int - '0' as int)
  }

  /** Reading back a rendered integer gives the integer. */
  lemma {:induction false} DecimalRoundTrip(n: nat)
    ensures DecimalValue(Decimal(n)) == n
  {
    var s := Decimal(n);
    if n >= 10 {
      DecimalRoundTrip(n / 10);
      assert s[..|s| - 1] == Decimal(n / 10);
    }
  }

  /** Rendering is injective: distinct integers give distinct strings. */
  lemma DecimalInjective(m: nat, n: nat)
    requires Decimal(m) == Decimal(n)
    ensures m == n
  {
    DecimalRoundTrip(m);
    DecimalRoundTrip(n);
  }

  // ---------------------------------------------------------------------------
  // Lexicographic order on code points

  /** `a` sorts no later than `b`, comparing character codes from the left. */
  predicate LexLe(a: string, b: string)
  {
    |a| == 0 || (|b| > 0 && (a[0] < b[0] || (a[0] == b[0] && LexLe(a[1..], b[1..]))))
  }

  lemma {:induction false} LexLeTotal(a: string, b: string)
    ensures LexLe(a, b) || LexLe(b, a)
  {
    if |a| > 0 && |b| > 0 && a[0] == b[0] {
      LexLeTotal(a[1..], b[1..]);
    }
  }

  lemma {:induction false} LexLeTransitive(a: string, b: string, c: string)
    requires LexLe(a, b) && LexLe(b, c)
    ensures LexLe(a, c)
  {
    if |a| > 0 && a[0] == b[0] && b[0] == c[0] {
      LexLeTransitive(a[1..], b[1..], c[1..]);
    }
  }

  // ---------------------------------------------------------------------------
  // PHP's `trim` and `strtolower`

  /** The characters `trim` removes by default: space, tab, line feed, carriage return, NUL, vertical tab. */
  predicate IsPhpSpace(c: char)
  {
    c == ' ' || c == '\t' || c == '\n' || c == '\r' || c as int == 0 || c as int == 11
  }

  /** Every character of `s` is one that `trim` removes. */
  predicate Blank(s: string)
  {
    forall i :: 0 <= i < |s| ==> IsPhpSpace(s[i])
  }

  /** `ltrim`: drop the leading spaces. */
  function TrimStart(s: string): string
  {
    if |s| > 0 && IsPhpSpace(s[0]) then TrimStart(s[1..]) else s
  }

  /** `rtrim`: drop the trailing spaces. */
  function TrimEnd(s: string): string
  {
    if |s| > 0 && IsPhpSpace(s[|s| - 1]) then TrimEnd(s[..|s| - 1]) else s
  }

  /** `ltrim` removes a blank prefix and stops at the first other character. */
  lemma {:induction false} TrimStartProps(s: string)
    ensures var r := TrimStart(s);
      |r| <= |s| && r == s[|s| - |r|..] && Blank(s[..|s| - |r|]) && (|r| > 0 ==> !IsPhpSpace(r[0]))
  {
    if |s| > 0 && IsPhpSpace(s[0]) {
      TrimStartProps(s[1..]);
      var r := TrimStart(s[1..]);
      assert s[..|s| - |r|] == [s[0]] + s[1..][..|s[1..]| - |r|];
    }
  }

  /** `rtrim` removes a blank suffix and stops at the last other character. */
  lemma {:induction false} TrimEndProps(s: string)
    ensures var r := TrimEnd(s);
      |r| <= |s| && r == s[..|r|] && Blank(s[|r|..])
  {
    if |s| > 0 && IsPhpSpace(s[|s| - 1]) {
      TrimEndProps(s[..|s| - 1]);
      var r := TrimEnd(s[..|s| - 1]);
      assert s[|r|..] == s[..|s| - 1][|r|..] + [s[|s| - 1]];
    }
  }

  /** `trim`: both ends. It leaves nothing exactly when every character is a space. */
  function Trim(s: string): (r: string)
    ensures r == [] <==> Blank(s)
  {
    var t := TrimStart(s);
    TrimStartProps(s);
    TrimEndProps(t);
    var r := TrimEnd(t);
    if r == [] then
      assert Blank(t) by {
        assert t[|r|..] == t;
      }
      assert s == s[..|s| - |t|] + t;
      r
    else
      assert !IsPhpSpace(s[|s| - |t|]);
      r
  }

  /** A string that neither starts nor ends with a space is its own trim. */
  lemma TrimNoSpaceEnds(s: string)
    requires |s| > 0 && !IsPhpSpace(s[0]) && !IsPhpSpace(s[|s| - 1])
    ensures Trim(s) == s
  {
    assert TrimStart(s) == s;
    assert TrimEnd(s) == s;
  }

  /** `strtolower` on one character: ASCII letters only. */
  function LowerChar(c: char): char
  {
    if 'A' <= c <= 'Z' then (c as int + 32) as char else c
  }

  function AsciiLower(s: string): (r: string)
    ensures |r| == |s| && forall i :: 0 <= i < |s| ==> r[i] == LowerChar(s[i])
  {
    if |s| == 0 then [] else [LowerChar(s[0])] + AsciiLower(s[1..])
  }
}
