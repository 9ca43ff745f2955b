/** Python `str` operations that the blog core relies on, written out on
    `seq<char>`: `strip`, `lstrip(c)`, `partition`, `split(sep)`, `join`,
    `replace`, `str(int)`, and ASCII `upper`/`lower`. */
module Text {

  /** `str.isspace()` for a single character: ASCII whitespace, the four
      information separators and the Unicode space characters. */
  predicate IsSpace(c: char) {
    || c == ' '
    || ('\t' <= c <= '\r')
    || ('\U{1c}' <= c <= '\U{1f}')
    || c == '\U{85}' || c == '\U{a0}' || c == '\U{1680}'
    || ('\U{2000}' <= c <= '\U{200a}')
    || c == '\U{2028}' || c == '\U{2029}' || c == '\U{202f}'
    || c == '\U{205f}' || c == '\U{3000}'
  }

  /** `s.lstrip(c)`: drops every leading `c` and nothing else. */
  function LStripChar(s: string, c: char): (r: string)
    ensures |r| <= |s| && r == s[|s| - |r|..]
    ensures forall i :: 0 <= i < |s| - |r| ==> s[i] == c
    ensures r == [] || r[0] != c
  {
    if s != [] && s[0] == c then LStripChar(s[1..], c) else s
  }

  /** `s.lstrip()`: drops the leading whitespace. */
  function LStripSpace(s: string): (r: string)
    ensures |r| <= |s| && r == s[|s| - |r|..]
    ensures forall i :: 0 <= i < |s| - |r| ==> IsSpace(s[i])
    ensures r == [] || !IsSpace(r[0])
  {
    if s != [] && IsSpace(s[0]) then LStripSpace(s[1..]) else s
  }

  /** `s.rstrip()`: drops the trailing whitespace. */
  function RStripSpace(s: string): (r: string)
    ensures |r| <= |s| && r == s[..|r|]
    ensures forall i :: |r| <= i < |s| ==> IsSpace(s[i])
    ensures r == [] || !IsSpace(r[|r| - 1])
  {
    if s != [] && IsSpace(s[|s| - 1]) then RStripSpace(s[..|s| - 1]) else s
  }

  /** `s.strip()`: whitespace dropped at both ends. */
  function Strip(s: string): string {
    RStripSpace(LStripSpace(s))
  }

  /** What `strip()` leaves neither starts nor ends with whitespace. */
  lemma StripTrimmed(s: string)
    ensures var r := Strip(s);
            r == [] || (!IsSpace(r[0]) && !IsSpace(r[|r| - 1]))
  {
    var l := LStripSpace(s);
    var r := RStripSpace(l);
    if r != [] {
      assert r[0] == l[0];
    }
  }

  /** `s.partition("\n")[0]`: everything before the first newline. */
  function FirstLine(s: string): (r: string)
    ensures |r| <= |s| && r == s[..|r|]
    ensures '\n' !in r
    ensures |r| < |s| ==> s[|r|] == '\n'
  {
    if s == [] || s[0] == '\n' then [] else [s[0]] + FirstLine(s[1..])
  }

  /** Number of occurrences of `c` in `s`. */
  function Count(s: string, c: char): nat {
    if s == [] then 0 else (if s[0] == c then 1 else 0) + Count(s[1..], c)
  }

  /** `s.split(sep)` for a one-character separator. */
  function Split(s: string, sep: char): (r: seq<string>)
    ensures |r| == Count(s, sep) + 1
    ensures forall k :: 0 <= k < |r| ==> sep !in r[k]
  {
    if s == [] then [[]]
    else
      var rest := Split(s[1..], sep);
      if s[0] == sep then [[]] + rest else [[s[0]] + rest[0]] + rest[1..]
  }

  /** `sep.join(parts)`. */
  function Join(sep: string, parts: seq<string>): string {
    if parts == [] then []
    else if |parts| == 1 then parts[0]
    else parts[0] + sep + Join(sep, parts[1..])
  }

  /** Joining one more part puts the separator before it. */
  lemma {:induction false} JoinAppend(sep: string, parts: seq<string>, p: string)
    requires parts != []
    ensures Join(sep, parts + [p]) == Join(sep, parts) + sep + p
  {
    if |parts| == 1 {
      assert parts + [p] == [parts[0], p];
      assert [parts[0], p][1..] == [p];
    } else {
      assert (parts + [p])[1..] == parts[1..] + [p];
      JoinAppend(sep, parts[1..], p);
    }
  }

  /** Joining the pieces of a split with the separator gives the text back. */
  lemma {:induction false} JoinSplit(s: string, sep: char)
    ensures Join([sep], Split(s, sep)) == s
  {
    if s != [] {
      var rest := Split(s[1..], sep);
      JoinSplit(s[1..], sep);
      if s[0] != sep {
        if |rest| > 1 {
          assert Join([sep], [[s[0]] + rest[0]] + rest[1..])
              == [s[0]] + rest[0] + [sep] + Join([sep], rest[1..]);
        }
      }
    }
  }

  /** `len([p for p in parts if p != ""])`. */
  function NonEmptyCount(parts: seq<string>): (n: nat)
    ensures n <= |parts|
  {
    if parts == [] then 0
    else (if parts[0] != [] then 1 else 0) + NonEmptyCount(parts[1..])
  }

  /** `pat` occurs in `s` at position `i`. */
  predicate OccursAt(s: string, pat: string, i: int) {
    0 <= i && i + |pat| <= |s| && s[i..i + |pat|] == pat
  }

  /** What `lstrip(c)` leaves is a piece of the text. */
  lemma LStripCharOccurs(s: string, c: char)
    ensures OccursAt(s, LStripChar(s, c), |s| - |LStripChar(s, c)|)
  {
  }

  /** What `strip()` leaves is the piece of the text where `lstrip()` stops. */
  lemma StripOccurs(s: string)
    ensures OccursAt(s, Strip(s), |s| - |LStripSpace(s)|)
  {
    var l := LStripSpace(s);
    PieceOfSuffix(s, l, RStripSpace(l));
  }

  /** A prefix of a suffix of `s` is a piece of `s`. */
  lemma PieceOfSuffix(s: string, suffix: string, r: string)
    requires |suffix| <= |s| && suffix == s[|s| - |suffix|..]
    requires |r| <= |suffix| && r == suffix[..|r|]
    ensures OccursAt(s, r, |s| - |suffix|)
  {
    var i := |s| - |suffix|;
    assert s[i..][..|r|] == s[i..i + |r|];
  }

  /** Only whitespace surrounds what `strip()` leaves. */
  lemma StripSurrounded(s: string)
    ensures var i := |s| - |LStripSpace(s)|;
            && (forall k :: 0 <= k < i ==> IsSpace(s[k]))
            && (forall k :: i + |Strip(s)| <= k < |s| ==> IsSpace(s[k]))
  {
    var l := LStripSpace(s);
    var i := |s| - |l|;
    forall k | i + |Strip(s)| <= k < |s| ensures IsSpace(s[k]) {
      assert s[k] == l[k - i];
    }
  }

  /** The pieces of a concatenation of three strings. */
  lemma ConcatPieces(a: string, b: string, c: string)
    ensures var s := a + b + c;
            && |s| == |a| + |b| + |c| && s[..|a|] == a && s[|a|..|a| + |b|] == b && s[|a| + |b|..] == c
            && (c != [] ==> s[|s| - 1] == c[|c| - 1])
  {
    var s := a + b + c;
    assert s[..|a|] == a;
    assert s[|a|..|a| + |b|] == b;
    assert s[|a| + |b|..] == c;
  }

  /** A piece of a piece of `s` is a piece of `s`. */
  lemma OccursWithin(s: string, mid: string, pat: string, i: int, j: int)
    requires OccursAt(s, mid, i) && OccursAt(mid, pat, j)
    ensures OccursAt(s, pat, i + j)
  {
    forall k | 0 <= k < |pat| ensures pat[k] == s[i + j + k] {
      assert pat[k] == mid[j + k];
      assert mid[j + k] == s[i..i + |mid|][j + k];
    }
    assert s[i + j..i + j + |pat|] == pat;
  }

  /** A character missing from `s` is missing from every piece of it. */
  lemma AbsentFromPiece(s: string, pat: string, i: int, c: char)
    requires OccursAt(s, pat, i) && c !in s
    ensures c !in pat
  {
    forall j | 0 <= j < |pat| ensures pat[j] != c {
      assert pat[j] == s[i + j];
    }
  }

  /** `pat in s`. */
  predicate Contains(s: string, pat: string) {
    exists i | 0 <= i <= |s| :: OccursAt(s, pat, i)
  }

  /** `s.replace(pat, rep)`: leftmost, non-overlapping replacement. */
  function Replace(s: string, pat: string, rep: string): string
    requires pat != []
    decreases |s|
  {
    if |s| < |pat| then s
    else if s[..|pat|] == pat then rep + Replace(s[|pat|..], pat, rep)
    else [s[0]] + Replace(s[1..], pat, rep)
  }

  /** Text in which `pat` never occurs is left as it is. */
  lemma {:induction false} ReplaceAbsent(s: string, pat: string, rep: string)
    requires pat != [] && !Contains(s, pat)
    ensures Replace(s, pat, rep) == s
  {
    if |s| >= |pat| {
      assert s[..|pat|] != pat by { assert !OccursAt(s, pat, 0); }
      assert !Contains(s[1..], pat) by {
        forall i | OccursAt(s[1..], pat, i) ensures false {
          assert s[1..][i..i + |pat|] == s[i + 1..i + 1 + |pat|];
          assert OccursAt(s, pat, i + 1);
        }
      }
      ReplaceAbsent(s[1..], pat, rep);
    }
  }

  /** The decimal digit for `d`. */
  function DigitChar(d: nat): (c: char)
    requires d < 10
    ensures '0' <= c <= '9' && (c as int) - ('0' as int) == d
  {
    (('0' as int) + d) as char
  }

  /** The value of a string of decimal digits. */
  function ParseDigits(s: string): nat
    requires forall i :: 0 <= i < |s| ==> '0' <= s[i] <= '9'
  {
    if s == [] then 0 else ParseDigits(s[..|s| - 1]) * 10 + ((s[|s| - 1] as int) - ('0' as int))
  }

  /** `str(n)` for a non-negative `int`: decimal digits that read back as `n`. */
  function NatToString(n: nat): (r: string)
    ensures |r| >= 1 && forall i :: 0 <= i < |r| ==> '0' <= r[i] <= '9'
    ensures ParseDigits(r) == n
    ensures |r| > 1 ==> r[0] != '0'
  {
    if n < 10 then [DigitChar(n)]
    else
      var prefix := NatToString(n / 10);
      var r := prefix + [DigitChar(n % 10)];
      assert r[..|r| - 1] == prefix;
      r
  }

  /** `str(i)` for any `int`: a minus sign before the digits of `-i` when negative. */
  function IntToString(i: int): (r: string)
    ensures |r| >= 1
    ensures (r[0] == '-') <==> i < 0
    ensures Numeral(r)
  {
    if i < 0 then "-" + NatToString(-i) else NatToString(i)
  }

  /** A character `str` of an integer can contain. */
  predicate NumeralChar(c: char) {
    '0' <= c <= '9' || c == '-'
  }

  predicate Numeral(s: string) {
    forall i :: 0 <= i < |s| ==> NumeralChar(s[i])
  }

  /** Different integers print differently. */
  lemma IntToStringInjective(i: int, j: int)
    requires IntToString(i) == IntToString(j)
    ensures i == j
  {
    if i < 0 {
      assert ("-" + NatToString(-i))[1..] == NatToString(-i);
      assert ("-" + NatToString(-j))[1..] == NatToString(-j);
    }
  }

  /** The length of the run of numeral characters that ends `s`. */
  function NumeralTail(s: string): nat {
    if s == [] || !NumeralChar(s[|s| - 1]) then 0 else 1 + NumeralTail(s[..|s| - 1])
  }

  /** After a space, a numeral is exactly the run that ends the text. */
  lemma {:induction false} NumeralTailAfterSpace(p: string, x: string)
    requires Numeral(x) && |p| > 0 && p[|p| - 1] == ' '
    ensures NumeralTail(p + x) == |x|
  {
    if x != [] {
      var n := |x| - 1;
      assert (p + x)[..|p + x| - 1] == p + x[..n];
      NumeralTailAfterSpace(p, x[..n]);
    }
  }

  /** A numeral that follows a space is found again from the end: equal
      strings that end in such numerals agree on the numeral and on what
      precedes it. */
  lemma NumeralAfterSpace(p: string, x: string, q: string, y: string)
    requires Numeral(x) && Numeral(y)
    requires |p| > 0 && |q| > 0 && p[|p| - 1] == ' ' && q[|q| - 1] == ' '
    requires p + x == q + y
    ensures p == q && x == y
  {
    var s := p + x;
    NumeralTailAfterSpace(p, x);
    NumeralTailAfterSpace(q, y);
    assert p == s[..|p|] && q == s[..|q|];
    assert x == s[|p|..] && y == s[|q|..];
  }

  /** One step of reading a printed record back from its end: a numeral
      after a fixed text ending in a space, before a fixed ending. */
  lemma PeelNumeral(u: string, lit: string, x: string, v: string, y: string, t: string)
    requires Numeral(x) && Numeral(y) && lit != [] && lit[|lit| - 1] == ' '
    requires u + lit + x + t == v + lit + y + t
    ensures u == v && x == y
  {
    DropSuffix(u + lit + x, v + lit + y, t);
    NumeralAfterSpace(u + lit, x, v + lit, y);
    DropSuffix(u, v, lit);
  }

  /** Equal strings with the same ending agree on what comes before it. */
  lemma DropSuffix(a: string, b: string, t: string)
    requires a + t == b + t
    ensures a == b
  {
    assert a == (a + t)[..|a|];
    assert b == (b + t)[..|b|];
  }

  /** `c.upper()` restricted to ASCII letters. */
  function UpperChar(c: char): (u: char)
    ensures 'a' <= c <= 'z' ==> 'A' <= u <= 'Z' && u as int == c as int - 32
    ensures !('a' <= c <= 'z') ==> u == c
  {
    if 'a' <= c <= 'z' then (c as int - 32) as char else c
  }

  /** `c.lower()` restricted to ASCII letters. */
  function LowerChar(c: char): (l: char)
    ensures 'A' <= c <= 'Z' ==> 'a' <= l <= 'z' && l as int == c as int + 32
    ensures !('A' <= c <= 'Z') ==> l == c
  {
    if 'A' <= c <= 'Z' then (c as int + 32) as char else c
  }

  /** `s.upper()` restricted to ASCII letters. */
  function Upper(s: string): (r: string)
    ensures |r| == |s| && forall i :: 0 <= i < |s| ==> r[i] == UpperChar(s[i])
  {
    seq(|s|, i requires 0 <= i < |s| => UpperChar(s[i]))
  }

  /** Every character of `s` replaced by `to` where it is `from`. */
  function ReplaceChar(s: string, from: char, to: char): (r: string)
    ensures |r| == |s| && forall i :: 0 <= i < |s| ==> r[i] == (if s[i] == from then to else s[i])
  {
    seq(|s|, i requires 0 <= i < |s| => if s[i] == from then to else s[i])
  }
}
