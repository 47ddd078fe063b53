/** Decimal numerals and string splitting, as the JavaScript and Go runtimes provide them. */
module Text {

  predicate IsDigit(c: char) {
    '0' <= c <= '9'
  }

  predicate AllDigits(s: string) {
    forall i | 0 <= i < |s| :: IsDigit(s[i])
  }

  function DigitValue(c: char): nat
    requires IsDigit(c)
  {
    (c - '0') as nat
  }

  function Digit(d: nat): char
    requires d < 10
  {
    '0' + d as char
  }

  /** The canonical base-10 numeral of n. */
  function Decimal(n: nat): string {
    if n < 10 then [Digit(n)] else Decimal(n / 10) + [Digit(n % 10)]
  }

  /** The number a string of digits denotes, leading zeros allowed. */
  function Value(s: string): nat
    requires AllDigits(s)
  {
    if s == "" then 0 else 10 * Value(s[..|s| - 1]) + DigitValue(s[|s| - 1])
  }

  lemma {:induction false} ValueOfDecimal(n: nat)
    ensures Decimal(n) != "" && AllDigits(Decimal(n))
    ensures Value(Decimal(n)) == n
    ensures Decimal(n)[0] == '0' ==> n == 0
  {
    if n < 10 {
      assert Decimal(n)[..0] == "";
    } else {
      ValueOfDecimal(n / 10);
      assert Decimal(n)[..|Decimal(n)| - 1] == Decimal(n / 10);
    }
  }

  lemma {:induction false} DecimalOfValue(s: string)
    requires AllDigits(s) && s != "" && (s[0] != '0' || |s| == 1)
    ensures Decimal(Value(s)) == s
    ensures |s| > 1 ==> Value(s) >= 10
  {
    var front := s[..|s| - 1];
    if |s| == 1 {
      assert front == "";
    } else {
      DecimalOfValue(front);
      if |front| == 1 {
        assert front[..0] == "";
      }
      assert Value(s) / 10 == Value(front);
      assert s == front + [s[|s| - 1]];
    }
  }

  /** The number of leading digits. */
  function DigitCount(s: string): (n: nat)
    ensures n <= |s|
  {
    if s != "" && IsDigit(s[0]) then 1 + DigitCount(s[1..]) else 0
  }

  lemma {:induction false} DigitCountSplits(s: string)
    ensures AllDigits(s[..DigitCount(s)])
    ensures DigitCount(s) < |s| ==> !IsDigit(s[DigitCount(s)])
  {
    if s != "" && IsDigit(s[0]) {
      DigitCountSplits(s[1..]);
      assert s[..DigitCount(s)] == [s[0]] + s[1..][..DigitCount(s[1..])];
    }
  }

  lemma {:induction false} DigitCountOf(d: string, rest: string)
    requires AllDigits(d) && (rest != "" ==> !IsDigit(rest[0]))
    ensures DigitCount(d + rest) == |d|
  {
    if d == "" {
      assert d + rest == rest;
    } else {
      assert (d + rest)[1..] == d[1..] + rest;
      DigitCountOf(d[1..], rest);
    }
  }

  lemma DecimalInjective(m: nat, n: nat)
    requires Decimal(m) == Decimal(n)
    ensures m == n
  {
    ValueOfDecimal(m);
    ValueOfDecimal(n);
  }

  predicate OccursAt(s: string, pat: string, i: int) {
    0 <= i <= |s| - |pat| && s[i..i + |pat|] == pat
  }

  /** indexOf from position i: the first occurrence at or after i, or -1. */
  function IndexFrom(s: string, pat: string, i: nat): int
    decreases |s| - i
  {
    if i + |pat| > |s| then -1
    else if OccursAt(s, pat, i) then i
    else if i == |s| then -1
    else IndexFrom(s, pat, i + 1)
  }

  function IndexOf(s: string, pat: string): int {
    IndexFrom(s, pat, 0)
  }

  lemma {:induction false} IndexFromIsFirst(s: string, pat: string, i: nat)
    ensures var r := IndexFrom(s, pat, i);
            if r < 0 then r == -1 && forall j :: i <= j ==> !OccursAt(s, pat, j)
            else i <= r && OccursAt(s, pat, r) && forall j :: i <= j < r ==> !OccursAt(s, pat, j)
    decreases |s| - i
  {
    if i + |pat| > |s| || OccursAt(s, pat, i) || i == |s| {
    } else {
      IndexFromIsFirst(s, pat, i + 1);
    }
  }

  /** The value of indexOf, pinned down by its two defining facts. */
  lemma IndexOfIs(s: string, pat: string, k: nat)
    requires OccursAt(s, pat, k)
    requires forall j :: 0 <= j < k ==> !OccursAt(s, pat, j)
    ensures IndexOf(s, pat) == k
  {
    IndexFromIsFirst(s, pat, 0);
  }

  lemma CharOccurs(s: string, c: char, j: int)
    ensures OccursAt(s, [c], j) <==> 0 <= j < |s| && s[j] == c
  {
    if 0 <= j < |s| {
      assert s[j..j + 1] == [s[j]];
    }
  }

  lemma TwoChars(s: string, x: char, y: char, i: int)
    ensures OccursAt(s, [x, y], i) <==> 0 <= i < |s| - 1 && s[i] == x && s[i + 1] == y
  {
    if 0 <= i < |s| - 1 {
      assert s[i..i + 2] == [s[i], s[i + 1]];
    }
  }

  lemma IndexOfChar(a: string, c: char, b: string)
    requires c !in a
    ensures IndexOf(a + [c] + b, [c]) == |a|
  {
    var s := a + [c] + b;
    CharOccurs(s, c, |a|);
    forall j | 0 <= j < |a|
      ensures !OccursAt(s, [c], j)
    {
      CharOccurs(s, c, j);
    }
    IndexOfIs(s, [c], |a|);
  }

  lemma IndexOfCharNone(s: string, c: char)
    ensures IndexOf(s, [c]) < 0 <==> c !in s
  {
    IndexFromIsFirst(s, [c], 0);
    CharOccurs(s, c, IndexOf(s, [c]));
    if c in s {
      var j :| 0 <= j < |s| && s[j] == c;
      CharOccurs(s, c, j);
    }
  }

  /** split: the pieces of s between the occurrences of pat. */
  function SplitOn(s: string, pat: string): (parts: seq<string>)
    requires pat != ""
    ensures |parts| > 0
    decreases |s|
  {
    var i := IndexOf(s, pat);
    IndexFromIsFirst(s, pat, 0);
    if i < 0 then [s] else [s[..i]] + SplitOn(s[i + |pat|..], pat)
  }

  lemma SplitOnChar(a: string, c: char, b: string)
    requires c !in a
    ensures SplitOn(a + [c] + b, [c]) == [a] + SplitOn(b, [c])
  {
    var s := a + [c] + b;
    IndexOfChar(a, c, b);
    assert s[..|a|] == a;
    assert s[|a| + 1..] == b;
  }

  lemma SplitOnNone(s: string, c: char)
    requires c !in s
    ensures SplitOn(s, [c]) == [s]
  {
    IndexOfCharNone(s, c);
  }

  /** No piece contains the separating character. */
  lemma {:induction false} SplitPiecesFree(s: string, c: char, k: nat)
    requires k < |SplitOn(s, [c])|
    ensures c !in SplitOn(s, [c])[k]
    decreases |s|
  {
    hide SplitOn, IndexFrom;
    var i := IndexOf(s, [c]);
    IndexOfCharNone(s, c);
    if i < 0 {
      SplitOnNone(s, c);
    } else {
      BeforeFirst(s, c);
      assert s == s[..i] + [c] + s[i + 1..];
      SplitOnChar(s[..i], c, s[i + 1..]);
      if k > 0 {
        SplitPiecesFree(s[i + 1..], c, k - 1);
      }
    }
  }

  lemma BeforeFirst(s: string, c: char)
    requires IndexOf(s, [c]) >= 0
    ensures IndexOf(s, [c]) < |s| && s[IndexOf(s, [c])] == c && c !in s[..IndexOf(s, [c])]
  {
    var i := IndexOf(s, [c]);
    IndexFromIsFirst(s, [c], 0);
    CharOccurs(s, c, i);
    forall j | 0 <= j < i
      ensures s[j] != c
    {
      CharOccurs(s, c, j);
    }
  }

  /** Splitting around one occurrence of the separating character, whichever it is. */
  lemma {:induction false} SplitOnAround(a: string, c: char, b: string)
    ensures SplitOn(a + [c] + b, [c]) == SplitOn(a, [c]) + SplitOn(b, [c])
    decreases |a|
  {
    IndexOfCharNone(a, c);
    var i := IndexOf(a, [c]);
    IndexFromIsFirst(a, [c], 0);
    if i < 0 {
      SplitOnChar(a, c, b);
      SplitOnNone(a, c);
    } else {
      BeforeFirst(a, c);
      var x, y := a[..i], a[i + 1..];
      assert a == x + [c] + y;
      assert a + [c] + b == x + [c] + (y + [c] + b);
      SplitOnChar(x, c, y);
      SplitOnChar(x, c, y + [c] + b);
      SplitOnAround(y, c, b);
    }
  }

  /** Text without the separating character extends the last piece. */
  lemma {:induction false} SplitOnExtended(a: string, c: char, t: string)
    requires c !in t
    ensures var parts := SplitOn(a, [c]); var n := |parts| - 1;
            SplitOn(a + t, [c]) == parts[..n] + [parts[n] + t]
    decreases |a|
  {
    IndexOfCharNone(a, c);
    var i := IndexOf(a, [c]);
    IndexFromIsFirst(a, [c], 0);
    if i < 0 {
      SplitOnNone(a, c);
      SplitOnNone(a + t, c);
    } else {
      BeforeFirst(a, c);
      var x, y := a[..i], a[i + 1..];
      assert a == x + [c] + y;
      assert a + t == x + [c] + (y + t);
      SplitOnChar(x, c, y);
      SplitOnChar(x, c, y + t);
      SplitOnExtended(y, c, t);
    }
  }
}
