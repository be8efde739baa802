/** Strings: the dictionary order both programs sort connection names by
    (`sort.Strings` in Go, `list.sort` in Python), and the decimal rendering of
    integers used in generated source text, with its parser. */
module Text {
  import opened Grid

  /** a comes strictly before b: at the first differing character a's is smaller,
      or a is a proper prefix of b. */
  predicate LexLess(a: string, b: string)
    decreases |a|
  {
    if |a| == 0 then |b| > 0
    else if |b| == 0 then false
    else if a[0] != b[0] then a[0] < b[0]
    else LexLess(a[1..], b[1..])
  }

  predicate LexLeq(a: string, b: string) {
    a == b || LexLess(a, b)
  }

  lemma {:induction false} LexIrreflexive(a: string)
    ensures !LexLess(a, a)
    decreases |a|
  {
    if |a| > 0 {
      LexIrreflexive(a[1..]);
    }
  }

  lemma {:induction false} LexTransitive(a: string, b: string, c: string)
    requires LexLess(a, b) && LexLess(b, c)
    ensures LexLess(a, c)
    decreases |a|
  {
    if |a| > 0 && a[0] == b[0] && b[0] == c[0] {
      LexTransitive(a[1..], b[1..], c[1..]);
    }
  }

  lemma {:induction false} LexTotal(a: string, b: string)
    ensures a == b || LexLess(a, b) || LexLess(b, a)
    decreases |a|
  {
    if |a| > 0 && |b| > 0 && a[0] == b[0] {
      LexTotal(a[1..], b[1..]);
      if a[1..] == b[1..] {
        assert a == [a[0]] + a[1..] && b == [b[0]] + b[1..];
      }
    }
  }

  lemma LexAsymmetric(a: string, b: string)
    ensures !(LexLess(a, b) && LexLess(b, a))
  {
    if LexLess(a, b) && LexLess(b, a) {
      LexTransitive(a, b, a);
      LexIrreflexive(a);
    }
  }

  predicate SortedStrings(s: seq<string>) {
    forall i, j :: 0 <= i < j < |s| ==> LexLeq(s[i], s[j])
  }

  /** Puts x in front of the first element it does not come after. */
  function InsertString(x: string, s: seq<string>): (r: seq<string>)
    ensures multiset(r) == multiset(s) + multiset{x}
  {
    if s == [] then [x]
    else if LexLeq(x, s[0]) then [x] + s
    else
      assert s == [s[0]] + s[1..];
      [s[0]] + InsertString(x, s[1..])
  }

  lemma {:induction false} InsertSorted(x: string, s: seq<string>)
    requires SortedStrings(s)
    ensures SortedStrings(InsertString(x, s))
    ensures forall y :: y in InsertString(x, s) ==> y == x || y in s
  {
    var r := InsertString(x, s);
    if s == [] {
    } else if LexLeq(x, s[0]) {
      forall j | 1 <= j < |r| ensures LexLeq(x, r[j]) {
        assert r[j] == s[j - 1];
        if LexLess(x, s[0]) && LexLess(s[0], s[j - 1]) {
          LexTransitive(x, s[0], s[j - 1]);
        }
      }
    } else {
      var t := s[1..];
      InsertSorted(x, t);
      LexTotal(x, s[0]);
      forall j | 1 <= j < |r| ensures LexLeq(s[0], r[j]) {
        assert r[j] in InsertString(x, t);
        if r[j] != x {
          assert r[j] in t;
        }
      }
    }
  }

  /** Insertion sort; the library sorts differ, but any sort of a list of strings into
      dictionary order has the same result. */
  function SortStrings(s: seq<string>): (r: seq<string>)
    ensures multiset(r) == multiset(s)
  {
    if s == [] then [] else
      assert s == [s[0]] + s[1..];
      InsertString(s[0], SortStrings(s[1..]))
  }

  lemma {:induction false} SortStringsSorted(s: seq<string>)
    ensures SortedStrings(SortStrings(s))
  {
    if s != [] {
      SortStringsSorted(s[1..]);
      InsertSorted(s[0], SortStrings(s[1..]));
    }
  }

  /** Sorting keeps exactly the strings it was given. */
  lemma SortStringsMembers(s: seq<string>)
    ensures forall x :: x in SortStrings(s) <==> x in s
  {
    var r := SortStrings(s);
    forall x ensures x in r <==> x in s {
      assert x in r <==> x in multiset(r);
      assert x in s <==> x in multiset(s);
    }
  }

  /** Sorting strings without repetition gives a strictly increasing list of the same strings. */
  lemma SortStringsStrict(s: seq<string>)
    requires NoDups(s)
    ensures |SortStrings(s)| == |s|
    ensures forall x :: x in SortStrings(s) <==> x in s
    ensures forall i, j :: 0 <= i < j < |SortStrings(s)| ==> LexLess(SortStrings(s)[i], SortStrings(s)[j])
  {
    var r := SortStrings(s);
    SortStringsSorted(s);
    assert |r| == |multiset(r)| == |multiset(s)| == |s|;
    forall x ensures x in r <==> x in s {
      assert x in r <==> x in multiset(r);
      assert x in s <==> x in multiset(s);
    }
    forall i, j | 0 <= i < j < |r| ensures LexLess(r[i], r[j]) {
      if r[i] == r[j] {
        MultisetTwice(r, i, j);
        NoDupsMultiset(s, r[i]);
        assert false;
      }
    }
  }

  // Decimal rendering of integers, as Go's and Python's default integer formatting.

  const Digits: string := "0123456789"

  function NatDigits(n: nat): (s: string)
    ensures |s| > 0 && forall i :: 0 <= i < |s| ==> s[i] in Digits
    decreases n
  {
    if n < 10 then [Digits[n]] else NatDigits(n / 10) + [Digits[n % 10]]
  }

  /** The decimal text of n, with a leading '-' when negative. */
  function Decimal(n: int): (s: string)
    ensures |s| > 0
  {
    if n < 0 then "-" + NatDigits(-n) else NatDigits(n)
  }

  function DigitValue(c: char): (d: nat)
    ensures d < 10
  {
    if '0' <= c <= '9' then c as int - '0' as int else 0
  }

  function ParseNat(s: string): nat
    decreases |s|
  {
    if |s| == 0 then 0 else 10 * ParseNat(s[..|s| - 1]) + DigitValue(s[|s| - 1])
  }

  /** Reads a decimal integer written with an optional leading '-'. */
  function ParseInt(s: string): (n: int) {
    if |s| > 0 && s[0] == '-' then 0 - ParseNat(s[1..]) else ParseNat(s)
  }

  lemma DigitOf(d: nat)
    requires d < 10
    ensures DigitValue(Digits[d]) == d
  {
  }

  lemma {:induction false} NatDigitsRoundTrip(n: nat)
    ensures ParseNat(NatDigits(n)) == n
    decreases n
  {
    DigitOf(n % 10);
    if n >= 10 {
      NatDigitsRoundTrip(n / 10);
      var s := NatDigits(n);
      assert s[..|s| - 1] == NatDigits(n / 10);
    }
  }

  /** Reading the decimal text of n gives n back. */
  lemma DecimalRoundTrip(n: int)
    ensures ParseInt(Decimal(n)) == n
  {
    if n < 0 {
      NatDigitsRoundTrip(-n);
      assert ("-" + NatDigits(-n))[1..] == NatDigits(-n);
    } else {
      NatDigitsRoundTrip(n);
      assert NatDigits(n)[0] in Digits;
    }
  }

  /** Characters that can occur in the decimal text of an integer. */
  predicate NumberChar(c: char) {
    c == '-' || c in Digits
  }

  /** Splits s into its longest prefix of number characters and the rest. */
  function TakeNumber(s: string): (r: (string, string))
    ensures r.0 + r.1 == s
    decreases |s|
  {
    if |s| > 0 && NumberChar(s[0]) then
      var (a, b) := TakeNumber(s[1..]);
      assert s == [s[0]] + s[1..];
      ([s[0]] + a, b)
    else ([], s)
  }

  lemma {:induction false} TakeNumberDigits(d: string, rest: string)
    requires forall i :: 0 <= i < |d| ==> NumberChar(d[i])
    requires |rest| == 0 || !NumberChar(rest[0])
    ensures TakeNumber(d + rest) == (d, rest)
    decreases |d|
  {
    if |d| > 0 {
      assert (d + rest)[1..] == d[1..] + rest;
      TakeNumberDigits(d[1..], rest);
      assert d == [d[0]] + d[1..];
    } else {
      assert d + rest == rest;
    }
  }

  /** A decimal text followed by a non-number character splits off exactly. */
  lemma TakeDecimal(n: int, rest: string)
    requires |rest| == 0 || !NumberChar(rest[0])
    ensures TakeNumber(Decimal(n) + rest) == (Decimal(n), rest)
  {
    var d := Decimal(n);
    assert forall i :: 0 <= i < |d| ==> NumberChar(d[i]) by {
      forall i | 0 <= i < |d| ensures NumberChar(d[i]) {
        if n < 0 && i > 0 {
          assert d[i] == NatDigits(-n)[i - 1];
        }
      }
    }
    TakeNumberDigits(d, rest);
  }
}
