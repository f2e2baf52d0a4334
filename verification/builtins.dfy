/**
 * The few Python built-ins the dashboard's pipeline leans on, over strings as
 * sequences of characters: `s.replace(c, '')`, string ordering and `min`/`max`
 * of strings, and `int(s)` on a decimal label. `ShowNat`/`ShowInt` print
 * decimals only so that `ParseIntShowInt` can state `int`'s round trip.
 */
module Builtins {
  import opened Wrappers

  /** The exceptions the pipeline can raise. */
  datatype Error =
    | ValueError   // float(...) or int(...) given text that is not a number, or int(NaN)
    | IndexError   // a year range with fewer than two ends

  /** `a` is `b` with some elements dropped and the rest kept in order. */
  predicate IsSubseq<T(==)>(a: seq<T>, b: seq<T>)
    decreases |b|
  {
    a == [] || (b != [] && ((a[0] == b[0] && IsSubseq(a[1..], b[1..])) || IsSubseq(a, b[1..])))
  }

  lemma {:induction false} IsSubseqRefl<T>(a: seq<T>)
    ensures IsSubseq(a, a)
    decreases |a|
  {
    if a != [] {
      IsSubseqRefl(a[1..]);
    }
  }

  /** A subsequence of a subsequence of `c` is a subsequence of `c`. */
  lemma {:induction false} IsSubseqTrans<T>(a: seq<T>, b: seq<T>, c: seq<T>)
    requires IsSubseq(a, b) && IsSubseq(b, c)
    ensures IsSubseq(a, c)
    decreases |c|
  {
    if a != [] {
      if IsSubseq(b, c[1..]) {
        IsSubseqTrans(a, b, c[1..]);
      } else if a[0] == b[0] && IsSubseq(a[1..], b[1..]) {
        IsSubseqTrans(a[1..], b[1..], c[1..]);
      } else {
        IsSubseqTrans(a, b[1..], c[1..]);
      }
    }
  }

  // ---------------------------------------------------------------------------
  // str.replace(c, '')

  /** `s.replace(c, '')`: every occurrence of `c` removed, everything else kept in order. */
  function RemoveAll(s: string, c: char): (r: string)
    ensures c !in r
    ensures IsSubseq(r, s)
  {
    if s == [] then []
    else if s[0] == c then RemoveAll(s[1..], c)
    else [s[0]] + RemoveAll(s[1..], c)
  }

  /** Every other character keeps its count; the text shrinks by the number of `c`s. */
  lemma {:induction false} RemoveAllCounts(s: string, c: char)
    ensures multiset(RemoveAll(s, c)) == multiset(s)[c := 0]
    ensures |RemoveAll(s, c)| == |s| - multiset(s)[c]
  {
    if s != [] {
      assert s == [s[0]] + s[1..];
      RemoveAllCounts(s[1..], c);
    }
  }

  /** Removing a character from a text that has none of it changes nothing. */
  lemma {:induction false} RemoveAllAbsent(s: string, c: char)
    requires c !in s
    ensures RemoveAll(s, c) == s
  {
    if s != [] {
      RemoveAllAbsent(s[1..], c);
    }
  }

  /** Extra copies of `c` anywhere in the text are removed along with the rest. */
  lemma {:induction false} RemoveAllAppend(s: string, t: string, c: char)
    ensures RemoveAll(s + t, c) == RemoveAll(s, c) + RemoveAll(t, c)
  {
    if s == [] {
      assert s + t == t;
    } else {
      assert (s + t)[1..] == s[1..] + t;
      RemoveAllAppend(s[1..], t, c);
    }
  }

  /** A text of nothing but `c` loses everything. */
  lemma {:induction false} RemoveAllOnly(s: string, c: char)
    requires forall i :: 0 <= i < |s| ==> s[i] == c
    ensures RemoveAll(s, c) == []
  {
    if s != [] {
      RemoveAllOnly(s[1..], c);
    }
  }

  /** A text ending in one `c` and holding no other loses exactly that last character. */
  lemma RemoveAllLast(t: string, c: char)
    requires c !in t
    ensures RemoveAll(t + [c], c) == t
  {
    RemoveAllAppend(t, [c], c);
    RemoveAllAbsent(t, c);
  }

  // ---------------------------------------------------------------------------
  // String ordering, min and max

  /**
   * Python's `a <= b` on strings: lexicographic by code point. A prefix comes
   * first, and otherwise the first differing character decides.
   */
  predicate LexLe(a: string, b: string)
    ensures a <= b ==> LexLe(a, b)
    ensures forall k :: 0 <= k < |a| && k < |b| && a[..k] == b[..k] && a[k] < b[k] ==> LexLe(a, b)
  {
    assert forall k :: 0 < k < |a| && k < |b| && a[..k] == b[..k] ==>
      a[0] == a[..k][0] == b[0] && a[1..][..k - 1] == b[1..][..k - 1] && a[1..][k - 1] == a[k] && b[1..][k - 1] == b[k];
    a == [] || (b != [] && (a[0] < b[0] || (a[0] == b[0] && LexLe(a[1..], b[1..]))))
  }

  lemma {:induction false} LexLeRefl(a: string)
    ensures LexLe(a, a)
  {
    if a != [] {
      LexLeRefl(a[1..]);
    }
  }

  lemma {:induction false} LexLeTotal(a: string, b: string)
    ensures LexLe(a, b) || LexLe(b, a)
  {
    if a != [] && b != [] && a[0] == b[0] {
      LexLeTotal(a[1..], b[1..]);
    }
  }

  lemma {:induction false} LexLeAntisymmetric(a: string, b: string)
    requires LexLe(a, b) && LexLe(b, a)
    ensures a == b
  {
    if a != [] {
      LexLeAntisymmetric(a[1..], b[1..]);
      assert a == [a[0]] + a[1..] && b == [b[0]] + b[1..];
    }
  }

  lemma {:induction false} LexLeTrans(a: string, b: string, c: string)
    requires LexLe(a, b) && LexLe(b, c)
    ensures LexLe(a, c)
  {
    if a != [] && a[0] == b[0] && b[0] == c[0] {
      LexLeTrans(a[1..], b[1..], c[1..]);
    }
  }

  /** `min` of a non-empty sequence of strings: the member no other member precedes. */
  function StrMin(s: seq<string>): (r: string)
    requires |s| > 0
    ensures r in s
    ensures forall x :: x in s ==> LexLe(r, x)
  {
    LexLeRefl(s[0]);
    if |s| == 1 then s[0]
    else
      var m := StrMin(s[1..]);
      assert s == [s[0]] + s[1..];
      LexLeTotal(s[0], m);
      assert forall x :: x in s[1..] && LexLe(s[0], m) ==> LexLe(s[0], x) by {
        forall x | x in s[1..] && LexLe(s[0], m) ensures LexLe(s[0], x) {
          LexLeTrans(s[0], m, x);
        }
      }
      if LexLe(s[0], m) then s[0] else m
  }

  /** `max` of a non-empty sequence of strings: the member that precedes no other member. */
  function StrMax(s: seq<string>): (r: string)
    requires |s| > 0
    ensures r in s
    ensures forall x :: x in s ==> LexLe(x, r)
  {
    LexLeRefl(s[0]);
    if |s| == 1 then s[0]
    else
      var m := StrMax(s[1..]);
      assert s == [s[0]] + s[1..];
      LexLeTotal(s[0], m);
      assert forall x :: x in s[1..] && LexLe(m, s[0]) ==> LexLe(x, s[0]) by {
        forall x | x in s[1..] && LexLe(m, s[0]) ensures LexLe(x, s[0]) {
          LexLeTrans(x, m, s[0]);
        }
      }
      if LexLe(m, s[0]) then s[0] else m
  }

  /** The minimum and the maximum of a sequence of strings are ordered. */
  lemma StrMinLeMax(s: seq<string>)
    requires |s| > 0
    ensures LexLe(StrMin(s), StrMax(s))
  {
    assert StrMax(s) in s;
  }

  // ---------------------------------------------------------------------------
  // Decimal digits, int(s) and str(n)

  predicate IsDigit(c: char) { '0' <= c <= '9' }

  predicate AllDigits(s: string) { forall i :: 0 <= i < |s| ==> IsDigit(s[i]) }

  function DigitValue(c: char): nat
    requires IsDigit(c)
  {
    (c as int) - ('0' as int)
  }

  function Digit(d: nat): (c: char)
    requires d < 10
    ensures IsDigit(c) && DigitValue(c) == d
  {
    (('0' as int) + d) as char
  }

  function Pow10(n: nat): (p: nat)
    ensures p >= 1
  {
    if n == 0 then 1 else 10 * Pow10(n - 1)
  }

  /** The number a string of decimal digits denotes, most significant digit first. */
  function DigitsValue(s: string): nat
    requires AllDigits(s)
  {
    if s == [] then 0 else 10 * DigitsValue(s[..|s| - 1]) + DigitValue(s[|s| - 1])
  }

  /** A string of n digits denotes a number below 10^n. */
  lemma {:induction false} DigitsValueBound(s: string)
    requires AllDigits(s)
    ensures DigitsValue(s) < Pow10(|s|)
  {
    if s != [] {
      DigitsValueBound(s[..|s| - 1]);
    }
  }

  lemma ScaleByTen(d: nat, p: nat)
    ensures 10 * (d * p) == d * (10 * p)
  {
  }

  /** Reading the digits from the front: the leading digit weighs 10^(n-1). */
  lemma {:induction false} DigitsValueFront(s: string)
    requires AllDigits(s) && s != []
    ensures DigitsValue(s) == DigitValue(s[0]) * Pow10(|s| - 1) + DigitsValue(s[1..])
  {
    var n := |s|;
    if n == 1 {
      assert s[1..] == [];
    } else {
      var init := s[..n - 1];
      DigitsValueFront(init);
      assert init[1..] == s[1..][..n - 2];
      assert s[1..][n - 2] == s[n - 1];
      var d, p := DigitValue(s[0]), Pow10(n - 2);
      assert Pow10(n - 1) == 10 * p;
      ScaleByTen(d, p);
      assert DigitsValue(s[1..]) == 10 * DigitsValue(init[1..]) + DigitValue(s[n - 1]);
    }
  }

  /** Multiplying by a natural number keeps the order. */
  lemma {:induction false} MulMonotone(a: nat, b: nat, p: nat)
    requires a <= b
    ensures a * p <= b * p
    decreases b - a
  {
    if a < b {
      MulMonotone(a, b - 1, p);
      assert b * p == (b - 1) * p + p;
    }
  }

  /** A smaller leading digit outweighs whatever digits follow it. */
  lemma LeadingDigitDominates(lo: nat, hi: nat, p: nat, restLo: nat, restHi: nat)
    requires lo < hi && restLo < p
    ensures lo * p + restLo < hi * p + restHi
  {
    MulMonotone(lo + 1, hi, p);
    assert (lo + 1) * p == lo * p + p;
  }

  /**
   * For digit strings of one width, Python's string order is numeric order:
   * `a <= b` as strings exactly when `int(a) <= int(b)`.
   */
  lemma {:induction false} LexLeDigits(a: string, b: string)
    requires AllDigits(a) && AllDigits(b) && |a| == |b|
    ensures LexLe(a, b) <==> DigitsValue(a) <= DigitsValue(b)
  {
    if a != [] {
      DigitsValueFront(a);
      DigitsValueFront(b);
      DigitsValueBound(a[1..]);
      DigitsValueBound(b[1..]);
      var da, db, p := DigitValue(a[0]), DigitValue(b[0]), Pow10(|a| - 1);
      if da < db {
        LeadingDigitDominates(da, db, p, DigitsValue(a[1..]), DigitsValue(b[1..]));
      } else if da > db {
        LeadingDigitDominates(db, da, p, DigitsValue(b[1..]), DigitsValue(a[1..]));
      } else {
        LexLeDigits(a[1..], b[1..]);
      }
    }
  }

  /**
   * `int(s)` on a text: an optional sign followed by at least one decimal
   * digit, or no integer at all (Python raises `ValueError`).
   */
  function ParseInt(s: string): (r: Option<int>)
    ensures s != [] && AllDigits(s) ==> r == Some(DigitsValue(s))
    ensures r.Some? ==> s != [] && forall k :: 0 < k < |s| ==> IsDigit(s[k])
    ensures r.Some? ==> (IsDigit(s[0]) && r.value >= 0) || (|s| > 1 && (s[0] == '-' || s[0] == '+'))
    ensures r.Some? && r.value < 0 ==> s[0] == '-'
  {
    if |s| > 1 && s[0] == '-' && AllDigits(s[1..]) then Some(-(DigitsValue(s[1..]) as int))
    else if |s| > 1 && s[0] == '+' && AllDigits(s[1..]) then Some(DigitsValue(s[1..]))
    else if |s| > 0 && AllDigits(s) then Some(DigitsValue(s))
    else None
  }

  /** `str(n)` for a natural number: its shortest decimal digits. */
  function ShowNat(n: nat): (s: string)
    ensures s != [] && AllDigits(s)
    ensures DigitsValue(s) == n
  {
    if n < 10 then [Digit(n)]
    else
      var s := ShowNat(n / 10) + [Digit(n % 10)];
      assert s[..|s| - 1] == ShowNat(n / 10);
      s
  }

  /** `str(n)` for an integer. */
  function ShowInt(n: int): string
  {
    if n < 0 then "-" + ShowNat(-n) else ShowNat(n)
  }

  /** `int(str(n)) == n` for every integer `n`. */
  lemma ParseIntShowInt(n: int)
    ensures ParseInt(ShowInt(n)) == Some(n)
  {
    if n < 0 {
      assert ShowInt(n)[1..] == ShowNat(-n);
    } else {
      assert ShowInt(n)[0] == ShowNat(n)[0];
    }
  }
}
