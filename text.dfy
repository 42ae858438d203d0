/**
 * The Python string built-ins the release scripts rely on, over `string` (a `seq<char>`):
 * `needle in hay`, `s.replace(pat, "")`, `str(n)` for a non-negative int and `s.zfill(width)`.
 */
module Text {

  predicate IsDigit(c: char)
  {
    '0' <= c <= '9'
  }

  predicate AllDigits(s: string)
  {
    forall k :: 0 <= k < |s| ==> IsDigit(s[k])
  }

  /** `n` copies of `s`, one after the other. */
  function Repeat<T>(s: seq<T>, n: nat): seq<T>
  {
    if n == 0 then [] else Repeat(s, n - 1) + s
  }

  /** Every element of the copies is an element of `s`. */
  lemma {:induction false} RepeatElements<T>(s: seq<T>, n: nat, x: T)
    requires x in Repeat(s, n)
    ensures x in s
  {
    if n > 0 && x !in s {
      RepeatElements(s, n - 1, x);
    }
  }

  /** Fewer copies form a prefix of more copies. */
  lemma {:induction false} RepeatPrefix<T>(s: seq<T>, m: nat, n: nat)
    requires m <= n
    ensures Repeat(s, m) <= Repeat(s, n)
    decreases n
  {
    if m < n {
      RepeatPrefix(s, m, n - 1);
    }
  }

  /** Python's `needle in hay`; the empty needle is in every string. */
  predicate Contains(hay: string, needle: string)
    ensures Contains(hay, needle) ==> |needle| <= |hay|
    ensures needle == [] ==> Contains(hay, needle)
    decreases |hay|
  {
    needle <= hay || (hay != [] && Contains(hay[1..], needle))
  }

  /** `needle` sits in `hay` at position `k`. */
  predicate OccursAt(hay: string, needle: string, k: int)
  {
    0 <= k <= |hay| - |needle| && hay[k..k + |needle|] == needle
  }

  /** `Contains` agrees with the slice-based reading of `needle in hay`. */
  lemma ContainsIffOccurs(hay: string, needle: string)
    ensures Contains(hay, needle) <==> exists k :: OccursAt(hay, needle, k)
  {
    if Contains(hay, needle) {
      ContainsOccurs(hay, needle);
    }
    if exists k :: OccursAt(hay, needle, k) {
      var k :| OccursAt(hay, needle, k);
      OccursContains(hay, needle, k);
    }
  }

  lemma {:induction false} ContainsOccurs(hay: string, needle: string)
    requires Contains(hay, needle)
    ensures exists k :: OccursAt(hay, needle, k)
    decreases |hay|
  {
    if needle <= hay {
      assert OccursAt(hay, needle, 0);
    } else {
      ContainsOccurs(hay[1..], needle);
      var k :| OccursAt(hay[1..], needle, k);
      assert hay[k + 1..k + 1 + |needle|] == hay[1..][k..k + |needle|];
      assert OccursAt(hay, needle, k + 1);
    }
  }

  lemma {:induction false} OccursContains(hay: string, needle: string, k: int)
    requires OccursAt(hay, needle, k)
    ensures Contains(hay, needle)
    decreases k
  {
    if k > 0 {
      assert hay[1..][k - 1..k - 1 + |needle|] == hay[k..k + |needle|];
      OccursContains(hay[1..], needle, k - 1);
    } else {
      assert needle == hay[..|needle|];
    }
  }

  /** Python's `s.replace(pat, "")`: occurrences are removed left to right, without overlap, in one pass. */
  function RemoveAll(s: string, pat: string): (r: string)
    requires pat != []
    ensures |r| <= |s|
    decreases |s|
  {
    if pat <= s then RemoveAll(s[|pat|..], pat)
    else if s == [] then []
    else [s[0]] + RemoveAll(s[1..], pat)
  }

  /** A string in which `pat` does not occur is left as it is. */
  lemma {:induction false} RemoveAllAbsent(s: string, pat: string)
    requires pat != [] && !Contains(s, pat)
    ensures RemoveAll(s, pat) == s
    decreases |s|
  {
    if s != [] {
      RemoveAllAbsent(s[1..], pat);
    }
  }

  /** A leading occurrence of `pat` is dropped and the scan goes on behind it. */
  lemma RemoveAllLeading(s: string, pat: string)
    requires pat != []
    ensures RemoveAll(pat + s, pat) == RemoveAll(s, pat)
  {
    assert (pat + s)[|pat|..] == s;
  }

  /**
   * A pattern whose first character does not recur in it, behind a string `v` that does not
   * contain it: that trailing occurrence is removed and `v` is left as it is. No occurrence can
   * straddle the join, since it would have to begin with the first character inside the pattern.
   */
  lemma {:induction false} RemoveAllTrailing(v: string, pat: string)
    requires pat != [] && pat[0] !in pat[1..] && !Contains(v, pat)
    ensures RemoveAll(v + pat, pat) == v
    decreases |v|
  {
    var s := v + pat;
    if v == [] {
      assert s == pat;
      assert pat[|pat|..] == [];
    } else {
      assert !(pat <= s) by {
        if |pat| <= |v| {
          assert s[..|pat|] == v[..|pat|];
        } else {
          assert s[|v|] == pat[0] && pat[|v|] in pat[1..];
        }
      }
      assert s[1..] == v[1..] + pat;
      RemoveAllTrailing(v[1..], pat);
    }
  }

  /** A pattern whose second character is not in `v` does not occur in `v`. */
  lemma AbsentWithoutSecond(v: string, pat: string)
    requires |pat| >= 2 && pat[1] !in v
    ensures !Contains(v, pat)
  {
    ContainsIffOccurs(v, pat);
  }

  /**
   * One pass of removal is not idempotent: `pat` split by a copy of itself leaves `pat` behind,
   * which a second pass removes.
   */
  lemma RemovalNotIdempotent(pat: string)
    requires |pat| >= 2 && pat[0] != pat[1]
    ensures RemoveAll([pat[0]] + pat + pat[1..], pat) == pat
    ensures RemoveAll(pat, pat) == []
  {
    var s := [pat[0]] + pat + pat[1..];
    assert s[1] == pat[0];
    RemoveAllKeep(s, pat);
    assert s[1..] == pat + pat[1..];
    RemoveAllLeading(pat[1..], pat);
    RemoveAllAbsent(pat[1..], pat);
    assert [pat[0]] + pat[1..] == pat;
    assert pat[|pat|..] == [];
  }

  /** Where `pat` does not begin, the first character is kept and the scan moves on by one. */
  lemma RemoveAllKeep(s: string, pat: string)
    requires pat != [] && s != [] && !(pat <= s)
    ensures RemoveAll(s, pat) == [s[0]] + RemoveAll(s[1..], pat)
  {
  }

  function DigitChar(d: nat): (c: char)
    requires d < 10
    ensures IsDigit(c)
  {
    (d + '0' as int) as char
  }

  function DigitValue(c: char): (d: nat)
    requires IsDigit(c)
    ensures d < 10
  {
    c as int - '0' as int
  }

  /** Python's `str(n)` for `n >= 0`: decimal digits, no leading zero. */
  function Decimal(n: nat): (r: string)
    ensures r != [] && AllDigits(r)
    ensures (r[0] == '0') == (n == 0)
  {
    if n < 10 then [DigitChar(n)] else Decimal(n / 10) + [DigitChar(n % 10)]
  }

  /** The value of a string of decimal digits (leading zeros allowed). */
  function DecimalValue(s: string): nat
    requires AllDigits(s)
  {
    if s == [] then 0 else DecimalValue(s[..|s| - 1]) * 10 + DigitValue(s[|s| - 1])
  }

  /** Reading back what `Decimal` writes gives the number again. */
  lemma {:induction false} DecimalRoundTrip(n: nat)
    ensures DecimalValue(Decimal(n)) == n
  {
    if n >= 10 {
      DecimalRoundTrip(n / 10);
      var s := Decimal(n);
      assert s[..|s| - 1] == Decimal(n / 10);
    }
  }

  /** The number of digits `Decimal` writes, for the ranges the scripts format. */
  lemma {:induction false} DecimalLength(n: nat)
    ensures n < 10 ==> |Decimal(n)| == 1
    ensures 10 <= n < 100 ==> |Decimal(n)| == 2
    ensures 100 <= n < 1000 ==> |Decimal(n)| == 3
    ensures 1000 <= n < 10000 ==> |Decimal(n)| == 4
  {
    if n >= 10 {
      DecimalLength(n / 10);
    }
  }

  /** Leading zeros do not change the value of a digit string. */
  lemma {:induction false} DecimalValueLeadingZeros(zeros: string, s: string)
    requires forall k :: 0 <= k < |zeros| ==> zeros[k] == '0'
    requires AllDigits(s)
    ensures AllDigits(zeros + s) && DecimalValue(zeros + s) == DecimalValue(s)
    decreases |s|
  {
    if s == [] {
      assert zeros + s == zeros;
      DecimalValueOfZeros(zeros);
    } else {
      var t := zeros + s;
      assert t[..|t| - 1] == zeros + s[..|s| - 1];
      DecimalValueLeadingZeros(zeros, s[..|s| - 1]);
    }
  }

  lemma {:induction false} DecimalValueOfZeros(zeros: string)
    requires forall k :: 0 <= k < |zeros| ==> zeros[k] == '0'
    ensures AllDigits(zeros) && DecimalValue(zeros) == 0
    decreases |zeros|
  {
    if zeros != [] {
      DecimalValueOfZeros(zeros[..|zeros| - 1]);
    }
  }

  /** Python's `s.zfill(width)` for a string without a leading sign: pad with `'0'` on the left up to `width`. */
  function ZeroFill(s: string, width: nat): (r: string)
    requires s == [] || (s[0] != '+' && s[0] != '-')
    ensures |r| == if |s| < width then width else |s|
    ensures r[|r| - |s|..] == s
    ensures forall k :: 0 <= k < |r| - |s| ==> r[k] == '0'
  {
    if |s| < width then seq(width - |s|, _ => '0') + s else s
  }

  /** `str(n).zfill(2)` for `n < 100`: exactly two digits, which read back as `n`, with a leading `'0'` iff `n < 10`. */
  lemma TwoDigits(n: nat)
    requires n < 100
    ensures var r := ZeroFill(Decimal(n), 2);
      |r| == 2 && AllDigits(r) && DecimalValue(r) == n && (r[0] == '0' <==> n < 10)
  {
    DecimalLength(n);
    DecimalRoundTrip(n);
    var d := Decimal(n);
    var r := ZeroFill(d, 2);
    DecimalValueLeadingZeros(r[..|r| - |d|], d);
    assert r == r[..|r| - |d|] + d;
  }
}
