/**
 * Decimal rendering of integers and joining of strings: the parts of Go's
 * `fmt.Sprintf("%d", ...)` and `strings.Join` that the renderers use,
 * with a parser that reads a rendered integer back.
 */
module Text {
  import opened Wrappers

  predicate IsDigit(c: char) {
    '0' <= c <= '9'
  }

  predicate AllDigits(s: string) {
    forall i :: 0 <= i < |s| ==> IsDigit(s[i])
  }

  function DigitChar(d: nat): (c: char)
    requires d < 10
    ensures IsDigit(c) && DigitValue(c) == d
  {
    (d + '0' as int) as char
  }

  function DigitValue(c: char): (d: nat)
    requires IsDigit(c)
    ensures d < 10
  {
    c as int - '0' as int
  }

  /** The shortest decimal digit string of n ("0" for zero). */
  function NatToString(n: nat): (s: string)
    ensures |s| > 0 && AllDigits(s)
    ensures s[0] == '0' ==> n == 0 && |s| == 1
    decreases n
  {
    if n < 10 then [DigitChar(n)] else NatToString(n / 10) + [DigitChar(n % 10)]
  }

  /** The number a digit string denotes (leading zeros allowed). */
  function ParseDigits(s: string): nat
    requires AllDigits(s)
  {
    if s == [] then 0 else ParseDigits(s[..|s| - 1]) * 10 + DigitValue(s[|s| - 1])
  }

  /** Go's "%d": an optional minus sign followed by the digits of |v|. */
  function IntToString(v: int): (s: string)
    ensures |s| > 0
    ensures v < 0 <==> s[0] == '-'
  {
    if v < 0 then "-" + NatToString(-v) else NatToString(v)
  }

  /** Reads an optional minus sign followed by one or more digits. */
  function ParseInt(s: string): Option<int> {
    if |s| > 1 && s[0] == '-' && AllDigits(s[1..]) then Some(0 - ParseDigits(s[1..]) as int)
    else if |s| > 0 && AllDigits(s) then Some(ParseDigits(s))
    else None
  }

  /** Go's strings.Join: the parts with sep between neighbours; "" for none. */
  function Join(parts: seq<string>, sep: string): string {
    if |parts| == 0 then ""
    else if |parts| == 1 then parts[0]
    else parts[0] + sep + Join(parts[1..], sep)
  }

  // ---------------------------------------------------------------------
  // Round trip of the decimal renderer
  // ---------------------------------------------------------------------

  lemma {:induction false} NatRoundTrip(n: nat)
    ensures ParseDigits(NatToString(n)) == n
    decreases n
  {
    if n >= 10 {
      var s := NatToString(n);
      NatRoundTrip(n / 10);
      assert s[..|s| - 1] == NatToString(n / 10);
    }
  }

  /** The decimal rendering reads back as the number it renders. */
  lemma IntRoundTrip(v: int)
    ensures ParseInt(IntToString(v)) == Some(v)
  {
    var s := IntToString(v);
    if v < 0 {
      assert s[1..] == NatToString(-v);
      NatRoundTrip(-v);
    } else {
      NatRoundTrip(v);
    }
  }

  /** Different numbers render differently. */
  lemma IntToStringInjective(v: int, w: int)
    requires IntToString(v) == IntToString(w)
    ensures v == w
  {
    IntRoundTrip(v);
    IntRoundTrip(w);
  }

  /** Every character of a rendered integer is a digit or the minus sign. */
  lemma IntToStringChars(v: int)
    ensures forall i :: 0 <= i < |IntToString(v)| ==> IntToString(v)[i] == '-' || IsDigit(IntToString(v)[i])
  {
    var s := IntToString(v);
    if v < 0 {
      assert s[1..] == NatToString(-v);
      forall i | 1 <= i < |s| ensures IsDigit(s[i]) {
        assert s[i] == s[1..][i - 1];
      }
    }
  }

  // ---------------------------------------------------------------------
  // Join and its inverse
  // ---------------------------------------------------------------------

  /** sep occurs in s at position i. */
  predicate OccursAt(s: string, sep: string, i: nat) {
    i + |sep| <= |s| && s[i..i + |sep|] == sep
  }

  lemma OccursHead(s: string, sep: string, i: nat)
    requires |sep| > 0
    ensures OccursAt(s, sep, i) ==> s[i] == sep[0]
  {
    if OccursAt(s, sep, i) {
      assert s[i..i + |sep|][0] == s[i];
    }
  }

  /** The first position at or after from where sep occurs. */
  function FirstOccurrence(s: string, sep: string, from: nat): (i: nat)
    requires exists j :: from <= j && OccursAt(s, sep, j)
    ensures from <= i && OccursAt(s, sep, i)
    ensures forall j :: from <= j < i ==> !OccursAt(s, sep, j)
    decreases |s| - from
  {
    if OccursAt(s, sep, from) then from else FirstOccurrence(s, sep, from + 1)
  }

  /** The pieces of s between the occurrences of sep, read left to right. */
  function Split(s: string, sep: string): (parts: seq<string>)
    requires |sep| > 0
    ensures |parts| > 0
    decreases |s|
  {
    if exists j :: 0 <= j < |s| && OccursAt(s, sep, j) then
      var i := FirstOccurrence(s, sep, 0);
      [s[..i]] + Split(s[i + |sep|..], sep)
    else [s]
  }

  /** No part holds the first character of the separator. */
  predicate SeparatorFree(parts: seq<string>, sep: string)
    requires |sep| > 0
  {
    forall k, j :: 0 <= k < |parts| && 0 <= j < |parts[k]| ==> parts[k][j] != sep[0]
  }

  /** Splitting a join recovers the parts when none of them holds the separator. */
  lemma {:induction false} SplitJoin(parts: seq<string>, sep: string)
    requires |parts| > 0 && |sep| > 0 && SeparatorFree(parts, sep)
    ensures Split(Join(parts, sep), sep) == parts
    decreases |parts|
  {
    var s := Join(parts, sep);
    var p := parts[0];
    assert forall j :: 0 <= j < |p| ==> p[j] != sep[0];
    if |parts| == 1 {
      PrefixFree(s, sep, |s|);
    } else {
      var t := Join(parts[1..], sep);
      JoinHead(p, sep, t);
      PrefixFree(s, sep, |p|);
      var i := FirstOccurrence(s, sep, 0);
      assert i == |p|;
      SeparatorFreeTail(parts, sep);
      SplitJoin(parts[1..], sep);
    }
  }

  lemma JoinHead(p: string, sep: string, t: string)
    ensures var s := p + sep + t;
      && OccursAt(s, sep, |p|)
      && s[..|p|] == p
      && s[|p| + |sep|..] == t
      && forall j :: 0 <= j < |p| ==> s[j] == p[j]
  {
    var s := p + sep + t;
    assert s[|p|..|p| + |sep|] == sep;
  }

  /** No occurrence of sep starts among the first n characters when none of them is sep[0]. */
  lemma PrefixFree(s: string, sep: string, n: nat)
    requires |sep| > 0 && n <= |s|
    requires forall j :: 0 <= j < n ==> s[j] != sep[0]
    ensures forall j :: 0 <= j < n ==> !OccursAt(s, sep, j)
  {
    forall j | 0 <= j < n ensures !OccursAt(s, sep, j) {
      OccursHead(s, sep, j);
    }
  }

  lemma SeparatorFreeTail(parts: seq<string>, sep: string)
    requires |parts| > 0 && |sep| > 0 && SeparatorFree(parts, sep)
    ensures SeparatorFree(parts[1..], sep)
  {
    forall k, j | 0 <= k < |parts[1..]| && 0 <= j < |parts[1..][k]| ensures parts[1..][k][j] != sep[0] {
      assert parts[1..][k] == parts[k + 1];
    }
  }
}
