/** The few java.lang.String / kotlin.text operations the file-name code uses,
    over Dafny strings (sequences of char). */
module Strings {

  /** String.indexOf(char): the position of the first `c`, or -1 when there is none. */
  function IndexOf(s: string, c: char): (r: int)
    ensures -1 <= r < |s|
    ensures r == -1 <==> c !in s
    ensures r >= 0 ==> s[r] == c && c !in s[..r]
  {
    if s == [] then -1
    else if s[0] == c then 0
    else
      var k := IndexOf(s[1..], c);
      if k == -1 then -1 else k + 1
  }

  /** String.lastIndexOf(char): the position of the last `c`, or -1 when there is none. */
  function LastIndexOf(s: string, c: char): (r: int)
    ensures -1 <= r < |s|
    ensures r == -1 <==> c !in s
    ensures r >= 0 ==> s[r] == c && c !in s[r + 1..]
  {
    if s == [] then -1
    else if s[|s| - 1] == c then |s| - 1
    else
      var t := s[..|s| - 1];
      var k := LastIndexOf(t, c);
      assert s == t + [s[|s| - 1]];
      if k == -1 then k
      else
        assert s[k + 1..] == t[k + 1..] + [s[|s| - 1]];
        k
  }

  /** The first `c` comes no later than any `c`. */
  lemma {:induction false} IndexOfAtMost(s: string, c: char, j: nat)
    requires j < |s| && s[j] == c
    ensures 0 <= IndexOf(s, c) <= j
  {
    if s[0] != c {
      IndexOfAtMost(s[1..], c, j - 1);
    }
  }

  /** In `k + [c] + e` with no `c` in `k`, the first `c` is the one after `k`. */
  lemma IndexOfSplit(k: string, c: char, e: string)
    requires c !in k
    ensures IndexOf(k + [c] + e, c) == |k|
  {
    var s := k + [c] + e;
    IndexOfAtMost(s, c, |k|);
    assert s[..IndexOf(s, c)] == k[..IndexOf(s, c)];
  }

  /** In `k + [c] + e` with no `c` in `e`, the last `c` is the one after `k`. */
  lemma {:induction false} LastIndexOfSplit(k: string, c: char, e: string)
    requires c !in e
    ensures LastIndexOf(k + [c] + e, c) == |k|
    decreases |e|
  {
    var s := k + [c] + e;
    if e != [] {
      assert s[|s| - 1] == e[|e| - 1];
      assert s[..|s| - 1] == k + [c] + e[..|e| - 1];
      LastIndexOfSplit(k, c, e[..|e| - 1]);
    }
  }

  /** Kotlin's String.substringAfter(delimiter: Char): the text after the first
      delimiter, or the whole string when the delimiter does not occur. */
  function SubstringAfter(s: string, c: char): (r: string)
    ensures c !in s ==> r == s
    ensures c in s ==> exists k :: s == k + [c] + r && c !in k
  {
    var i := IndexOf(s, c);
    if i == -1 then s
    else
      assert s == s[..i] + [c] + s[i + 1..];
      s[i + 1..]
  }

  /** `pat` occurs in `s` starting at position i. */
  predicate OccursAt(s: string, pat: string, i: nat) {
    i + |pat| <= |s| && s[i..i + |pat|] == pat
  }

  /** String.replace(pat, "") in Java and in Kotlin: scan left to right and drop
      every non-overlapping occurrence of `pat`. An empty `pat` leaves `s` alone. */
  function RemoveAll(s: string, pat: string): (r: string)
    ensures |r| <= |s|
    decreases |s|
  {
    if pat == [] || |s| < |pat| then s
    else if s[..|pat|] == pat then RemoveAll(s[|pat|..], pat)
    else [s[0]] + RemoveAll(s[1..], pat)
  }

  /** Where `pat` does not occur, nothing is removed. */
  lemma {:induction false} RemoveAllAbsent(s: string, pat: string)
    requires forall i: nat :: !OccursAt(s, pat, i)
    ensures RemoveAll(s, pat) == s
    decreases |s|
  {
    if pat == [] || |s| < |pat| {
    } else {
      assert !OccursAt(s, pat, 0);
      assert s[..|pat|] != pat;
      forall i: nat ensures !OccursAt(s[1..], pat, i) {
        assert !OccursAt(s, pat, i + 1);
        if i + |pat| <= |s[1..]| {
          assert s[1..][i..i + |pat|] == s[i + 1..i + 1 + |pat|];
        }
      }
      RemoveAllAbsent(s[1..], pat);
      assert s == [s[0]] + s[1..];
    }
  }

  /** A pattern whose first character is not in `k` is removed from `k + pat`
      exactly once, leaving `k`. */
  lemma {:induction false} RemoveAllAfterFreeStem(k: string, pat: string)
    requires pat != [] && pat[0] !in k
    ensures RemoveAll(k + pat, pat) == k
    decreases |k|
  {
    var s := k + pat;
    if k == [] {
      assert s[..|pat|] == pat && s[|pat|..] == [];
    } else {
      assert s[0] == k[0] != pat[0];
      assert s[1..] == k[1..] + pat;
      RemoveAllAfterFreeStem(k[1..], pat);
      assert k == [k[0]] + k[1..];
    }
  }

  /** A pattern holding a character that `s` lacks does not occur in `s`. */
  lemma RemoveAllMissingChar(s: string, pat: string, c: char)
    requires c in pat && c !in s
    ensures RemoveAll(s, pat) == s
  {
    var k :| 0 <= k < |pat| && pat[k] == c;
    forall i: nat ensures !OccursAt(s, pat, i) {
      if i + |pat| <= |s| {
        assert s[i..i + |pat|][k] == s[i + k] != c;
      }
    }
    RemoveAllAbsent(s, pat);
  }

  /** A pattern whose first character does not occur again inside it (such as
      "." followed by dot-free text) cannot straddle the point where it is
      appended: removing it from `k + pat` is removing it from `k` alone. */
  lemma {:induction false} RemoveAllTrailing(k: string, pat: string)
    requires pat != []
    requires forall i :: 1 <= i < |pat| ==> pat[i] != pat[0]
    ensures RemoveAll(k + pat, pat) == RemoveAll(k, pat)
    decreases |k|
  {
    var s := k + pat;
    if k == [] {
      assert s[..|pat|] == pat;
      assert s[|pat|..] == [];
    } else if s[..|pat|] == pat {
      // an occurrence at 0 shorter than pat would put pat[0] at offset |k| inside pat
      var m := if |k| < |pat| then |k| else 0;
      assert pat[m] == s[m];
      assert k[..|pat|] == pat;
      assert s[|pat|..] == k[|pat|..] + pat;
      RemoveAllTrailing(k[|pat|..], pat);
    } else {
      assert s[1..] == k[1..] + pat;
      RemoveAllTrailing(k[1..], pat);
      if |k| >= |pat| {
        assert k[..|pat|] == s[..|pat|];
      }
    }
  }

  /** The decimal digit for 0 <= d < 10. */
  function Digit(d: nat): char
    requires d < 10
  {
    "0123456789"[d]
  }

  /** The value of a decimal digit character. */
  function DigitValue(c: char): nat
  {
    if '0' <= c <= '9' then (c - '0') as nat else 0
  }

  /** Long.toString / String.valueOf for a non-negative number. */
  function DecimalString(n: nat): (r: string)
    ensures |r| >= 1
    ensures forall i :: 0 <= i < |r| ==> '0' <= r[i] <= '9'
    ensures r[0] == '0' ==> n == 0 && r == "0"
    decreases n
  {
    if n < 10 then [Digit(n)] else DecimalString(n / 10) + [Digit(n % 10)]
  }

  /** Reads a string of decimal digits back as a number. */
  function ParseDecimal(s: string): nat
    decreases |s|
  {
    if s == [] then 0 else ParseDecimal(s[..|s| - 1]) * 10 + DigitValue(s[|s| - 1])
  }

  /** Printing a number in decimal loses nothing. */
  lemma {:induction false} DecimalRoundTrip(n: nat)
    ensures ParseDecimal(DecimalString(n)) == n
    decreases n
  {
    var s := DecimalString(n);
    if n < 10 {
      assert s[..0] == [];
    } else {
      DecimalRoundTrip(n / 10);
      assert s[..|s| - 1] == DecimalString(n / 10);
    }
  }
}
