/**
 * The few Python string operations the core relies on: `strip`, `in`,
 * `split`, `isdigit`, `int()` and `str()` of an integer.
 */
module Text {
  import opened Wrappers

  /** Python's `str.isspace()` for one code point: the characters `str.strip()` removes. */
  predicate IsSpace(c: char) {
    || ('\t' <= c <= '\r')
    || ('\U{1C}' <= c <= '\U{1F}')
    || c == ' ' || c == '\U{85}' || c == '\U{A0}' || c == '\U{1680}'
    || ('\U{2000}' <= c <= '\U{200A}')
    || c == '\U{2028}' || c == '\U{2029}' || c == '\U{202F}' || c == '\U{205F}' || c == '\U{3000}'
  }

  predicate IsQuote(c: char) {
    c == '"'
  }

  /** Removes the longest prefix of characters satisfying `drop`. */
  function DropWhile(s: string, drop: char -> bool): string {
    if |s| > 0 && drop(s[0]) then DropWhile(s[1..], drop) else s
  }

  /** `DropWhile` leaves a suffix whose dropped prefix is all `drop` and whose head is not. */
  lemma {:induction false} DropWhileFacts(s: string, drop: char -> bool)
    ensures var r := DropWhile(s, drop);
      && |r| <= |s| && r == s[|s| - |r|..]
      && (forall i :: 0 <= i < |s| - |r| ==> drop(s[i]))
      && (r == [] || !drop(r[0]))
  {
    if |s| > 0 && drop(s[0]) {
      DropWhileFacts(s[1..], drop);
      var r := DropWhile(s[1..], drop);
      forall i | 0 <= i < |s| - |r| ensures drop(s[i]) {
        if i > 0 {
          assert s[i] == s[1..][i - 1];
        }
      }
    }
  }

  /** Removes the longest suffix of characters satisfying `drop`. */
  function DropWhileEnd(s: string, drop: char -> bool): string {
    if |s| > 0 && drop(s[|s| - 1]) then DropWhileEnd(s[..|s| - 1], drop) else s
  }

  /** `DropWhileEnd` leaves a prefix whose dropped suffix is all `drop` and whose last character is not. */
  lemma {:induction false} DropWhileEndFacts(s: string, drop: char -> bool)
    ensures var r := DropWhileEnd(s, drop);
      && |r| <= |s| && r == s[..|r|]
      && (forall i :: |r| <= i < |s| ==> drop(s[i]))
      && (r == [] || !drop(r[|r| - 1]))
  {
    if |s| > 0 && drop(s[|s| - 1]) {
      DropWhileEndFacts(s[..|s| - 1], drop);
      var r := DropWhileEnd(s[..|s| - 1], drop);
      forall i | |r| <= i < |s| ensures drop(s[i]) {
        if i < |s| - 1 {
          assert s[i] == s[..|s| - 1][i];
        }
      }
    }
  }

  /** A string with nothing left to strip at either end. */
  predicate Stripped(s: string, drop: char -> bool) {
    s == [] || (!drop(s[0]) && !drop(s[|s| - 1]))
  }

  /** How many characters `DropWhile` removes from the front of `s`. */
  function LeadingLen(s: string, drop: char -> bool): int {
    |s| - |DropWhile(s, drop)|
  }

  /**
   * Python's `s.strip(chars)`, with the characters given by `drop`: the
   * slice of `s` left after the dropped characters at both ends.
   */
  function StripBy(s: string, drop: char -> bool): string {
    DropWhileEnd(DropWhile(s, drop), drop)
  }

  /**
   * The result of stripping is the slice `s[a..a + |r|]` with nothing left to
   * strip, and everything before and after it is dropped.
   */
  lemma StripByFacts(s: string, drop: char -> bool)
    ensures var r := StripBy(s, drop); var a := LeadingLen(s, drop);
      && Stripped(r, drop)
      && 0 <= a && a + |r| <= |s| && r == s[a..a + |r|]
      && (forall i :: 0 <= i < a ==> drop(s[i]))
      && (forall i :: a + |r| <= i < |s| ==> drop(s[i]))
  {
    var t := DropWhile(s, drop);
    DropWhileFacts(s, drop);
    DropWhileEndFacts(t, drop);
    var r := DropWhileEnd(t, drop);
    var a := |s| - |t|;
    assert t == s[a..];
    assert r != [] ==> r[0] == t[0];
    assert forall i :: a + |r| <= i < |s| ==> s[i] == t[i - a];
  }

  /** Python's `s.strip()`. */
  function Strip(s: string): string {
    StripBy(s, IsSpace)
  }

  /** Python's `s.strip('"')`. */
  function StripQuotes(s: string): string {
    StripBy(s, IsQuote)
  }

  /** Stripping changes nothing exactly when there is nothing to strip. */
  lemma StripByIdentity(s: string, drop: char -> bool)
    ensures StripBy(s, drop) == s <==> Stripped(s, drop)
  {
    StripByFacts(s, drop);
    if Stripped(s, drop) && s != [] {
      assert DropWhile(s, drop) == s;
      assert DropWhileEnd(s, drop) == s;
    }
  }

  /** Stripping twice is stripping once. */
  lemma StripByIdempotent(s: string, drop: char -> bool)
    ensures StripBy(StripBy(s, drop), drop) == StripBy(s, drop)
  {
    StripByFacts(s, drop);
    StripByIdentity(StripBy(s, drop), drop);
  }

  /** `pat` occurs in `s` starting at position `k`. */
  predicate OccursAt(s: string, pat: string, k: int) {
    0 <= k && k + |pat| <= |s| && s[k..k + |pat|] == pat
  }

  /** The first occurrence of `pat` in `s` at or after `from`. */
  function IndexOfFrom(s: string, pat: string, from: nat): (r: Option<nat>)
    decreases |s| - from
    ensures r.Some? ==> from <= r.value && OccursAt(s, pat, r.value)
    ensures r.Some? ==> forall j :: from <= j < r.value ==> !OccursAt(s, pat, j)
    ensures r.None? ==> forall j :: from <= j ==> !OccursAt(s, pat, j)
  {
    if from + |pat| > |s| then None
    else if s[from..from + |pat|] == pat then Some(from)
    else IndexOfFrom(s, pat, from + 1)
  }

  /** Python's `s.find(pat)`, with `None` for -1; `pat in s` is `IndexOf(s, pat).Some?`. */
  function IndexOf(s: string, pat: string): Option<nat> {
    IndexOfFrom(s, pat, 0)
  }

  /** The first index is fixed by an occurrence with none before it. */
  lemma IndexOfIsFirst(s: string, pat: string, k: nat)
    requires OccursAt(s, pat, k)
    requires forall j :: 0 <= j < k ==> !OccursAt(s, pat, j)
    ensures IndexOf(s, pat) == Some(k)
  {
  }

  lemma OccursAtChar(s: string, c: char, j: int)
    ensures OccursAt(s, [c], j) <==> 0 <= j < |s| && s[j] == c
  {
    if 0 <= j < |s| && s[j] == c {
      assert s[j..j + 1] == [c];
    }
  }

  /** Python's `s.split(sep)` for a one-character separator. */
  function Split(s: string, sep: char): (r: seq<string>)
    decreases |s|
    ensures |r| >= 1
    ensures forall i :: 0 <= i < |r| ==> sep !in r[i]
    ensures Join(r, sep) == s
  {
    match IndexOf(s, [sep])
    case None =>
      assert forall j :: 0 <= j < |s| ==> s[j] != sep by {
        forall j | 0 <= j < |s| ensures s[j] != sep {
          OccursAtChar(s, sep, j);
        }
      }
      [s]
    case Some(k) =>
      OccursAtChar(s, sep, k);
      assert forall j :: 0 <= j < k ==> s[j] != sep by {
        forall j | 0 <= j < k ensures s[j] != sep {
          OccursAtChar(s, sep, j);
        }
      }
      var rest := Split(s[k + 1..], sep);
      assert s == s[..k] + [sep] + s[k + 1..];
      [s[..k]] + rest
  }

  /** Python's `sep.join(parts)`. */
  function Join(parts: seq<string>, sep: char): string {
    if |parts| == 0 then ""
    else if |parts| == 1 then parts[0]
    else parts[0] + [sep] + Join(parts[1..], sep)
  }

  /** Splitting undoes joining parts that do not contain the separator. */
  lemma {:induction false} SplitJoin(parts: seq<string>, sep: char)
    requires |parts| >= 1
    requires forall i :: 0 <= i < |parts| ==> sep !in parts[i]
    ensures Split(Join(parts, sep), sep) == parts
  {
    var s := Join(parts, sep);
    var p := parts[0];
    if |parts| == 1 {
      assert forall j :: 0 <= j ==> !OccursAt(s, [sep], j) by {
        forall j | 0 <= j ensures !OccursAt(s, [sep], j) {
          OccursAtChar(s, sep, j);
        }
      }
    } else {
      assert s == p + [sep] + Join(parts[1..], sep);
      OccursAtChar(s, sep, |p|);
      forall j | 0 <= j < |p| ensures !OccursAt(s, [sep], j) {
        OccursAtChar(s, sep, j);
        assert s[j] == p[j];
      }
      IndexOfIsFirst(s, [sep], |p|);
      assert s[..|p|] == p;
      assert s[|p| + 1..] == Join(parts[1..], sep);
      SplitJoin(parts[1..], sep);
    }
  }

  predicate IsDigit(c: char) {
    '0' <= c <= '9'
  }

  /** Python's `s.isdigit()` over ASCII digits: non-empty and digits only. */
  predicate IsDigits(s: string) {
    |s| > 0 && forall i :: 0 <= i < |s| ==> IsDigit(s[i])
  }

  function DigitValue(c: char): nat
    requires IsDigit(c)
  {
    c as int - '0' as int
  }

  /** The decimal value of a string of digits. */
  function DigitsValue(s: string): nat
    requires forall i :: 0 <= i < |s| ==> IsDigit(s[i])
  {
    if |s| == 0 then 0
    else DigitsValue(s[..|s| - 1]) * 10 + DigitValue(s[|s| - 1])
  }

  /** Python's `int(s)` on an already stripped token: an optional sign and decimal digits. */
  function ParseInt(s: string): (r: Option<int>)
    ensures r.Some? ==> IsDigits(s) || (|s| > 1 && (s[0] == '-' || s[0] == '+') && IsDigits(s[1..]))
    ensures IsDigits(s) ==> r == Some(DigitsValue(s))
    ensures |s| > 1 && (s[0] == '-' || s[0] == '+') && IsDigits(s[1..]) ==>
      r == Some(if s[0] == '-' then -(DigitsValue(s[1..]) as int) else DigitsValue(s[1..]))
    ensures r.None? <==> !IsDigits(s) && !(|s| > 1 && (s[0] == '-' || s[0] == '+') && IsDigits(s[1..]))
  {
    if |s| > 0 && (s[0] == '-' || s[0] == '+') && IsDigits(s[1..]) then
      var v: int := DigitsValue(s[1..]);
      Some(if s[0] == '-' then -v else v)
    else if IsDigits(s) then Some(DigitsValue(s))
    else None
  }

  function DigitChar(d: nat): (c: char)
    requires d < 10
    ensures IsDigit(c) && DigitValue(c) == d
  {
    ('0' as int + d) as char
  }

  /** Python's `str(n)` for a natural number. */
  function NatToString(n: nat): (r: string)
    ensures IsDigits(r)
    ensures DigitsValue(r) == n
  {
    if n < 10 then [DigitChar(n)]
    else
      var r := NatToString(n / 10) + [DigitChar(n % 10)];
      assert r[..|r| - 1] == NatToString(n / 10);
      r
  }

  /** Python's `str(i)` for an integer. */
  function IntToString(i: int): (r: string)
    ensures |r| > 0 && forall k :: 0 <= k < |r| ==> IsDigit(r[k]) || r[k] == '-'
  {
    if i < 0 then "-" + NatToString(-i) else NatToString(i)
  }

  /** `int(str(i)) == i`. */
  lemma ParseIntToString(i: int)
    ensures ParseInt(IntToString(i)) == Some(i)
  {
    if i < 0 {
      assert IntToString(i)[1..] == NatToString(-i);
    }
  }
}
