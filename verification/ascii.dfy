/**
 * The glib string primitives the daemon relies on, on strings of `char`
 * (ASCII semantics only, as the g_ascii_* family has).
 */
module Ascii {
  import opened Wrappers

  /** g_ascii_tolower on one character. */
  function LowerChar(c: char): char {
    if 'A' <= c <= 'Z' then (c as int + 32) as char else c
  }

  /** `c` is not an upper-case ASCII letter (digits, punctuation and other characters qualify). */
  predicate NotUpperAscii(c: char) {
    !('A' <= c <= 'Z')
  }

  /** g_ascii_strdown: every ASCII capital replaced by its small letter. */
  function Lower(s: string): (r: string)
    ensures |r| == |s|
    ensures forall i :: 0 <= i < |s| ==> r[i] == LowerChar(s[i])
    ensures forall i :: 0 <= i < |r| ==> NotUpperAscii(r[i])
  {
    seq(|s|, i requires 0 <= i < |s| => LowerChar(s[i]))
  }

  lemma LowerIdempotent(s: string)
    ensures Lower(Lower(s)) == Lower(s)
  {
  }

  /** g_ascii_strcasecmp(a, b) == 0. */
  predicate CaseEqual(a: string, b: string) {
    Lower(a) == Lower(b)
  }

  /** g_str_has_prefix. */
  predicate HasPrefix(s: string, prefix: string) {
    |prefix| <= |s| && s[..|prefix|] == prefix
  }

  /** g_str_has_suffix. */
  predicate HasSuffix(s: string, suffix: string) {
    |suffix| <= |s| && s[|s| - |suffix|..] == suffix
  }

  /** strchr: the index of the first occurrence of `c`, if any. */
  function IndexOf(s: string, c: char): (r: Option<nat>)
    ensures r.Some? ==> r.value < |s| && s[r.value] == c
    ensures r.Some? ==> forall i :: 0 <= i < r.value ==> s[i] != c
    ensures r.None? ==> forall i :: 0 <= i < |s| ==> s[i] != c
  {
    if s == [] then None
    else if s[0] == c then Some(0)
    else match IndexOf(s[1..], c)
      case None => None
      case Some(i) => Some(i + 1)
  }

  lemma IndexOfAppend(a: string, b: string, c: char)
    requires forall i :: 0 <= i < |a| ==> a[i] != c
    ensures IndexOf(a + b, c) == (match IndexOf(b, c) case None => None case Some(i) => Some(|a| + i))
  {
    var r := IndexOf(a + b, c);
    var q := IndexOf(b, c);
    if q.Some? {
      assert (a + b)[|a| + q.value] == c;
      assert forall i :: 0 <= i < |a| + q.value ==> (a + b)[i] != c by {
        forall i | 0 <= i < |a| + q.value ensures (a + b)[i] != c {
          if i >= |a| { assert (a + b)[i] == b[i - |a|]; }
        }
      }
    } else {
      assert forall i :: 0 <= i < |a + b| ==> (a + b)[i] != c by {
        forall i | 0 <= i < |a + b| ensures (a + b)[i] != c {
          if i >= |a| { assert (a + b)[i] == b[i - |a|]; }
        }
      }
    }
  }

  /** Whether `c` occurs anywhere in `s`. */
  predicate Contains(s: string, c: char) {
    exists i :: 0 <= i < |s| && s[i] == c
  }

  /**
   * g_strsplit(s, sep, -1): the pieces between occurrences of `sep`; an empty
   * string gives no pieces at all, and a separator at either end gives an
   * empty piece there.
   */
  function Split(s: string, sep: char): (r: seq<string>)
    ensures s == [] ==> r == []
    ensures s != [] ==> |r| > 0
    ensures forall k :: 0 <= k < |r| ==> !Contains(r[k], sep)
  {
    if s == [] then [] else SplitPieces(s, sep)
  }

  function SplitPieces(s: string, sep: char): (r: seq<string>)
    ensures |r| > 0
    ensures forall k :: 0 <= k < |r| ==> !Contains(r[k], sep)
    decreases |s|
  {
    match IndexOf(s, sep)
    case None => [s]
    case Some(i) => [s[..i]] + SplitPieces(s[i + 1..], sep)
  }

  /** Joining the pieces back with the separator gives the string again. */
  function Join(pieces: seq<string>, sep: char): string
    requires |pieces| > 0
  {
    if |pieces| == 1 then pieces[0] else pieces[0] + [sep] + Join(pieces[1..], sep)
  }

  lemma {:induction false} SplitJoin(s: string, sep: char)
    requires s != []
    ensures Join(Split(s, sep), sep) == s
  {
    SplitPiecesJoin(s, sep);
  }

  lemma {:induction false} SplitPiecesJoin(s: string, sep: char)
    ensures Join(SplitPieces(s, sep), sep) == s
    decreases |s|
  {
    match IndexOf(s, sep)
    case None =>
    case Some(i) =>
      SplitPiecesJoin(s[i + 1..], sep);
      assert s == s[..i] + [sep] + s[i + 1..];
  }

  function DigitChar(d: nat): char
    requires d < 10
  {
    ('0' as int + d) as char
  }

  /** The number a string of decimal digits denotes, most significant first. */
  function DigitsValue(s: string): nat
    requires forall i :: 0 <= i < |s| ==> '0' <= s[i] <= '9'
  {
    if s == [] then 0 else DigitsValue(s[..|s| - 1]) * 10 + (s[|s| - 1] as int - '0' as int)
  }

  /** printf's "%lu": the decimal digits of `n`, most significant first. */
  function Decimal(n: nat): (r: string)
    ensures |r| > 0
    ensures forall i :: 0 <= i < |r| ==> '0' <= r[i] <= '9'
  {
    if n < 10 then [DigitChar(n)] else Decimal(n / 10) + [DigitChar(n % 10)]
  }

  /** The digits printed denote `n`, and there is no leading zero. */
  lemma {:induction false} DecimalValue(n: nat)
    ensures DigitsValue(Decimal(n)) == n
    ensures |Decimal(n)| > 1 ==> Decimal(n)[0] != '0'
  {
    if n >= 10 {
      DecimalValue(n / 10);
      var front := Decimal(n / 10);
      assert Decimal(n)[..|front|] == front;
      assert Decimal(n)[0] == front[0];
    }
  }

  /** Different numbers print differently. */
  lemma DecimalInjective(a: nat, b: nat)
    ensures Decimal(a) == Decimal(b) <==> a == b
  {
    DecimalValue(a);
    DecimalValue(b);
  }

  lemma DecimalExamples()
    ensures Decimal(0) == "0" && Decimal(123) == "123" && Decimal(1234) == "1234"
  {
    assert Decimal(12) == "12";
    assert Decimal(123) == "123";
  }
}
