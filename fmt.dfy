/** The few pieces of Go's fmt and strings packages that the error messages
    and the config's string form rely on: decimal formatting of integers
    (`%d`), strings.Join, and `%s` applied to a []string. */
module Fmt {

  // ---------------------------------------------------------------------------
  // Decimal formatting (%d)
  // ---------------------------------------------------------------------------

  predicate IsDigit(c: char) {
    '0' <= c <= '9'
  }

  predicate AllDigits(s: string) {
    forall i :: 0 <= i < |s| ==> IsDigit(s[i])
  }

  function DigitChar(d: nat): (c: char)
    requires d < 10
    ensures IsDigit(c) && (c as int - '0' as int) == d
  {
    ('0' as int + d) as char
  }

  /** The decimal digits of x, most significant first, without leading
      zeros (0 itself is "0"). */
  function Digits(x: nat): (s: string)
    ensures |s| >= 1 && AllDigits(s)
    ensures s[0] == '0' ==> x == 0
  {
    if x < 10 then [DigitChar(x)] else Digits(x / 10) + [DigitChar(x % 10)]
  }

  /** The number a string of decimal digits denotes. */
  function DigitsValue(s: string): nat
    requires AllDigits(s)
  {
    if s == [] then 0 else 10 * DigitsValue(s[..|s| - 1]) + (s[|s| - 1] as int - '0' as int)
  }

  lemma {:induction false} DigitsRoundTrip(x: nat)
    ensures DigitsValue(Digits(x)) == x
  {
    var s := Digits(x);
    if x >= 10 {
      DigitsRoundTrip(x / 10);
      assert s[..|s| - 1] == Digits(x / 10);
    }
  }

  /** Go's `%d` on an integer: an optional minus sign, then the digits. */
  function FormatInt(x: int): (s: string)
    ensures IsDecimal(s)
    ensures s[0] == '-' <==> x < 0
  {
    if x < 0 then "-" + Digits(-x) else Digits(x)
  }

  predicate IsDecimal(s: string) {
    if |s| > 0 && s[0] == '-' then |s| > 1 && AllDigits(s[1..]) else |s| > 0 && AllDigits(s)
  }

  /** Reads back what FormatInt writes. */
  function ParseInt(s: string): int
    requires IsDecimal(s)
  {
    if s[0] == '-' then -(DigitsValue(s[1..]) as int) else DigitsValue(s)
  }

  lemma FormatIntRoundTrip(x: int)
    ensures IsDecimal(FormatInt(x)) && ParseInt(FormatInt(x)) == x
  {
    var s := FormatInt(x);
    if x < 0 {
      assert s[1..] == Digits(-x);
      DigitsRoundTrip(-x);
    } else {
      DigitsRoundTrip(x);
    }
  }

  /** Formatting is one-to-one: different integers print differently. */
  lemma FormatIntInjective(x: int, y: int)
    requires FormatInt(x) == FormatInt(y)
    ensures x == y
  {
    FormatIntRoundTrip(x);
    FormatIntRoundTrip(y);
  }

  // ---------------------------------------------------------------------------
  // Concatenation of pieces, as a format string with its verbs filled in
  // ---------------------------------------------------------------------------

  /** The pieces one after the other. */
  function Concat(parts: seq<string>): (s: string)
    ensures |s| == TotalLength(parts)
  {
    if parts == [] then "" else parts[0] + Concat(parts[1..])
  }

  /** Where piece k starts in Concat(parts). */
  function OffsetOf(parts: seq<string>, k: nat): nat
    requires k <= |parts|
  {
    TotalLength(parts[..k])
  }

  lemma {:induction false} TotalLengthAppend(parts: seq<string>, last: string)
    ensures TotalLength(parts + [last]) == TotalLength(parts) + |last|
  {
    if parts != [] {
      TotalLengthAppend(parts[1..], last);
      assert (parts + [last])[1..] == parts[1..] + [last];
    }
  }

  /** Each piece starts where the one before it ends; the first at 0, and
      the last ends where the text does. */
  lemma OffsetStep(parts: seq<string>, k: nat)
    requires k < |parts|
    ensures OffsetOf(parts, 0) == 0
    ensures OffsetOf(parts, k + 1) == OffsetOf(parts, k) + |parts[k]|
    ensures OffsetOf(parts, |parts|) == TotalLength(parts)
  {
    assert parts[..0] == [];
    assert parts[..k + 1] == parts[..k] + [parts[k]];
    TotalLengthAppend(parts[..k], parts[k]);
    assert parts[..|parts|] == parts;
  }

  /** Piece k of parts can be found in s at its offset. */
  predicate PieceAt(s: string, parts: seq<string>, k: nat)
    requires k < |parts|
  {
    OffsetOf(parts, k) + |parts[k]| <= |s| && s[OffsetOf(parts, k)..OffsetOf(parts, k) + |parts[k]|] == parts[k]
  }

  /** Every piece of a concatenation can be read back from its offset. */
  lemma {:induction false} ConcatPieces(parts: seq<string>)
    ensures forall k :: 0 <= k < |parts| ==> PieceAt(Concat(parts), parts, k)
  {
    if parts != [] {
      var s, tail := Concat(parts), parts[1..];
      ConcatPieces(tail);
      forall k | 0 <= k < |parts|
        ensures PieceAt(s, parts, k)
      {
        if k == 0 {
          assert parts[..0] == [];
        } else {
          assert PieceAt(Concat(tail), tail, k - 1);
          assert parts[..k][1..] == tail[..k - 1];
          assert OffsetOf(parts, k) == |parts[0]| + OffsetOf(tail, k - 1);
        }
      }
    }
  }

  // ---------------------------------------------------------------------------
  // strings.Join and %s on a slice of strings
  // ---------------------------------------------------------------------------

  function TotalLength(elems: seq<string>): nat
  {
    if elems == [] then 0 else |elems[0]| + TotalLength(elems[1..])
  }

  /** strings.Join: the elements in order with sep between neighbours; ""
      for no elements. */
  function Join(elems: seq<string>, sep: string): (s: string)
    ensures elems == [] ==> s == ""
    ensures elems != [] ==> |s| == TotalLength(elems) + |sep| * (|elems| - 1)
    ensures elems != [] ==> s[..|elems[0]|] == elems[0]
  {
    if elems == [] then ""
    else if |elems| == 1 then elems[0]
    else elems[0] + sep + Join(elems[1..], sep)
  }

  /** Joining one more element appends the separator and that element. */
  lemma {:induction false} JoinAppend(elems: seq<string>, last: string, sep: string)
    requires elems != []
    ensures Join(elems + [last], sep) == Join(elems, sep) + sep + last
  {
    if |elems| > 1 {
      JoinAppend(elems[1..], last, sep);
      assert (elems + [last])[1..] == elems[1..] + [last];
    } else {
      assert (elems + [last])[1..] == [last];
    }
  }

  /** Go's `%s` (and `%v`) applied to a []string: the elements separated by
      single spaces, inside square brackets. */
  function FormatStrings(elems: seq<string>): (s: string)
    ensures |s| >= 2 && s[0] == '[' && s[|s| - 1] == ']'
    ensures s[1..|s| - 1] == Join(elems, " ")
  {
    "[" + Join(elems, " ") + "]"
  }

  lemma FormatSingleString(elem: string)
    ensures FormatStrings([elem]) == "[" + elem + "]"
  {
  }
}
