/**
 Text helpers the catalog's status messages are built from: Python's
 `", ".join(...)`, a `split(", ")` that undoes it on one or more
 comma-free pieces, and `str(n)` for the
 non-negative book ids that appear in "not found" messages.
 */
module Text {

  /** The separator validation messages are joined with. */
  const Separator: string := ", "

  /** A string in which no comma occurs, so it cannot hide a separator. */
  predicate CommaFree(p: string)
  {
    forall i :: 0 <= i < |p| ==> p[i] != ','
  }

  /** The combined length of `parts`. */
  function TotalLength(parts: seq<string>): nat
  {
    if |parts| == 0 then 0 else |parts[0]| + TotalLength(parts[1..])
  }

  /** `", ".join(parts)`: the pieces in order, one separator between
      neighbours, starting with the first piece. */
  function Join(parts: seq<string>): (s: string)
    ensures parts == [] ==> s == ""
    ensures |parts| >= 1 ==> |s| == TotalLength(parts) + |Separator| * (|parts| - 1)
    ensures |parts| >= 1 ==> s[..|parts[0]|] == parts[0]
  {
    if |parts| == 0 then ""
    else if |parts| == 1 then parts[0]
    else parts[0] + Separator + Join(parts[1..])
  }

  /** `s.split(", ")`: the pieces between separators, always at least one. */
  function Split(s: string): (pieces: seq<string>)
    ensures |pieces| >= 1
    ensures CommaFree(s) ==> pieces == [s]
    decreases |s|
  {
    if |s| == 0 then [""]
    else if |s| >= 2 && s[..2] == Separator then
      assert s[0] == s[..2][0] == ',';
      [""] + Split(s[2..])
    else
      var rest := Split(s[1..]);
      assert [s[0]] + s[1..] == s;
      [[s[0]] + rest[0]] + rest[1..]
  }

  /** Splitting stops at the first separator when the piece before it has no comma. */
  lemma {:induction false} SplitAfterPiece(p: string, t: string)
    requires CommaFree(p)
    ensures Split(p + Separator + t) == [p] + Split(t)
    decreases |p|
  {
    var s := p + Separator + t;
    if |p| == 0 {
      assert s == Separator + t;
      assert s[..2] == Separator;
      assert s[2..] == t;
    } else {
      assert s[0] == p[0];
      assert s[..2] != Separator by { assert s[..2][0] == p[0] != ','; }
      assert s[1..] == p[1..] + Separator + t;
      SplitAfterPiece(p[1..], t);
      assert [p[0]] + p[1..] == p;
    }
  }

  /** Splitting a joined list of comma-free pieces gives the pieces back. */
  lemma {:induction false} SplitJoin(parts: seq<string>)
    requires |parts| >= 1
    requires forall i :: 0 <= i < |parts| ==> CommaFree(parts[i])
    ensures Split(Join(parts)) == parts
    decreases |parts|
  {
    if |parts| > 1 {
      SplitAfterPiece(parts[0], Join(parts[1..]));
      SplitJoin(parts[1..]);
      assert [parts[0]] + parts[1..] == parts;
    }
  }

  predicate IsDigit(c: char)
  {
    '0' <= c <= '9'
  }

  predicate AllDigits(s: string)
  {
    forall i :: 0 <= i < |s| ==> IsDigit(s[i])
  }

  function DigitChar(d: nat): (c: char)
    requires d < 10
    ensures IsDigit(c)
  {
    (('0' as int) + d) as char
  }

  /** `str(n)` for a non-negative integer: decimal digits, no leading zero. */
  function Decimal(n: nat): (s: string)
    ensures |s| >= 1
    ensures AllDigits(s)
    ensures s[0] == '0' ==> n == 0
  {
    if n < 10 then [DigitChar(n)] else Decimal(n / 10) + [DigitChar(n % 10)]
  }

  /** The value of a string of decimal digits. */
  function ParseDecimal(s: string): nat
    requires AllDigits(s)
  {
    if |s| == 0 then 0
    else ParseDecimal(s[..|s| - 1]) * 10 + ((s[|s| - 1] as int) - ('0' as int))
  }

  /** Reading a rendered number back gives the number. */
  lemma {:induction false} ParseDecimalInverts(n: nat)
    ensures ParseDecimal(Decimal(n)) == n
  {
    if n >= 10 {
      var s := Decimal(n);
      assert s[..|s| - 1] == Decimal(n / 10);
      ParseDecimalInverts(n / 10);
    }
  }

  /** Distinct numbers render as distinct strings. */
  lemma DecimalInjective(a: nat, b: nat)
    ensures Decimal(a) == Decimal(b) ==> a == b
  {
    ParseDecimalInverts(a);
    ParseDecimalInverts(b);
  }
}
