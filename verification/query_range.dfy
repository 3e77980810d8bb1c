/** `query/QueryRange`: a named closed range of positions. The class does not
    override `equals`, so two ranges are the same response key only when they
    are the same object; `handle` stands for that object identity. */
module QueryRanges {
  import opened Wrappers

  datatype QueryRange = QueryRange(handle: nat, name: string, start: int, end: int)

  predicate IsDigit(c: char) {
    '0' as int <= c as int <= '9' as int
  }

  function DigitChar(d: nat): (c: char)
    requires d < 10
    ensures IsDigit(c) && (c as int) - ('0' as int) == d
  {
    ('0' as int + d) as char
  }

  /** Decimal digits of `n` without leading zeros, as `Integer.toString` prints them. */
  function NatToString(n: nat): (s: string)
    ensures |s| >= 1 && forall i :: 0 <= i < |s| ==> IsDigit(s[i])
    decreases n
  {
    if n < 10 then [DigitChar(n)] else NatToString(n / 10) + [DigitChar(n % 10)]
  }

  /** `Integer.toString`: a minus sign before the digits of a negative number. */
  function IntToString(i: int): string {
    if i < 0 then "-" + NatToString(-i) else NatToString(i)
  }

  /** The name given to a range built without one: `"[" + start + "-" + end + "]"`. */
  function DefaultName(start: int, end: int): string {
    "[" + (IntToString(start) + ("-" + (IntToString(end) + "]")))
  }

  /** `QueryRange.of(name, start, end)`: the bounds are stored as given (a
      reversed range is not rejected) and a null name is replaced by the default. */
  function Of(handle: nat, name: Option<string>, start: int, end: int): (r: QueryRange)
    ensures r.handle == handle && r.start == start && r.end == end
    ensures name.Some? ==> r.name == name.value
    ensures name.None? ==> ParseDefaultName(r.name) == Some((start, end))
  {
    DefaultNameParses(start, end);
    QueryRange(handle, if name.Some? then name.value else DefaultName(start, end), start, end)
  }

  /** `QueryRange.of(start, end)`: a range with the default name. */
  function OfBounds(handle: nat, start: int, end: int): (r: QueryRange)
    ensures r == Of(handle, None, start, end)
    ensures r.start == start && r.end == end && ParseDefaultName(r.name) == Some((start, end))
  {
    Of(handle, None, start, end)
  }

  // ---------------------------------------------------------------------------
  // Reading a default name back: the bounds can be recovered from it.

  /** The value of a string of decimal digits. */
  function DigitsValue(s: string): nat
    requires forall i :: 0 <= i < |s| ==> IsDigit(s[i])
    decreases |s|
  {
    if |s| == 0 then 0
    else
      assert IsDigit(s[|s| - 1]);
      DigitsValue(s[..|s| - 1]) * 10 + ((s[|s| - 1] as int) - ('0' as int))
  }

  /** Length of the longest all-digit prefix of `s`. */
  function DigitRun(s: string): (n: nat)
    ensures n <= |s|
    ensures forall i :: 0 <= i < n ==> IsDigit(s[i])
    ensures n < |s| ==> !IsDigit(s[n])
    decreases |s|
  {
    if |s| == 0 || !IsDigit(s[0]) then 0 else 1 + DigitRun(s[1..])
  }

  /** Read an unsigned decimal number from the front of `s`. */
  function ReadNat(s: string): Option<(nat, string)> {
    var n := DigitRun(s);
    if n == 0 then None else Some((DigitsValue(s[..n]), s[n..]))
  }

  /** Read an optionally signed decimal number from the front of `s`. */
  function ReadInt(s: string): Option<(int, string)> {
    if |s| > 0 && s[0] == '-' then
      match ReadNat(s[1..])
      case None => None
      case Some((v, rest)) => Some((-(v as int), rest))
    else
      match ReadNat(s)
      case None => None
      case Some((v, rest)) => Some((v as int, rest))
  }

  /** Parse a name of the form `[start-end]`. */
  function ParseDefaultName(s: string): Option<(int, int)> {
    if |s| == 0 || s[0] != '[' then None else ParseBounds(s[1..])
  }

  /** Parse `start-end]`. */
  function ParseBounds(s: string): Option<(int, int)> {
    match ReadInt(s)
    case None => None
    case Some((a, rest)) => ParseEnd(a, rest)
  }

  /** Parse `-end]`, the start already read. */
  function ParseEnd(a: int, s: string): Option<(int, int)> {
    if |s| == 0 || s[0] != '-' then None
    else match ReadInt(s[1..])
      case None => None
      case Some((b, tail)) => if tail == "]" then Some((a, b)) else None
  }

  lemma {:induction false} NatToStringValue(n: nat)
    ensures DigitsValue(NatToString(n)) == n
    decreases n
  {
    var s := NatToString(n);
    if n >= 10 {
      NatToStringValue(n / 10);
      assert s[..|s| - 1] == NatToString(n / 10);
    }
  }

  lemma {:induction false} DigitRunOf(d: string, rest: string)
    requires forall i :: 0 <= i < |d| ==> IsDigit(d[i])
    requires |rest| == 0 || !IsDigit(rest[0])
    ensures DigitRun(d + rest) == |d|
    decreases |d|
  {
    if |d| > 0 {
      assert (d + rest)[1..] == d[1..] + rest;
      DigitRunOf(d[1..], rest);
    } else {
      assert d + rest == rest;
    }
  }

  /** Reading back printed digits yields their value, and leaves what follows. */
  lemma ReadNatOf(n: nat, rest: string)
    requires |rest| == 0 || !IsDigit(rest[0])
    ensures ReadNat(NatToString(n) + rest) == Some((n, rest))
  {
    var d := NatToString(n);
    NatToStringValue(n);
    DigitRunOf(d, rest);
    assert (d + rest)[..|d|] == d;
    assert (d + rest)[|d|..] == rest;
  }

  /** A minus sign before a readable number negates it. */
  lemma ReadSigned(d: string, rest: string, n: nat)
    requires ReadNat(d + rest) == Some((n, rest))
    ensures ReadInt(("-" + d) + rest) == Some((-(n as int), rest))
  {
    var s := ("-" + d) + rest;
    assert s[0] == '-' && s[1..] == d + rest;
  }

  /** A number that starts with a digit is read without a sign. */
  lemma ReadUnsigned(d: string, rest: string, n: nat)
    requires |d| >= 1 && IsDigit(d[0])
    requires ReadNat(d + rest) == Some((n, rest))
    ensures ReadInt(d + rest) == Some((n as int, rest))
  {
    assert (d + rest)[0] == d[0];
  }

  /** Reading back a printed integer yields it, and leaves what follows. */
  lemma ReadIntOf(x: int, rest: string)
    requires |rest| == 0 || !IsDigit(rest[0])
    ensures ReadInt(IntToString(x) + rest) == Some((x, rest))
  {
    if x < 0 {
      ReadNatOf(-x, rest);
      ReadSigned(NatToString(-x), rest, -x);
    } else {
      ReadNatOf(x, rest);
      ReadUnsigned(NatToString(x), rest, x);
    }
  }

  /** `-end]` parses once `end` is readable up to the closing bracket. */
  lemma ParseEndOf(x: int, b: string, y: int)
    requires ReadInt(b + "]") == Some((y, "]"))
    ensures ParseEnd(x, "-" + (b + "]")) == Some((x, y))
  {
    var rest := "-" + (b + "]");
    assert rest[0] == '-' && rest[1..] == b + "]";
  }

  /** A bracketed pair of readable numbers parses to those numbers. */
  lemma ParseBracketed(a: string, b: string, x: int, y: int)
    requires ReadInt(a + ("-" + (b + "]"))) == Some((x, "-" + (b + "]")))
    requires ReadInt(b + "]") == Some((y, "]"))
    ensures ParseDefaultName("[" + (a + ("-" + (b + "]")))) == Some((x, y))
  {
    var rest := "-" + (b + "]");
    ParseEndOf(x, b, y);
    assert ParseBounds(a + rest) == Some((x, y));
    var s := "[" + (a + rest);
    assert s[0] == '[' && s[1..] == a + rest;
  }

  /** Round trip: the default name determines the bounds it was made from. */
  lemma DefaultNameParses(start: int, end: int)
    ensures ParseDefaultName(DefaultName(start, end)) == Some((start, end))
  {
    var a, b := IntToString(start), IntToString(end);
    ReadIntOf(start, "-" + (b + "]"));
    ReadIntOf(end, "]");
    ParseBracketed(a, b, start, end);
  }

  /** Distinct bounds give distinct default names. */
  lemma DefaultNameInjective(s1: int, e1: int, s2: int, e2: int)
    requires DefaultName(s1, e1) == DefaultName(s2, e2)
    ensures s1 == s2 && e1 == e2
  {
    DefaultNameParses(s1, e1);
    DefaultNameParses(s2, e2);
  }
}
