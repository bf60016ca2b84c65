/**
  Decimal rendering of integer keys and comma-separated lists, as JavaScript's
  `Number.prototype.toString` and `Array.prototype.toString` produce them for
  integers, together with the reading that undoes them.
 */
module Decimal {

  predicate IsDigit(c: char)
  {
    '0' <= c <= '9'
  }

  function DigitChar(n: nat): (c: char)
    requires n < 10
    ensures IsDigit(c)
    ensures DigitValue(c) == n
  {
    "0123456789"[n]
  }

  /** The value of a decimal digit; other characters read as 0. */
  function DigitValue(c: char): nat
  {
    if IsDigit(c) then c as int - '0' as int else 0
  }

  /** The decimal numeral of `n`, without leading zeros. */
  function NatToString(n: nat): (s: string)
    ensures |s| >= 1
    ensures forall i :: 0 <= i < |s| ==> IsDigit(s[i])
    ensures |s| > 1 ==> s[0] != '0'
  {
    if n < 10 then [DigitChar(n)] else NatToString(n / 10) + [DigitChar(n % 10)]
  }

  /** The numeral of an integer: a minus sign before the magnitude of a
      negative number. */
  function IntToString(i: int): (s: string)
    ensures |s| >= 1
    ensures ',' !in s
  {
    if i < 0 then "-" + NatToString(-i) else NatToString(i)
  }

  function ParseNat(s: string): nat
  {
    if |s| == 0 then 0 else ParseNat(s[..|s| - 1]) * 10 + DigitValue(s[|s| - 1])
  }

  function ParseInt(s: string): int
  {
    if |s| > 0 && s[0] == '-' then -(ParseNat(s[1..]) as int) else ParseNat(s)
  }

  lemma {:induction false} ParseNatToString(n: nat)
    ensures ParseNat(NatToString(n)) == n
  {
    if n >= 10 {
      var s := NatToString(n);
      assert s[..|s| - 1] == NatToString(n / 10);
      ParseNatToString(n / 10);
    }
  }

  /** Reading a rendered integer gives the integer back. */
  lemma ParseIntToString(i: int)
    ensures ParseInt(IntToString(i)) == i
  {
    if i < 0 {
      var digits := NatToString(-i);
      var s := "-" + digits;
      assert s[0] == '-' && s[1..] == digits;
      ParseNatToString(-i);
      assert ParseInt(s) == -(ParseNat(digits) as int);
    } else {
      var s := NatToString(i);
      assert IsDigit(s[0]);
      ParseNatToString(i);
      assert ParseInt(s) == ParseNat(s);
    }
  }

  function RenderAll(a: seq<int>): (parts: seq<string>)
    ensures |parts| == |a|
    ensures forall i :: 0 <= i < |a| ==> parts[i] == IntToString(a[i])
  {
    if a == [] then [] else [IntToString(a[0])] + RenderAll(a[1..])
  }

  function ParseAll(parts: seq<string>): (a: seq<int>)
    ensures |a| == |parts|
  {
    if parts == [] then [] else [ParseInt(parts[0])] + ParseAll(parts[1..])
  }

  lemma {:induction false} ParseRenderAll(a: seq<int>)
    ensures ParseAll(RenderAll(a)) == a
  {
    if a != [] {
      ParseIntToString(a[0]);
      assert RenderAll(a)[1..] == RenderAll(a[1..]);
      ParseRenderAll(a[1..]);
    }
  }

  /** The parts separated by commas, as `Array.prototype.join` with the
      default separator.  Only an empty list or a single empty part gives the
      empty string: two or more parts always leave a comma. */
  function Join(parts: seq<string>): (s: string)
    ensures s == "" <==> |parts| == 0 || (|parts| == 1 && parts[0] == "")
    ensures |parts| >= 2 ==> ',' in s
  {
    if |parts| == 0 then ""
    else if |parts| == 1 then parts[0]
    else parts[0] + "," + Join(parts[1..])
  }

  /** The comma-separated fields of `s`; there is always at least one. */
  function Split(s: string): (fields: seq<string>)
    ensures |fields| >= 1
  {
    if |s| == 0 then [""]
    else
      var rest := Split(s[1..]);
      if s[0] == ',' then [""] + rest else [[s[0]] + rest[0]] + rest[1..]
  }

  /** A field without commas, followed by a comma, splits off as one field. */
  lemma {:induction false} SplitField(p: string, s: string)
    requires ',' !in p
    ensures Split(p + s) == [p + Split(s)[0]] + Split(s)[1..]
  {
    if |p| > 0 {
      assert (p + s)[1..] == p[1..] + s;
      SplitField(p[1..], s);
      assert [p[0]] + (p[1..] + Split(s)[0]) == p + Split(s)[0];
    } else {
      assert p + s == s;
      var fs := Split(s);
      assert p + fs[0] == fs[0];
      assert fs == [fs[0]] + fs[1..];
    }
  }

  /** Splitting undoes joining when no part contains a comma. */
  lemma {:induction false} SplitJoin(parts: seq<string>)
    requires |parts| >= 1
    requires forall i :: 0 <= i < |parts| ==> ',' !in parts[i]
    ensures Split(Join(parts)) == parts
  {
    assert ',' !in parts[0];
    if |parts| == 1 {
      SplitField(parts[0], "");
      assert parts[0] + "" == parts[0];
    } else {
      SplitJoin(parts[1..]);
      var tail := Join(parts[1..]);
      assert Join(parts) == parts[0] + ("," + tail);
      SplitField(parts[0], "," + tail);
      assert ("," + tail)[1..] == tail;
      assert Split("," + tail) == [""] + parts[1..];
      assert parts[0] + "" == parts[0];
      assert parts == [parts[0]] + parts[1..];
    }
  }
}
