/** The routing metric: a Java double used only as a distance, with +Infinity
    for "unreachable" and NaN for "not measured yet".  Comparisons and sums
    follow IEEE 754 on these three kinds of value; rounding is not modelled. */
module Distances {
  import opened Collections

  datatype Dist = Fin(value: real) | Inf | Unknown

  /** Double.isFinite: neither infinite nor NaN. */
  predicate IsFinite(d: Dist) {
    d.Fin?
  }

  /** IEEE addition: NaN propagates, and a finite value plus infinity is
      infinity. */
  function Add(a: Dist, b: Dist): (r: Dist)
    ensures r.Unknown? <==> a.Unknown? || b.Unknown?
    ensures IsFinite(r) <==> IsFinite(a) && IsFinite(b)
    ensures IsFinite(r) ==> r.value == a.value + b.value
  {
    match (a, b)
    case (Fin(x), Fin(y)) => Fin(x + y)
    case (Unknown, _) => Unknown
    case (_, Unknown) => Unknown
    case _ => Inf
  }

  /** IEEE subtraction of a finite value: the delta `d - old` of a route. */
  function Minus(a: Dist, b: real): (r: Dist)
    ensures Add(Fin(b), r) == a
    ensures Add(r, Fin(b)) == a
  {
    match a
    case Fin(x) => Fin(x - b)
    case Inf => Inf
    case Unknown => Unknown
  }

  /** IEEE `<`: NaN is unordered, infinity is above every finite value. */
  predicate Lt(a: Dist, b: Dist) {
    match (a, b)
    case (Fin(x), Fin(y)) => x < y
    case (Fin(_), Inf) => true
    case _ => false
  }

  /** IEEE `<=`. */
  predicate Le(a: Dist, b: Dist) {
    match (a, b)
    case (Fin(x), Fin(y)) => x <= y
    case (Fin(_), Inf) => true
    case (Inf, Inf) => true
    case _ => false
  }

  /** IEEE `!=`: NaN differs from everything, itself included. */
  predicate Ne(a: Dist, b: Dist) {
    a.Unknown? || b.Unknown? || a != b
  }

  /** NaN compares false under `<` and `<=` on either side, and `!=` holds. */
  lemma UnknownIsUnordered(d: Dist)
    ensures !Lt(Unknown, d) && !Lt(d, Unknown) && !Le(Unknown, d) && !Le(d, Unknown)
    ensures Ne(Unknown, d) && Ne(d, Unknown)
  {
  }

  /** `<=` is `<` or equality between two ordered values, and `<` is strict. */
  lemma OrderFacts(a: Dist, b: Dist)
    ensures Le(a, b) <==> Lt(a, b) || (a == b && !a.Unknown?)
    ensures Lt(a, b) ==> Ne(a, b) && !Le(b, a)
    ensures !Ne(a, b) <==> a == b && !a.Unknown?
  {
  }

  /** Shifting a finite route by the delta of its anchor: `x + (d - old)`. */
  lemma ShiftByDelta(x: real, d: Dist, anchor: real)
    ensures IsFinite(d) ==> Add(Fin(x), Minus(d, anchor)) == Fin(x + d.value - anchor)
    ensures d.Inf? ==> Add(Fin(x), Minus(d, anchor)) == Inf
    ensures d.Unknown? ==> Add(Fin(x), Minus(d, anchor)) == Unknown
  {
  }

  // The rendering of a distance in the node's table dumps (Node.format).

  const LongMin: int := -0x8000_0000_0000_0000
  const LongLimit: int := 0x8000_0000_0000_0000

  function DigitChar(d: nat): char
    requires d < 10
  {
    "0123456789"[d]
  }

  function DigitValue(c: char): nat {
    if '0' <= c <= '9' then (c as int - '0' as int) as nat else 0
  }

  /** String.format("%d", n) for n >= 0. */
  function NatToString(n: nat): (s: string)
    ensures |s| > 0 && forall i :: 0 <= i < |s| ==> '0' <= s[i] <= '9'
  {
    if n < 10 then [DigitChar(n)] else NatToString(n / 10) + [DigitChar(n % 10)]
  }

  /** String.format("%d", n). */
  function IntToString(n: int): (s: string)
    ensures |s| > 0 && (s[0] == '-' <==> n < 0)
    ensures s[0] == '-' || '0' <= s[0] <= '9'
  {
    if n < 0 then "-" + NatToString(-n) else NatToString(n)
  }

  /** Reads back a string of decimal digits. */
  function ParseNat(s: string): nat {
    if s == [] then 0 else 10 * ParseNat(s[..|s| - 1]) + DigitValue(s[|s| - 1])
  }

  /** Reads back an optionally signed decimal integer. */
  function ParseInt(s: string): int {
    if |s| > 0 && s[0] == '-' then -(ParseNat(s[1..]) as int) else ParseNat(s)
  }

  lemma {:induction false} NatRoundTrip(n: nat)
    ensures ParseNat(NatToString(n)) == n
  {
    if n >= 10 {
      NatRoundTrip(n / 10);
      var s := NatToString(n);
      assert s[..|s| - 1] == NatToString(n / 10);
    }
  }

  /** What "%d" prints reads back as the same integer. */
  lemma {:induction false} IntRoundTrip(n: int)
    ensures ParseInt(IntToString(n)) == n
  {
    if n < 0 {
      var t := NatToString(-n);
      NatRoundTrip(-n);
      assert IntToString(n) == "-" + t;
      assert ("-" + t)[1..] == t;
    } else {
      NatRoundTrip(n);
      assert IntToString(n) == NatToString(n);
    }
  }

  /** Node.format: a finite value that equals its long cast is printed as that
      long; infinity as "Inf" and NaN as "NaN".  A finite value that the long
      cast changes is printed by Double.toString, which the model does not
      render (None). The cast saturates, so 2^63 prints as Long.MAX_VALUE. */
  function Format(d: Dist): (s: Option<string>)
    ensures d.Inf? ==> s == Some("Inf")
    ensures d.Unknown? ==> s == Some("NaN")
    ensures (d.Fin? && d.value == d.value.Floor as real && LongMin <= d.value.Floor < LongLimit)
              ==> s.Some? && ParseInt(s.value) == d.value.Floor
    ensures d.Fin? && s.Some? ==> s.value != "Inf" && s.value != "NaN"
    ensures d.Fin? && d.value != d.value.Floor as real ==> s.None?
  {
    match d
    case Inf => Some("Inf")
    case Unknown => Some("NaN")
    case Fin(x) =>
      if x == x.Floor as real && LongMin <= x.Floor < LongLimit then
        IntRoundTrip(x.Floor);
        Some(IntToString(x.Floor))
      else if x == LongLimit as real then Some(IntToString(LongLimit - 1))
      else None
  }
}
