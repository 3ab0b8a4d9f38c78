/**
 * The coordinate value shared by both solvers: an immutable pair whose X
 * indexes the first dimension of the maze array and Y the second.
 */
module Cells {

  datatype Cell = Cell(x: int, y: int)

  /** `operator ==`: the component-wise test, which is exactly value equality. */
  function Equals(lhs: Cell, rhs: Cell): (r: bool)
    ensures r <==> lhs == rhs
  {
    lhs.x == rhs.x && lhs.y == rhs.y
  }

  /** `operator !=`: the negation of `==`. */
  function NotEquals(lhs: Cell, rhs: Cell): (r: bool)
    ensures r <==> !Equals(lhs, rhs)
    ensures r <==> lhs != rhs
  {
    !Equals(lhs, rhs)
  }

  /** The component-wise test is reflexive, symmetric and transitive. */
  lemma EqualsIsEquivalence(a: Cell, b: Cell, c: Cell)
    ensures Equals(a, a)
    ensures Equals(a, b) == Equals(b, a)
    ensures Equals(a, b) && Equals(b, c) ==> Equals(a, c)
  {
  }

  // ----- decimal rendering, as string interpolation of an int does it -----

  function DigitChar(d: int): (c: char)
    requires 0 <= d < 10
    ensures '0' <= c <= '9' && c as int - '0' as int == d
  {
    ('0' as int + d) as char
  }

  predicate IsDigit(c: char) {
    '0' <= c <= '9'
  }

  /** The shortest decimal numeral of n. */
  function NatString(n: nat): (s: string)
    ensures |s| >= 1
    ensures forall i :: 0 <= i < |s| ==> IsDigit(s[i])
    ensures s[0] == '0' ==> n == 0
    decreases n
  {
    if n < 10 then [DigitChar(n)] else NatString(n / 10) + [DigitChar(n % 10)]
  }

  /** The value of a string of decimal digits. */
  function NatValue(s: string): int
    decreases |s|
  {
    if s == [] then 0 else NatValue(s[..|s| - 1]) * 10 + (s[|s| - 1] as int - '0' as int)
  }

  lemma {:induction false} NatStringRoundTrip(n: nat)
    ensures NatValue(NatString(n)) == n
    decreases n
  {
    if n >= 10 {
      var s := NatString(n);
      NatStringRoundTrip(n / 10);
      assert s[..|s| - 1] == NatString(n / 10);
    }
  }

  /** An int as `ToString()` writes it: a minus sign for negatives, then the numeral. */
  function IntString(n: int): (s: string)
    ensures |s| >= 1
    ensures s[0] == '-' <==> n < 0
    ensures n < 0 ==> |s| >= 2
    ensures n >= 0 ==> IsDigit(s[0])
    ensures forall i :: 0 < i < |s| ==> IsDigit(s[i])
  {
    if n < 0 then "-" + NatString(-n) else NatString(n)
  }

  function IntValue(s: string): int {
    if |s| > 0 && s[0] == '-' then -NatValue(s[1..]) else NatValue(s)
  }

  lemma IntStringRoundTrip(n: int)
    ensures IntValue(IntString(n)) == n
    ensures ',' !in IntString(n)
  {
    if n < 0 {
      NatStringRoundTrip(-n);
      assert IntString(n)[1..] == NatString(-n);
    } else {
      NatStringRoundTrip(n);
    }
  }

  /**
   * `ToString()`: "(X, Y)". The text opens and closes with a parenthesis,
   * and the numerals on either side of the ", " read back as X and Y.
   */
  function ToString(c: Cell): (s: string)
    ensures |s| == |IntString(c.x)| + |IntString(c.y)| + 4
    ensures s[0] == '(' && s[|s| - 1] == ')'
    ensures var k := |IntString(c.x)| + 1;
      && s[k..k + 2] == ", "
      && IntValue(s[1..k]) == c.x
      && IntValue(s[k + 2..|s| - 1]) == c.y
  {
    IntStringRoundTrip(c.x);
    IntStringRoundTrip(c.y);
    Parenthesized(IntString(c.x), IntString(c.y));
    "(" + Coordinates(c) + ")"
  }

  /** Where the parts of "(u, v)" lie. */
  lemma Parenthesized(u: string, v: string)
    ensures var s := "(" + (u + ", " + v) + ")"; var k := |u| + 1;
      && |s| == |u| + |v| + 4
      && s[0] == '(' && s[|s| - 1] == ')'
      && s[1..k] == u && s[k..k + 2] == ", " && s[k + 2..|s| - 1] == v
  {
    var s := "(" + (u + ", " + v) + ")";
    var k := |u| + 1;
    assert s[1..k] == u;
    assert s[k..k + 2] == ", ";
    assert s[k + 2..|s| - 1] == v;
  }

  /** The text between the parentheses: "X, Y". */
  function Coordinates(c: Cell): string {
    IntString(c.x) + ", " + IntString(c.y)
  }

  /** Two strings joined by ", " split back uniquely when the first has no comma. */
  lemma SplitAtComma(u: string, v: string, u': string, v': string)
    requires ',' !in u && ',' !in u'
    requires u + ", " + v == u' + ", " + v'
    ensures u == u' && v == v'
  {
    var s := u + ", " + v;
    assert s[|u|] == ',' && s[|u'|] == ',';
    assert u == s[..|u|] == u';
    assert v == s[|u| + 2..] == v';
  }

  /** Equal parenthesised strings have equal insides. */
  lemma StripParens(u: string, v: string)
    requires "(" + u + ")" == "(" + v + ")"
    ensures u == v
  {
    assert u == ("(" + u + ")")[1..|u| + 1];
    assert v == ("(" + v + ")")[1..|v| + 1];
  }

  /** Distinct cells print differently: the text determines the coordinates. */
  lemma ToStringInjective(a: Cell, b: Cell)
    requires ToString(a) == ToString(b)
    ensures a == b
  {
    StripParens(Coordinates(a), Coordinates(b));
    IntStringRoundTrip(a.x);
    IntStringRoundTrip(b.x);
    SplitAtComma(IntString(a.x), IntString(a.y), IntString(b.x), IntString(b.y));
    IntStringRoundTrip(a.y);
    IntStringRoundTrip(b.y);
  }
}
