/**
 * The cell key `${x},${y}` under which both the placer and the viewers store and
 * look up rooms: the decimal text of x, a comma, the decimal text of y. The
 * parser below is its inverse and shows that distinct cells get distinct keys.
 */
module CellKeys {
  import opened Types

  predicate IsDigit(c: char) {
    '0' <= c <= '9'
  }

  function DigitChar(d: nat): (c: char)
    requires d < 10
    ensures IsDigit(c)
  {
    ('0' as int + d) as char
  }

  function DigitValue(c: char): (d: nat)
    requires IsDigit(c)
    ensures d < 10 && DigitChar(d) == c
  {
    c as int - '0' as int
  }

  /** Decimal text of a natural number, without leading zeros. */
  function NatToString(n: nat): (s: string)
    ensures |s| >= 1
    ensures forall i | 0 <= i < |s| :: IsDigit(s[i])
    ensures (n < 10) == (|s| == 1)
  {
    if n < 10 then [DigitChar(n)] else NatToString(n / 10) + [DigitChar(n % 10)]
  }

  /** JavaScript's number-to-string conversion for an integer. */
  function IntToString(n: int): (s: string)
    ensures |s| >= 1
    ensures forall i | 0 <= i < |s| :: s[i] != ','
  {
    if n < 0 then "-" + NatToString(-n) else NatToString(n)
  }

  /** The key `${x},${y}` of cell (x, y). */
  function Key(x: int, y: int): string {
    IntToString(x) + "," + IntToString(y)
  }

  /** The key of the cell a room occupies. */
  function KeyOf(r: Room): string {
    Key(r.x, r.y)
  }

  function ParseNat(s: string): (r: Option<nat>)
    ensures r.Some? <==> |s| >= 1 && forall i | 0 <= i < |s| :: IsDigit(s[i])
  {
    if |s| == 0 || !IsDigit(s[|s| - 1]) then None
    else if |s| == 1 then Some(DigitValue(s[0]))
    else
      match ParseNat(s[..|s| - 1])
      case None => None
      case Some(p) => Some(10 * p + DigitValue(s[|s| - 1]))
  }

  function ParseInt(s: string): Option<int> {
    if |s| > 0 && s[0] == '-' then
      match ParseNat(s[1..])
      case None => None
      case Some(n) => var m: int := n; Some(-m)
    else
      match ParseNat(s)
      case None => None
      case Some(n) => Some(n)
  }

  /** Index of the first comma of s, or |s| when there is none. */
  function CommaIndex(s: string): (r: nat)
    ensures r <= |s|
    ensures r < |s| ==> s[r] == ','
    ensures forall i | 0 <= i < r :: s[i] != ','
  {
    if s == [] || s[0] == ',' then 0 else 1 + CommaIndex(s[1..])
  }

  /** Reads a key back into its cell; None for text that is not a key. */
  function ParseKey(k: string): Option<(int, int)> {
    var i := CommaIndex(k);
    if i == |k| then None
    else
      match (ParseInt(k[..i]), ParseInt(k[i + 1..]))
      case (Some(x), Some(y)) => Some((x, y))
      case _ => None
  }

  lemma {:induction false} NatRoundTrip(n: nat)
    ensures ParseNat(NatToString(n)) == Some(n)
    decreases n
  {
    if n >= 10 {
      var s := NatToString(n);
      assert s[..|s| - 1] == NatToString(n / 10);
      NatRoundTrip(n / 10);
    }
  }

  lemma IntRoundTrip(n: int)
    ensures ParseInt(IntToString(n)) == Some(n)
  {
    if n < 0 {
      var t := NatToString(-n);
      var s := "-" + t;
      assert s[0] == '-' && s[1..] == t;
      NatRoundTrip(-n);
      assert ParseInt(s) == Some(n);
    } else {
      var s := NatToString(n);
      assert IsDigit(s[0]);
      NatRoundTrip(n);
      assert ParseInt(s) == Some(n);
    }
  }

  /** Parsing a key gives back the cell it was made from. */
  lemma KeyRoundTrip(x: int, y: int)
    ensures ParseKey(Key(x, y)) == Some((x, y))
  {
    var a, b := IntToString(x), IntToString(y);
    var k := Key(x, y);
    assert k[|a|] == ',';
    assert forall i | 0 <= i < |a| :: k[i] == a[i];
    assert CommaIndex(k) == |a|;
    assert k[..|a|] == a;
    assert k[|a| + 1..] == b;
    IntRoundTrip(x);
    IntRoundTrip(y);
  }

  /** Two cells share a key only if they are the same cell. */
  lemma KeyInjective(x1: int, y1: int, x2: int, y2: int)
    requires Key(x1, y1) == Key(x2, y2)
    ensures x1 == x2 && y1 == y2
  {
    KeyRoundTrip(x1, y1);
    KeyRoundTrip(x2, y2);
  }

  /** Distinct cells get distinct keys. */
  lemma KeysDiffer(x1: int, y1: int, x2: int, y2: int)
    requires (x1, y1) != (x2, y2)
    ensures Key(x1, y1) != Key(x2, y2)
  {
    KeyRoundTrip(x1, y1);
    KeyRoundTrip(x2, y2);
  }

  /** The origin's key is the literal "0,0" the placer seeds. */
  lemma OriginKey()
    ensures Key(0, 0) == "0,0"
  {
    assert NatToString(0) == "0";
  }
}
