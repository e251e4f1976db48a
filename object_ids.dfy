/**
 * Identifiers the document store assigns to users and to chat turns, as the
 * hexadecimal text that `_id.toString()` yields. The store draws them from a
 * counter; HexId renders the counter and is injective, so a counter value
 * never seen before gives an identifier never seen before.
 */
module ObjectIds {

  type Id = string

  predicate IsHexDigit(c: char) {
    ('0' <= c <= '9') || ('a' <= c <= 'f')
  }

  function HexDigit(d: nat): (c: char)
    requires d < 16
    ensures IsHexDigit(c)
    ensures c as int == if d < 10 then 48 + d else 87 + d
  {
    if d < 10 then (48 + d) as char else (87 + d) as char
  }

  /** Lower-case hexadecimal rendering of `n`, without leading zeros. */
  function HexId(n: nat): (s: Id)
    ensures |s| >= 1
    ensures |s| == 1 <==> n < 16
    ensures forall i | 0 <= i < |s| :: IsHexDigit(s[i])
    decreases n
  {
    if n < 16 then [HexDigit(n)] else HexId(n / 16) + [HexDigit(n % 16)]
  }

  /** Distinct counter values give distinct identifiers. */
  lemma {:induction false} HexIdInjective(a: nat, b: nat)
    requires HexId(a) == HexId(b)
    ensures a == b
    decreases a
  {
    var sa, sb := HexId(a), HexId(b);
    if a < 16 {
      assert sa[0] == HexDigit(a) && sb[0] == HexDigit(b);
    } else {
      assert b >= 16;
      assert sa[|sa| - 1] == HexDigit(a % 16);
      assert sb[|sb| - 1] == HexDigit(b % 16);
      assert a % 16 == b % 16;
      assert sa[..|sa| - 1] == HexId(a / 16);
      assert sb[..|sb| - 1] == HexId(b / 16);
      HexIdInjective(a / 16, b / 16);
    }
  }
}
