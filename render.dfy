/** The one-character view of a cell used when the board is drawn. */
module Render {
  import opened Board

  function Digit(d: nat): char
    requires d < 10
  {
    ('0' as int + d) as char
  }

  /** The decimal digits of `n`, most significant first. */
  function NatToString(n: nat): (r: string)
    ensures |r| > 0
    ensures forall i | 0 <= i < |r| :: '0' <= r[i] <= '9'
    ensures r[0] == '0' ==> n == 0
    ensures n < 10 ==> |r| == 1
    decreases n
  {
    (if n < 10 then "" else NatToString(n / 10)) + [Digit(n % 10)]
  }

  /** An integer as its decimal text, with a minus sign when negative. */
  function IntToString(i: int): (r: string)
    ensures |r| > 0 && (r[0] == '-' || '0' <= r[0] <= '9')
    ensures r[0] == '-' <==> i < 0
    ensures forall k | 0 < k < |r| :: '0' <= r[k] <= '9'
    ensures var d := if i < 0 then 1 else 0; |r| > d && (r[d] == '0' ==> i == 0)
  {
    if i < 0 then "-" + NatToString(-i) else NatToString(i)
  }

  /** The value of a string of decimal digits. */
  function DigitsValue(s: string): int {
    if s == [] then 0
    else DigitsValue(s[..|s| - 1]) * 10 + (s[|s| - 1] as int - '0' as int)
  }

  /** Reads back the text `IntToString` writes. */
  function ParseInt(s: string): int {
    if |s| > 0 && s[0] == '-' then -DigitsValue(s[1..]) else DigitsValue(s)
  }

  lemma {:induction false} NatToStringRoundTrip(n: nat)
    ensures DigitsValue(NatToString(n)) == n
    decreases n
  {
    var r := NatToString(n);
    var init := if n < 10 then "" else NatToString(n / 10);
    assert r == init + [Digit(n % 10)];
    assert r[..|r| - 1] == init;
    if n >= 10 {
      NatToStringRoundTrip(n / 10);
    }
  }

  /** Integer text reads back as the integer it was written from. */
  lemma IntToStringRoundTrip(i: int)
    ensures ParseInt(IntToString(i)) == i
  {
    if i < 0 {
      NatToStringRoundTrip(-i);
      assert IntToString(i)[1..] == NatToString(-i);
    } else {
      NatToStringRoundTrip(i);
    }
  }

  /** The glyph of a cell: `!` for a tripped mine, `?` for any hidden cell
      (an untripped mine or an unrevealed empty cell), and the count's
      decimal text for a revealed empty cell. */
  function Glyph(s: Slot): (r: string)
    ensures r == "!" <==> s == Mine(true)
    ensures r == "?" <==> s == Mine(false) || (s.Empty? && !s.visible)
    ensures s.Empty? && s.visible ==> ParseInt(r) == s.count
    ensures s.Empty? && s.visible && 0 <= s.count <= 8 ==> |r| == 1
    ensures s.Empty? && s.visible && s.count >= 0 ==> forall k | 0 <= k < |r| :: '0' <= r[k] <= '9'
  {
    match s
    case Mine(true) => "!"
    case Mine(false) => "?"
    case Empty(true, count) => IntToStringRoundTrip(count); IntToString(count)
    case Empty(false, _) => "?"
  }
}
