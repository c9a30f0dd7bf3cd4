/** Game identifiers.  The server builds them from a shared counter as
    `game_N` (two players) or `game_ai_N` (against the computer), with N
    written in decimal.  The registry keys games by the identifier value;
    IdText gives its text and is injective, so distinct values are
    distinct strings. */
module GameIds {

  datatype GameId = MultiId(n: nat) | AiId(n: nat)

  predicate IsDigit(c: char) { '0' <= c <= '9' }

  function DigitChar(d: nat): (c: char)
    requires d < 10
    ensures IsDigit(c) && (c as int) - ('0' as int) == d
  {
    (('0' as int) + d) as char
  }

  /** The decimal text of n, as JavaScript writes a non-negative integer:
      digits only, no leading zero. */
  function NatText(n: nat): (s: string)
    ensures |s| >= 1 && forall i :: 0 <= i < |s| ==> IsDigit(s[i])
    ensures |s| > 1 ==> s[0] != '0'
  {
    if n < 10 then [DigitChar(n)] else NatText(n / 10) + [DigitChar(n % 10)]
  }

  /** The value of a string of decimal digits. */
  function NatValue(s: string): nat
    requires forall i :: 0 <= i < |s| ==> IsDigit(s[i])
  {
    if s == [] then 0
    else
      assert IsDigit(s[|s| - 1]);
      NatValue(s[..|s| - 1]) * 10 + ((s[|s| - 1] as int) - ('0' as int))
  }

  /** Reading back the decimal text of n gives n. */
  lemma {:induction false} NatTextRoundTrip(n: nat)
    ensures NatValue(NatText(n)) == n
  {
    if n >= 10 {
      var s := NatText(n);
      NatTextRoundTrip(n / 10);
      assert s[..|s| - 1] == NatText(n / 10);
    }
  }

  /** The identifier as the server writes it: every id starts "game_",
      and the character after that is a digit exactly for two-player
      games. */
  function IdText(id: GameId): (r: string)
    ensures |r| > 5 && r[..5] == "game_"
    ensures id.AiId? <==> !IsDigit(r[5])
  {
    match id
    case MultiId(n) => "game_" + NatText(n)
    case AiId(n) => "game_ai_" + NatText(n)
  }

  /** Different identifiers have different texts: the counter value and
      the kind of game can both be read back from the text. */
  lemma IdTextInjective(a: GameId, b: GameId)
    ensures IdText(a) == IdText(b) ==> a == b
  {
    if a.MultiId? && b.AiId? {
      assert IdText(a)[5] == NatText(a.n)[0] != IdText(b)[5];
    } else if a.AiId? && b.MultiId? {
      assert IdText(b)[5] == NatText(b.n)[0] != IdText(a)[5];
    } else if IdText(a) == IdText(b) {
      var p := if a.MultiId? then 5 else 8;
      assert NatText(a.n) == IdText(a)[p..];
      assert NatText(b.n) == IdText(b)[p..];
      NatTextRoundTrip(a.n);
      NatTextRoundTrip(b.n);
    }
  }
}
