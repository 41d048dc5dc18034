/** Opaque pagination cursors, as internal/search/search.go and
  internal/notifications/notifications.go both build them: a prefix naming the
  collection and a positive position.  The base64url layer is taken as an
  invertible wrapping, so a token carries its decoded body. */
module Cursors {
  import opened Decimal
  import opened Words

  const SEARCH_PREFIX := "s:"
  const NOTIFICATION_PREFIX := "n:"

  datatype Token = Empty | Encoded(body: string)

  datatype Position = Invalid | Position(value: int)

  function Encode(prefix: string, position: int): Token {
    if position <= 0 then Empty else Encoded(prefix + Digits(position))
  }

  function Decode(prefix: string, token: Token): (p: Position)
    ensures p.Position? ==> p.value >= 0
  {
    match token
    case Empty => Position(0)
    case Encoded(body) =>
      if !(prefix <= body) then Invalid
      else
        match Atoi(body[|prefix|..])
        case NotANumber => Invalid
        case Number(n) => if n <= 0 then Invalid else Position(n)
  }

  /** What is not the prefix and a positive 64-bit decimal, a plus sign allowed, is
    refused, and the number is the position. */
  lemma DecodesOnlyPositions(prefix: string, body: string, n: int)
    ensures Decode(prefix, Encoded(body)) == Position(n) <==>
              && prefix <= body && 0 < n < TWO63
              && var s := body[|prefix|..];
                 var digits := if s != "" && s[0] == '+' then s[1..] else s;
                 digits != "" && AllDigits(digits) && Value(digits) == n
    ensures Decode(prefix, Empty) == Position(0)
  {
    hide Value;
    if prefix <= body {
      var s := body[|prefix|..];
      if s != "" && s[0] == '-' {
        assert !IsDigit(s[0]);
      }
    }
  }

  /** Every position a page can name survives the round trip, and the other
    collection refuses the cursor. */
  lemma CursorRoundTrip(prefix: string, position: nat)
    requires position < TWO63
    ensures Decode(prefix, Encode(prefix, position)) == Position(position)
    ensures position > 0 ==> Decode(NOTIFICATION_PREFIX, Encode(SEARCH_PREFIX, position)) == Invalid
    ensures position > 0 ==> Decode(SEARCH_PREFIX, Encode(NOTIFICATION_PREFIX, position)) == Invalid
  {
    if position > 0 {
      var body := prefix + Digits(position);
      assert body[|prefix|..] == Digits(position);
      ItoaAtoi(position);
      assert Encode(SEARCH_PREFIX, position).body[0] == 's' && Encode(NOTIFICATION_PREFIX, position).body[0] == 'n';
    }
  }
}
