/**
 * The four movement directions, the wire tokens clients send for them, and the
 * `opposites` table that maps each token to the token of the reverse direction.
 */
module Directions {
  import opened Wrappers

  datatype Direction = Left | Right | Up | Down

  /** The token a client sends (and the server broadcasts) for a direction. */
  function Token(d: Direction): (s: string)
    ensures s != ""
    ensures s in Opposites
  {
    match d
    case Left => "left"
    case Right => "right"
    case Up => "up"
    case Down => "down"
  }

  /** The module-level `opposites` table, keyed and valued by tokens. */
  const Opposites: map<string, string> :=
    map["left" := "right", "right" := "left", "up" := "down", "down" := "up"]

  /** The geometric reverse of a direction; agrees with the `opposites` table. */
  function Opposite(d: Direction): (r: Direction)
    ensures r != d
    ensures Opposites[Token(d)] == Token(r)
  {
    match d
    case Left => Right
    case Right => Left
    case Up => Down
    case Down => Up
  }

  lemma OppositeInvolutive(d: Direction)
    ensures Opposite(Opposite(d)) == d
  {
  }

  /**
   * Reads a client token: exactly the keys of `opposites` name a direction,
   * everything else (the empty token included) names none.
   */
  function ParseDirection(token: string): (r: Option<Direction>)
    ensures r.Some? <==> token in Opposites
    ensures r.Some? ==> Token(r.value) == token
    ensures token == "" ==> r.None?
  {
    if token == "left" then Some(Left)
    else if token == "right" then Some(Right)
    else if token == "up" then Some(Up)
    else if token == "down" then Some(Down)
    else None
  }

  /** Parsing undoes printing. */
  lemma ParseToken(d: Direction)
    ensures ParseDirection(Token(d)) == Some(d)
  {
  }

  /** Printing undoes parsing, and the table lookup on a parsed token is the opposite's token. */
  lemma TokenOfParsed(token: string)
    requires token in Opposites
    ensures ParseDirection(token).Some?
    ensures Token(ParseDirection(token).value) == token
    ensures Opposites[token] == Token(Opposite(ParseDirection(token).value))
  {
  }
}
