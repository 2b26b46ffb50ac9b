/**
 * Direction arbitration: when a client's direction token is allowed to
 * replace the shared snake's direction. Time is an integer millisecond clock.
 */
module Arbiter {
  import opened Wrappers
  import opened Directions

  /** A change is accepted only when strictly more than this many ms have passed since the last one. */
  const DebounceMs: int := 100

  /**
   * The acceptance test applied to a received token: it is non-empty, the
   * debounce window since the last accepted change has passed, it is a key of
   * the `opposites` table, and its opposite is not the current direction.
   */
  predicate Accepts(current: Direction, lastChangeMs: int, token: string, nowMs: int)
    ensures Accepts(current, lastChangeMs, token, nowMs) ==>
      && ParseDirection(token).Some?
      && ParseDirection(token).value != Opposite(current)
  {
    && token != ""
    && nowMs - lastChangeMs > DebounceMs
    && token in Opposites
    && Opposites[token] != Token(current)
  }

  /**
   * The same test in terms of directions: a token is accepted exactly when it
   * names a direction other than the current one's reverse and the window has passed.
   */
  lemma AcceptsMeans(current: Direction, lastChangeMs: int, token: string, nowMs: int)
    ensures Accepts(current, lastChangeMs, token, nowMs) <==>
      && nowMs - lastChangeMs > DebounceMs
      && ParseDirection(token).Some?
      && ParseDirection(token).value != Opposite(current)
  {
    if token in Opposites {
      var d := ParseDirection(token).value;
      TokenOfParsed(token);
      OppositeInvolutive(d);
      OppositeInvolutive(current);
      assert Opposites[token] == Token(current) <==> Opposite(d) == current;
    }
  }

  /** The exact reverse of the current direction is never accepted, whatever the timing. */
  lemma ReverseRejected(current: Direction, lastChangeMs: int, nowMs: int)
    ensures !Accepts(current, lastChangeMs, Token(Opposite(current)), nowMs)
  {
    OppositeInvolutive(current);
  }

  /** Tokens outside the table, the empty one included, are ignored. */
  lemma UnknownTokenRejected(current: Direction, lastChangeMs: int, token: string, nowMs: int)
    requires ParseDirection(token).None?
    ensures !Accepts(current, lastChangeMs, token, nowMs)
  {
  }

  /**
   * Re-sending the current direction is accepted once the window has passed
   * (and so restarts the debounce window).
   */
  lemma SameDirectionAccepted(current: Direction, lastChangeMs: int, nowMs: int)
    requires nowMs - lastChangeMs > DebounceMs
    ensures Accepts(current, lastChangeMs, Token(current), nowMs)
  {
  }

  /**
   * After an accepted change at time t, nothing is accepted up to and including
   * t + DebounceMs, whatever the token and whatever the direction became.
   */
  lemma DebounceWindow(current: Direction, changedAtMs: int, token: string, nowMs: int)
    requires nowMs - changedAtMs <= DebounceMs
    ensures !Accepts(current, changedAtMs, token, nowMs)
  {
  }

  /** Whether two directions lie on different axes (a quarter turn apart). */
  predicate Perpendicular(d: Direction, e: Direction)
  {
    e != d && e != Opposite(d)
  }

  /**
   * Two changes in a row are each checked against the direction field, not
   * against the direction the snake last moved in: from any direction `c`, a
   * quarter turn `e` and then the reverse of `c` are both accepted once each
   * debounce window has passed, so the snake can be turned into its reverse
   * between two moves.
   */
  lemma ReversalInTwoAcceptedSteps(c: Direction, e: Direction, t0: int, t1: int, t2: int)
    requires Perpendicular(c, e)
    requires t1 - t0 > DebounceMs && t2 - t1 > DebounceMs
    ensures Accepts(c, t0, Token(e), t1)
    ensures Accepts(e, t1, Token(Opposite(c)), t2)
    ensures ParseDirection(Token(Opposite(c))) == Some(Opposite(c))
  {
    AcceptsMeans(c, t0, Token(e), t1);
    AcceptsMeans(e, t1, Token(Opposite(c)), t2);
    ParseToken(e);
    ParseToken(Opposite(c));
    OppositeInvolutive(c);
  }
}
