/**
 * The counter update a signed-in player's statistics record receives after a
 * game: exactly one of four counters goes up by one, and a counter the record
 * does not have yet counts as zero.
 */
module Stats {
  import opened Wrappers
  import opened Board

  /** The stored counters; `None` is a counter missing from the record. */
  datatype Stats = Stats(winsAsX: Option<nat>, winsAsO: Option<nat>, losses: Option<nat>, ties: Option<nat>)

  /** The result reported for a game, by its `type`; `Unrecognized` is any other type. */
  datatype GameResult = Win(winner: Mark) | Loss | TieResult | Unrecognized

  /** The names of the four counters. */
  datatype Counter = WinsAsX | WinsAsO | Losses | Ties

  function Get(s: Stats, c: Counter): Option<nat> {
    match c
    case WinsAsX => s.winsAsX
    case WinsAsO => s.winsAsO
    case Losses => s.losses
    case Ties => s.ties
  }

  /** A counter's value, with a missing counter read as zero. */
  function ValueOf(c: Option<nat>): nat {
    if c.Some? then c.value else 0
  }

  /** The sum of all four counters. */
  function Total(s: Stats): nat {
    ValueOf(s.winsAsX) + ValueOf(s.winsAsO) + ValueOf(s.losses) + ValueOf(s.ties)
  }

  /** The counter a result is recorded in, if any. */
  function Target(r: GameResult): Option<Counter> {
    match r
    case Win(X) => Some(WinsAsX)
    case Win(O) => Some(WinsAsO)
    case Loss => Some(Losses)
    case TieResult => Some(Ties)
    case Unrecognized => None
  }

  function Increment(c: Option<nat>): Option<nat> {
    Some(ValueOf(c) + 1)
  }

  /**
   * The record after `r` is saved: the counter `Target(r)` names is set to its
   * old value (zero when missing) plus one; every other counter is kept as it
   * was, missing or not.
   */
  function ApplyResult(s: Stats, r: GameResult): (u: Stats)
    ensures forall c :: Get(u, c) == if Target(r) == Some(c) then Some(ValueOf(Get(s, c)) + 1) else Get(s, c)
  {
    if r.Win? then
      if r.winner == X then s.(winsAsX := Increment(s.winsAsX))
      else s.(winsAsO := Increment(s.winsAsO))
    else if r.Loss? then s.(losses := Increment(s.losses))
    else if r.TieResult? then s.(ties := Increment(s.ties))
    else s
  }

  /**
   * A recognised result raises the total by exactly one and changes exactly
   * one counter; an unrecognised one changes nothing.
   */
  lemma ExactlyOneCounter(s: Stats, r: GameResult)
    ensures var u := ApplyResult(s, r);
            (r.Unrecognized? ==> u == s) &&
            (!r.Unrecognized? ==>
              Total(u) == Total(s) + 1 &&
              exists c :: Get(u, c) != Get(s, c) && forall d :: d != c ==> Get(u, d) == Get(s, d))
  {
    var u := ApplyResult(s, r);
    if !r.Unrecognized? {
      var c := Target(r).value;
      assert Get(u, c) == Some(ValueOf(Get(s, c)) + 1);
    }
  }

  /** A win is recorded under the winner's symbol and never as a loss or a tie. */
  lemma WinRecordedBySymbol(s: Stats, w: Mark)
    ensures var u := ApplyResult(s, Win(w));
            ValueOf(u.winsAsX) == ValueOf(s.winsAsX) + (if w == X then 1 else 0) &&
            ValueOf(u.winsAsO) == ValueOf(s.winsAsO) + (if w == O then 1 else 0) &&
            u.losses == s.losses && u.ties == s.ties
  {
  }
}
