/**
 * The rules of the local two-player tic-tac-toe game, on values: the nine
 * cells, the eight winning lines, the evaluation made after every move, and
 * the invariant that every state reachable from a reset satisfies.
 */
module Board {
  import opened Wrappers

  /** The two symbols a player can place. */
  datatype Mark = X | O

  /** A cell of the board: empty (the empty string in the game) or marked. */
  datatype Cell = Empty | Marked(mark: Mark)

  /** Three cell indices that form a line. */
  datatype Combo = Combo(a: nat, b: nat, c: nat)

  /** The result of evaluating the board after a move. */
  datatype Outcome =
    | Won(winner: Mark, combo: Combo)  // the game ends, `winner` is the player to move
    | Tie                              // the game ends with a full board and no line
    | Next(player: Mark)               // the game goes on, `player` moves next

  const Size := 9

  /** Rows, columns and diagonals, in the order the game scans them. */
  const WinningCombinations: seq<Combo> := [
    Combo(0, 1, 2), Combo(3, 4, 5), Combo(6, 7, 8),
    Combo(0, 3, 6), Combo(1, 4, 7), Combo(2, 5, 8),
    Combo(0, 4, 8), Combo(2, 4, 6)
  ]

  function Other(m: Mark): Mark {
    if m == X then O else X
  }

  /** The board every game starts from. */
  function EmptyBoard(): seq<Cell> {
    seq(Size, _ => Empty)
  }

  /**
   * The three cells of `t` hold the same mark. An index outside the board reads
   * as no mark, so such a line never wins.
   */
  predicate Uniform(s: seq<Cell>, t: Combo) {
    t.a < |s| && t.b < |s| && t.c < |s| &&
    s[t.a] != Empty && s[t.a] == s[t.b] && s[t.a] == s[t.c]
  }

  predicate Contains(t: Combo, i: nat) {
    i == t.a || i == t.b || i == t.c
  }

  /** No winning combination is uniform on `s`. */
  predicate NoWin(s: seq<Cell>) {
    forall j :: 0 <= j < |WinningCombinations| ==> !Uniform(s, WinningCombinations[j])
  }

  /** The index of the first uniform combination at or after position `k` of the scan. */
  function FirstWinFrom(s: seq<Cell>, k: nat): (r: Option<nat>)
    requires k <= |WinningCombinations|
    decreases |WinningCombinations| - k
    ensures r.Some? ==>
      k <= r.value < |WinningCombinations| &&
      Uniform(s, WinningCombinations[r.value]) &&
      forall l :: k <= l < r.value ==> !Uniform(s, WinningCombinations[l])
    ensures r.None? ==> forall l :: k <= l < |WinningCombinations| ==> !Uniform(s, WinningCombinations[l])
  {
    if k == |WinningCombinations| then None
    else if Uniform(s, WinningCombinations[k]) then Some(k)
    else FirstWinFrom(s, k + 1)
  }

  /**
   * What the game decides after `p` has moved on board `s`: a win for `p` on the
   * first uniform combination in scan order, else a tie on a full board, else
   * the other player's turn.
   */
  function Evaluate(s: seq<Cell>, p: Mark): (r: Outcome)
    ensures r.Won? <==> !NoWin(s)
    ensures r.Won? ==>
      r.winner == p &&
      exists j :: 0 <= j < |WinningCombinations| && r.combo == WinningCombinations[j] &&
        Uniform(s, r.combo) &&
        forall l :: 0 <= l < j ==> !Uniform(s, WinningCombinations[l])
    ensures r.Tie? <==> NoWin(s) && Empty !in s
    ensures r.Next? <==> NoWin(s) && Empty in s
    ensures r.Next? ==> r.player == Other(p) && r.player != p
  {
    match FirstWinFrom(s, 0)
    case Some(j) => Won(p, WinningCombinations[j])
    case None => if Empty !in s then Tie else Next(Other(p))
  }

  /** The number of cells holding `m`. */
  function Count(s: seq<Cell>, m: Mark): nat {
    if s == [] then 0 else (if s[0] == Marked(m) then 1 else 0) + Count(s[1..], m)
  }

  /**
   * The invariant of every state reachable from a reset: X moves first and the
   * players alternate, so X has as many marks as O or one more, and the player
   * to move (while active) or the player who moved last (once over) is fixed by
   * those counts; an active game has no line and an empty cell; a finished game
   * is full or won, and every uniform line belongs to the player who moved last.
   */
  ghost predicate Consistent(s: seq<Cell>, p: Mark, active: bool) {
    |s| == Size &&
    var x, o := Count(s, X), Count(s, O);
    (x == o || x == o + 1) &&
    (active ==> NoWin(s) && Empty in s && (p == X <==> x == o)) &&
    (!active ==>
      (p == X <==> x == o + 1) &&
      (!NoWin(s) || Empty !in s) &&
      forall j :: 0 <= j < |WinningCombinations| && Uniform(s, WinningCombinations[j]) ==>
        s[WinningCombinations[j].a] == Marked(p))
  }

  lemma {:induction false} CountUnmarked(s: seq<Cell>, m: Mark)
    requires forall k :: 0 <= k < |s| ==> s[k] != Marked(m)
    ensures Count(s, m) == 0
  {
    if s != [] {
      CountUnmarked(s[1..], m);
    }
  }

  /** Marking an empty cell adds one mark of that player and none of the other. */
  lemma {:induction false} CountPlace(s: seq<Cell>, i: nat, p: Mark)
    requires i < |s| && s[i] == Empty
    ensures Count(s[i := Marked(p)], p) == Count(s, p) + 1
    ensures Count(s[i := Marked(p)], Other(p)) == Count(s, Other(p))
  {
    var t := s[i := Marked(p)];
    if i > 0 {
      assert t[1..] == s[1..][i - 1 := Marked(p)];
      CountPlace(s[1..], i - 1, p);
    } else {
      assert t[1..] == s[1..];
    }
  }

  /** The board a reset produces, with X to move, is a consistent active state. */
  lemma EmptyBoardConsistent()
    ensures Consistent(EmptyBoard(), X, true)
  {
    var s := EmptyBoard();
    CountUnmarked(s, X);
    CountUnmarked(s, O);
    assert s[0] == Empty;
  }

  /**
   * A line that is uniform after `p` marks cell `i` of a board without any
   * uniform line passes through `i` and holds `p`'s mark.
   */
  lemma NewLineThroughMove(s: seq<Cell>, i: nat, p: Mark, t: Combo)
    requires i < |s| && s[i] == Empty
    requires !Uniform(s, t) && Uniform(s[i := Marked(p)], t)
    ensures Contains(t, i) && s[i := Marked(p)][t.a] == Marked(p)
  {
  }

  /**
   * One accepted move keeps the invariant: from a consistent active state with
   * `p` to move, marking an empty cell and evaluating the board gives the state
   * the game records, which is consistent again.
   */
  lemma PlayKeepsConsistent(s: seq<Cell>, p: Mark, i: nat)
    requires Consistent(s, p, true) && i < Size && s[i] == Empty
    ensures var s' := s[i := Marked(p)];
            var r := Evaluate(s', p);
            Consistent(s', if r.Next? then r.player else p, r.Next?)
  {
    var s' := s[i := Marked(p)];
    CountPlace(s, i, p);
    forall j | 0 <= j < |WinningCombinations| && Uniform(s', WinningCombinations[j])
      ensures s'[WinningCombinations[j].a] == Marked(p)
    {
      NewLineThroughMove(s, i, p, WinningCombinations[j]);
    }
  }

  /**
   * The winner the game reports after an accepted move is the player who made
   * it, and the reported line passes through the cell just marked.
   */
  lemma WinnerIsMover(s: seq<Cell>, p: Mark, i: nat)
    requires Consistent(s, p, true) && i < Size && s[i] == Empty
    ensures var s' := s[i := Marked(p)];
            var r := Evaluate(s', p);
            r.Won? ==> r.winner == p && s'[r.combo.a] == Marked(p) && Contains(r.combo, i)
  {
  }

  /**
   * Players alternate: in an active consistent state X is to move exactly when
   * an even number of cells is marked.
   */
  lemma TurnParity(s: seq<Cell>, p: Mark)
    requires Consistent(s, p, true)
    ensures p == X <==> (Count(s, X) + Count(s, O)) % 2 == 0
  {
  }
}
