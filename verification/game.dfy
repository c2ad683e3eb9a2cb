/** The turn sequencer: `startGame`, the `rollDice` guard, the tail of
    `movePlayer` (victory or entity resolution) and `nextTurn`.

  A roll is modelled as two transitions so that the `isAnimating` guard can be
  exercised while a move is in flight: `RollDice` takes the guard and draws
  the die, `MovePlayer` walks, resolves and hands the turn on. Timers,
  rendering and sound between the two have no effect on the state.
 */
module Game {
  import Board
  import Walk
  import Entities

  datatype Option<T> = None | Some(value: T)

  /** Most players the colour table has a colour for. */
  const MaxPlayers: int := 4

  /** The session state: one tile per player, whose turn it is, the
      re-entrancy guard, the die value of a move in flight, and whether
      `victory` has fired. */
  datatype State = State(
    positions: seq<int>,
    current: int,
    animating: bool,
    pending: Option<int>,
    won: bool)

  predicate IsRoll(roll: int) {
    1 <= roll <= 6
  }

  /** What every reachable state satisfies. Exactly the winner stands on 100;
      nobody rests on a snake head; the guard is held exactly while a move is
      in flight or after a win. */
  predicate Valid(s: State) {
    && 1 <= |s.positions| <= MaxPlayers
    && 0 <= s.current < |s.positions|
    && (forall i :: 0 <= i < |s.positions| ==> Board.IsTile(s.positions[i]))
    && (forall i :: 0 <= i < |s.positions| && i != s.current ==> s.positions[i] < Board.LastTile)
    && (forall i :: 0 <= i < |s.positions| ==> s.positions[i] !in Entities.Snakes)
    && (s.positions[s.current] == Board.LastTile <==> s.won)
    && (s.animating <==> (s.pending.Some? || s.won))
    && (s.pending.Some? ==> IsRoll(s.pending.value) && !s.won)
  }

  /** `startGame` on a fresh page: every player on tile 1, player 0 to move,
      the guard (initialised at load) clear. */
  function Start(n: int): (s: State)
    requires 1 <= n <= MaxPlayers
    ensures Valid(s)
    ensures |s.positions| == n
    ensures forall i :: 0 <= i < n ==> s.positions[i] == 1
    ensures s.current == 0 && !s.animating && !s.won
  {
    State(seq(n, _ => 1), 0, false, None, false)
  }

  /** `rollDice`: ignored while the guard is held; otherwise takes the guard
      and draws `roll`. */
  function RollDice(s: State, roll: int): (r: State)
    requires Valid(s) && IsRoll(roll)
    ensures Valid(r)
    ensures s.animating ==> r == s
    ensures !s.animating ==> r.animating && r.pending == Some(roll)
    ensures r.positions == s.positions && r.current == s.current && r.won == s.won
  {
    if s.animating then s
    else s.(animating := true, pending := Some(roll))
  }

  /** The tail of `movePlayer`: walk the drawn number of tiles, then either
      win on the final tile (guard kept, no turn change) or resolve the landed
      tile, clear the guard and pass the turn to the next player. */
  function MovePlayer(s: State): (r: State)
    requires Valid(s) && s.pending.Some?
    ensures Valid(r)
    ensures r.pending.None?
    ensures |r.positions| == |s.positions|
    ensures forall i :: 0 <= i < |s.positions| && i != s.current ==> r.positions[i] == s.positions[i]
    ensures var landed := Walk.WalkEndFormula(s.positions[s.current], s.pending.value);
      && (r.won <==> landed == Board.LastTile)
      && (r.won ==> r.current == s.current && r.animating && r.positions[s.current] == Board.LastTile)
      && (!r.won ==> r.current == NextIndex(s.current, |s.positions|) && !r.animating
                     && r.positions[s.current] == Entities.Resolve(landed))
  {
    var landed := Landing(s.positions[s.current], s.pending.value);
    if landed == Board.LastTile then
      s.(positions := s.positions[s.current := landed], pending := None, won := true)
    else
      s.(positions := s.positions[s.current := Entities.Resolve(landed)], pending := None,
         animating := false, current := NextIndex(s.current, |s.positions|))
  }

  /** The tile the walk of `movePlayer` stops on: the last entry of its path. */
  function Landing(p: int, roll: int): (t: int)
    requires 1 <= p <= Board.LastTile && IsRoll(roll)
    ensures t == Walk.WalkEndFormula(p, roll)
    ensures 1 <= t <= Board.LastTile
  {
    var path := Walk.WalkPath(p, roll);
    Walk.WalkEndClosedForm(p, roll);
    path[|path| - 1]
  }

  /** `nextTurn`: the index of the player after `i` among `n`, wrapping round. */
  function NextIndex(i: int, n: int): (j: int)
    requires 0 <= i < n
    ensures 0 <= j < n
    ensures j == 0 <==> i == n - 1
    ensures j != 0 ==> j == i + 1
  {
    (i + 1) % n
  }

  /** One complete roll, from the button press to the end of the move. */
  function Turn(s: State, roll: int): (r: State)
    requires Valid(s) && IsRoll(roll)
    ensures Valid(r)
    ensures s.animating ==> r == s
    ensures |r.positions| == |s.positions|
    ensures !s.animating ==>
      var landed := Walk.WalkEndFormula(s.positions[s.current], roll);
      && (r.won <==> landed == Board.LastTile)
      && (!r.won ==> r.current == NextIndex(s.current, |s.positions|) && !r.animating)
  {
    if s.animating then s else MovePlayer(RollDice(s, roll))
  }

  predicate AllRolls(rolls: seq<int>) {
    forall i :: 0 <= i < |rolls| ==> IsRoll(rolls[i])
  }

  /** A sequence of complete rolls. */
  function Play(s: State, rolls: seq<int>): (r: State)
    requires Valid(s) && AllRolls(rolls)
    decreases |rolls|
  {
    if |rolls| == 0 then s else Play(Turn(s, rolls[0]), rolls[1..])
  }

  /** Every state reachable by rolls from a valid state is valid; with
      `Start` this covers every state of a session. */
  lemma {:induction false} PlayKeepsValid(s: State, rolls: seq<int>)
    requires Valid(s) && AllRolls(rolls)
    ensures Valid(Play(s, rolls))
    ensures |Play(s, rolls).positions| == |s.positions|
    decreases |rolls|
  {
    if |rolls| > 0 {
      assert AllRolls(rolls[1..]);
      PlayKeepsValid(Turn(s, rolls[0]), rolls[1..]);
    }
  }

  /** After a win the guard is never released: every later roll is ignored. */
  lemma {:induction false} WonIsFinal(s: State, rolls: seq<int>)
    requires Valid(s) && AllRolls(rolls) && s.won
    ensures Play(s, rolls) == s
    decreases |rolls|
  {
    if |rolls| > 0 {
      assert Turn(s, rolls[0]) == s;
      WonIsFinal(s, rolls[1..]);
    }
  }

  /** The index after `k` turn changes starting from index `i`. */
  function Advance(i: int, k: nat, n: int): (j: int)
    requires 0 <= i < n
    ensures 0 <= j < n
    decreases k
  {
    if k == 0 then i else Advance(NextIndex(i, n), k - 1, n)
  }

  lemma {:induction false} MulAtLeast(d: int, n: int)
    requires d >= 1 && n >= 0
    ensures d * n >= n
  {
    if d > 1 {
      MulAtLeast(d - 1, n);
      assert d * n == (d - 1) * n + n;
    }
  }

  /** Uniqueness of Euclidean division. */
  lemma DivMod(a: int, n: int, q: int, rest: int)
    requires 0 < n && 0 <= rest < n && a == q * n + rest
    ensures a % n == rest
  {
    var q', rest' := a / n, a % n;
    assert a == q' * n + rest';
    assert (q - q') * n == rest' - rest;
    if q < q' {
      MulAtLeast(q' - q, n);
    } else if q > q' {
      MulAtLeast(q - q', n);
    }
  }

  /** `k` turn changes move the index `k` places round the table: `(i + k) % n`. */
  lemma {:induction false} AdvanceIsMod(i: int, k: nat, n: int)
    requires 0 <= i < n
    ensures Advance(i, k, n) == (i + k) % n
    decreases k
  {
    if k == 0 {
      DivMod(i, n, 0, i);
    } else {
      var j := NextIndex(i, n);
      AdvanceIsMod(j, k - 1, n);
      if j == 0 {
        assert i + k == 1 * n + (k - 1);
        var q, rest := (k - 1) / n, (k - 1) % n;
        assert k - 1 == q * n + rest;
        assert i + k == (q + 1) * n + rest;
        DivMod(i + k, n, q + 1, rest);
      } else {
        assert j + (k - 1) == i + k;
      }
    }
  }

  /** A full round of `n` turn changes gives the turn back. */
  lemma FullRound(i: int, n: int)
    requires 0 <= i < n
    ensures Advance(i, n, n) == i
  {
    AdvanceIsMod(i, n, n);
    DivMod(i + n, n, 1, i);
  }

  /** A run of rolls none of which wins passes the turn once per roll, and
      leaves the guard clear. */
  lemma {:induction false} TurnsAdvanceIndex(s: State, rolls: seq<int>)
    requires Valid(s) && AllRolls(rolls) && !s.animating
    requires !Play(s, rolls).won
    ensures Play(s, rolls).current == Advance(s.current, |rolls|, |s.positions|)
    ensures !Play(s, rolls).animating
    decreases |rolls|
  {
    if |rolls| > 0 {
      var t := Turn(s, rolls[0]);
      var rest := rolls[1..];
      assert AllRolls(rest);
      assert Play(s, rolls) == Play(t, rest);
      assert !t.won by {
        if t.won {
          WonIsFinal(t, rest);
        }
      }
      TurnsAdvanceIndex(t, rest);
    }
  }

  /** With `n` players, `n` consecutive non-winning rolls give the turn back
      to the player who started. */
  lemma TurnCycle(s: State, rolls: seq<int>)
    requires Valid(s) && AllRolls(rolls) && !s.animating
    requires |rolls| == |s.positions|
    requires !Play(s, rolls).won
    ensures Play(s, rolls).current == s.current
  {
    TurnsAdvanceIndex(s, rolls);
    FullRound(s.current, |s.positions|);
  }

  /** From a fresh game, a full round of non-winning rolls returns to player 0. */
  lemma StartCycle(n: int, rolls: seq<int>)
    requires 1 <= n <= MaxPlayers && AllRolls(rolls) && |rolls| == n
    requires !Play(Start(n), rolls).won
    ensures Play(Start(n), rolls).current == 0
  {
    TurnCycle(Start(n), rolls);
  }

  /** Two players, player 1 on 94 rolls 3, lands on the plain tile 97 and the
      turn passes to player 2. */
  lemma PlainTileScenario()
    ensures Turn(State([94, 1], 0, false, None, false), 3) == State([97, 1], 1, false, None, false)
  {
    Walk.WalkEndClosedForm(94, 3);
    assert [94, 1][0 := 97] == [97, 1];
  }

  /** Player 1 on 94 rolling 4 lands on 98, which is the head of the snake
      98 -> 28, so the move ends on 28 rather than on 98. */
  lemma SnakeAt98Scenario()
    ensures Turn(State([94, 1], 0, false, None, false), 4) == State([28, 1], 1, false, None, false)
  {
    Walk.WalkEndClosedForm(94, 4);
    assert [94, 1][0 := 28] == [28, 1];
  }

  /** From the start, a roll of 1 lands on the ladder at 2 and climbs to 23. */
  lemma LadderScenario()
    ensures Turn(Start(2), 1).positions == [23, 1]
    ensures Turn(Start(2), 1).current == 1
  {
    Walk.WalkEndClosedForm(1, 1);
  }

  /** From 43 a roll of 3 lands on the snake at 46 and slides to 5. */
  lemma SnakeScenario()
    ensures Turn(State([43, 1], 0, false, None, false), 3).positions == [5, 1]
  {
    Walk.WalkEndClosedForm(43, 3);
  }

  /** From 99 a roll of 1 wins, and every later roll is ignored. */
  lemma VictoryScenarios(rolls: seq<int>)
    requires AllRolls(rolls)
    ensures Turn(State([99, 1], 0, false, None, false), 1).won
    ensures Play(Turn(State([99, 1], 0, false, None, false), 1), rolls)
         == Turn(State([99, 1], 0, false, None, false), 1)
  {
    Walk.WalkEndClosedForm(99, 1);
    WonIsFinal(Turn(State([99, 1], 0, false, None, false), 1), rolls);
  }

  /** Passing 100 mid-walk does not win: from 97 a roll of 6 ends on 99. */
  lemma PassingScenario()
    ensures !Turn(State([97, 1], 0, false, None, false), 6).won
    ensures Turn(State([97, 1], 0, false, None, false), 6).positions == [99, 1]
  {
    Walk.WalkEndClosedForm(97, 6);
  }
}
