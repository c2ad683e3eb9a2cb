/** The snakes and ladders of the board and `checkEntity`, which resolves the
    tile a walk ended on. */
module Entities {
  import Board

  /** Snake heads and the tiles their tails lead to. */
  const Snakes: map<int, int> := map[
    98 := 28, 95 := 56, 92 := 51, 83 := 19, 73 := 1, 69 := 33,
    64 := 36, 59 := 17, 55 := 7, 52 := 11, 48 := 9, 46 := 5]

  /** Ladder feet and the tiles their tops lead to. */
  const Ladders: map<int, int> := map[
    2 := 23, 8 := 29, 22 := 41, 28 := 77, 30 := 32,
    44 := 58, 54 := 68, 70 := 90, 80 := 99, 87 := 93]

  /** The invariants the two maps keep: no tile starts both a snake and a
      ladder, every key and value is a tile, snakes lead down, ladders lead
      up, and no entity leads to the last tile. */
  ghost predicate WellFormed(snakes: map<int, int>, ladders: map<int, int>) {
    && snakes.Keys !! ladders.Keys
    && (forall k :: k in snakes ==> 1 <= snakes[k] < k <= Board.LastTile)
    && (forall k :: k in ladders ==> 1 <= k < ladders[k] < Board.LastTile)
  }

  lemma SnakeHeads()
    ensures Snakes.Keys == {98, 95, 92, 83, 73, 69, 64, 59, 55, 52, 48, 46}
  {
  }

  lemma LadderFeet()
    ensures Ladders.Keys == {2, 8, 22, 28, 30, 44, 54, 70, 80, 87}
  {
  }

  lemma SnakesDescend()
    ensures forall k :: k in Snakes ==> 1 <= Snakes[k] < k <= Board.LastTile
  {
    SnakeHeads();
  }

  lemma LaddersAscend()
    ensures forall k :: k in Ladders ==> 1 <= k < Ladders[k] < Board.LastTile
  {
    LadderFeet();
  }

  lemma KeysDisjoint()
    ensures Snakes.Keys !! Ladders.Keys
  {
    SnakeHeads();
    LadderFeet();
    var heads: set<int> := {98, 95, 92, 83, 73, 69, 64, 59, 55, 52, 48, 46};
    var feet: set<int> := {2, 8, 22, 28, 30, 44, 54, 70, 80, 87};
    forall k | k in heads
      ensures k !in feet
    {
    }
  }

  /** No snake leads onto a snake head. */
  lemma SnakeTailsClear()
    ensures forall k :: k in Snakes ==> Snakes[k] !in Snakes
  {
    SnakeHeads();
  }

  /** No ladder leads onto a snake head. */
  lemma LadderTopsClear()
    ensures forall k :: k in Ladders ==> Ladders[k] !in Snakes
  {
    SnakeHeads();
    LadderFeet();
  }

  lemma GameMapsWellFormed()
    ensures WellFormed(Snakes, Ladders)
  {
    SnakesDescend();
    LaddersAscend();
    KeysDisjoint();
  }

  /** `checkEntity`'s `if (snakes[p.pos])` / `if (ladders[p.pos])` test: the key is
      present and its value is truthy. */
  function Hit(m: map<int, int>, pos: int): (hit: bool)
    ensures hit ==> pos in m
    ensures (forall k :: k in m ==> m[k] != 0) ==> (hit <==> pos in m)
  {
    pos in m && m[pos] != 0
  }

  /** Every tile is exactly one of: a snake head, a ladder foot, a plain tile. */
  lemma Classification(t: int)
    ensures !(t in Snakes && t in Ladders)
    ensures Hit(Snakes, t) <==> t in Snakes
    ensures Hit(Ladders, t) <==> t in Ladders
  {
    GameMapsWellFormed();
  }

  /** The tile a player ends the move on after landing on `pos`: one lookup,
      snake first, then ladder, with no chaining into a second entity. */
  function Resolve(pos: int): (r: int)
    ensures pos in Snakes ==> r == Snakes[pos] && r < pos
    ensures pos in Ladders ==> r == Ladders[pos] && r > pos
    ensures pos !in Snakes && pos !in Ladders ==> r == pos
    ensures 1 <= pos <= 99 ==> 1 <= r <= 99
    ensures r !in Snakes
  {
    GameMapsWellFormed();
    SnakeTailsClear();
    LadderTopsClear();
    if Hit(Snakes, pos) then Snakes[pos]
    else if Hit(Ladders, pos) then Ladders[pos]
    else pos
  }

  /** Resolution is applied once: the snake 98 -> 28 ends on 28 even though 28
      is the foot of the ladder 28 -> 77. */
  lemma NoChaining()
    ensures Resolve(98) == 28
    ensures 28 in Ladders && Resolve(28) == 77
    ensures Resolve(Resolve(98)) != Resolve(98)
  {
  }
}
