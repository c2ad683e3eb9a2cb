/** The step-by-step walk of `movePlayer`.

  A roll of `steps` produces a path of exactly `steps` tiles. Each unit moves
  the token one tile forward while it is below the last tile and one tile back
  once it stands on the last tile, so past tile 100 the token alternates
  99, 100, 99, ... rather than reflecting off the end like a mirror.
 */
module Walk {
  import Board

  /** One unit of the walk: a move to an adjacent tile, backwards exactly when
      the token stands on (or past) the last tile. */
  function Step(current: int): (next: int)
    ensures next == current + 1 || next == current - 1
    ensures next < current <==> current >= Board.LastTile
    ensures Board.IsTile(current) ==> Board.IsTile(next)
  {
    if current < Board.LastTile then current + 1 else current - 1
  }

  /** The tile reached after `k` units of the walk starting on tile `p`: at
      most `k` tiles away, and still on the board when `p` is. */
  function WalkEnd(p: int, k: nat): (t: int)
    ensures p - k <= t <= p + k
    ensures Board.IsTile(p) ==> Board.IsTile(t)
  {
    if k == 0 then p else Step(WalkEnd(p, k - 1))
  }

  /** The tiles visited by a walk of `k` units from `p`, in order (the `path` array). */
  function WalkPath(p: int, k: nat): (path: seq<int>)
    ensures |path| == k
    ensures k > 0 ==> path[k - 1] == WalkEnd(p, k)
  {
    if k == 0 then [] else WalkPath(p, k - 1) + [WalkEnd(p, k)]
  }

  /** The tile before position `i` of a path that started on `p`. */
  function Before(p: int, path: seq<int>, i: int): int
    requires 0 <= i < |path|
  {
    if i == 0 then p else path[i - 1]
  }

  /** Where a walk ends, in closed form: the target when it is at most 100,
      otherwise 100 when the overshoot is even and 99 when it is odd. */
  function WalkEndFormula(p: int, k: nat): int {
    if p + k <= Board.LastTile then p + k
    else if (p + k - Board.LastTile) % 2 == 0 then Board.LastTile
    else Board.LastTile - 1
  }

  /** The walk agrees with the closed form from every tile up to 100. */
  lemma {:induction false} WalkEndClosedForm(p: int, k: nat)
    requires p <= Board.LastTile
    ensures WalkEnd(p, k) == WalkEndFormula(p, k)
  {
    if k > 0 {
      WalkEndClosedForm(p, k - 1);
    }
  }

  /** Position `i` of the path is the tile reached after `i + 1` units. */
  lemma {:induction false} PathEntries(p: int, k: nat)
    ensures forall i :: 0 <= i < k ==> WalkPath(p, k)[i] == WalkEnd(p, i + 1)
  {
    if k > 0 {
      PathEntries(p, k - 1);
      assert WalkPath(p, k) == WalkPath(p, k - 1) + [WalkEnd(p, k)];
    }
  }

  /** The shape of every path: one tile per unit, each tile adjacent to the
      previous one (starting from the player's tile), a backward unit only
      when the previous tile was 100, and no tile outside 1..100. */
  lemma PathShape(p: int, k: nat)
    requires 1 <= p <= Board.LastTile
    ensures |WalkPath(p, k)| == k
    ensures forall i :: 0 <= i < k ==>
      var path := WalkPath(p, k);
      && (path[i] == Before(p, path, i) + 1 || path[i] == Before(p, path, i) - 1)
      && (path[i] < Before(p, path, i) <==> Before(p, path, i) == Board.LastTile)
      && 1 <= path[i] <= Board.LastTile
  {
    var path := WalkPath(p, k);
    PathEntries(p, k);
    forall i | 0 <= i < k
      ensures Before(p, path, i) == WalkEnd(p, i)
      ensures 1 <= path[i] <= Board.LastTile
    {
      WalkEndClosedForm(p, i);
      WalkEndClosedForm(p, i + 1);
    }
  }

  /** Victory test on the final tile: the walk ends on 100 exactly when the
      target is 100 or the overshoot past 100 is even. */
  lemma EndsOnGoal(p: int, k: nat)
    requires p <= Board.LastTile
    ensures WalkEnd(p, k) == Board.LastTile <==> (p + k == Board.LastTile || (p + k > Board.LastTile && (p + k - Board.LastTile) % 2 == 0))
  {
    WalkEndClosedForm(p, k);
  }

  /** From 97 a roll of 5 walks 98, 99, 100, 99, 100 and ends on 100, while a
      roll of 6 walks 98, 99, 100, 99, 100, 99: it passes 100 twice yet ends on 99. */
  lemma OvershootExamples()
    ensures WalkPath(97, 5) == [98, 99, 100, 99, 100]
    ensures WalkEnd(97, 5) == Board.LastTile
    ensures WalkPath(97, 6) == [98, 99, 100, 99, 100, 99]
    ensures Board.LastTile in WalkPath(97, 6) && WalkEnd(97, 6) == 99
  {
    assert WalkPath(97, 1) == [98];
    assert WalkPath(97, 2) == [98, 99];
    assert WalkPath(97, 3) == [98, 99, 100];
    assert WalkPath(97, 4) == [98, 99, 100, 99];
    assert WalkPath(97, 5) == [98, 99, 100, 99, 100];
  }

  /** The path-building loop of `movePlayer`. */
  method BuildPath(p: int, steps: nat) returns (path: seq<int>)
    ensures path == WalkPath(p, steps)
    ensures |path| == steps
    ensures p <= Board.LastTile && steps > 0 ==> path[steps - 1] == WalkEndFormula(p, steps)
    ensures p <= Board.LastTile ==> forall i :: 0 <= i < |path| ==> path[i] <= Board.LastTile
  {
    var current := p;
    path := [];
    var i := 1;
    while i <= steps
      invariant 1 <= i <= steps + 1
      invariant path == WalkPath(p, i - 1)
      invariant current == WalkEnd(p, i - 1)
    {
      if current < Board.LastTile { current := current + 1; } else { current := current - 1; }
      path := path + [current];
      i := i + 1;
    }
    if p <= Board.LastTile {
      PathEntries(p, steps);
      forall i | 0 <= i < |path|
        ensures path[i] <= Board.LastTile
      {
        WalkEndClosedForm(p, i + 1);
      }
      if steps > 0 {
        WalkEndClosedForm(p, steps);
      }
    }
  }
}
