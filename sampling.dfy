/**
 * The mine positions drawn by `createRandomCoordinate` (src/model/Game.ts). `Math.random` is
 * replaced by a sequence of raw draws, each one value of `Math.floor(Math.random() * (length - 1))`;
 * `Picked` says which of them the retry loop keeps.
 */
module Sampling {
  import opened Cells
  import opened Coordinates
  import opened Collections

  /** `excludes.some((i) => coordinate2Number(i) === n)`. */
  predicate Excluded(width: int, excludes: seq<Coordinate>, n: int) {
    exists e :: e in excludes && Coordinate2Number(width, e) == n
  }

  /**
   * The draws the retry loop keeps when it is fed `draws` one by one and never stops:
   * a draw is skipped when it is excluded or already kept, and appended otherwise.
   */
  function Picked(width: int, excludes: seq<Coordinate>, draws: seq<int>): seq<int>
    decreases |draws|
  {
    if draws == [] then []
    else
      var kept := Picked(width, excludes, draws[..|draws| - 1]);
      var d := draws[|draws| - 1];
      if Excluded(width, excludes, d) || d in kept then kept else kept + [d]
  }

  /**
   * Every draw lies in `[0, length - 1)`, the range `Math.floor(Math.random() * (length - 1))`
   * produces, and the draws hold at least `mineCount` distinct non-excluded values, so that the
   * loop `while (randoms.length < mineCount)` finishes.
   */
  predicate DrawsFit(width: int, height: int, mineCount: int, excludes: seq<Coordinate>, draws: seq<int>) {
    (forall k :: 0 <= k < |draws| ==> 0 <= draws[k] < width * height - 1) &&
    |Picked(width, excludes, draws)| >= mineCount
  }

  /** `randoms.map((i) => this.number2Coordinate(i))`. */
  function ToCoordinates(width: int, ns: seq<int>): seq<Coordinate>
    requires width > 0
  {
    seq(|ns|, k requires 0 <= k < |ns| => Number2Coordinate(width, ns[k]))
  }

  /** The coordinates `createRandomCoordinate` returns: the first `mineCount` kept draws. */
  function Samples(width: int, height: int, mineCount: nat, excludes: seq<Coordinate>, draws: seq<int>): seq<Coordinate>
    requires width > 0 && DrawsFit(width, height, mineCount, excludes, draws)
  {
    ToCoordinates(width, Picked(width, excludes, draws)[..mineCount])
  }

  /** The flat indices a mine may be drawn at: `[0, length - 1)` without the excluded ones. */
  function Eligible(width: int, height: int, excludes: seq<Coordinate>): set<int> {
    set n | 0 <= n < width * height - 1 && !Excluded(width, excludes, n)
  }

  /** The kept draws are distinct draws that are not excluded. */
  lemma {:induction false} PickedSound(width: int, excludes: seq<Coordinate>, draws: seq<int>)
    ensures Distinct(Picked(width, excludes, draws))
    ensures forall n :: n in Picked(width, excludes, draws) ==> n in draws && !Excluded(width, excludes, n)
  {
    if draws != [] {
      var init := draws[..|draws| - 1];
      PickedSound(width, excludes, init);
      assert forall n :: n in init ==> n in draws;
    }
  }

  /** Every draw that is not excluded is kept (the first time it comes up). */
  lemma {:induction false} PickedComplete(width: int, excludes: seq<Coordinate>, draws: seq<int>)
    ensures forall n :: n in draws && !Excluded(width, excludes, n) ==> n in Picked(width, excludes, draws)
  {
    if draws != [] {
      var init := draws[..|draws| - 1];
      PickedComplete(width, excludes, init);
      assert draws == init + [draws[|draws| - 1]];
    }
  }

  /** Feeding a prefix of the draws keeps a prefix of what the whole sequence keeps. */
  lemma {:induction false} PickedPrefix(width: int, excludes: seq<Coordinate>, draws: seq<int>, i: nat)
    requires i <= |draws|
    ensures Picked(width, excludes, draws[..i]) <= Picked(width, excludes, draws)
    decreases |draws| - i
  {
    if i < |draws| {
      var init := draws[..|draws| - 1];
      assert init[..i] == draws[..i];
      PickedPrefix(width, excludes, init, i);
    } else {
      assert draws[..i] == draws;
    }
  }

  /** The `k`-th sample is the square of the `k`-th kept draw, an in-grid non-excluded index. */
  lemma SampleAt(width: int, height: int, mineCount: nat, excludes: seq<Coordinate>, draws: seq<int>, k: int)
    requires width > 0 && DrawsFit(width, height, mineCount, excludes, draws) && 0 <= k < mineCount
    ensures var s := Samples(width, height, mineCount, excludes, draws);
      var n := Picked(width, excludes, draws)[k];
      |s| == mineCount && s[k] == Number2Coordinate(width, n) &&
      Coordinate2Number(width, s[k]) == n && 0 <= n < width * height - 1 && !Excluded(width, excludes, n) &&
      InBounds(width, height, s[k])
  {
    var p := Picked(width, excludes, draws);
    PickedSound(width, excludes, draws);
    assert p[k] in p;
    NumberRoundTrip(width, p[k]);
    IndexRange(width, height, p[k]);
  }

  lemma ExcludedWitness(width: int, excludes: seq<Coordinate>, e: Coordinate)
    requires e in excludes
    ensures Excluded(width, excludes, Coordinate2Number(width, e))
  {
  }

  /** The samples are `mineCount` distinct squares of the grid. */
  lemma SamplesDistinct(width: int, height: int, mineCount: nat, excludes: seq<Coordinate>, draws: seq<int>)
    requires width > 0 && DrawsFit(width, height, mineCount, excludes, draws)
    ensures var s := Samples(width, height, mineCount, excludes, draws);
      |s| == mineCount && Distinct(s) && forall k :: 0 <= k < |s| ==> InBounds(width, height, s[k])
  {
    var s := Samples(width, height, mineCount, excludes, draws);
    PickedSound(width, excludes, draws);
    forall k | 0 <= k < |s|
      ensures InBounds(width, height, s[k])
    {
      SampleAt(width, height, mineCount, excludes, draws, k);
    }
    forall i, j | 0 <= i < j < |s|
      ensures s[i] != s[j]
    {
      SampleAt(width, height, mineCount, excludes, draws, i);
      SampleAt(width, height, mineCount, excludes, draws, j);
    }
  }

  /**
   * No sample is an excluded in-grid square, and none is the last square, whose index
   * `length - 1` lies outside the drawn range.
   */
  lemma SamplesAvoid(width: int, height: int, mineCount: nat, excludes: seq<Coordinate>, draws: seq<int>)
    requires width > 0 && DrawsFit(width, height, mineCount, excludes, draws)
    ensures var s := Samples(width, height, mineCount, excludes, draws);
      (forall e :: e in excludes && 0 <= e.0 < width && e.1 >= 0 ==> e !in s) &&
      LastSquare(width, height) !in s
  {
    var s := Samples(width, height, mineCount, excludes, draws);
    forall e | e in excludes && 0 <= e.0 < width && e.1 >= 0
      ensures e !in s
    {
      if e in s {
        var k :| 0 <= k < |s| && s[k] == e;
        ExcludedWitness(width, excludes, e);
        SampleAt(width, height, mineCount, excludes, draws, k);
        assert false;
      }
    }
    if LastSquare(width, height) in s {
      var k :| 0 <= k < |s| && s[k] == LastSquare(width, height);
      SampleAt(width, height, mineCount, excludes, draws, k);
      LastSquareIndex(width, height);
      assert false;
    }
  }

  /**
   * The retry loop cannot finish when `mineCount` exceeds the number of eligible indices:
   * no sequence of draws then fits.
   */
  lemma TooManyMines(width: int, height: int, mineCount: int, excludes: seq<Coordinate>, draws: seq<int>)
    requires mineCount > |Eligible(width, height, excludes)|
    ensures !DrawsFit(width, height, mineCount, excludes, draws)
  {
    if DrawsFit(width, height, mineCount, excludes, draws) {
      var p := Picked(width, excludes, draws);
      PickedSound(width, excludes, draws);
      DistinctCard(p);
      assert Elems(p) <= Eligible(width, height, excludes);
      SubsetCard(Elems(p), Eligible(width, height, excludes));
      assert false;
    }
  }

  /**
   * On a 1 × 2 board with one mine, a first click on (0, 0) never finishes scattering:
   * the only drawable index, 0, is the clicked square's.
   */
  lemma OneByTwoFirstOpenNeverFinishes(draws: seq<int>)
    ensures !DrawsFit(1, 2, 1, [(0, 0)], draws)
  {
    assert (0, 0) in [(0, 0)] && Coordinate2Number(1, (0, 0)) == 0;
    assert Eligible(1, 2, [(0, 0)]) == {};
    TooManyMines(1, 2, 1, [(0, 0)], draws);
  }
}
