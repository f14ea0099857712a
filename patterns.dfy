/** `PatternGenerator.generate_cross` of megaverse/patterns.py: the X of Polyanets. */
module Patterns {
  import opened Wrappers
  import opened Models

  /** The distances from the centre of the arms of the X, in generation order. */
  const Distances: seq<int> := [2, 3, 4]

  /** The four objects appended for one distance: top-left, bottom-right, top-right, bottom-left. */
  function ArmObjects(center: int, d: int): seq<AstralObject>
  {
    [PolyanetObject(Position(center - d, center - d)),
     PolyanetObject(Position(center + d, center + d)),
     PolyanetObject(Position(center - d, center + d)),
     PolyanetObject(Position(center + d, center - d))]
  }

  function Arms(center: int, distances: seq<int>): seq<AstralObject>
  {
    if distances == [] then []
    else Arms(center, distances[..|distances| - 1]) + ArmObjects(center, distances[|distances| - 1])
  }

  /** The list `generate_cross(size)` returns for an odd `size`; the centre is `size // 2`. */
  function Cross(size: int): seq<AstralObject>
  {
    var center := size / 2;
    Arms(center, Distances) + [PolyanetObject(Position(center, center))]
  }

  /** `generate_cross`: ValueError for an even size, otherwise the list built distance by distance. */
  method GenerateCross(size: int) returns (r: Result<seq<AstralObject>, string>)
    ensures r.Failure? <==> size % 2 == 0
    ensures r.Success? ==> r.value == Cross(size)
  {
    if size % 2 == 0 {
      return Failure("Size must be odd to create a centered cross");
    }
    var center := size / 2;
    var objects: seq<AstralObject> := [];
    var distances := Distances;
    for i := 0 to |distances|
      invariant objects == Arms(center, distances[..i])
    {
      var dist := distances[i];
      objects := objects + [PolyanetObject(Position(center - dist, center - dist))];
      objects := objects + [PolyanetObject(Position(center + dist, center + dist))];
      objects := objects + [PolyanetObject(Position(center - dist, center + dist))];
      objects := objects + [PolyanetObject(Position(center + dist, center - dist))];
      assert distances[..i + 1][..i] == distances[..i];
    }
    assert distances[..|distances|] == Distances;
    objects := objects + [PolyanetObject(Position(center, center))];
    return Success(objects);
  }

  /** The offset from the centre of each generated position, in generation order. */
  const Offsets: seq<(int, int)> := [
    (-2, -2), (2, 2), (-2, 2), (2, -2),
    (-3, -3), (3, 3), (-3, 3), (3, -3),
    (-4, -4), (4, 4), (-4, 4), (4, -4),
    (0, 0)]

  function Offset(center: int, i: int): AstralObject
    requires 0 <= i < |Offsets|
  {
    PolyanetObject(Position(center + Offsets[i].0, center + Offsets[i].1))
  }

  lemma ArmsOfDistances(center: int)
    ensures Arms(center, Distances) == ArmObjects(center, 2) + ArmObjects(center, 3) + ArmObjects(center, 4)
  {
    assert Distances[..2] == [2, 3] && [2, 3][..1] == [2] && [2][..0] == [];
    assert Arms(center, [2]) == ArmObjects(center, 2);
    assert Arms(center, [2, 3]) == ArmObjects(center, 2) + ArmObjects(center, 3);
  }

  lemma ArmOffsets(center: int, d: int)
    requires 2 <= d <= 4
    ensures forall j :: 0 <= j < 4 ==> ArmObjects(center, d)[j] == Offset(center, 4 * (d - 2) + j)
  {
  }

  /**
   * The cross has 13 objects: for d = 2, 3, 4 in turn, the four arm objects of
   * distance d (top-left, bottom-right, top-right, bottom-left), then the centre.
   */
  lemma CrossLayout(size: int)
    ensures |Cross(size)| == |Offsets|
    ensures forall i :: 0 <= i < |Offsets| ==> Cross(size)[i] == Offset(size / 2, i)
  {
    var c := size / 2;
    var cross := Cross(size);
    ArmsOfDistances(c);
    ArmOffsets(c, 2);
    ArmOffsets(c, 3);
    ArmOffsets(c, 4);
    forall i | 0 <= i < |Offsets|
      ensures cross[i] == Offset(c, i)
    {
      if i < 4 {
        assert cross[i] == ArmObjects(c, 2)[i];
      } else if i < 8 {
        assert cross[i] == ArmObjects(c, 3)[i - 4];
      } else if i < 12 {
        assert cross[i] == ArmObjects(c, 4)[i - 8];
      }
    }
  }

  /** Every generated object is a Polyanet. */
  lemma CrossAllPolyanets(size: int)
    ensures forall i :: 0 <= i < |Cross(size)| ==> Cross(size)[i].PolyanetObject?
  {
    CrossLayout(size);
  }

  function Abs(x: int): nat
  {
    if x < 0 then -x else x
  }

  /** A cell of the X around `center`: the centre, or a diagonal cell at distance 2, 3 or 4. */
  predicate OnCross(p: Position, center: int)
  {
    p == Position(center, center)
    || (Abs(p.row - center) == Abs(p.column - center) && 2 <= Abs(p.row - center) <= 4)
  }

  function PositionsOf(objects: seq<AstralObject>): set<Position>
  {
    set i | 0 <= i < |objects| :: objects[i].position
  }

  /** Every generated position is a cell of the X. */
  lemma CrossOnX(size: int)
    ensures forall p :: p in PositionsOf(Cross(size)) ==> OnCross(p, size / 2)
  {
    CrossLayout(size);
  }

  /** Every cell of the X is generated. */
  lemma XInCross(size: int)
    ensures forall p :: OnCross(p, size / 2) ==> p in PositionsOf(Cross(size))
  {
    var c, cross := size / 2, Cross(size);
    CrossLayout(size);
    forall p | OnCross(p, c)
      ensures p in PositionsOf(cross)
    {
      if p == Position(c, c) {
        assert cross[12].position == p;
      } else {
        var d := Abs(p.row - c);
        var k := 4 * (d - 2);
        if p.row == c - d && p.column == c - d {
          assert cross[k].position == p;
        } else if p.row == c + d && p.column == c + d {
          assert cross[k + 1].position == p;
        } else if p.row == c - d {
          assert cross[k + 2].position == p;
        } else {
          assert cross[k + 3].position == p;
        }
      }
    }
  }

  /** The generated positions are exactly the cells of the X, and no position is generated twice. */
  lemma CrossPositions(size: int)
    ensures forall p :: p in PositionsOf(Cross(size)) <==> OnCross(p, size / 2)
    ensures forall i, j :: 0 <= i < j < |Cross(size)| ==> Cross(size)[i].position != Cross(size)[j].position
  {
    CrossOnX(size);
    XInCross(size);
    CrossLayout(size);
    assert forall i, j :: 0 <= i < j < |Offsets| ==> Offsets[i] != Offsets[j];
  }

  /** For an odd size of at least 9 every generated position lies inside the size x size grid. */
  lemma CrossInGrid(size: int)
    requires size % 2 == 1 && size >= 9
    ensures forall i :: 0 <= i < |Cross(size)| ==>
      0 <= Cross(size)[i].position.row < size && 0 <= Cross(size)[i].position.column < size
  {
    CrossLayout(size);
  }

  /** The default size 11 gives the position set the test suite expects. */
  lemma CrossOfEleven()
    ensures PositionsOf(Cross(11)) == {
      Position(3, 3), Position(7, 7), Position(3, 7), Position(7, 3),
      Position(2, 2), Position(8, 8), Position(2, 8), Position(8, 2),
      Position(1, 1), Position(9, 9), Position(1, 9), Position(9, 1),
      Position(5, 5)}
  {
    CrossPositions(11);
    assert 11 / 2 == 5;
  }
}
