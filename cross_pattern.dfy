/** `create_cross_pattern` of challenge1_cross.py: one create call per object of the size-11 cross. */
module CrossPattern {
  import opened Wrappers
  import opened Models
  import opened Remote
  import opened Patterns

  /**
   * `create_cross_pattern(api)`: generates the default cross and calls
   * `create_astral_object` on each object in turn; an exception from a call
   * is caught and the loop goes on, so the calls made do not depend on what
   * the calls return, and the model takes no outcomes.
   */
  method CreateCrossPattern() returns (calls: seq<Call>)
    ensures |calls| == |Cross(11)| == 13
    ensures forall i :: 0 <= i < |calls| ==> calls[i] == CreateAstralObject(Cross(11)[i])
    ensures forall i :: 0 <= i < |calls| ==> calls[i].obj.PolyanetObject?
  {
    var generated := GenerateCross(11);
    var objects := generated.value;
    CrossLayout(11);
    CrossAllPolyanets(11);
    calls := [];
    for i := 0 to |objects|
      invariant |calls| == i
      invariant forall j :: 0 <= j < i ==> calls[j] == CreateAstralObject(objects[j])
    {
      calls := calls + [CreateAstralObject(objects[i])];
    }
  }
}
