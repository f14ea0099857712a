/**
 * The object model of megaverse/models.py: grid positions, the three kinds of
 * astral object and the request payloads they build.
 */
module Models {

  /** A grid cell. A datatype, so equality is field-wise, as for the dataclass. */
  datatype Position = Position(row: int, column: int)

  /** `PolyanetObject`, `SoloonObject` and `ComethObject`, the subclasses of `AstralObject`. */
  datatype AstralObject =
    | PolyanetObject(position: Position)
    | SoloonObject(position: Position, color: string)
    | ComethObject(position: Position, direction: string)

  /** A JSON value of a payload entry. */
  datatype PayloadValue = IntValue(i: int) | StrValue(s: string)

  /** A request body: a dictionary from key to value. */
  type Payload = map<string, PayloadValue>

  const BaseKeys: set<string> := {"row", "column", "candidateId"}

  /** The keys a subclass adds to the base payload. */
  function ExtraKeys(obj: AstralObject): set<string>
  {
    match obj
    case PolyanetObject(_) => {}
    case SoloonObject(_, _) => {"color"}
    case ComethObject(_, _) => {"direction"}
  }

  /** `AstralObject.to_api_payload`: a fresh dictionary with the position and the candidate id. */
  function BasePayload(position: Position, candidateId: string): Payload
  {
    map["row" := IntValue(position.row), "column" := IntValue(position.column),
        "candidateId" := StrValue(candidateId)]
  }

  /** `to_api_payload` of each subclass: the base payload, to which Soloon adds `color` and Cometh `direction`. */
  function ToApiPayload(obj: AstralObject, candidateId: string): Payload
  {
    var payload := BasePayload(obj.position, candidateId);
    match obj
    case PolyanetObject(_) => payload
    case SoloonObject(_, color) => payload["color" := StrValue(color)]
    case ComethObject(_, direction) => payload["direction" := StrValue(direction)]
  }

  /** Two positions are equal exactly when their rows and their columns are. */
  lemma PositionEquality(a: Position, b: Position)
    ensures a == b <==> (a.row == b.row && a.column == b.column)
  {
  }

  /** The base payload holds exactly `row`, `column` and `candidateId`, taken from its arguments. */
  lemma BasePayloadShape(position: Position, candidateId: string)
    ensures BasePayload(position, candidateId).Keys == BaseKeys
    ensures BasePayload(position, candidateId)["row"] == IntValue(position.row)
    ensures BasePayload(position, candidateId)["column"] == IntValue(position.column)
    ensures BasePayload(position, candidateId)["candidateId"] == StrValue(candidateId)
  {
  }

  /**
   * Every payload extends the base payload of its position: it agrees with it
   * on the base keys and adds only the subclass's own key, holding its property.
   */
  lemma PayloadExtendsBase(obj: AstralObject, candidateId: string)
    ensures ToApiPayload(obj, candidateId).Keys == BaseKeys + ExtraKeys(obj)
    ensures forall key :: key in BaseKeys ==>
      ToApiPayload(obj, candidateId)[key] == BasePayload(obj.position, candidateId)[key]
    ensures obj.PolyanetObject? ==> ToApiPayload(obj, candidateId) == BasePayload(obj.position, candidateId)
    ensures obj.SoloonObject? ==> ToApiPayload(obj, candidateId)["color"] == StrValue(obj.color)
    ensures obj.ComethObject? ==> ToApiPayload(obj, candidateId)["direction"] == StrValue(obj.direction)
  {
    BasePayloadShape(obj.position, candidateId);
  }

  /** A payload determines the object and the candidate id it was built from. */
  lemma PayloadInjective(a: AstralObject, b: AstralObject, idA: string, idB: string)
    requires ToApiPayload(a, idA) == ToApiPayload(b, idB)
    ensures a == b && idA == idB
  {
    var p := ToApiPayload(a, idA);
    PayloadExtendsBase(a, idA);
    PayloadExtendsBase(b, idB);
    BasePayloadShape(a.position, idA);
    BasePayloadShape(b.position, idB);
    assert p["row"] == IntValue(a.position.row) == IntValue(b.position.row);
    assert p["column"] == IntValue(a.position.column) == IntValue(b.position.column);
    assert ExtraKeys(a) == ExtraKeys(b) by {
      assert p.Keys == BaseKeys + ExtraKeys(a) == BaseKeys + ExtraKeys(b);
      assert "color" !in BaseKeys && "direction" !in BaseKeys;
    }
  }
}
