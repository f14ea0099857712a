/**
 * The creation driver of challenge2.py: parse the goal map, create each object
 * with the call of its type, and append each successfully created object to the
 * creation log.
 */
module Creation {
  import opened Wrappers
  import opened Models
  import opened Remote
  import opened GoalParser
  import opened Sequences

  /** The creation log file: None when it does not exist, otherwise its records, one per line. */
  type LogFile = Option<seq<Record>>

  function Lines(log: LogFile): seq<Record>
  {
    match log
    case Some(lines) => lines
    case None => []
  }

  /**
   * `log_created_object`: opens the log in append mode, which creates it when
   * it is missing, and writes the record as one more line at the end.
   */
  function LogCreatedObject(log: LogFile, obj: Record): (r: LogFile)
    ensures r.Some? && |r.value| == |Lines(log)| + 1
    ensures r.value[..|Lines(log)|] == Lines(log) && r.value[|Lines(log)|] == obj
  {
    Some(Lines(log) + [obj])
  }

  /** The log after appending each of `records` in turn (untouched when there are none). */
  function AppendAll(log: LogFile, records: seq<Record>): LogFile
  {
    if records == [] then log else Some(Lines(log) + records)
  }

  /** Appending one more record extends the appended sequence by that record. */
  lemma AppendAllStep(log: LogFile, records: seq<Record>, obj: Record)
    ensures LogCreatedObject(AppendAll(log, records), obj) == AppendAll(log, records + [obj])
  {
    if records == [] {
      assert records + [obj] == [obj];
    } else {
      assert Lines(AppendAll(log, records)) == Lines(log) + records;
      assert Lines(log) + records + [obj] == Lines(log) + (records + [obj]);
    }
  }

  /**
   * What the try block does for one record before any logging: the create
   * call of its type, no call for an unknown type, or a KeyError (caught)
   * when a SOLOON has no color or a COMETH no direction.
   */
  datatype Dispatch = Send(call: Call) | NoCall | MissingField

  function CreateDispatch(obj: Record): Dispatch
  {
    var position := Position(obj.row, obj.column);
    if obj.kind == "POLYANET" then Send(CreatePolyanet(position))
    else if obj.kind == "SOLOON" then
      match obj.color
      case Some(color) => Send(CreateSoloon(position, color))
      case None => MissingField
    else if obj.kind == "COMETH" then
      match obj.direction
      case Some(direction) => Send(CreateCometh(position, direction))
      case None => MissingField
    else NoCall
  }

  /** The calls made and the records logged, in order. */
  datatype CreateResult = CreateResult(calls: seq<Call>, created: seq<Record>)

  /**
   * What one record contributes when the next call made is call number `k`:
   * its create call, if it has one, and the record itself when it is logged
   * (after a create call that succeeded, or straight away for an unknown type).
   */
  function Step(obj: Record, outcomes: seq<Outcome>, k: nat): CreateResult
  {
    match CreateDispatch(obj)
    case Send(call) => CreateResult([call], if Respond(outcomes, k).Ok? then [obj] else [])
    case NoCall => CreateResult([], [obj])
    case MissingField => CreateResult([], [])
  }

  /**
   * The run over `objects`, calls numbered from 0: each record's create call,
   * if it makes one, is the next call after those of the records before it.
   */
  function CreateRun(objects: seq<Record>, outcomes: seq<Outcome>): CreateResult
    decreases |objects|
  {
    if objects == [] then CreateResult([], [])
    else
      var init := CreateRun(objects[..|objects| - 1], outcomes);
      var last := Step(objects[|objects| - 1], outcomes, |init.calls|);
      CreateResult(init.calls + last.calls, init.created + last.created)
  }

  /** The run over the first `i + 1` records is the run over the first `i` followed by record `i`'s step. */
  lemma CreateRunSnoc(objects: seq<Record>, i: nat, outcomes: seq<Outcome>)
    requires i < |objects|
    ensures var init := CreateRun(objects[..i], outcomes);
      var last := Step(objects[i], outcomes, |init.calls|);
      CreateRun(objects[..i + 1], outcomes) == CreateResult(init.calls + last.calls, init.created + last.created)
  {
    assert objects[..i + 1][..i] == objects[..i];
    assert objects[..i + 1][i] == objects[i];
  }

  /**
   * `create_objects_from_goal(api, dry_run)`. `fetched` is what
   * `api.get_goal_map()` did: the goal map, or the message of the exception it
   * raised, which is not caught here and leaves the function as `raised`.
   * `log` is the log file before the run and `outcomes` the outcome of each
   * create call in the order the calls are made.
   */
  method CreateObjectsFromGoal(fetched: Result<GoalMap, string>, dryRun: bool, log: LogFile, outcomes: seq<Outcome>)
    returns (calls: seq<Call>, newLog: LogFile, raised: Option<string>)
    ensures fetched.Failure? ==> calls == [] && newLog == log && raised == Some(fetched.error)
    ensures fetched.Success? ==> raised == None
    ensures fetched.Success? && dryRun ==> calls == [] && newLog == log
    ensures fetched.Success? && !dryRun ==>
      calls == CreateRun(ParseGoal(fetched.value), outcomes).calls
      && newLog == AppendAll(log, CreateRun(ParseGoal(fetched.value), outcomes).created)
  {
    if fetched.Failure? {
      return [], log, Some(fetched.error);
    }
    raised := None;
    var objects := ParseGoalMap(fetched.value);
    ghost var created: seq<Record> := [];
    calls, newLog := [], log;
    for i := 0 to |objects|
      invariant newLog == AppendAll(log, created)
      invariant dryRun ==> calls == [] && created == []
      invariant !dryRun ==> calls == CreateRun(objects[..i], outcomes).calls
      invariant !dryRun ==> created == CreateRun(objects[..i], outcomes).created
    {
      var obj := objects[i];
      var position := Position(obj.row, obj.column);
      if dryRun {
        continue;
      }
      ghost var callsBefore, createdBefore := calls, created;
      ghost var here := Step(obj, outcomes, |calls|);
      CreateRunSnoc(objects, i, outcomes);
      var outcome: Outcome;
      if obj.kind == "POLYANET" {
        assert CreateDispatch(obj) == Send(CreatePolyanet(position));
        outcome := Respond(outcomes, |calls|);
        calls := calls + [CreatePolyanet(position)];
      } else if obj.kind == "SOLOON" {
        if obj.color.None? {
          assert CreateDispatch(obj) == MissingField;
          assert callsBefore + here.calls == calls && createdBefore + here.created == created;
          continue;
        }
        assert CreateDispatch(obj) == Send(CreateSoloon(position, obj.color.value));
        outcome := Respond(outcomes, |calls|);
        calls := calls + [CreateSoloon(position, obj.color.value)];
      } else if obj.kind == "COMETH" {
        if obj.direction.None? {
          assert CreateDispatch(obj) == MissingField;
          assert callsBefore + here.calls == calls && createdBefore + here.created == created;
          continue;
        }
        assert CreateDispatch(obj) == Send(CreateCometh(position, obj.direction.value));
        outcome := Respond(outcomes, |calls|);
        calls := calls + [CreateCometh(position, obj.direction.value)];
      } else {
        assert CreateDispatch(obj) == NoCall;
        outcome := Ok;
      }
      if outcome.Ok? {
        AppendAllStep(log, created, obj);
        newLog := LogCreatedObject(newLog, obj);
        created := created + [obj];
      }
      assert calls == callsBefore + here.calls && created == createdBefore + here.created;
    }
    assert objects[..|objects|] == objects;
  }

  /** `call` is the create call that the record's type asks for, at the record's position. */
  predicate Creates(call: Call, r: Record)
  {
    match call
    case CreatePolyanet(p) => r.kind == "POLYANET" && p == Position(r.row, r.column)
    case CreateSoloon(p, color) => r.kind == "SOLOON" && r.color == Some(color) && p == Position(r.row, r.column)
    case CreateCometh(p, direction) => r.kind == "COMETH" && r.direction == Some(direction) && p == Position(r.row, r.column)
    case _ => false
  }

  /** A record as the parser produces it always leads to exactly one create call, the one its type asks for. */
  lemma WellFormedIsSent(r: Record, outcomes: seq<Outcome>, k: nat)
    requires WellFormed(r)
    ensures CreateDispatch(r).Send? && Creates(CreateDispatch(r).call, r)
    ensures Step(r, outcomes, k) == CreateResult([CreateDispatch(r).call], if Respond(outcomes, k).Ok? then [r] else [])
  {
  }

  /** Over parsed records the i-th call is the create call of the i-th record: one call each, in order. */
  lemma {:induction false} CreateRunCalls(objects: seq<Record>, outcomes: seq<Outcome>)
    requires forall i :: 0 <= i < |objects| ==> WellFormed(objects[i])
    ensures |CreateRun(objects, outcomes).calls| == |objects|
    ensures forall i :: 0 <= i < |objects| ==> Creates(CreateRun(objects, outcomes).calls[i], objects[i])
    decreases |objects|
  {
    if objects != [] {
      var n := |objects| - 1;
      var init := objects[..n];
      CreateRunCalls(init, outcomes);
      var a := CreateRun(init, outcomes).calls;
      WellFormedIsSent(objects[n], outcomes, |a|);
      var out: seq<Call> := a + [CreateDispatch(objects[n]).call];
      assert CreateRun(objects, outcomes).calls == out;
      forall i | 0 <= i < |objects|
        ensures Creates(out[i], objects[i])
      {
        if i < n {
          assert out[i] == a[i] && objects[i] == init[i];
        }
      }
    }
  }

  /** Over parsed records the last record adds its create call, call number `n`, and is logged when that call succeeded. */
  lemma CreateRunLast(objects: seq<Record>, outcomes: seq<Outcome>)
    requires objects != [] && forall i :: 0 <= i < |objects| ==> WellFormed(objects[i])
    ensures CreateDispatch(objects[|objects| - 1]).Send?
    ensures var n := |objects| - 1;
      var init := CreateRun(objects[..n], outcomes);
      CreateRun(objects, outcomes)
        == CreateResult(init.calls + [CreateDispatch(objects[n]).call],
                        init.created + (if Respond(outcomes, n).Ok? then [objects[n]] else []))
  {
    var n := |objects| - 1;
    CreateRunCalls(objects[..n], outcomes);
    WellFormedIsSent(objects[n], outcomes, n);
  }

  /** The records logged are some of the parsed records, kept in the order they were parsed. */
  lemma {:induction false} CreateRunInOrder(objects: seq<Record>, outcomes: seq<Outcome>)
    ensures Subsequence(CreateRun(objects, outcomes).created, objects)
    decreases |objects|
  {
    if objects != [] {
      var n := |objects| - 1;
      var init, last := objects[..n], objects[n];
      assert objects == init + [last];
      CreateRunInOrder(init, outcomes);
      var a := CreateRun(init, outcomes).created;
      var here := Step(last, outcomes, |CreateRun(init, outcomes).calls|);
      assert CreateRun(objects, outcomes).created == a + here.created;
      SubsequenceSnoc(a, init, last);
      if here.created == [] {
        assert a + here.created == a;
      } else {
        assert here.created == [last];
      }
    }
  }

  /**
   * Over parsed records the record at `i`, whose create call is call number
   * `i`, is logged when that call succeeded; a failed call does not stop the run.
   */
  lemma {:induction false} CreateRunLogsSuccesses(objects: seq<Record>, outcomes: seq<Outcome>)
    requires forall i :: 0 <= i < |objects| ==> WellFormed(objects[i])
    ensures forall i :: 0 <= i < |objects| && Respond(outcomes, i).Ok? ==>
      objects[i] in CreateRun(objects, outcomes).created
    decreases |objects|
  {
    if objects != [] {
      var n := |objects| - 1;
      var init := objects[..n];
      CreateRunLogsSuccesses(init, outcomes);
      CreateRunLast(objects, outcomes);
      var a := CreateRun(init, outcomes).created;
      var created := CreateRun(objects, outcomes).created;
      assert created == a + (if Respond(outcomes, n).Ok? then [objects[n]] else []);
      forall i | 0 <= i < n && Respond(outcomes, i).Ok?
        ensures objects[i] in created
      {
        assert objects[i] == init[i] && objects[i] in a;
      }
    }
  }

  /** Over parsed records only a record whose own create call succeeded is logged. */
  lemma {:induction false} CreateRunLogsOnlySuccesses(objects: seq<Record>, outcomes: seq<Outcome>)
    requires forall i :: 0 <= i < |objects| ==> WellFormed(objects[i])
    ensures forall x :: x in CreateRun(objects, outcomes).created ==>
      exists i :: 0 <= i < |objects| && objects[i] == x && Respond(outcomes, i).Ok?
    decreases |objects|
  {
    if objects != [] {
      var n := |objects| - 1;
      var init := objects[..n];
      CreateRunLogsOnlySuccesses(init, outcomes);
      CreateRunLast(objects, outcomes);
      var a := CreateRun(init, outcomes).created;
      var ok := Respond(outcomes, n).Ok?;
      var created := CreateRun(objects, outcomes).created;
      assert created == a + (if ok then [objects[n]] else []);
      forall x | x in created
        ensures exists i :: 0 <= i < |objects| && objects[i] == x && Respond(outcomes, i).Ok?
      {
        if x in a {
          var j :| 0 <= j < |init| && init[j] == x && Respond(outcomes, j).Ok?;
          assert objects[j] == x;
        } else {
          assert ok && objects[n] == x;
        }
      }
    }
  }

  /** The positions below `n` whose call succeeded, in increasing order. */
  function OkPositions(n: nat, outcomes: seq<Outcome>): seq<nat>
  {
    if n == 0 then []
    else OkPositions(n - 1, outcomes) + (if Respond(outcomes, n - 1).Ok? then [n - 1] else [])
  }

  /**
   * Over parsed records the log gains the records at exactly the positions
   * whose create call succeeded: one entry per such position, in creation
   * order, so a record processed twice and created twice is logged twice.
   */
  lemma {:induction false} CreateRunCreatedIndices(objects: seq<Record>, outcomes: seq<Outcome>)
    requires forall i :: 0 <= i < |objects| ==> WellFormed(objects[i])
    ensures var idx := OkPositions(|objects|, outcomes);
      && PicksOut(CreateRun(objects, outcomes).created, objects, idx)
      && (forall i :: 0 <= i < |objects| ==> (i in idx <==> Respond(outcomes, i).Ok?))
    decreases |objects|
  {
    if objects != [] {
      var n := |objects| - 1;
      var init := objects[..n];
      CreateRunCreatedIndices(init, outcomes);
      CreateRunLast(objects, outcomes);
      var a := CreateRun(init, outcomes).created;
      var ia := OkPositions(n, outcomes);
      PicksOutGrow(a, objects, ia);
    }
    OkPositionsMembers(|objects|, outcomes);
  }

  /** The positions below `n` whose call succeeded are exactly those `OkPositions` lists. */
  lemma {:induction false} OkPositionsMembers(n: nat, outcomes: seq<Outcome>)
    ensures forall i :: i in OkPositions(n, outcomes) ==> i < n
    ensures forall i :: 0 <= i < n ==> (i in OkPositions(n, outcomes) <==> Respond(outcomes, i).Ok?)
  {
    if n > 0 {
      OkPositionsMembers(n - 1, outcomes);
    }
  }

  /** When every create call succeeds, every parsed record is logged, in order. */
  lemma {:induction false} CreateRunAllSucceed(objects: seq<Record>, outcomes: seq<Outcome>)
    requires forall i :: 0 <= i < |objects| ==> WellFormed(objects[i])
    requires forall j :: 0 <= j < |objects| ==> Respond(outcomes, j).Ok?
    ensures CreateRun(objects, outcomes).created == objects
    decreases |objects|
  {
    if objects != [] {
      var n := |objects| - 1;
      var init := objects[..n];
      forall i | 0 <= i < |init|
        ensures WellFormed(init[i])
      {
        assert init[i] == objects[i];
      }
      CreateRunAllSucceed(init, outcomes);
      CreateRunLast(objects, outcomes);
      assert Respond(outcomes, n).Ok?;
      assert objects == init + [objects[n]];
    }
  }

  /** The goal map of test_challenge2.py and the records it parses to. */
  const TestGoal: GoalMap := GoalMap(Some([
    [None, Some("POLYANET"), None],
    [Some("RED_SOLOON"), None, Some("UP_COMETH")],
    [None, None, None]]))

  const TestRecords: seq<Record> := [
    Record(0, 1, "POLYANET", None, None),
    Record(1, 0, "SOLOON", Some("red"), None),
    Record(1, 2, "COMETH", None, Some("up"))]

  lemma TestGoalRecords()
    ensures ParseGoal(TestGoal) == TestRecords
  {
    SampleGoal();
  }

  function IfOk(outcomes: seq<Outcome>, k: nat, r: Record): seq<Record>
  {
    if Respond(outcomes, k).Ok? then [r] else []
  }

  lemma PolyanetRecordStep(outcomes: seq<Outcome>, k: nat)
    ensures Step(TestRecords[0], outcomes, k) == CreateResult([CreatePolyanet(Position(0, 1))], IfOk(outcomes, k, TestRecords[0]))
  {
    WellFormedIsSent(TestRecords[0], outcomes, k);
  }

  lemma SoloonRecordStep(outcomes: seq<Outcome>, k: nat)
    ensures Step(TestRecords[1], outcomes, k) == CreateResult([CreateSoloon(Position(1, 0), "red")], IfOk(outcomes, k, TestRecords[1]))
  {
    WellFormedIsSent(TestRecords[1], outcomes, k);
  }

  lemma ComethRecordStep(outcomes: seq<Outcome>, k: nat)
    ensures Step(TestRecords[2], outcomes, k) == CreateResult([CreateCometh(Position(1, 2), "up")], IfOk(outcomes, k, TestRecords[2]))
  {
    WellFormedIsSent(TestRecords[2], outcomes, k);
  }

  lemma CreateTestFirst(outcomes: seq<Outcome>)
    ensures CreateRun(TestRecords[..1], outcomes)
      == CreateResult([CreatePolyanet(Position(0, 1))], IfOk(outcomes, 0, TestRecords[0]))
  {
    CreateRunSnoc(TestRecords, 0, outcomes);
    assert TestRecords[..0] == [];
    PolyanetRecordStep(outcomes, 0);
  }

  lemma CreateTestFirstTwo(outcomes: seq<Outcome>)
    ensures CreateRun(TestRecords[..2], outcomes)
      == CreateResult([CreatePolyanet(Position(0, 1)), CreateSoloon(Position(1, 0), "red")],
                      IfOk(outcomes, 0, TestRecords[0]) + IfOk(outcomes, 1, TestRecords[1]))
  {
    CreateRunSnoc(TestRecords, 1, outcomes);
    CreateTestFirst(outcomes);
    SoloonRecordStep(outcomes, 1);
  }

  /** The run over the three test records: their three create calls, and each record logged when its own call succeeded. */
  lemma CreateTestRecords(outcomes: seq<Outcome>)
    ensures CreateRun(TestRecords, outcomes).calls
      == [CreatePolyanet(Position(0, 1)), CreateSoloon(Position(1, 0), "red"), CreateCometh(Position(1, 2), "up")]
    ensures CreateRun(TestRecords, outcomes).created
      == (if Respond(outcomes, 0).Ok? then [TestRecords[0]] else [])
       + (if Respond(outcomes, 1).Ok? then [TestRecords[1]] else [])
       + (if Respond(outcomes, 2).Ok? then [TestRecords[2]] else [])
  {
    CreateRunSnoc(TestRecords, 2, outcomes);
    CreateTestFirstTwo(outcomes);
    ComethRecordStep(outcomes, 2);
    assert TestRecords[..3] == TestRecords;
  }

  /**
   * test_create_objects_from_goal: one create call of each type with the
   * cell's position and the lower-case color or direction, and each object
   * appended to the log when the calls succeed.
   */
  lemma CreateTestGoal(log: LogFile)
    ensures CreateRun(ParseGoal(TestGoal), [])
      == CreateResult([CreatePolyanet(Position(0, 1)), CreateSoloon(Position(1, 0), "red"), CreateCometh(Position(1, 2), "up")],
                      TestRecords)
    ensures AppendAll(log, CreateRun(ParseGoal(TestGoal), []).created) == Some(Lines(log) + TestRecords)
  {
    TestGoalRecords();
    CreateTestRecords([]);
  }

  /** A failed SOLOON creation is not logged, and the COMETH after it is still created and logged. */
  lemma CreateTestGoalSoloonFails()
    ensures CreateRun(ParseGoal(TestGoal), [Ok, Err("500 Server Error")]).created
      == [Record(0, 1, "POLYANET", None, None), Record(1, 2, "COMETH", None, Some("up"))]
  {
    TestGoalRecords();
    CreateTestRecords([Ok, Err("500 Server Error")]);
  }
}
