/**
 * The cleanup utility of challenge2_cleanup.py: delete every object named in
 * the creation log, retrying a deletion that was rate limited, and rewrite the
 * log so that it names only the objects that could not be deleted.
 */
module Cleanup {
  import opened Wrappers
  import opened Models
  import opened Remote
  import opened GoalParser
  import opened Sequences
  import opened Creation

  /** The delete call for a logged record, chosen by its type; any other type makes no call. */
  function DeleteCallFor(r: Record): Option<Call>
  {
    var position := Position(r.row, r.column);
    if r.kind == "POLYANET" then Some(DeletePolyanet(position))
    else if r.kind == "SOLOON" then Some(DeleteSoloon(position))
    else if r.kind == "COMETH" then Some(DeleteCometh(position))
    else None
  }

  /** The number of attempts `range(max_retries)` allows: none when `max_retries` is not positive. */
  function Budget(maxRetries: int): nat
  {
    if maxRetries > 0 then maxRetries else 0
  }

  /** How many delete calls the retry loop made for one record, and whether it ended in success. */
  datatype AttemptResult = AttemptResult(count: nat, success: bool)

  /**
   * The retry loop from attempt number `attempt` on, when the next call made is
   * call number `k`. A call that returns ends the loop in success; an error
   * whose text contains 429 is retried unless this was the last attempt; any
   * other error ends the loop in failure. With no call to make, the first
   * attempt succeeds at once.
   */
  function Attempts(target: Option<Call>, maxRetries: int, attempt: nat, outcomes: seq<Outcome>, k: nat): AttemptResult
    decreases Budget(maxRetries) - attempt
  {
    if attempt >= Budget(maxRetries) then AttemptResult(0, false)
    else if target.None? then AttemptResult(0, true)
    else
      var outcome := Respond(outcomes, k);
      if outcome.Ok? then AttemptResult(1, true)
      else if IsRateLimited(outcome) && attempt < maxRetries - 1 then
        var next := Attempts(target, maxRetries, attempt + 1, outcomes, k + 1);
        AttemptResult(1 + next.count, next.success)
      else AttemptResult(1, false)
  }

  /** `n` repetitions of the call, if there is one. */
  function Tries(target: Option<Call>, n: nat): seq<Call>
  {
    match target
    case Some(call) => seq(n, _ => call)
    case None => []
  }

  /** The calls made and the records that could not be deleted, in log order. */
  datatype CleanupResult = CleanupResult(calls: seq<Call>, failed: seq<Record>)

  /** What one record contributes when the next call made is call number `k`. */
  function CleanupStep(r: Record, maxRetries: int, outcomes: seq<Outcome>, k: nat): CleanupResult
  {
    var target := DeleteCallFor(r);
    var result := Attempts(target, maxRetries, 0, outcomes, k);
    CleanupResult(Tries(target, result.count), if result.success then [] else [r])
  }

  /**
   * The run over `records`, calls numbered from 0: each record's attempts
   * start at the call number that the records before it have reached.
   */
  function CleanupRun(records: seq<Record>, maxRetries: int, outcomes: seq<Outcome>): CleanupResult
    decreases |records|
  {
    if records == [] then CleanupResult([], [])
    else
      var init := CleanupRun(records[..|records| - 1], maxRetries, outcomes);
      var last := CleanupStep(records[|records| - 1], maxRetries, outcomes, |init.calls|);
      CleanupResult(init.calls + last.calls, init.failed + last.failed)
  }

  /** The run over the first `i + 1` records is the run over the first `i` followed by record `i`'s step. */
  lemma CleanupRunSnoc(records: seq<Record>, i: nat, maxRetries: int, outcomes: seq<Outcome>)
    requires i < |records|
    ensures var init := CleanupRun(records[..i], maxRetries, outcomes);
      var last := CleanupStep(records[i], maxRetries, outcomes, |init.calls|);
      CleanupRun(records[..i + 1], maxRetries, outcomes) == CleanupResult(init.calls + last.calls, init.failed + last.failed)
  {
    assert records[..i + 1][..i] == records[..i];
    assert records[..i + 1][i] == records[i];
  }

  /**
   * `cleanup_from_log(api, log_file, max_retries, retry_delay)`, with the log
   * file as it is before the run (None when it does not exist) and the outcome
   * of each delete call in the order the calls are made. A missing log makes
   * no call and leaves the file missing; otherwise the file is rewritten to
   * hold exactly the records whose deletion failed.
   */
  method CleanupFromLog(log: LogFile, maxRetries: int, outcomes: seq<Outcome>) returns (calls: seq<Call>, newLog: LogFile)
    ensures log.None? ==> calls == [] && newLog == None
    ensures log.Some? ==>
      calls == CleanupRun(log.value, maxRetries, outcomes).calls
      && newLog == Some(CleanupRun(log.value, maxRetries, outcomes).failed)
  {
    if log.None? {
      return [], None;
    }
    var lines := log.value;
    var failedDeletions: seq<Record> := [];
    calls := [];
    for i := 0 to |lines|
      invariant calls == CleanupRun(lines[..i], maxRetries, outcomes).calls
      invariant failedDeletions == CleanupRun(lines[..i], maxRetries, outcomes).failed
    {
      var obj := lines[i];
      ghost var here := CleanupStep(obj, maxRetries, outcomes, |calls|);
      ghost var callsBefore, failedBefore := calls, failedDeletions;
      CleanupRunSnoc(lines, i, maxRetries, outcomes);
      var success;
      calls, success := DeleteWithRetries(obj, maxRetries, outcomes, calls);
      if !success {
        failedDeletions := failedDeletions + [obj];
      }
      assert calls == callsBefore + here.calls && failedDeletions == failedBefore + here.failed;
    }
    assert lines[..|lines|] == lines;
    if failedDeletions != [] {
      newLog := Some(failedDeletions);
    } else {
      newLog := Some([]);
    }
  }

  /**
   * The retry loop of `cleanup_from_log` for one logged record: the delete
   * call of its type, repeated while it is rate limited and attempts remain.
   * `calls` is the trace so far; the next call made is call number `|calls|`.
   */
  method DeleteWithRetries(obj: Record, maxRetries: int, outcomes: seq<Outcome>, calls0: seq<Call>)
    returns (calls: seq<Call>, success: bool)
    ensures var result := Attempts(DeleteCallFor(obj), maxRetries, 0, outcomes, |calls0|);
      success == result.success && calls == calls0 + Tries(DeleteCallFor(obj), result.count)
  {
    var position := Position(obj.row, obj.column);
    ghost var k := |calls0|;
    ghost var target := DeleteCallFor(obj);
    ghost var result := Attempts(target, maxRetries, 0, outcomes, k);
    calls, success := calls0, false;
    var budget := if maxRetries > 0 then maxRetries else 0;
    for attempt := 0 to budget
      invariant !success
      invariant target.None? ==> attempt == 0
      invariant calls == calls0 + Tries(target, attempt)
      invariant result == Shift(attempt, Attempts(target, maxRetries, attempt, outcomes, k + attempt))
    {
      ShiftStep(target, maxRetries, attempt, outcomes, k, result);
      TriesStep(target, attempt);
      var outcome := Ok;
      if obj.kind == "POLYANET" {
        assert target == Some(DeletePolyanet(position));
        outcome := Respond(outcomes, |calls|);
        calls := calls + [DeletePolyanet(position)];
      } else if obj.kind == "SOLOON" {
        assert target == Some(DeleteSoloon(position));
        outcome := Respond(outcomes, |calls|);
        calls := calls + [DeleteSoloon(position)];
      } else if obj.kind == "COMETH" {
        assert target == Some(DeleteCometh(position));
        outcome := Respond(outcomes, |calls|);
        calls := calls + [DeleteCometh(position)];
      } else {
        assert target == None;
      }
      if outcome.Ok? {
        success := true;
        assert result.success && calls == calls0 + Tries(target, result.count);
        break;
      }
      if IsRateLimited(outcome) {
        if attempt < maxRetries - 1 {
          continue;
        }
      }
      assert !result.success && calls == calls0 + Tries(target, result.count);
      break;
    }
  }

  /** The loop's result seen from an attempt part-way through: `n` calls already made. */
  function Shift(n: nat, rest: AttemptResult): AttemptResult
  {
    AttemptResult(n + rest.count, rest.success)
  }

  /** One turn of the retry loop, seen through `Shift`. */
  lemma ShiftStep(target: Option<Call>, maxRetries: int, attempt: nat, outcomes: seq<Outcome>, k: nat, result: AttemptResult)
    requires attempt < Budget(maxRetries) && (target.None? ==> attempt == 0)
    requires result == Shift(attempt, Attempts(target, maxRetries, attempt, outcomes, k + attempt))
    ensures target.None? ==> result == AttemptResult(0, true)
    ensures target.Some? ==>
      var outcome := Respond(outcomes, k + attempt);
      if outcome.Ok? then result == AttemptResult(attempt + 1, true)
      else if IsRateLimited(outcome) && attempt < maxRetries - 1 then
        result == Shift(attempt + 1, Attempts(target, maxRetries, attempt + 1, outcomes, k + (attempt + 1)))
      else result == AttemptResult(attempt + 1, false)
  {
    assert k + attempt + 1 == k + (attempt + 1);
  }

  lemma TriesStep(target: Option<Call>, n: nat)
    ensures target.Some? ==> Tries(target, n + 1) == Tries(target, n) + [target.value] && |Tries(target, n)| == n
    ensures target.None? ==> Tries(target, n) == []
  {
    if target.Some? {
      assert Tries(target, n + 1) == Tries(target, n) + [target.value];
    }
  }

  /** `n` repetitions of a call are `n` calls, all of them that call. */
  lemma TriesShape(target: Option<Call>, n: nat)
    ensures target.Some? ==> |Tries(target, n)| == n && forall c :: c in Tries(target, n) ==> c == target.value
    ensures target.None? ==> Tries(target, n) == []
  {
  }

  // ----- One record -----

  /**
   * The retry loop for a record that has a delete call, from attempt
   * `attempt` on: it makes at most the remaining number of attempts, and at
   * least one while any remain; every call but the last was rate limited; it
   * ends in success exactly when its last call returned; and it stops with
   * attempts to spare only on an error that is not a rate limit.
   */
  lemma {:induction false} AttemptsShape(target: Option<Call>, maxRetries: int, attempt: nat, outcomes: seq<Outcome>, k: nat)
    requires target.Some? && attempt <= Budget(maxRetries)
    ensures var r := Attempts(target, maxRetries, attempt, outcomes, k);
      && r.count <= Budget(maxRetries) - attempt
      && (r.count == 0 <==> attempt == Budget(maxRetries))
      && (forall j :: k <= j < k + r.count - 1 ==> IsRateLimited(Respond(outcomes, j)))
      && (r.success <==> r.count > 0 && Respond(outcomes, k + r.count - 1).Ok?)
      && (r.count > 0 && !r.success && attempt + r.count < Budget(maxRetries) ==>
            !IsRateLimited(Respond(outcomes, k + r.count - 1)))
    decreases Budget(maxRetries) - attempt
  {
    if attempt < Budget(maxRetries) {
      var outcome := Respond(outcomes, k);
      if !outcome.Ok? && IsRateLimited(outcome) && attempt < maxRetries - 1 {
        AttemptsShape(target, maxRetries, attempt + 1, outcomes, k + 1);
        var next := Attempts(target, maxRetries, attempt + 1, outcomes, k + 1);
        assert Attempts(target, maxRetries, attempt, outcomes, k) == AttemptResult(1 + next.count, next.success);
      }
    }
  }

  /** A record of unknown type makes no call and counts as deleted, provided the loop runs at all. */
  lemma UnknownKindCountsAsDeleted(r: Record, maxRetries: int, outcomes: seq<Outcome>, k: nat)
    requires r.kind != "POLYANET" && r.kind != "SOLOON" && r.kind != "COMETH"
    ensures CleanupStep(r, maxRetries, outcomes, k) == CleanupResult([], if maxRetries > 0 then [] else [r])
  {
  }

  /**
   * One record's step: at most `max_retries` calls, each of them the record's
   * own delete call; the record is kept or dropped; no attempt at all when
   * `max_retries` is not positive, and then the record is kept.
   */
  lemma CleanupStepShape(r: Record, maxRetries: int, outcomes: seq<Outcome>, k: nat)
    ensures var s := CleanupStep(r, maxRetries, outcomes, k);
      && |s.calls| <= Budget(maxRetries)
      && (forall c :: c in s.calls ==> DeleteCallFor(r) == Some(c))
      && (s.failed == [] || s.failed == [r])
      && (maxRetries <= 0 ==> s == CleanupResult([], [r]))
  {
    var target := DeleteCallFor(r);
    var result := Attempts(target, maxRetries, 0, outcomes, k);
    TriesShape(target, result.count);
    if target.Some? {
      AttemptsShape(target, maxRetries, 0, outcomes, k);
    }
  }

  // ----- The whole run -----

  /** The number of the first call made for record `i`. */
  function StartOf(records: seq<Record>, maxRetries: int, outcomes: seq<Outcome>, i: nat): nat
    requires i <= |records|
  {
    |CleanupRun(records[..i], maxRetries, outcomes).calls|
  }

  /** Record `i`'s retry loop ended in success. */
  predicate DeletedAt(records: seq<Record>, maxRetries: int, outcomes: seq<Outcome>, i: nat)
    requires i < |records|
  {
    Attempts(DeleteCallFor(records[i]), maxRetries, 0, outcomes, StartOf(records, maxRetries, outcomes, i)).success
  }

  /** A record's step seen from a longer log: the records before it are the same. */
  lemma DeletedAtPrefix(records: seq<Record>, n: nat, maxRetries: int, outcomes: seq<Outcome>, i: nat)
    requires i < n <= |records|
    ensures DeletedAt(records[..n], maxRetries, outcomes, i) == DeletedAt(records, maxRetries, outcomes, i)
  {
    assert records[..n][..i] == records[..i];
  }

  /** The failed list grows by the last record exactly when its deletion failed. */
  lemma CleanupRunFailedSnoc(records: seq<Record>, maxRetries: int, outcomes: seq<Outcome>)
    requires records != []
    ensures var n := |records| - 1;
      CleanupRun(records, maxRetries, outcomes).failed
        == CleanupRun(records[..n], maxRetries, outcomes).failed
         + (if DeletedAt(records, maxRetries, outcomes, n) then [] else [records[n]])
  {
  }

  /** The rewritten log keeps the records it holds in their log order. */
  lemma {:induction false} CleanupRunInOrder(records: seq<Record>, maxRetries: int, outcomes: seq<Outcome>)
    ensures Subsequence(CleanupRun(records, maxRetries, outcomes).failed, records)
    decreases |records|
  {
    if records != [] {
      var n := |records| - 1;
      var init := records[..n];
      var last := records[n];
      assert records == init + [last];
      CleanupRunInOrder(init, maxRetries, outcomes);
      CleanupRunFailedSnoc(records, maxRetries, outcomes);
      var a := CleanupRun(init, maxRetries, outcomes).failed;
      SubsequenceSnoc(a, init, last);
      if DeletedAt(records, maxRetries, outcomes, n) {
        assert CleanupRun(records, maxRetries, outcomes).failed == a;
      } else {
        assert CleanupRun(records, maxRetries, outcomes).failed == a + [last];
      }
    }
  }

  /** The rewritten log holds a record exactly when some occurrence of it in the log was not deleted. */
  lemma {:induction false} CleanupRunFailed(records: seq<Record>, maxRetries: int, outcomes: seq<Outcome>)
    ensures forall x :: x in CleanupRun(records, maxRetries, outcomes).failed <==>
      exists i :: 0 <= i < |records| && records[i] == x && !DeletedAt(records, maxRetries, outcomes, i)
    decreases |records|
  {
    if records != [] {
      var n := |records| - 1;
      var init := records[..n];
      CleanupRunFailed(init, maxRetries, outcomes);
      CleanupRunFailedSnoc(records, maxRetries, outcomes);
      var a := CleanupRun(init, maxRetries, outcomes).failed;
      var failed := CleanupRun(records, maxRetries, outcomes).failed;
      forall x | x in failed
        ensures exists i :: 0 <= i < |records| && records[i] == x && !DeletedAt(records, maxRetries, outcomes, i)
      {
        if x in a {
          var i :| 0 <= i < |init| && init[i] == x && !DeletedAt(init, maxRetries, outcomes, i);
          DeletedAtPrefix(records, n, maxRetries, outcomes, i);
        } else {
          assert records[n] == x && !DeletedAt(records, maxRetries, outcomes, n);
        }
      }
      forall x, i | 0 <= i < |records| && records[i] == x && !DeletedAt(records, maxRetries, outcomes, i)
        ensures x in failed
      {
        if i < n {
          DeletedAtPrefix(records, n, maxRetries, outcomes, i);
          assert init[i] == x && x in a;
        }
      }
    }
  }

  /** The log positions of the records whose deletion failed, in log order. */
  function FailedIndices(records: seq<Record>, maxRetries: int, outcomes: seq<Outcome>): seq<nat>
    decreases |records|
  {
    if records == [] then []
    else
      var n := |records| - 1;
      FailedIndices(records[..n], maxRetries, outcomes) + (if DeletedAt(records, maxRetries, outcomes, n) then [] else [n])
  }

  /**
   * The rewritten log is the log restricted to the positions whose deletion
   * failed: one entry per such position, in log order, so a record logged
   * twice and kept twice appears twice.
   */
  lemma {:induction false} CleanupRunFailedIndices(records: seq<Record>, maxRetries: int, outcomes: seq<Outcome>)
    ensures var idx := FailedIndices(records, maxRetries, outcomes);
      && PicksOut(CleanupRun(records, maxRetries, outcomes).failed, records, idx)
      && (forall i :: 0 <= i < |records| ==> (i in idx <==> !DeletedAt(records, maxRetries, outcomes, i)))
    decreases |records|
  {
    if records != [] {
      var n := |records| - 1;
      var init := records[..n];
      CleanupRunFailedIndices(init, maxRetries, outcomes);
      CleanupRunFailedSnoc(records, maxRetries, outcomes);
      var a := CleanupRun(init, maxRetries, outcomes).failed;
      var ia := FailedIndices(init, maxRetries, outcomes);
      var idx := FailedIndices(records, maxRetries, outcomes);
      PicksOutGrow(a, records, ia);
      var deleted := DeletedAt(records, maxRetries, outcomes, n);
      assert idx == if deleted then ia else ia + [n];
      forall i | 0 <= i < n
        ensures i in idx <==> !DeletedAt(records, maxRetries, outcomes, i)
      {
        DeletedAtPrefix(records, n, maxRetries, outcomes, i);
        assert i in idx <==> i in ia;
      }
    }
  }

  /** The calls for the first `i` records begin the calls of the whole run. */
  lemma {:induction false} CleanupRunPrefix(records: seq<Record>, maxRetries: int, outcomes: seq<Outcome>, i: nat)
    requires i <= |records|
    ensures CleanupRun(records[..i], maxRetries, outcomes).calls <= CleanupRun(records, maxRetries, outcomes).calls
    decreases |records|
  {
    if i == |records| {
      assert records[..i] == records;
    } else {
      var n := |records| - 1;
      assert records[..n][..i] == records[..i];
      CleanupRunPrefix(records[..n], maxRetries, outcomes, i);
      var a := CleanupRun(records[..i], maxRetries, outcomes).calls;
      var b := CleanupRun(records[..n], maxRetries, outcomes).calls;
      var c := CleanupRun(records, maxRetries, outcomes).calls;
      assert b <= c;
      assert a <= b;
    }
  }

  /**
   * The calls split record by record: record `i`'s calls run from
   * `StartOf(i)` to `StartOf(i + 1)`, there are at most `max_retries` of
   * them, and each is that record's own delete call.
   */
  lemma CleanupRunPerRecord(records: seq<Record>, maxRetries: int, outcomes: seq<Outcome>, i: nat)
    requires i < |records|
    ensures var calls := CleanupRun(records, maxRetries, outcomes).calls;
      var start, end := StartOf(records, maxRetries, outcomes, i), StartOf(records, maxRetries, outcomes, i + 1);
      && start <= end <= |calls|
      && end - start <= Budget(maxRetries)
      && (forall j :: start <= j < end ==> DeleteCallFor(records[i]) == Some(calls[j]))
  {
    var calls := CleanupRun(records, maxRetries, outcomes).calls;
    var start := StartOf(records, maxRetries, outcomes, i);
    var step := CleanupStep(records[i], maxRetries, outcomes, start);
    CleanupRunSnoc(records, i, maxRetries, outcomes);
    CleanupStepShape(records[i], maxRetries, outcomes, start);
    CleanupRunPrefix(records, maxRetries, outcomes, i + 1);
    var upTo := CleanupRun(records[..i + 1], maxRetries, outcomes).calls;
    assert upTo == CleanupRun(records[..i], maxRetries, outcomes).calls + step.calls;
    forall j | start <= j < |upTo|
      ensures DeleteCallFor(records[i]) == Some(calls[j])
    {
      assert calls[j] == upTo[j] == step.calls[j - start];
    }
  }

  /** The per-record slices cover the run: they start at call 0 and end at the last call. */
  lemma CleanupRunCovered(records: seq<Record>, maxRetries: int, outcomes: seq<Outcome>)
    ensures StartOf(records, maxRetries, outcomes, 0) == 0
    ensures StartOf(records, maxRetries, outcomes, |records|) == |CleanupRun(records, maxRetries, outcomes).calls|
  {
    assert records[..0] == [];
    assert records[..|records|] == records;
  }

  /**
   * Every call is a delete call, the one of some logged record, and there
   * are at most `max_retries` calls per logged record in all.
   */
  lemma {:induction false} CleanupRunCalls(records: seq<Record>, maxRetries: int, outcomes: seq<Outcome>)
    ensures |CleanupRun(records, maxRetries, outcomes).calls| <= |records| * Budget(maxRetries)
    ensures forall c :: c in CleanupRun(records, maxRetries, outcomes).calls ==>
      IsDelete(c) && exists r :: r in records && DeleteCallFor(r) == Some(c)
    decreases |records|
  {
    if records != [] {
      var n := |records| - 1;
      var init := records[..n];
      CleanupRunCalls(init, maxRetries, outcomes);
      var a := CleanupRun(init, maxRetries, outcomes).calls;
      var last := CleanupStep(records[n], maxRetries, outcomes, |a|);
      CleanupStepShape(records[n], maxRetries, outcomes, |a|);
      assert CleanupRun(records, maxRetries, outcomes).calls == a + last.calls;
      MulStep(n, Budget(maxRetries));
      forall c | c in a + last.calls
        ensures IsDelete(c) && exists r :: r in records && DeleteCallFor(r) == Some(c)
      {
        if c in a {
          var r :| r in init && DeleteCallFor(r) == Some(c);
          assert r in records;
        } else {
          assert DeleteCallFor(records[n]) == Some(c);
        }
      }
    }
  }

  lemma MulStep(n: nat, b: nat)
    ensures n * b + b == (n + 1) * b
  {
  }

  /** With `max_retries` not positive a record gets no attempt and is kept. */
  lemma NoAttemptStep(r: Record, maxRetries: int, outcomes: seq<Outcome>, k: nat)
    requires maxRetries <= 0
    ensures CleanupStep(r, maxRetries, outcomes, k) == CleanupResult([], [r])
  {
    assert Attempts(DeleteCallFor(r), maxRetries, 0, outcomes, k) == AttemptResult(0, false);
  }

  /** With `max_retries` not positive no call is made and the whole log is kept. */
  lemma {:induction false} CleanupRunNoAttempts(records: seq<Record>, maxRetries: int, outcomes: seq<Outcome>)
    requires maxRetries <= 0
    ensures CleanupRun(records, maxRetries, outcomes) == CleanupResult([], records)
    decreases |records|
  {
    if records != [] {
      var n := |records| - 1;
      var init := records[..n];
      CleanupRunNoAttempts(init, maxRetries, outcomes);
      NoAttemptStep(records[n], maxRetries, outcomes, 0);
      assert init + [records[n]] == records;
    }
  }

  /** The delete call of each record that has one, in log order. */
  function DeleteCalls(records: seq<Record>): seq<Call>
  {
    if records == [] then []
    else
      var before := DeleteCalls(records[..|records| - 1]);
      match DeleteCallFor(records[|records| - 1])
      case Some(c) => before + [c]
      case None => before
  }

  /** When every call returns, each record's delete call is made once, in log order, and the log is cleared. */
  lemma {:induction false} CleanupRunAllDeleted(records: seq<Record>, maxRetries: int, outcomes: seq<Outcome>)
    requires maxRetries >= 1
    requires forall j :: Respond(outcomes, j).Ok?
    ensures CleanupRun(records, maxRetries, outcomes) == CleanupResult(DeleteCalls(records), [])
    decreases |records|
  {
    if records != [] {
      var n := |records| - 1;
      CleanupRunAllDeleted(records[..n], maxRetries, outcomes);
      var target := DeleteCallFor(records[n]);
      var k := |CleanupRun(records[..n], maxRetries, outcomes).calls|;
      assert Respond(outcomes, k).Ok?;
      assert Attempts(target, maxRetries, 0, outcomes, k) == AttemptResult(if target.Some? then 1 else 0, true);
      if target.Some? {
        assert Tries(target, 1) == [target.value];
      }
    }
  }

  /**
   * Running the cleanup again on the rewritten log touches only the records
   * that the first run could not delete, and keeps no record the first run
   * had dropped.
   */
  lemma CleanupResume(records: seq<Record>, maxRetries: int, outcomes1: seq<Outcome>, outcomes2: seq<Outcome>)
    ensures var first := CleanupRun(records, maxRetries, outcomes1);
      var second := CleanupRun(first.failed, maxRetries, outcomes2);
      && (forall c :: c in second.calls ==> exists r :: r in first.failed && DeleteCallFor(r) == Some(c))
      && (forall x :: x in second.failed ==> x in first.failed)
      && |second.failed| <= |first.failed| <= |records|
  {
    var first := CleanupRun(records, maxRetries, outcomes1);
    CleanupRunInOrder(records, maxRetries, outcomes1);
    CleanupRunInOrder(first.failed, maxRetries, outcomes2);
    CleanupRunCalls(first.failed, maxRetries, outcomes2);
    SubsequenceElements(first.failed, records);
    SubsequenceElements(CleanupRun(first.failed, maxRetries, outcomes2).failed, first.failed);
  }

  // ----- Cleanup undoes creation -----

  /** `del` removes the object that `create` placed. */
  predicate Undoes(del: Call, create: Call)
  {
    match create
    case CreatePolyanet(p) => del == DeletePolyanet(p)
    case CreateSoloon(p, _) => del == DeleteSoloon(p)
    case CreateCometh(p, _) => del == DeleteCometh(p)
    case _ => false
  }

  /**
   * A record that leads to a create call leads to the delete call that undoes
   * it; exactly the records of unknown type have neither.
   */
  lemma DeleteUndoesCreate(r: Record)
    ensures CreateDispatch(r).Send? ==> DeleteCallFor(r).Some? && Undoes(DeleteCallFor(r).value, CreateDispatch(r).call)
    ensures DeleteCallFor(r).None? <==> CreateDispatch(r).NoCall?
  {
  }

  /** A parsed record's create call has a delete call that undoes it. */
  lemma WellFormedIsUndone(r: Record)
    requires WellFormed(r)
    ensures CreateDispatch(r).Send? && DeleteCallFor(r).Some? && Undoes(DeleteCallFor(r).value, CreateDispatch(r).call)
  {
    WellFormedIsSent(r, [], 0);
    DeleteUndoesCreate(r);
  }

  /** Over parsed records the i-th delete call undoes the i-th record's create call. */
  lemma {:induction false} DeleteCallsUndo(records: seq<Record>)
    requires forall i :: 0 <= i < |records| ==> WellFormed(records[i])
    ensures |DeleteCalls(records)| == |records|
    ensures forall i :: 0 <= i < |records| ==>
      CreateDispatch(records[i]).Send? && Undoes(DeleteCalls(records)[i], CreateDispatch(records[i]).call)
    decreases |records|
  {
    if records != [] {
      var n := |records| - 1;
      var init := records[..n];
      DeleteCallsUndo(init);
      WellFormedIsUndone(records[n]);
      var a := DeleteCalls(init);
      assert DeleteCalls(records) == a + [DeleteCallFor(records[n]).value];
      forall i | 0 <= i < |records|
        ensures CreateDispatch(records[i]).Send? && Undoes(DeleteCalls(records)[i], CreateDispatch(records[i]).call)
      {
        if i < n {
          assert records[i] == init[i];
        }
      }
    }
  }

  /**
   * The log a creation run leaves, cleaned up while every call returns: one
   * delete call per logged object, undoing that object's create call, and an
   * empty log.
   */
  lemma CreateThenCleanup(objects: seq<Record>, createOutcomes: seq<Outcome>, maxRetries: int, deleteOutcomes: seq<Outcome>)
    requires forall i :: 0 <= i < |objects| ==> WellFormed(objects[i])
    requires maxRetries >= 1
    requires forall j :: Respond(deleteOutcomes, j).Ok?
    ensures var created := CreateRun(objects, createOutcomes).created;
      var cleanup := CleanupRun(created, maxRetries, deleteOutcomes);
      && cleanup.failed == []
      && |cleanup.calls| == |created|
      && forall i :: 0 <= i < |created| ==>
           CreateDispatch(created[i]).Send? && Undoes(cleanup.calls[i], CreateDispatch(created[i]).call)
  {
    var created := CreateRun(objects, createOutcomes).created;
    CreateRunInOrder(objects, createOutcomes);
    SubsequenceElements(created, objects);
    forall i | 0 <= i < |created|
      ensures WellFormed(created[i])
    {
      assert created[i] in objects;
    }
    CleanupRunAllDeleted(created, maxRetries, deleteOutcomes);
    DeleteCallsUndo(created);
  }

  // ----- The scenarios of the test suite -----

  /** The exception the test suite's mock raises for a rate-limited call. */
  const RateLimitError: Outcome := Err("429 Client Error: Too Many Requests")

  lemma RateLimitErrorIsRateLimited()
    ensures IsRateLimited(RateLimitError)
  {
    assert RateLimitError.message[..3] == "429";
  }

  /** A call that returns at the first attempt: one call, and the record is dropped. */
  lemma DeletedAtOnce(r: Record, maxRetries: int, outcomes: seq<Outcome>, k: nat)
    requires DeleteCallFor(r).Some? && maxRetries >= 1 && Respond(outcomes, k).Ok?
    ensures CleanupStep(r, maxRetries, outcomes, k) == CleanupResult([DeleteCallFor(r).value], [])
  {
    assert Tries(DeleteCallFor(r), 1) == [DeleteCallFor(r).value];
  }

  /** A rate limit and then a return, with attempts to spare: two calls, and the record is dropped. */
  lemma DeletedOnRetry(r: Record, maxRetries: int, outcomes: seq<Outcome>, k: nat)
    requires DeleteCallFor(r).Some? && maxRetries >= 2
    requires IsRateLimited(Respond(outcomes, k)) && Respond(outcomes, k + 1).Ok?
    ensures var c := DeleteCallFor(r).value; CleanupStep(r, maxRetries, outcomes, k) == CleanupResult([c, c], [])
  {
    assert Attempts(DeleteCallFor(r), maxRetries, 1, outcomes, k + 1) == AttemptResult(1, true);
    assert Tries(DeleteCallFor(r), 2) == [DeleteCallFor(r).value, DeleteCallFor(r).value];
  }

  /** Two rate limits with `max_retries = 2`: both attempts are spent and the record is kept. */
  lemma RetriesExhausted(r: Record, outcomes: seq<Outcome>, k: nat)
    requires DeleteCallFor(r).Some?
    requires IsRateLimited(Respond(outcomes, k)) && IsRateLimited(Respond(outcomes, k + 1))
    ensures var c := DeleteCallFor(r).value; CleanupStep(r, 2, outcomes, k) == CleanupResult([c, c], [r])
  {
    assert Attempts(DeleteCallFor(r), 2, 1, outcomes, k + 1) == AttemptResult(1, false);
    assert Tries(DeleteCallFor(r), 2) == [DeleteCallFor(r).value, DeleteCallFor(r).value];
  }

  lemma PolyanetRecordDelete()
    ensures DeleteCallFor(TestRecords[0]) == Some(DeletePolyanet(Position(0, 1)))
  {
  }

  lemma SoloonRecordDelete()
    ensures DeleteCallFor(TestRecords[1]) == Some(DeleteSoloon(Position(1, 0)))
  {
    assert TestRecords[1].kind[0] != "POLYANET"[0];
  }

  lemma ComethRecordDelete()
    ensures DeleteCallFor(TestRecords[2]) == Some(DeleteCometh(Position(1, 2)))
  {
    assert TestRecords[2].kind[0] != "POLYANET"[0] && TestRecords[2].kind[0] != "SOLOON"[0];
  }

  /** The POLYANET of the test log, deleted by the first call. */
  lemma CleanupTestFirst(outcomes: seq<Outcome>)
    requires Respond(outcomes, 0).Ok?
    ensures CleanupRun(TestRecords[..1], 2, outcomes) == CleanupResult([DeletePolyanet(Position(0, 1))], [])
  {
    CleanupRunSnoc(TestRecords, 0, 2, outcomes);
    assert TestRecords[..0] == [];
    PolyanetRecordDelete();
    DeletedAtOnce(TestRecords[0], 2, outcomes, 0);
  }

  /** test_cleanup_from_log: the call outcomes in the order the calls are made. */
  const RetryOutcomes: seq<Outcome> := [Ok, RateLimitError, Ok, Ok]

  /**
   * test_cleanup_from_log: the SOLOON's first deletion is rate limited and the
   * second returns, so there is one POLYANET call, two SOLOON calls and one
   * COMETH call, each at its record's position, and the log ends up empty.
   */
  lemma CleanupTestLog()
    ensures CleanupRun(TestRecords, 2, RetryOutcomes)
      == CleanupResult([DeletePolyanet(Position(0, 1)), DeleteSoloon(Position(1, 0)), DeleteSoloon(Position(1, 0)),
                        DeleteCometh(Position(1, 2))], [])
  {
    var o := RetryOutcomes;
    CleanupTestFirst(o);
    RateLimitErrorIsRateLimited();
    CleanupRunSnoc(TestRecords, 1, 2, o);
    SoloonRecordDelete();
    DeletedOnRetry(TestRecords[1], 2, o, 1);
    CleanupRunSnoc(TestRecords, 2, 2, o);
    ComethRecordDelete();
    DeletedAtOnce(TestRecords[2], 2, o, 3);
    assert TestRecords[..3] == TestRecords;
  }

  /** test_cleanup_with_failed_deletions: every SOLOON deletion is rate limited. */
  const FailingOutcomes: seq<Outcome> := [Ok, RateLimitError, RateLimitError]

  /**
   * test_cleanup_with_failed_deletions: with `max_retries = 2` the SOLOON is
   * tried twice and stays in the log, which then holds it alone.
   */
  lemma CleanupTestFailedDeletion()
    ensures CleanupRun(TestRecords[..2], 2, FailingOutcomes)
      == CleanupResult([DeletePolyanet(Position(0, 1)), DeleteSoloon(Position(1, 0)), DeleteSoloon(Position(1, 0))],
                       [Record(1, 0, "SOLOON", Some("red"), None)])
  {
    var o := FailingOutcomes;
    CleanupTestFirst(o);
    RateLimitErrorIsRateLimited();
    CleanupRunSnoc(TestRecords, 1, 2, o);
    SoloonRecordDelete();
    RetriesExhausted(TestRecords[1], o, 1);
  }
}
