/**
 * The remote grid service as the drivers see it: the calls they issue and the
 * outcome of each call. The HTTP client itself (megaverse/api.py) is not part
 * of this model; a run is driven by a sequence of outcomes, one per call, in
 * the order the calls are made.
 */
module Remote {
  import opened Models

  /** The outcome of one call: it returned, or it raised an exception whose text is `message`. */
  datatype Outcome = Ok | Err(message: string)

  /** One call on the API client, with its arguments. */
  datatype Call =
    | CreatePolyanet(position: Position)
    | CreateSoloon(position: Position, color: string)
    | CreateCometh(position: Position, direction: string)
    | DeletePolyanet(position: Position)
    | DeleteSoloon(position: Position)
    | DeleteCometh(position: Position)
    | CreateAstralObject(obj: AstralObject)

  predicate IsDelete(call: Call)
  {
    call.DeletePolyanet? || call.DeleteSoloon? || call.DeleteCometh?
  }

  /** The outcome of the call numbered `k`; a call past the end of the script succeeds. */
  function Respond(outcomes: seq<Outcome>, k: nat): Outcome
  {
    if k < |outcomes| then outcomes[k] else Ok
  }

  /** Python's `sub in s` on strings. */
  predicate Contains(s: string, sub: string)
    decreases |s|
  {
    sub <= s || (s != [] && Contains(s[1..], sub))
  }

  /** `sub` occurs in `s` at offset `i`. */
  predicate OccursAt(s: string, sub: string, i: int)
  {
    0 <= i <= |s| - |sub| && s[i..i + |sub|] == sub
  }

  /** `sub in s` holds exactly when `sub` occurs at some offset of `s`. */
  lemma {:induction false} ContainsAt(s: string, sub: string)
    ensures Contains(s, sub) <==> exists i :: OccursAt(s, sub, i)
    decreases |s|
  {
    if sub <= s {
      assert OccursAt(s, sub, 0);
    } else if s != [] {
      ContainsAt(s[1..], sub);
      if exists i :: OccursAt(s, sub, i) {
        var i :| OccursAt(s, sub, i);
        if i > 0 {
          assert s[1..][i - 1..i - 1 + |sub|] == s[i..i + |sub|];
          assert OccursAt(s[1..], sub, i - 1);
        }
      }
      if Contains(s[1..], sub) {
        var i :| OccursAt(s[1..], sub, i);
        assert s[1..][i..i + |sub|] == s[i + 1..i + 1 + |sub|];
        assert OccursAt(s, sub, i + 1);
      }
    }
  }

  /** A rate-limit failure: an exception whose text contains "429" (Too Many Requests). */
  predicate IsRateLimited(outcome: Outcome)
  {
    outcome.Err? && Contains(outcome.message, "429")
  }
}
