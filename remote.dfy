/**
 * The Earth Engine calls that change the destination store, as an action log.
 * Whether a call raises is decided by an oracle that the service is created
 * with; the migrator catches every exception and goes on, so a call that
 * fails is logged like one that succeeds, with its outcome.
 */
module Remote {

  /** The JSON body of `ee.data.setAssetAcl`. */
  datatype Acl = Acl(readers: seq<string>, writers: seq<string>, allUsersCanRead: bool)

  /** One call into `ee.data`. */
  datatype Action =
    | CreateAsset(assetType: string, name: string)
    | CopyAsset(sourceId: string, destinationId: string, allowOverwrite: bool)
    | SetAssetAcl(assetId: string, acl: Acl)
    | DeleteAsset(assetId: string)

  /** A call made, and whether it returned (true) or raised (false). */
  datatype Call = Call(action: Action, succeeded: bool)

  /** The calls made for `plan` when the first of them is call number `start`. */
  function Outcomes(outcome: nat -> bool, start: nat, plan: seq<Action>): seq<Call> {
    if plan == [] then []
    else Outcomes(outcome, start, plan[..|plan| - 1]) + [Call(plan[|plan| - 1], outcome(start + |plan| - 1))]
  }

  /** Every action of the plan is attempted once and in order, whatever the earlier outcomes. */
  lemma {:induction false} OutcomesAttemptEvery(outcome: nat -> bool, start: nat, plan: seq<Action>)
    ensures |Outcomes(outcome, start, plan)| == |plan|
    ensures forall k :: 0 <= k < |plan| ==>
              Outcomes(outcome, start, plan)[k] == Call(plan[k], outcome(start + k))
  {
    if plan != [] {
      OutcomesAttemptEvery(outcome, start, plan[..|plan| - 1]);
    }
  }

  /** The calls for a plan extended by one action. */
  lemma OutcomesStep(outcome: nat -> bool, start: nat, plan: seq<Action>, i: nat)
    requires i < |plan|
    ensures |Outcomes(outcome, start, plan[..i])| == i
    ensures Outcomes(outcome, start, plan[..i + 1])
            == Outcomes(outcome, start, plan[..i]) + [Call(plan[i], outcome(start + i))]
  {
    OutcomesAttemptEvery(outcome, start, plan[..i]);
    assert plan[..i + 1][..i] == plan[..i];
  }

  /** A log holding the calls for the first `i` actions, extended by the call for action `i`. */
  lemma LogStep(outcome: nat -> bool, base: seq<Call>, plan: seq<Action>, i: nat)
    requires i < |plan|
    ensures |base + Outcomes(outcome, |base|, plan[..i])| == |base| + i
    ensures base + Outcomes(outcome, |base|, plan[..i]) + [Call(plan[i], outcome(|base| + i))]
            == base + Outcomes(outcome, |base|, plan[..i + 1])
  {
    var done := Outcomes(outcome, |base|, plan[..i]);
    var next := Call(plan[i], outcome(|base| + i));
    OutcomesStep(outcome, |base|, plan, i);
    assert base + done + [next] == base + (done + [next]);
  }

  /** The `ee.data` endpoint the migrator talks to. */
  class Service {
    /** Every call made so far, in order. */
    var log: seq<Call>
    /** Whether call number `n` (counting from 0) returns without raising. */
    const outcome: nat -> bool

    constructor (outcome: nat -> bool)
      ensures log == [] && this.outcome == outcome
    {
      log := [];
      this.outcome := outcome;
    }

    /** Make one call; the caller catches a failure and carries on. */
    method Perform(a: Action) returns (ok: bool)
      modifies this
      ensures ok == outcome(|old(log)|)
      ensures log == old(log) + [Call(a, ok)]
    {
      ok := outcome(|log|);
      log := log + [Call(a, ok)];
    }
  }
}
