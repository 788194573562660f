/** The user-confirmation port.

    A confirmation flow is a list of steps. Each step either asks the user to
    approve one prompt, or is a point where the flow raises an exception. The
    user is an oracle that decides the n-th prompt shown; the first rejection
    or exception ends the flow. */
module Ui {
  import opened NemTypes

  /** What the device shows, with amounts kept as numbers and their
      divisibility rather than rendered text. */
  datatype Prompt =
    | ConfirmPayload(description: string, data: Bytes)
    | ConfirmMosaic(quantity: nat, divisibility: nat, ticker: string, name: string)
    | ConfirmLevy(fee: nat, divisibility: nat, ticker: string)
    | UnknownMosaicWarning
    | ConfirmUnknownMosaic(rawUnits: nat, id: string)
    | ConfirmOutput(recipient: string, xem: nat, divisibility: nat)
    | ConfirmText(text: string)
    | ConfirmFinal(fee: nat)

  /** The exceptions the confirmation flow can raise before a prompt. */
  datatype Fault =
    | PayloadMissing          // the resolved payload is non-empty but the transfer has none
    | LevyKeyMissing          // a levy definition lacks its levy namespace or mosaic
    | LevyDefinitionMissing   // the levy mosaic has no definition

  datatype Step = Ask(prompt: Prompt) | Raise(fault: Fault)

  datatype Verdict = Approved | Rejected | Crashed(fault: Fault)

  /** The prompts shown, in order, and how the flow ended. */
  datatype Run = Run(shown: seq<Prompt>, verdict: Verdict)

  /** The user decides each prompt, knowing its position in the flow. */
  type User = (nat, Prompt) -> bool

  /** Every step of the flow is a prompt the user approves. */
  predicate AllApproved(steps: seq<Step>, user: User) {
    forall i :: 0 <= i < |steps| ==> steps[i].Ask? && user(i, steps[i].prompt)
  }

  /** The flow from step `i` onwards, the user having approved steps before `i`. */
  function ConfirmFrom(steps: seq<Step>, user: User, i: nat): (r: Run)
    requires i <= |steps|
    decreases |steps| - i
    ensures i + |r.shown| <= |steps|
    ensures forall k :: 0 <= k < |r.shown| ==> steps[i + k] == Ask(r.shown[k])
    ensures r.verdict != Rejected ==> forall k :: 0 <= k < |r.shown| ==> user(i + k, r.shown[k])
    ensures r.verdict == Approved ==> i + |r.shown| == |steps|
    ensures r.verdict == Rejected ==>
              && |r.shown| > 0
              && !user(i + |r.shown| - 1, r.shown[|r.shown| - 1])
              && forall k :: 0 <= k < |r.shown| - 1 ==> user(i + k, r.shown[k])
    ensures r.verdict.Crashed? ==>
              i + |r.shown| < |steps| && steps[i + |r.shown|] == Raise(r.verdict.fault)
  {
    if i == |steps| then Run([], Approved)
    else match steps[i]
      case Raise(f) => Run([], Crashed(f))
      case Ask(p) =>
        if !user(i, p) then Run([p], Rejected)
        else
          var rest := ConfirmFrom(steps, user, i + 1);
          Run([p] + rest.shown, rest.verdict)
  }

  /** The whole flow. It is approved exactly when every step is a prompt
      the user approves, and then every prompt has been shown in order.
      Otherwise it stops at the first prompt the user refuses or at the
      first raising step, every prompt before that point approved. */
  function Confirm(steps: seq<Step>, user: User): (r: Run)
    ensures r.verdict == Approved <==> AllApproved(steps, user)
    ensures r.verdict == Approved ==> |r.shown| == |steps|
    ensures |r.shown| <= |steps|
    ensures forall k :: 0 <= k < |r.shown| ==> steps[k] == Ask(r.shown[k])
    ensures r.verdict != Rejected ==> forall k :: 0 <= k < |r.shown| ==> user(k, r.shown[k])
    ensures r.verdict == Rejected ==>
              && |r.shown| > 0
              && !user(|r.shown| - 1, r.shown[|r.shown| - 1])
              && forall k :: 0 <= k < |r.shown| - 1 ==> user(k, r.shown[k])
    ensures r.verdict.Crashed? ==>
              |r.shown| < |steps| && steps[|r.shown|] == Raise(r.verdict.fault)
  {
    ConfirmFromStart(steps, user);
    ConfirmFrom(steps, user, 0)
  }

  /** Running from the first step is approved exactly when every step is. */
  lemma ConfirmFromStart(steps: seq<Step>, user: User)
    ensures ConfirmFrom(steps, user, 0).verdict == Approved <==> AllApproved(steps, user)
  {
    var r := ConfirmFrom(steps, user, 0);
    if r.verdict == Approved {
      forall i | 0 <= i < |steps| ensures steps[i].Ask? && user(i, steps[i].prompt) {
        assert steps[0 + i] == Ask(r.shown[i]);
      }
    } else if r.verdict == Rejected {
      var n := |r.shown| - 1;
      assert steps[0 + n] == Ask(r.shown[n]);
      assert !user(n, steps[n].prompt);
    } else {
      assert !steps[0 + |r.shown|].Ask?;
    }
  }
}
