/** The two signing entry points of the NEM transfer flow: they confirm a
    request with the user and only then serialise it. */
module NemTransfer {
  import opened NemTypes
  import opened Ui
  import opened Layout

  /** What a signing request produces: the prompts shown, how the
      confirmation ended, and the transaction bytes when it was approved. */
  datatype Outcome = Outcome(shown: seq<Prompt>, verdict: Verdict, buffer: Option<Bytes>)

  /** Chunks of bytes laid end to end, in order. */
  function Flatten(chunks: seq<Bytes>): Bytes
  {
    if |chunks| == 0 then [] else Flatten(chunks[..|chunks| - 1]) + chunks[|chunks| - 1]
  }

  /** The serialised entry of each mosaic, in list order. */
  function MosaicEntries(env: Env, mosaics: seq<Mosaic>): (r: seq<Bytes>)
    ensures |r| == |mosaics|
  {
    seq(|mosaics|, i requires 0 <= i < |mosaics| =>
      env.serializeMosaic(mosaics[i].namespace, mosaics[i].mosaic, mosaics[i].quantity))
  }

  /** The transfer with its mosaics in canonical form. */
  function Canonical(env: Env, transfer: Transfer): (t: Transfer)
    ensures t.mosaics == env.canonicalize(transfer.mosaics)
    ensures t.(mosaics := transfer.mosaics) == transfer
  {
    transfer.(mosaics := env.canonicalize(transfer.mosaics))
  }

  /** Sign a transfer. The mosaics are canonicalised and the payload is
      resolved once; the confirmation and the serialiser both see those
      values. The buffer exists exactly when the user approves every
      prompt; it is then the transfer body followed by one entry per
      canonical mosaic, in order, and nothing else. The canonical mosaics
      are written back into the caller's message before any prompt, so
      `message`, the caller's message after the call, carries them
      whatever the verdict. */
  method BuildTransfer(env: Env, publicKey: Bytes, common: Common, transfer: Transfer, node: HdNode, user: User)
    returns (out: Outcome, message: Transfer)
    ensures message == Canonical(env, transfer)
    ensures var t := Canonical(env, transfer);
            var resolved := env.resolvePayload(t, node);
            var steps := TransferSteps(env, common, t, resolved.0, resolved.1);
            && Run(out.shown, out.verdict) == Confirm(steps, user)
            && (out.buffer.Some? <==> AllApproved(steps, user))
            && (out.buffer.Some? ==>
                  out.buffer.value == env.serializeTransfer(common, t, publicKey, resolved.0, resolved.1)
                                      + Flatten(MosaicEntries(env, t.mosaics)))
  {
    var t := Canonical(env, transfer);
    message := t;
    var resolved := env.resolvePayload(t, node);
    var payload, encrypted := resolved.0, resolved.1;
    var run := Confirm(TransferSteps(env, common, t, payload, encrypted), user);
    if run.verdict != Approved {
      out := Outcome(run.shown, run.verdict, None);
      return;
    }
    var body := env.serializeTransfer(common, t, publicKey, payload, encrypted);
    var w := AppendMosaics(env, body, t.mosaics);
    out := Outcome(run.shown, Approved, Some(w));
  }

  /** The serialiser loop: after `body`, write one entry per mosaic, in
      list order. */
  method AppendMosaics(env: Env, body: Bytes, mosaics: seq<Mosaic>) returns (w: Bytes)
    ensures w == body + Flatten(MosaicEntries(env, mosaics))
  {
    var entries := MosaicEntries(env, mosaics);
    w := body;
    var i := 0;
    while i < |mosaics|
      invariant 0 <= i <= |mosaics|
      invariant w == body + Flatten(entries[..i])
    {
      var m := mosaics[i];
      assert entries[..i + 1][..i] == entries[..i];
      w := w + env.serializeMosaic(m.namespace, m.mosaic, m.quantity);
      i := i + 1;
    }
    assert entries[..i] == entries;
  }

  /** The payload prompt, when shown, carries the transfer's own payload
      bytes under the label of the encryption flag that is also passed to
      the serialiser. */
  lemma TransferPayloadPrompt(env: Env, common: Common, transfer: Transfer, node: HdNode, user: User)
    requires transfer.payload.Some?
    ensures var t := Canonical(env, transfer);
            var resolved := env.resolvePayload(t, node);
            var run := Confirm(TransferSteps(env, common, t, resolved.0, resolved.1), user);
            |resolved.0| > 0 && |run.shown| > 0 ==>
              run.shown[0] == ConfirmPayload(PayloadLabel(resolved.1), transfer.payload.value)
  {
  }

  /** Sign an importance transfer: two prompts, the harvesting mode and the
      fee, and then exactly the importance transfer serialisation. A refused
      harvesting prompt ends the flow before the fee is shown. */
  function BuildImportanceTransfer(env: Env, publicKey: Bytes, common: Common, imp: ImportanceTransfer, user: User)
    : (out: Outcome)
    ensures Run(out.shown, out.verdict) == Confirm(ImportanceSteps(common, imp), user)
    ensures out.buffer.Some? <==> out.verdict == Approved
    ensures out.buffer.Some? <==>
              user(0, ConfirmText(HarvestingText(imp.mode))) && user(1, ConfirmFinal(common.fee))
    ensures !user(0, ConfirmText(HarvestingText(imp.mode))) ==>
              out.shown == [ConfirmText(HarvestingText(imp.mode))] && out.verdict == Rejected
    ensures out.buffer.Some? ==>
              && out.buffer.value == env.serializeImportance(common, imp, publicKey)
              && out.shown == [ConfirmText(HarvestingText(imp.mode)), ConfirmFinal(common.fee)]
    ensures 1 <= |out.shown| <= 2 && out.shown[0] == ConfirmText(HarvestingText(imp.mode))
    ensures !out.verdict.Crashed?
  {
    var steps := ImportanceSteps(common, imp);
    var run := Confirm(steps, user);
    if run.verdict == Approved then
      Outcome(run.shown, run.verdict, Some(env.serializeImportance(common, imp, publicKey)))
    else
      Outcome(run.shown, run.verdict, None)
  }
}
