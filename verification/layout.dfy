/** The confirmation flows of a transfer and of an importance transfer, as
    the list of steps each one asks the user to go through. */
module Layout {
  import opened NemTypes
  import opened Amounts
  import opened Ui

  /** The label of the payload prompt. */
  function PayloadLabel(encrypted: bool): (r: string)
    ensures r == "Encrypted:" <==> encrypted
    ensures !encrypted ==> r == "Unencrypted:"
  {
    if encrypted then "Encrypted:" else "Unencrypted:"
  }

  /** The step that belongs to the payload. */
  predicate IsPayloadStep(s: Step) {
    s == Raise(PayloadMissing) || (s.Ask? && s.prompt.ConfirmPayload?)
  }

  /** A step that belongs to a mosaic block. */
  predicate IsMosaicStep(s: Step) {
    match s
    case Raise(f) => f != PayloadMissing
    case Ask(p) =>
      p.ConfirmMosaic? || p.ConfirmLevy? || p.UnknownMosaicWarning? || p.ConfirmUnknownMosaic?
  }

  /** The payload confirmation: nothing for an empty resolved payload;
      otherwise the transfer's own payload bytes under a label that only
      says whether the payload is sent encrypted. */
  function PayloadSteps(transfer: Transfer, payload: Bytes, encrypted: bool): (r: seq<Step>)
    ensures r == [] <==> |payload| == 0
    ensures |r| <= 1
    ensures forall k :: 0 <= k < |r| ==> IsPayloadStep(r[k])
    ensures r != [] && transfer.payload.Some? ==>
              r[0] == Ask(ConfirmPayload(PayloadLabel(encrypted), transfer.payload.value))
    ensures r != [] && transfer.payload.None? ==> r == [Raise(PayloadMissing)]
  {
    if |payload| == 0 then []
    else match transfer.payload
      case None => [Raise(PayloadMissing)]
      case Some(p) => [Ask(ConfirmPayload(PayloadLabel(encrypted), p))]
  }

  /** The levy confirmation of a known mosaic whose scaled quantity is `quantity`. */
  function LevySteps(env: Env, network: nat, definition: MosaicDefinition, quantity: nat): (r: seq<Step>)
    ensures |r| <= 1
    ensures r != [] <==> definition.levy.Some? && definition.fee.Some?
    ensures forall k :: 0 <= k < |r| ==> IsMosaicStep(r[k])
  {
    if definition.levy.Some? && definition.fee.Some? then
      match (definition.levyNamespace, definition.levyMosaic)
      case (Some(ns), Some(mosaic)) =>
        (match env.lookup(ns, mosaic, network)
         case None => [Raise(LevyDefinitionMissing)]
         case Some(levyDefinition) =>
           var fee := LevyFee(definition.levy.value, quantity, definition.fee.value, env.levyDivisor);
           [Ask(ConfirmLevy(fee, levyDefinition.divisibility, levyDefinition.ticker))])
      case _ => [Raise(LevyKeyMissing)]
    else []
  }

  /** What the levy step shows, or why it fails, when the levy applies. */
  lemma LevyStepContents(env: Env, network: nat, definition: MosaicDefinition, quantity: nat)
    requires definition.levy.Some? && definition.fee.Some?
    ensures definition.levyNamespace.None? || definition.levyMosaic.None? ==>
              LevySteps(env, network, definition, quantity) == [Raise(LevyKeyMissing)]
    ensures definition.levyNamespace.Some? && definition.levyMosaic.Some? ==>
              match env.lookup(definition.levyNamespace.value, definition.levyMosaic.value, network)
              case None => LevySteps(env, network, definition, quantity) == [Raise(LevyDefinitionMissing)]
              case Some(levyDefinition) =>
                exists fee: nat ::
                  && LevySteps(env, network, definition, quantity)
                     == [Ask(ConfirmLevy(fee, levyDefinition.divisibility, levyDefinition.ticker))]
                  && (definition.levy.value == Absolute ==> fee == definition.fee.value)
                  && (definition.levy.value != Absolute ==>
                        fee * env.levyDivisor <= quantity * definition.fee.value < (fee + 1) * env.levyDivisor)
  {
    if definition.levyNamespace.Some? && definition.levyMosaic.Some? {
      var ns, mosaic := definition.levyNamespace.value, definition.levyMosaic.value;
      match env.lookup(ns, mosaic, network)
      case None =>
      case Some(levyDefinition) =>
        var fee := LevyFee(definition.levy.value, quantity, definition.fee.value, env.levyDivisor);
        assert LevySteps(env, network, definition, quantity)
               == [Ask(ConfirmLevy(fee, levyDefinition.divisibility, levyDefinition.ticker))];
    }
  }

  /** The confirmation block of one mosaic of `transfer`. */
  function MosaicSteps(env: Env, common: Common, transfer: Transfer, m: Mosaic): (r: seq<Step>)
    ensures r == [] <==> env.IsXem(m)
    ensures |r| <= 2
    ensures forall k :: 0 <= k < |r| ==> IsMosaicStep(r[k])
  {
    if env.IsXem(m) then []
    else
      var quantity := MosaicQuantity(m.quantity, transfer.amount, env.amountDivisor);
      match env.lookup(m.namespace, m.mosaic, common.network)
      case Some(definition) =>
        [Ask(ConfirmMosaic(quantity, definition.divisibility, definition.ticker, definition.name))]
        + LevySteps(env, common.network, definition, quantity)
      case None =>
        [Ask(UnknownMosaicWarning), Ask(ConfirmUnknownMosaic(quantity, m.namespace + "." + m.mosaic))]
  }

  /** The three shapes of a mosaic block: nothing for XEM; for a known
      mosaic its scaled quantity in the definition's units, then a levy
      step exactly when the definition has both levy keys, computed from
      that same scaled quantity; for an unknown
      mosaic a warning, then the same scaled quantity as raw units with the
      bare namespace.mosaic name. */
  lemma MosaicBlockShape(env: Env, common: Common, transfer: Transfer, m: Mosaic)
    ensures var r := MosaicSteps(env, common, transfer, m);
            var quantity := MosaicQuantity(m.quantity, transfer.amount, env.amountDivisor);
            && (env.IsXem(m) ==> r == [])
            && (!env.IsXem(m) ==>
                  match env.lookup(m.namespace, m.mosaic, common.network)
                  case Some(d) =>
                    && 1 <= |r| <= 2
                    && r[0] == Ask(ConfirmMosaic(quantity, d.divisibility, d.ticker, d.name))
                    && (|r| == 2 <==> d.levy.Some? && d.fee.Some?)
                    && r[1..] == LevySteps(env, common.network, d, quantity)
                  case None =>
                    && |r| == 2
                    && r[0] == Ask(UnknownMosaicWarning)
                    && r[1] == Ask(ConfirmUnknownMosaic(quantity, m.namespace + "." + m.mosaic)))
  {
  }

  /** The mosaic blocks of `mosaics`, one after the other in list order. */
  function MosaicsSteps(env: Env, common: Common, transfer: Transfer, mosaics: seq<Mosaic>): (r: seq<Step>)
    ensures forall k :: 0 <= k < |r| ==> IsMosaicStep(r[k])
    ensures r == [] <==> forall k :: 0 <= k < |mosaics| ==> env.IsXem(mosaics[k])
    ensures |r| <= 2 * |mosaics|
  {
    if |mosaics| == 0 then []
    else MosaicSteps(env, common, transfer, mosaics[0]) + MosaicsSteps(env, common, transfer, mosaics[1..])
  }

  /** Blocks follow the list: the steps of a concatenation are the steps of
      its parts, so each mosaic contributes its block exactly once, after the
      blocks of every mosaic before it. */
  lemma {:induction false} MosaicsStepsAppend(env: Env, common: Common, transfer: Transfer, xs: seq<Mosaic>, ys: seq<Mosaic>)
    ensures MosaicsSteps(env, common, transfer, xs + ys)
            == MosaicsSteps(env, common, transfer, xs) + MosaicsSteps(env, common, transfer, ys)
  {
    if |xs| == 0 {
      assert xs + ys == ys;
    } else {
      assert (xs + ys)[0] == xs[0];
      assert (xs + ys)[1..] == xs[1..] + ys;
      MosaicsStepsAppend(env, common, transfer, xs[1..], ys);
    }
  }

  /** The confirmation flow of a transfer whose mosaics are already
      canonical, given its resolved payload. */
  function TransferSteps(env: Env, common: Common, transfer: Transfer, payload: Bytes, encrypted: bool): (r: seq<Step>)
    ensures 2 <= |r| <= 3 + 2 * |transfer.mosaics|
    ensures r[|r| - 1] == Ask(ConfirmFinal(common.fee))
  {
    PayloadSteps(transfer, payload, encrypted)
    + MosaicsSteps(env, common, transfer, transfer.mosaics)
    + [Ask(ConfirmOutput(transfer.recipient, XemAmount(env, transfer), env.maxDivisibility)),
       Ask(ConfirmFinal(common.fee))]
  }

  /** The order of a transfer's confirmation: a payload step first and only
      when the resolved payload is non-empty, then the mosaic blocks, then
      the recipient with the XEM total, and the fee prompt last. No payload
      step appears after the first position. */
  lemma TransferPromptOrder(env: Env, common: Common, transfer: Transfer, payload: Bytes, encrypted: bool)
    ensures var s := TransferSteps(env, common, transfer, payload, encrypted);
            var start := if |payload| == 0 then 0 else 1;
            && |s| >= 2
            && s[|s| - 1] == Ask(ConfirmFinal(common.fee))
            && s[|s| - 2] == Ask(ConfirmOutput(transfer.recipient, XemAmount(env, transfer), env.maxDivisibility))
            && (IsPayloadStep(s[0]) <==> |payload| > 0)
            && (forall k :: 0 < k < |s| ==> !IsPayloadStep(s[k]))
            && start <= |s| - 2
            && s[start..|s| - 2] == MosaicsSteps(env, common, transfer, transfer.mosaics)
  {
    var pre := PayloadSteps(transfer, payload, encrypted);
    var mid := MosaicsSteps(env, common, transfer, transfer.mosaics);
    var tail := [Ask(ConfirmOutput(transfer.recipient, XemAmount(env, transfer), env.maxDivisibility)),
                 Ask(ConfirmFinal(common.fee))];
    SectionedSteps(pre, mid, tail);
  }

  /** The recipient and fee prompts are asked once each, at the end: no
      earlier step of a transfer's confirmation is either of them. */
  lemma TransferClosingPromptsUnique(env: Env, common: Common, transfer: Transfer, payload: Bytes, encrypted: bool)
    ensures var s := TransferSteps(env, common, transfer, payload, encrypted);
            forall k :: 0 <= k < |s| - 2 ==> !(s[k].Ask? && (s[k].prompt.ConfirmOutput? || s[k].prompt.ConfirmFinal?))
  {
    var pre := PayloadSteps(transfer, payload, encrypted);
    var mid := MosaicsSteps(env, common, transfer, transfer.mosaics);
    var tail := [Ask(ConfirmOutput(transfer.recipient, XemAmount(env, transfer), env.maxDivisibility)),
                 Ask(ConfirmFinal(common.fee))];
    SectionedSteps(pre, mid, tail);
  }

  /** A flow made of at most one payload step, then mosaic steps, then two
      closing steps: where each kind of step can sit in it. */
  lemma SectionedSteps(pre: seq<Step>, mid: seq<Step>, tail: seq<Step>)
    requires |pre| <= 1 && |tail| == 2
    requires forall k :: 0 <= k < |pre| ==> IsPayloadStep(pre[k])
    requires forall k :: 0 <= k < |mid| ==> IsMosaicStep(mid[k])
    requires !IsPayloadStep(tail[0]) && !IsPayloadStep(tail[1])
    ensures var s := pre + mid + tail;
            && s[|s| - 2] == tail[0] && s[|s| - 1] == tail[1]
            && (IsPayloadStep(s[0]) <==> |pre| == 1)
            && (forall k :: 0 < k < |s| ==> !IsPayloadStep(s[k]))
            && (forall k :: 0 <= k < |s| - 2 ==> IsPayloadStep(s[k]) || IsMosaicStep(s[k]))
            && s[|pre|..|s| - 2] == mid
  {
    var s := pre + mid + tail;
    forall k | |pre| <= k < |s| - 2
      ensures s[k] == mid[k - |pre|]
    {
    }
    forall k | 0 < k < |s|
      ensures !IsPayloadStep(s[k])
    {
      if k >= |s| - 2 {
        assert s[k] == tail[k - (|s| - 2)];
      }
    }
    assert s[|pre|..|s| - 2] == mid;
  }

  /** The text of the importance transfer prompt. */
  function HarvestingText(mode: ImportanceMode): (r: string)
    ensures r == "Activate remote harvesting?" <==> mode == Activate
    ensures mode != Activate ==> r == "Deactivate remote harvesting?"
  {
    (if mode == Activate then "Activate" else "Deactivate") + " remote harvesting?"
  }

  /** The confirmation flow of an importance transfer: the harvesting mode,
      then the fee. */
  function ImportanceSteps(common: Common, imp: ImportanceTransfer): (r: seq<Step>)
    ensures |r| == 2
    ensures r[0] == Ask(ConfirmText(HarvestingText(imp.mode)))
    ensures r[1] == Ask(ConfirmFinal(common.fee))
  {
    [Ask(ConfirmText(HarvestingText(imp.mode))), Ask(ConfirmFinal(common.fee))]
  }
}
