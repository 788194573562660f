# NEM transfer signing flow, modelled in Dafny

This project models the transfer part of the NEM application of a hardware
signing device. Two requests are covered. A *transfer* moves XEM, the chain's
native asset, and optionally mosaics (named sub-assets) to a recipient, with
an optional message payload. An *importance transfer* switches remote
harvesting on or off. For each request the device:

1. shows the user a fixed sequence of confirmation prompts;
2. stops at the first prompt the user rejects;
3. serialises the transaction only once every prompt has been approved.

The model is functional:

- `types.dfy` (`NemTypes`) holds the entities: `Mosaic`, `MosaicDefinition`,
  `Transfer`, `ImportanceTransfer`, `Common`. It also holds `Env`, which
  gathers everything the flow imports but does not define:
  - the three protocol constants, as positive parameters;
  - the XEM test and the mosaic definition table;
  - mosaic canonicalisation and payload resolution;
  - the serialisers.
- `amounts.dfy` (`Amounts`) holds the arithmetic: the scaled mosaic
  quantity, the levy fee and the XEM total. All of it is on unbounded
  naturals with floor division, like Python integers.
- `ui.dfy` (`Ui`) is the confirmation port. A flow is a list of steps. Each
  step is either a prompt (`Ask`) or an exception the flow raises (`Raise`).
  The user is an oracle `(position, prompt) -> bool`. `Confirm` runs a flow
  and returns the prompts shown and whether it ended approved, rejected or
  crashed.
- `layout.dfy` (`Layout`) holds the prompt sequences of `ask_transfer`,
  `ask_transfer_mosaic`, `_get_levy_msg` and `ask_importance_transfer`.
- `transfer.dfy` (`NemTransfer`) holds the two entry points. A transfer is
  canonicalised, its payload is resolved, it is confirmed, its body is
  serialised and one entry per canonical mosaic is appended. An importance
  transfer is confirmed and then serialised.

The exceptions the Python flow can raise between prompts are modelled as
`Raise` steps, and each one ends the flow without a buffer:

- `PayloadMissing`: the `assert transfer.payload is not None` fails.
- `LevyKeyMissing`: a levy definition lacks `levy_namespace` or `levy_mosaic`.
- `LevyDefinitionMissing`: the levy mosaic has no definition, so indexing
  `None` fails.

Points where the code does something one might not expect, which the model
follows:

- The payload prompt shows the transfer's *original* payload bytes, even
  when the serialised payload is encrypted. Only the label changes, between
  "Encrypted:" and "Unencrypted:".
- The "raw units" shown for an unknown mosaic are the amount-scaled
  quantity, not the mosaic's own quantity.
- The XEM total of a transfer with mosaics is the first `nem.xem` mosaic's
  quantity scaled by the transfer amount. So with an amount divisor of
  1000000, a `nem.xem` quantity of 1000000 at amount 1 moves
  `1000000 * 1 // 1000000 = 1`, not 1000000. `Amounts.XemAmountExamples`
  proves 1 there, and 1000000 at amount 1000000.
- The canonical mosaic list is assigned back into the caller's transfer
  message before the first prompt. A rejected or failed request therefore
  still leaves the caller's message with its mosaics in canonical order.
  `BuildTransfer` returns that message alongside the outcome.

## Model

| member | source | states |
|---|---|---|
| Amounts.MosaicQuantity | core/src/apps/nem/transfer/layout.py:52 | the scaled quantity r is the floor of quantity * amount / divisor (r * d <= q * a < (r + 1) * d); it is 0 when either factor is 0 |
| Amounts.MosaicQuantityMonotone | core/src/apps/nem/transfer/layout.py:52 | the scaled quantity never decreases when the mosaic quantity or the transfer amount grows |
| Amounts.LevyFee | core/src/apps/nem/transfer/layout.py:119-124 | an absolute levy is the definition's fee unchanged; every other kind is the floor of quantity * fee / percentile divisor |
| Amounts.LevyFeeExamples | core/src/apps/nem/transfer/layout.py:119-124 | an absolute fee of 50 is 50 whatever the quantity; a percentile fee of 150 on 20000 units with divisor 10000 is 300 |
| Amounts.FirstXem | core/src/apps/nem/transfer/layout.py:108-110 | the index found is an XEM mosaic with no XEM mosaic before it; no index is found exactly when no mosaic is XEM |
| Amounts.XemAmount | core/src/apps/nem/transfer/layout.py:103-112 | with no mosaics the XEM total is the transfer amount; with mosaics none of which is XEM it is 0 |
| Amounts.XemAmountOfFirstXem | core/src/apps/nem/transfer/layout.py:108-110 | with mosaics present, the XEM total is the amount-scaled quantity of the first XEM mosaic, whichever XEM mosaics follow it |
| Amounts.XemAmountIgnoresLaterXem | core/src/apps/nem/transfer/layout.py:108-110 | once a list holds an XEM mosaic, appending more mosaics, XEM or not, leaves the XEM total unchanged |
| Amounts.XemAmountExamples | core/src/apps/nem/transfer/layout.py:103-112 | with XEM named nem.xem and divisor 1000000: amount 1000000 with no mosaics gives 1000000; foo.bar alone gives 0; nem.xem 1000000 alone gives 1 at amount 1; nem.xem 1000000 following a non-XEM foo.bar gives 1000000 at amount 1000000 |
| Ui.ConfirmFrom | core/src/apps/nem/transfer/layout.py:36-42 | running the awaited prompts from a position: every prompt shown is the next step; all are approved unless the last one was rejected; an approved run reaches the end; a crash stops at a raising step |
| Ui.Confirm | core/src/apps/nem/transfer/__init__.py:16 | a flow is approved exactly when every step is a prompt the user approves; the prompts shown are the leading steps in order; a rejected flow ends on the first prompt the user refused, every earlier one approved; a crashed flow stops at the first raising step, every prompt before it approved |
| Layout.PayloadLabel | core/src/apps/nem/transfer/layout.py:158 | the label is "Encrypted:" exactly when the payload is encrypted, and "Unencrypted:" otherwise |
| Layout.PayloadSteps | core/src/apps/nem/transfer/layout.py:36-38 | the payload step exists exactly when the resolved payload is non-empty; it shows the transfer's original payload bytes under the label of the encryption flag; when the transfer has no payload it is the failed assertion instead |
| Layout.LevySteps | core/src/apps/nem/transfer/layout.py:69-78 | a known mosaic gets at most one levy step, and gets one exactly when its definition has both the levy and the fee keys |
| Layout.LevyStepContents | core/src/apps/nem/transfer/layout.py:115-128 | a missing levy namespace or mosaic key raises; a levy mosaic without a definition raises; otherwise the prompt shows the levy fee in the levy mosaic's divisibility and ticker |
| Layout.MosaicSteps | core/src/apps/nem/transfer/layout.py:45-100 | a mosaic block is empty exactly for XEM, has at most two steps, and holds only mosaic prompts |
| Layout.MosaicBlockShape | core/src/apps/nem/transfer/layout.py:48-100 | XEM shows nothing; a known mosaic shows its scaled quantity with the definition's divisibility, ticker and name, plus, iff both levy keys are present, the levy step computed from that same scaled quantity; an unknown mosaic shows a warning, then the scaled quantity as raw units with namespace.mosaic |
| Layout.MosaicsSteps | core/src/apps/nem/transfer/layout.py:39-40 | the mosaic section holds only mosaic steps, is empty exactly when every mosaic is XEM, and has at most two steps per mosaic |
| Layout.MosaicsStepsAppend | core/src/apps/nem/transfer/layout.py:39-40 | the steps of a concatenated list are the steps of its parts in order, so every mosaic's block appears once, after the blocks of the mosaics before it |
| Layout.TransferSteps | core/src/apps/nem/transfer/layout.py:29-42 | a transfer flow has at least the recipient and fee prompts and at most three steps more than two per mosaic; it ends on the fee prompt |
| Layout.TransferPromptOrder | core/src/apps/nem/transfer/layout.py:29-42 | a transfer flow opens with a payload step iff the resolved payload is non-empty and has none later; then come the mosaic blocks in list order, then the recipient with the XEM total, and the fee prompt last |
| Layout.TransferClosingPromptsUnique | core/src/apps/nem/transfer/layout.py:41-42 | no step before the last two is a recipient or fee prompt, so each is asked exactly once |
| Layout.HarvestingText | core/src/apps/nem/transfer/layout.py:134-138 | the text is "Activate remote harvesting?" exactly when the mode is Activate, and "Deactivate remote harvesting?" otherwise |
| Layout.ImportanceSteps | core/src/apps/nem/transfer/layout.py:131-139 | an importance transfer flow is exactly two prompts: the harvesting text, then the fee |
| NemTransfer.Canonical | core/src/apps/nem/transfer/__init__.py:13 | only the mosaics are replaced, by their canonical form; every other field of the transfer is unchanged |
| NemTransfer.BuildTransfer | core/src/apps/nem/transfer/__init__.py:10-21 | the prompts shown and the verdict are those of confirming the flow built over the canonical mosaics and the once-resolved payload; a buffer exists iff every prompt of that flow is approved; it is then the body serialised from those same values followed by one entry per canonical mosaic in order; a rejection or exception yields none; the caller's message leaves with the canonical mosaics whatever the verdict |
| NemTransfer.AppendMosaics | core/src/apps/nem/transfer/__init__.py:19-21 | after the body, exactly one serialised entry per mosaic is appended, in list order, and nothing else |
| NemTransfer.TransferPayloadPrompt | core/src/apps/nem/transfer/__init__.py:14-16 | when shown, the first prompt carries the transfer's payload bytes under the label of the same encryption flag that the serialiser receives |
| NemTransfer.BuildImportanceTransfer | core/src/apps/nem/transfer/__init__.py:24-28 | the prompts shown and the verdict are those of confirming the two-prompt flow; the buffer exists iff the verdict is approved, iff both the harvesting and fee prompts are approved, and it is then exactly the importance transfer serialisation; a refused harvesting prompt ends the flow before the fee prompt; the flow never crashes |

## Left out

- Byte layout: the wire format of the transfer body, of a mosaic entry and of an importance transfer belongs to `serialize.py`, which is not part of this model. The serialisers are opaque functions in `Env`.
- Mosaic canonical ordering and payload encryption are also in `serialize.py`. `canonicalize` and `resolvePayload` are opaque functions in `Env`. No property of canonicalisation, such as idempotence, is claimed.
- `serializeMosaic` returns the chunk that `serialize_mosaic` appends to the writer, and that chunk does not depend on what the writer already holds. This assumes that `serialize_mosaic` only appends, which is a property of `serialize.py`. "Nothing but the entries is appended" in `AppendMosaics` rests on this assumption.
- `resolvePayload` is a pure function, as is every collaborator in `Env`. So the model cannot tell one call to `get_transfer_payload` from two. "Resolved once" means that the confirmation and the serialiser see the same value.
- The collaborators `get_transfer_payload`, `serialize_transfer` and `serialize_mosaic` are assumed never to raise. Their code is not part of this model, and each is a total function in `Env`. `BuildTransfer` promises a buffer whenever every prompt is approved, and that direction rests on this assumption.
- `get_mosaic_definition` and `is_nem_xem_mosaic` are parameters, because their table and body are not part of this model.
- NEM_MOSAIC_AMOUNT_DIVISOR, NEM_LEVY_PERCENTILE_DIVISOR_ABSOLUTE and NEM_MAX_DIVISIBILITY come from a helpers module that is not part of this model. They are abstract positive parameters, except in the example lemmas.
- `format_amount`: prompts carry the amount and its divisibility instead of rendered text. Icons, colours, titles and button-request codes are left out.
- UTF-8 decoding of the payload for display is a library call with unspecified failure behaviour. The payload prompt carries the raw bytes.
- Key errors on `divisibility`, `ticker` or `name` of a definition are not modelled, because definitions are assumed to carry these fields.
- Overflow: Python integers are unbounded and the code has no overflow checks, so the model uses `nat` throughout.
- `embed/trezorhal/touch.c` is a hardware touch driver and `LiskMultisignatureType.py` is a generated message stub. Neither is part of the transfer flow.
