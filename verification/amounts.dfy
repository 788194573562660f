/** The amount and levy arithmetic of the transfer confirmation.
    All quantities are unbounded naturals and every division floors. */
module Amounts {
  import opened NemTypes

  /** The quantity of a mosaic actually moved: the mosaic's per-unit quantity
      times the transfer amount, scaled down by the amount divisor. */
  function MosaicQuantity(quantity: nat, amount: nat, divisor: Divisor): (r: nat)
    ensures r * divisor <= quantity * amount < (r + 1) * divisor
    ensures quantity == 0 || amount == 0 ==> r == 0
  {
    quantity * amount / divisor
  }

  /** The scaled quantity never decreases when either factor grows. */
  lemma MosaicQuantityMonotone(q1: nat, q2: nat, a1: nat, a2: nat, divisor: Divisor)
    requires q1 <= q2 && a1 <= a2
    ensures MosaicQuantity(q1, a1, divisor) <= MosaicQuantity(q2, a2, divisor)
  {
    assert q1 * a1 <= q2 * a1 by { MulLeMonotone(q1, q2, a1); }
    assert q2 * a1 <= q2 * a2 by { MulLeMonotone(a1, a2, q2); }
    var r1 := MosaicQuantity(q1, a1, divisor);
    var r2 := MosaicQuantity(q2, a2, divisor);
    if r1 > r2 {
      MulLeMonotone(r2 + 1, r1, divisor);
      assert false;
    }
  }

  lemma MulLeMonotone(x: nat, y: nat, k: nat)
    requires x <= y
    ensures x * k <= y * k
  {
  }

  /** The levy owed on `quantity` units of a mosaic whose definition declares
      the levy kind `kind` and the fee `fee`: an absolute levy is the fee
      itself, any other levy is a fraction of the quantity. */
  function LevyFee(kind: LevyKind, quantity: nat, fee: nat, divisor: Divisor): (r: nat)
    ensures kind == Absolute ==> r == fee
    ensures kind != Absolute ==> r * divisor <= quantity * fee < (r + 1) * divisor
  {
    if kind == Absolute then fee else quantity * fee / divisor
  }

  /** `i` is the position of the first XEM mosaic of `mosaics`. */
  predicate IsFirstXem(env: Env, mosaics: seq<Mosaic>, i: nat) {
    && i < |mosaics|
    && env.IsXem(mosaics[i])
    && forall j :: 0 <= j < i ==> !env.IsXem(mosaics[j])
  }

  /** Index of the first XEM mosaic of `mosaics`, if there is one. */
  function FirstXem(env: Env, mosaics: seq<Mosaic>): (r: Option<nat>)
    ensures r.Some? ==> IsFirstXem(env, mosaics, r.value)
    ensures r.None? <==> forall j :: 0 <= j < |mosaics| ==> !env.IsXem(mosaics[j])
  {
    if |mosaics| == 0 then None
    else if env.IsXem(mosaics[0]) then Some(0)
    else match FirstXem(env, mosaics[1..])
      case None => None
      case Some(i) => Some(i + 1)
  }

  /** There is at most one first XEM position. */
  lemma FirstXemUnique(env: Env, mosaics: seq<Mosaic>, i: nat, k: nat)
    requires IsFirstXem(env, mosaics, i) && IsFirstXem(env, mosaics, k)
    ensures i == k
  {
  }

  /** The XEM total a transfer moves. Without mosaics it is the transfer's
      own amount; with mosaics it is the scaled quantity of the first XEM
      mosaic, or nothing when no mosaic is XEM. */
  function XemAmount(env: Env, transfer: Transfer): (r: nat)
    ensures |transfer.mosaics| == 0 ==> r == transfer.amount
    ensures |transfer.mosaics| > 0 && (forall i :: 0 <= i < |transfer.mosaics| ==> !env.IsXem(transfer.mosaics[i]))
            ==> r == 0
  {
    var ms := transfer.mosaics;
    if |ms| == 0 then transfer.amount
    else
      match FirstXem(env, ms)
      case Some(i) => MosaicQuantity(ms[i].quantity, transfer.amount, env.amountDivisor)
      case None => 0
  }

  /** With mosaics present, the XEM total is the scaled quantity of the
      first XEM mosaic. */
  lemma XemAmountOfFirstXem(env: Env, transfer: Transfer, i: nat)
    requires IsFirstXem(env, transfer.mosaics, i)
    ensures XemAmount(env, transfer) == MosaicQuantity(transfer.mosaics[i].quantity, transfer.amount, env.amountDivisor)
  {
    FirstXemUnique(env, transfer.mosaics, i, FirstXem(env, transfer.mosaics).value);
  }

  /** A later XEM entry never affects the total: only the first one counts. */
  lemma {:induction false} XemAmountIgnoresLaterXem(env: Env, transfer: Transfer, extra: seq<Mosaic>)
    requires exists i :: 0 <= i < |transfer.mosaics| && env.IsXem(transfer.mosaics[i])
    ensures XemAmount(env, transfer.(mosaics := transfer.mosaics + extra)) == XemAmount(env, transfer)
  {
    var ms := transfer.mosaics;
    var i := FirstXem(env, ms).value;
    var t' := transfer.(mosaics := ms + extra);
    assert t'.mosaics[i] == ms[i];
    assert forall j :: 0 <= j < i ==> t'.mosaics[j] == ms[j];
    assert IsFirstXem(env, t'.mosaics, i);
  }

  /** Worked XEM totals, with XEM named nem.xem and an amount divisor of
      1000000. The mosaic quantity is scaled by the transfer amount, so a
      nem.xem quantity of 1000000 at amount 1 moves 1000000 * 1 / 1000000 = 1. */
  lemma XemAmountExamples(env: Env)
    requires env.amountDivisor == 1000000
    requires forall ns, m :: env.isXem(ns, m) <==> ns == "nem" && m == "xem"
    ensures XemAmount(env, Transfer("", 1000000, None, None, [])) == 1000000
    ensures XemAmount(env, Transfer("", 2, None, None, [Mosaic("foo", "bar", 5)])) == 0
    ensures XemAmount(env, Transfer("", 1, None, None, [Mosaic("nem", "xem", 1000000)])) == 1
    ensures XemAmount(env, Transfer("", 1000000, None, None, [Mosaic("foo", "bar", 5), Mosaic("nem", "xem", 1000000)])) == 1000000
  {
    var xem := Mosaic("nem", "xem", 1000000);
    assert env.IsXem(xem);
    assert IsFirstXem(env, [xem], 0);
    assert IsFirstXem(env, [Mosaic("foo", "bar", 5), xem], 1);
  }

  /** Worked levy fees, with a percentile divisor of 10000. */
  lemma LevyFeeExamples()
    ensures LevyFee(Absolute, 20000, 50, 10000) == 50
    ensures LevyFee(Absolute, 0, 50, 10000) == 50
    ensures LevyFee(Percentile, 20000, 150, 10000) == 300
  {
  }
}
