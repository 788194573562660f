/** Entities of the NEM transfer flow and the collaborators it calls.

    Everything the transfer code imports but does not define (the mosaic
    definition table, the XEM test, canonicalisation, payload resolution,
    the serialisers and the protocol divisors) is gathered in `Env`, so that
    every operation of the model is a pure function of its inputs. */
module NemTypes {

  datatype Option<+T> = None | Some(value: T)

  type Bytes = seq<bv8>

  /** A positive protocol constant. */
  type Positive = n: nat | n > 0 witness 1

  /** A protocol divisor; floor division by it is always defined. */
  type Divisor = Positive

  /** A sub-asset attached to a transfer, identified by (namespace, mosaic). */
  datatype Mosaic = Mosaic(namespace: string, mosaic: string, quantity: nat)

  /** The kind of levy a mosaic definition declares. */
  datatype LevyKind = Absolute | Percentile

  /** An entry of the mosaic definition table. The levy keys are optional:
      a definition may carry any subset of them. */
  datatype MosaicDefinition = MosaicDefinition(
    name: string,
    ticker: string,
    divisibility: nat,
    levy: Option<LevyKind>,
    fee: Option<nat>,
    levyNamespace: Option<string>,
    levyMosaic: Option<string>)

  /** The header fields shared by every NEM transaction. */
  datatype Common = Common(network: nat, timestamp: nat, fee: nat, deadline: nat)

  datatype Transfer = Transfer(
    recipient: string,
    amount: nat,
    payload: Option<Bytes>,
    publicKey: Option<Bytes>,
    mosaics: seq<Mosaic>)

  datatype ImportanceMode = Activate | Deactivate

  datatype ImportanceTransfer = ImportanceTransfer(mode: ImportanceMode, publicKey: Bytes)

  /** The signing node whose key material may encrypt the payload. */
  datatype HdNode = HdNode(privateKey: Bytes)

  /** The protocol constants and the collaborators of the transfer flow. */
  datatype Env = Env(
    amountDivisor: Divisor,       // NEM_MOSAIC_AMOUNT_DIVISOR
    levyDivisor: Divisor,         // NEM_LEVY_PERCENTILE_DIVISOR_ABSOLUTE
    maxDivisibility: Positive,    // NEM_MAX_DIVISIBILITY
    isXem: (string, string) -> bool,
    lookup: (string, string, nat) -> Option<MosaicDefinition>,
    canonicalize: seq<Mosaic> -> seq<Mosaic>,
    resolvePayload: (Transfer, HdNode) -> (Bytes, bool),
    serializeTransfer: (Common, Transfer, Bytes, Bytes, bool) -> Bytes,
    serializeMosaic: (string, string, nat) -> Bytes,
    serializeImportance: (Common, ImportanceTransfer, Bytes) -> Bytes)
  {
    /** Whether `m` is the native XEM mosaic. */
    predicate IsXem(m: Mosaic) {
      isXem(m.namespace, m.mosaic)
    }
  }
}
