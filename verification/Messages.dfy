/** Messages and the checks made before one is executed. */
module Messages {
  import opened Primitives
  import opened StateTree

  const SEND_METHOD: Uint64 := 0
  const CONSTRUCTOR_METHOD: Uint64 := 1
  const INVALID_METHOD: Uint64 := 0xFFFF_FFFF_FFFF_FFFF

  const BLOCK_GAS_LIMIT: Uint64 := 10_000_000

  datatype Message = Message(
    to: Address,
    from: Address,
    callSeqNum: Uint64,
    value: int,
    methodId: Uint64,
    params: seq<Byte>,
    gasPrice: int,
    gasLimit: Uint64)

  datatype SignedMessage = SignedMessage(message: Message, signature: seq<Byte>)

  /** `UnwrapSigned`. */
  function Unwrap(msgs: seq<SignedMessage>): (r: seq<Message>)
    ensures |r| == |msgs|
  {
    seq(|msgs|, i requires 0 <= i < |msgs| => msgs[i].message)
  }

  lemma UnwrapConcat(a: seq<SignedMessage>, b: seq<SignedMessage>)
    ensures Unwrap(a + b) == Unwrap(a) + Unwrap(b)
  {
  }

  /** Revert errors of the VM itself. */
  datatype VmError =
    | CannotTransferNegativeValue
    | InsufficientBalance
    | MissingExport
    | NoActorCode
    | ActorError(code: Byte)

  /** The revert errors an attempt to apply a message can end with. */
  datatype ApplyError =
    | FromAccountNotFound
    | GasAboveBlockLimit
    | GasPriceZero
    | GasTooHighForCurrentBlock
    | NonceTooHigh
    | NonceTooLow
    | NonAccountActor
    | NegativeValue
    | InsufficientGas
    | InvalidSignature
    | SelfSend
    | Vm(error: VmError)

  predicate IsTemporary(e: ApplyError) {
    e.FromAccountNotFound? || e.NonceTooHigh? || e.GasTooHighForCurrentBlock?
  }

  predicate IsPermanent(e: ApplyError) {
    || e.InsufficientGas?
    || e.SelfSend?
    || e.InvalidSignature?
    || e.NonceTooLow?
    || e.NonAccountActor?
    || e.NegativeValue?
    || e == Vm(CannotTransferNegativeValue)
    || e.GasAboveBlockLimit?
  }

  /** `canCoverGasLimit`; the limit has been checked against the block limit before, so its
      conversion to int64 is exact. */
  predicate CanCoverGasLimit(msg: Message, act: Actor) {
    msg.gasPrice * msg.gasLimit <= act.balance - msg.value
  }

  /** `DefaultMessageValidator.Validate`. */
  function Validate(msg: Message, act: Actor, allowHighNonce: bool): Option<ApplyError> {
    if msg.from == msg.to then Some(SelfSend)
    else if msg.gasPrice <= 0 then Some(GasPriceZero)
    else if !(act.code.NoCode? || act.code.AccountCode?) then Some(NonAccountActor)
    else if msg.value < 0 then Some(NegativeValue)
    else if msg.gasLimit > BLOCK_GAS_LIMIT then Some(GasAboveBlockLimit)
    else if !CanCoverGasLimit(msg, act) then Some(InsufficientGas)
    else if msg.callSeqNum < act.callSeqNum then Some(NonceTooLow)
    else if !allowHighNonce && msg.callSeqNum > act.callSeqNum then Some(NonceTooHigh)
    else None
  }

  /** `LegacyGasTracker` as a value. */
  datatype Gas = Gas(msgLimit: Uint64, byBlock: Uint64, byMessage: Uint64)

  const NO_GAS: Gas := Gas(0, 0, 0)

  function ResetForNewMessage(g: Gas, msg: Message): Gas {
    g.(msgLimit := msg.gasLimit, byMessage := 0)
  }

  /** A charge over the message limit uses the limit up, and adds all of it to the block again. */
  function Charge(g: Gas, cost: Uint64): (Gas, bool) {
    if Wrap(g.byMessage + cost) > g.msgLimit then
      (g.(byMessage := g.msgLimit, byBlock := Wrap(g.byBlock + g.msgLimit)), false)
    else
      (g.(byMessage := Wrap(g.byMessage + cost), byBlock := Wrap(g.byBlock + cost)), true)
  }

  predicate AboveBlockLimit(g: Gas) {
    g.msgLimit > BLOCK_GAS_LIMIT
  }

  predicate TooHighForCurrentBlock(g: Gas) {
    Wrap(g.msgLimit + g.byBlock) > BLOCK_GAS_LIMIT
  }
}
