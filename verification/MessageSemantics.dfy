/** What applying a message does to the state tree, as functions of values.  The classes of
    module `Processor` are proved to compute these functions. */
module MessageSemantics {
  import opened Primitives
  import opened StateTree
  import opened Messages

  // ----- the VM -----

  datatype Call = Call(tree: Tree, gas: Gas, from: Address, to: Address, msg: Message)

  datatype CallResult =
    | CallFault
    | Returned(tree: Tree, gas: Gas, ret: seq<seq<Byte>>, exitCode: Byte, err: Option<VmError>)

  datatype Lookup = CodeMissing | MethodMissing | Exported

  /** The built-in actors at one block height on one chain: which methods a code exports and
      what calling one does. */
  datatype Actors = Actors(lookup: (Code, Uint64) -> Lookup, run: Call -> CallResult)

  /** What actor code is relied on for: it stays within the gas limit of the message and, when it
      succeeds, extends the tree and does not take money from the sender of the message. */
  ghost predicate Honest(actors: Actors) {
    forall c: Call :: CallOk(c) ==> HonestCall(c, actors.run(c))
  }

  predicate CallOk(c: Call) {
    c.from in c.tree && c.to in c.tree && c.gas.byMessage <= c.gas.msgLimit
  }

  ghost predicate HonestCall(c: Call, r: CallResult)
    requires CallOk(c)
  {
    r.Returned? ==>
      && r.gas.byMessage <= r.gas.msgLimit == c.gas.msgLimit
      && (r.err.None? ==> Extends(c.tree, r.tree) && r.tree[c.from].balance >= c.tree[c.from].balance)
  }

  /** No actor lets the VM's own negative-transfer error escape from a nested send. */
  ghost predicate KeepsNegativeTransferInside(actors: Actors) {
    forall c: Call :: actors.run(c).Returned? ==> actors.run(c).err != Some(CannotTransferNegativeValue)
  }

  function ExitCode(e: VmError): Byte {
    match e
    case CannotTransferNegativeValue => 2
    case InsufficientBalance => 3
    case MissingExport => 3
    case NoActorCode => 5
    case ActorError(code) => code
  }

  function Transfer(t: Tree, from: Address, to: Address, value: int): Result<Tree, VmError>
    requires from in t && to in t
  {
    if value < 0 then Err(CannotTransferNegativeValue)
    else if t[from].balance < value then Err(InsufficientBalance)
    else Ok(Move(t, from, to, value))
  }

  /** `vm.Send`: move the value, then call the method unless it is the plain send. */
  function Send(actors: Actors, t: Tree, gas: Gas, from: Address, to: Address, msg: Message): CallResult
    requires from in t && to in t
  {
    var moved := if msg.value != 0 then Transfer(t, from, to, msg.value) else Ok(t);
    match moved
    case Err(e) => Returned(t, gas, [], ExitCode(e), Some(e))
    case Ok(t1) => Invoke(actors, Call(t1, gas, from, to, msg))
  }

  function Invoke(actors: Actors, c: Call): CallResult
    requires c.from in c.tree && c.to in c.tree
  {
    if c.msg.methodId == SEND_METHOD then
      Returned(c.tree, c.gas, [], 0, None)
    else if c.msg.methodId == INVALID_METHOD then
      CallFault
    else if c.msg.methodId == CONSTRUCTOR_METHOD && !c.tree[c.from].code.InitCode? then
      Returned(c.tree, c.gas, [], 1, Some(ActorError(1)))
    else match actors.lookup(c.tree[c.to].code, c.msg.methodId)
      case CodeMissing => Returned(c.tree, c.gas, [], ExitCode(NoActorCode), Some(NoActorCode))
      case MethodMissing => Returned(c.tree, c.gas, [], 1, Some(MissingExport))
      case Exported => actors.run(c)
  }

  // ----- one message -----

  datatype Receipt = Receipt(exitCode: Byte, ret: seq<seq<Byte>>, gasAttoFIL: int)

  datatype Attempted =
    | AttemptFault(gas: Gas)
    | Attempted(tree: Tree, gas: Gas, receipt: Receipt, err: Option<ApplyError>)

  function Rejected(t: Tree, gas: Gas, exitCode: Byte, e: ApplyError): Attempted {
    Attempted(t, gas, Receipt(exitCode, [], 0), Some(e))
  }

  /** `attemptApplyMessage`, on a cached copy `t` of the state tree. */
  function Attempt(actors: Actors, t: Tree, gas: Gas, msg: Message): Attempted {
    var g := ResetForNewMessage(gas, msg);
    if AboveBlockLimit(g) then Rejected(t, g, 1, GasAboveBlockLimit)
    else if TooHighForCurrentBlock(g) then Rejected(t, g, 1, GasTooHighForCurrentBlock)
    else match Resolve(t, msg.from)
      case Broken => AttemptFault(g)
      case Unknown => Rejected(t, g, 0, FromAccountNotFound)
      case Resolved(from) =>
        if from !in t then Rejected(t, g, 1, FromAccountNotFound)
        else match Validate(msg, t[from], false)
          case Some(e) => Rejected(t, g, 1, e)
          case None => Execute(actors, t, g, from, msg)
  }

  /** The part of `attemptApplyMessage` after validation. */
  function Execute(actors: Actors, t: Tree, g: Gas, from: Address, msg: Message): Attempted
    requires from in t
  {
    match GetOrCreate(t, msg.to)
    case None => AttemptFault(g)
    case Some((t1, to)) =>
      match Send(actors, t1, g, from, to, msg)
      case CallFault => AttemptFault(g)
      case Returned(t2, g2, ret, exitCode, err) =>
        Attempted(t2, g2, Receipt(exitCode, ret, msg.gasPrice * g2.byMessage),
                  if err.None? then None else Some(Vm(err.value)))
  }

  /** `rewardTransfer`; None is a fault. */
  function RewardTransfer(t: Tree, from: Address, toAddr: Address, value: int): Option<Tree> {
    if from !in t then None
    else match GetOrCreate(t, toAddr)
      case None => None
      case Some((t1, to)) =>
        match Transfer(t1, from, to, value)
        case Err(_) => None
        case Ok(t2) => Some(t2)
  }

  const BLOCK_REWARD: int := 1000 * 1_000_000_000_000_000_000

  function BlockReward(t: Tree, owner: Address): Option<Tree> {
    RewardTransfer(t, NETWORK_ADDRESS, owner, BLOCK_REWARD)
  }

  function GasReward(t: Tree, owner: Address, msg: Message, cost: int): Option<Tree> {
    match Resolve(t, msg.from)
    case Broken => None
    case Unknown => None
    case Resolved(from) => RewardTransfer(t, from, owner, cost)
  }

  datatype Outcome =
    | Fault
    | Temporary(error: ApplyError)
    | Permanent(error: ApplyError)
    | Applied(receipt: Receipt, executionError: Option<ApplyError>)

  datatype ApplyOut = ApplyOut(tree: Tree, gas: Gas, outcome: Outcome)

  /** `ApplyMessage`: keep or drop the attempt, pay the gas, classify the error, bump the nonce. */
  function ApplyMessage(actors: Actors, t: Tree, gas: Gas, msg: Message, owner: Address): ApplyOut {
    match Attempt(actors, t, gas, msg)
    case AttemptFault(g) => ApplyOut(t, g, Fault)
    case Attempted(t', g, receipt, err) =>
      var kept := if err.None? then t' else t;
      var reward := if receipt.gasAttoFIL > 0 then GasReward(kept, owner, msg, receipt.gasAttoFIL) else Some(kept);
      match reward
      case None => ApplyOut(kept, g, Fault)
      case Some(paid) =>
        if err.Some? && IsTemporary(err.value) then ApplyOut(paid, g, Temporary(err.value))
        else if err.Some? && IsPermanent(err.value) then ApplyOut(paid, g, Permanent(err.value))
        else BumpNonce(paid, g, msg, receipt, err)
  }

  function BumpNonce(t: Tree, g: Gas, msg: Message, receipt: Receipt, err: Option<ApplyError>): ApplyOut {
    match Resolve(t, msg.from)
    case Broken => ApplyOut(t, g, Fault)
    case Unknown => ApplyOut(t, g, Fault)
    case Resolved(from) =>
      if from !in t then ApplyOut(t, g, Fault)
      else
        var act := t[from];
        ApplyOut(t[from := act.(callSeqNum := Wrap(act.callSeqNum + 1))], g, Applied(receipt, err))
  }

  // ----- a block and a tipset -----

  /** `ApplyMessageResult`. */
  datatype MessageResult =
    | Success(receipt: Receipt, executionError: Option<ApplyError>)
    | Failure(error: ApplyError, permanent: bool)

  /** A fault leaves no results. */
  datatype RunOut = RunFault(tree: Tree) | RunOk(tree: Tree, gas: Gas, results: seq<MessageResult>)

  function ResultOf(o: Outcome): MessageResult
    requires !o.Fault?
  {
    match o
    case Temporary(e) => Failure(e, false)
    case Permanent(e) => Failure(e, true)
    case Applied(r, e) => Success(r, e)
  }

  /** Messages applied in order with one gas tracker. */
  function ApplyAll(actors: Actors, t: Tree, gas: Gas, msgs: seq<Message>, owner: Address): (r: RunOut)
    ensures r.RunOk? ==> |r.results| == |msgs|
    decreases |msgs|
  {
    if msgs == [] then RunOk(t, gas, [])
    else
      var o := ApplyMessage(actors, t, gas, msgs[0], owner);
      if o.outcome.Fault? then RunFault(o.tree)
      else
        match ApplyAll(actors, o.tree, o.gas, msgs[1..], owner)
        case RunFault(t') => RunFault(t')
        case RunOk(t', g', results) => RunOk(t', g', [ResultOf(o.outcome)] + results)
  }

  function ApplyMessagesAndPayRewards(actors: Actors, t: Tree, msgs: seq<Message>, owner: Address): (r: RunOut)
    ensures r.RunOk? ==> |r.results| == |msgs|
  {
    match BlockReward(t, owner)
    case None => RunFault(t)
    case Some(t1) => ApplyAll(actors, t1, NO_GAS, msgs, owner)
  }

  /** Who is paid for a block of a miner, read from the state before the block. */
  type OwnerLookup = (Tree, Address) -> Option<Address>

  datatype TipSetOut = TipSetFault(tree: Tree) | TipSetOk(tree: Tree, results: seq<MessageResult>)

  /** The block loop of `ProcessTipSet`. */
  function ProcessBlocks(actors: Actors, owners: OwnerLookup, t: Tree, miners: seq<Address>,
                         msgs: seq<seq<Message>>): TipSetOut
    requires |miners| == |msgs|
    decreases |miners|
  {
    if miners == [] then TipSetOk(t, [])
    else match owners(t, miners[0])
      case None => TipSetFault(t)
      case Some(owner) =>
        match ApplyMessagesAndPayRewards(actors, t, msgs[0], owner)
        case RunFault(t') => TipSetFault(t')
        case RunOk(t', _, results) =>
          match ProcessBlocks(actors, owners, t', miners[1..], msgs[1..])
          case TipSetFault(t'') => TipSetFault(t'')
          case TipSetOk(t'', rest) => TipSetOk(t'', results + rest)
  }

  /** Messages not in `seen` and not repeated, in order: the effect of the `msgFilter` map. */
  function Dedup(msgs: seq<Message>, seen: set<Message>): seq<Message> {
    if msgs == [] then []
    else if msgs[0] in seen then Dedup(msgs[1..], seen)
    else [msgs[0]] + Dedup(msgs[1..], seen + {msgs[0]})
  }

  lemma DedupNone(seen: set<Message>)
    ensures Dedup([], seen) == []
  {
  }

  lemma DedupFirst(msgs: seq<Message>, seen: set<Message>)
    requires msgs != []
    ensures Dedup(msgs, seen) == if msgs[0] in seen then Dedup(msgs[1..], seen)
                                 else [msgs[0]] + Dedup(msgs[1..], seen + {msgs[0]})
  {
  }

  /** `DeduppedMessages`: the first occurrence of a message in the tipset stays. */
  function DedupAll(blocks: seq<seq<Message>>, seen: set<Message>): (r: seq<seq<Message>>)
    ensures |r| == |blocks|
  {
    if blocks == [] then []
    else [Dedup(blocks[0], seen)] + DedupAll(blocks[1..], seen + (set m | m in blocks[0]))
  }

  function ProcessTipSet(actors: Actors, owners: OwnerLookup, t: Tree, miners: seq<Address>,
                         msgs: seq<seq<Message>>): TipSetOut
    requires |miners| == |msgs|
  {
    if miners == [] then TipSetFault(t)
    else ProcessBlocks(actors, owners, t, miners, DedupAll(msgs, {}))
  }
}
