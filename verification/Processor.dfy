/** `DefaultProcessor`: the message processor as it runs, on the mutable state tree. */
module Processor {
  import opened Primitives
  import opened StateTree
  import opened Messages
  import opened MessageSemantics
  import opened CachedState

  /** The tree has no operation that removes an actor. */
  ghost predicate NeverDeletes(actors: Actors) {
    forall c: Call :: actors.run(c).Returned? ==> c.tree.Keys <= actors.run(c).tree.Keys
  }

  method ResolveAddress(addr: Address, ct: CachedTree) returns (r: Resolution)
    requires ct.Valid()
    modifies ct
    ensures ct.Valid() && ct.View() == old(ct.View()) && ct.Grew()
    ensures r == Resolve(ct.View(), addr)
  {
    if Protocol(addr) == PROTOCOL_ID { return Resolved(addr); }
    var init := ct.GetActor(INIT_ADDRESS);
    if init.None? || !init.value.head.InitHead? { return Broken; }
    assert ct.View()[INIT_ADDRESS] == init.value.Value();
    if addr !in init.value.head.ids { return Unknown; }
    r := Resolved(IdAddress(init.value.head.ids[addr]));
  }

  function AccountAt(t: Tree, idAddr: Address, addr: Address): Actor {
    var blank := if idAddr in t then t[idAddr] else Actor(NoCode, NoHead, 0, 0);
    blank.(code := AccountCode, head := AccountHead(addr))
  }

  /** Makes the actor at an id address an account, unless it has code already. */
  method PlaceAccount(ct: CachedTree, idAddr: Address, addr: Address) returns (ok: bool)
    requires ct.Valid()
    modifies ct, ct.Objects()
    ensures ok <==> idAddr !in old(ct.View()) || old(ct.View())[idAddr].code.NoCode?
    ensures ok ==> ct.Valid() && ct.Grew() && idAddr in ct.cache
                   && ct.View() == old(ct.View())[idAddr := AccountAt(old(ct.View()), idAddr, addr)]
  {
    ghost var t := ct.View();
    var found := ct.GetActor(idAddr);
    if found.None? {
      ct.Install(idAddr, Actor(AccountCode, AccountHead(addr), 0, 0));
      return true;
    }
    assert found.value.Value() == t[idAddr];
    if !found.value.code.NoCode? { return false; }
    ct.Assign(idAddr, found.value.Value().(code := AccountCode, head := AccountHead(addr)));
    ok := true;
  }

  /** The init actor's Exec of an account: take the next id, create the actor, enter it into
      the address book. */
  method CreateAccountActor(ct: CachedTree, addr: Address) returns (r: Option<Address>)
    requires ct.Valid() && Resolve(ct.View(), addr).Unknown?
    modifies ct, ct.Objects()
    ensures var spec := CreateAccount(old(ct.View()), addr);
            if spec.None? then r.None?
            else
              && r == Some(spec.value.1) && ct.Valid() && ct.Grew()
              && ct.View() == spec.value.0 && spec.value.1 in ct.cache
  {
    CreateAccountIs(ct.View(), addr);
    hide IdAddress, CreateAccount, WithAccount, Resolve, CachedTree.View, CachedTree.Valid;
    var init := ct.GetActor(INIT_ADDRESS);
    ct.Seen(INIT_ADDRESS);
    if !init.value.code.InitCode? { return None; }
    r := FillAccount(ct, addr);
  }

  /** The tree with a new account under the next id, and that id. */
  function WithAccount(t: Tree, addr: Address): Option<(Tree, Address)>
    requires INIT_ADDRESS in t && t[INIT_ADDRESS].head.InitHead?
  {
    var init := t[INIT_ADDRESS];
    var idAddr := IdAddress(init.head.nextId);
    var book := InitHead(init.head.ids[addr := init.head.nextId], Wrap(init.head.nextId + 1));
    if (idAddr in t && !t[idAddr].code.NoCode?)
       || (Protocol(addr) != PROTOCOL_SECP256K1 && Protocol(addr) != PROTOCOL_BLS) then None
    else Some((t[idAddr := AccountAt(t, idAddr, addr)][INIT_ADDRESS := init.(head := book)], idAddr))
  }

  method FillAccount(ct: CachedTree, addr: Address) returns (r: Option<Address>)
    requires ct.Valid() && INIT_ADDRESS in ct.cache
    requires ct.cache[INIT_ADDRESS].code.InitCode? && ct.cache[INIT_ADDRESS].head.InitHead?
    modifies ct, ct.Objects()
    ensures INIT_ADDRESS in old(ct.View()) && old(ct.View())[INIT_ADDRESS].head.InitHead?
    ensures var spec := WithAccount(old(ct.View()), addr);
            if spec.None? then r.None?
            else
              && r == Some(spec.value.1) && ct.Valid() && ct.Grew()
              && ct.View() == spec.value.0 && spec.value.1 in ct.cache
  {
    hide IdAddress, AccountAt, CachedTree.View, CachedTree.Valid;
    ct.Seen(INIT_ADDRESS);
    var id, ids := ct.cache[INIT_ADDRESS].head.nextId, ct.cache[INIT_ADDRESS].head.ids;
    var idAddr := IdAddress(id);
    var ok := PlaceAccount(ct, idAddr, addr);
    if !ok || (Protocol(addr) != PROTOCOL_SECP256K1 && Protocol(addr) != PROTOCOL_BLS) { return None; }
    EnterBook(ct, InitHead(ids[addr := id], Wrap(id as int + 1)));
    r := Some(idAddr);
  }

  /** Writes the address book of the init actor. */
  method EnterBook(ct: CachedTree, book: Head)
    requires ct.Valid() && INIT_ADDRESS in ct.cache
    modifies ct.cache[INIT_ADDRESS]
    ensures INIT_ADDRESS in old(ct.View())
    ensures ct.View() == old(ct.View())[INIT_ADDRESS := old(ct.View())[INIT_ADDRESS].(head := book)]
  {
    ct.Seen(INIT_ADDRESS);
    ct.Assign(INIT_ADDRESS, ct.cache[INIT_ADDRESS].Value().(head := book));
  }

  /** The account can be placed before it is entered into the address book. */
  lemma CreateAccountIs(t: Tree, addr: Address)
    requires Resolve(t, addr).Unknown?
    ensures INIT_ADDRESS in t && t[INIT_ADDRESS].head.InitHead?
    ensures CreateAccount(t, addr) == if !t[INIT_ADDRESS].code.InitCode? then None else WithAccount(t, addr)
  {
    hide IdAddress;
    if CreateAccount(t, addr).Some? {
      assert WithAccount(t, addr).value.0 == CreateAccount(t, addr).value.0;
    }
  }

  /** `getOrCreateActor`; the actor object is then `ct.cache[r.value]`. */
  method GetOrCreateActor(ct: CachedTree, addr: Address) returns (r: Option<Address>)
    requires ct.Valid()
    modifies ct, ct.Objects()
    ensures var spec := GetOrCreate(old(ct.View()), addr);
            if spec.None? then r.None?
            else
              && r == Some(spec.value.1) && ct.Valid() && ct.Grew()
              && ct.View() == spec.value.0 && spec.value.1 in ct.cache
  {
    var res := ResolveAddress(addr, ct);
    match res
    case Broken => return None;
    case Resolved(id) =>
      var act := ct.GetActor(id);
      return if act.Some? then Some(id) else None;
    case Unknown =>
      r := CreateAccountActor(ct, addr);
  }

  datatype SendReturn = SendFault | SendReturn(ret: seq<seq<Byte>>, exitCode: Byte, err: Option<VmError>)

  /** `vm.Send` on the cached tree. */
  method SendMessage(actors: Actors, ct: CachedTree, gas: LegacyGasTracker, from: Address, to: Address, msg: Message)
    returns (r: SendReturn)
    requires NeverDeletes(actors)
    requires ct.Valid() && from in ct.cache && to in ct.cache
    modifies ct, ct.Objects(), gas
    ensures match Send(actors, old(ct.View()), old(gas.Value()), from, to, msg)
            case CallFault => r.SendFault? && gas.Value() == old(gas.Value())
            case Returned(t, g, ret, code, err) =>
              r == SendReturn(ret, code, err) && ct.Valid() && ct.View() == t && gas.Value() == g
  {
    if msg.value != 0 {
      var err := ct.Pay(from, to, msg.value);
      if err.Some? { return SendReturn([], ExitCode(err.value), err); }
    }
    var result := Invoke(actors, Call(ct.View(), gas.Value(), from, to, msg));
    if result.CallFault? { return SendFault; }
    ct.Adopt(result.tree);
    gas.Set(result.gas);
    r := SendReturn(result.ret, result.exitCode, result.err);
  }

  datatype AttemptReturn = AttemptFaulted | AttemptReturn(receipt: Receipt, err: Option<ApplyError>)

  function Reject(exitCode: Byte, e: ApplyError): AttemptReturn {
    AttemptReturn(Receipt(exitCode, [], 0), Some(e))
  }

  /** The part of `attemptApplyMessage` after validation. */
  method ExecuteMessage(actors: Actors, ct: CachedTree, gas: LegacyGasTracker, from: Address, msg: Message)
    returns (r: AttemptReturn)
    requires NeverDeletes(actors)
    requires ct.Valid() && from in ct.cache
    modifies ct, ct.Objects(), gas
    ensures match Execute(actors, old(ct.View()), old(gas.Value()), from, msg)
            case AttemptFault(g) => r.AttemptFaulted? && gas.Value() == g
            case Attempted(t, g, receipt, err) =>
              r == AttemptReturn(receipt, err) && ct.Valid() && ct.View() == t && gas.Value() == g
  {
    var to := GetOrCreateActor(ct, msg.to);
    if to.None? { return AttemptFaulted; }
    var sent := SendMessage(actors, ct, gas, from, to.value, msg);
    if sent.SendFault? { return AttemptFaulted; }
    var gasCharge := msg.gasPrice * gas.gasConsumedByMessage;
    r := AttemptReturn(Receipt(sent.exitCode, sent.ret, gasCharge),
                       if sent.err.None? then None else Some(Vm(sent.err.value)));
  }

  method AttemptApplyMessage(actors: Actors, ct: CachedTree, gas: LegacyGasTracker, msg: Message)
    returns (r: AttemptReturn)
    requires NeverDeletes(actors)
    requires ct.Valid()
    modifies ct, ct.Objects(), gas
    ensures match Attempt(actors, old(ct.View()), old(gas.Value()), msg)
            case AttemptFault(g) => r.AttemptFaulted? && gas.Value() == g
            case Attempted(t, g, receipt, err) =>
              r == AttemptReturn(receipt, err) && ct.Valid() && ct.View() == t && gas.Value() == g
  {
    hide Execute;
    gas.Reset(msg);
    if AboveBlockLimit(gas.Value()) { return Reject(1, GasAboveBlockLimit); }
    if TooHighForCurrentBlock(gas.Value()) { return Reject(1, GasTooHighForCurrentBlock); }
    var res := ResolveAddress(msg.from, ct);
    match res
    case Broken => return AttemptFaulted;
    case Unknown => return Reject(0, FromAccountNotFound);
    case Resolved(from) =>
      var fromActor := ct.GetActor(from);
      if fromActor.None? { return Reject(1, FromAccountNotFound); }
      assert fromActor.value.Value() == ct.View()[from];
      var invalid := Validate(msg, fromActor.value.Value(), false);
      if invalid.Some? { return Reject(1, invalid.value); }
      r := ExecuteMessage(actors, ct, gas, from, msg);
  }

  method PayReward(from: Address, toAddr: Address, value: int, ct: CachedTree) returns (ok: bool)
    requires ct.Valid()
    modifies ct, ct.Objects()
    ensures match RewardTransfer(old(ct.View()), from, toAddr, value)
            case None => !ok
            case Some(t) => ok && ct.Valid() && ct.View() == t
  {
    var fromActor := ct.GetActor(from);
    if fromActor.None? { return false; }
    var to := GetOrCreateActor(ct, toAddr);
    if to.None? { return false; }
    var err := ct.Pay(from, to.value, value);
    ok := err.None?;
  }

  method PayBlockReward(st: StateStore, owner: Address) returns (ok: bool)
    modifies st
    ensures match BlockReward(old(st.actors), owner)
            case None => !ok && st.actors == old(st.actors)
            case Some(t) => ok && st.actors == t
  {
    var ct := new CachedTree(st);
    ok := PayReward(NETWORK_ADDRESS, owner, BLOCK_REWARD, ct);
    if ok { ct.Commit(); }
  }

  method PayGasReward(st: StateStore, owner: Address, msg: Message, cost: int) returns (ok: bool)
    modifies st
    ensures match GasReward(old(st.actors), owner, msg, cost)
            case None => !ok && st.actors == old(st.actors)
            case Some(t) => ok && st.actors == t
  {
    var ct := new CachedTree(st);
    var res := ResolveAddress(msg.from, ct);
    if !res.Resolved? { return false; }
    ok := PayReward(res.addr, owner, cost, ct);
    if ok { ct.Commit(); }
  }

  /** `ApplyMessage`: the sole driver of state transitions. */
  method ApplyToState(actors: Actors, st: StateStore, gas: LegacyGasTracker, msg: Message, owner: Address)
    returns (o: Outcome)
    requires NeverDeletes(actors)
    modifies st, gas
    ensures ApplyOut(st.actors, gas.Value(), o) == ApplyMessage(actors, old(st.actors), old(gas.Value()), msg, owner)
  {
    hide Attempt, GasReward;
    var ct := new CachedTree(st);
    var attempt := AttemptApplyMessage(actors, ct, gas, msg);
    if attempt.AttemptFaulted? { return Fault; }
    var receipt, err := attempt.receipt, attempt.err;
    if err.None? { ct.Commit(); }
    if receipt.gasAttoFIL > 0 {
      var ok := PayGasReward(st, owner, msg, receipt.gasAttoFIL);
      if !ok { return Fault; }
    }
    if err.Some? && IsTemporary(err.value) { return Temporary(err.value); }
    if err.Some? && IsPermanent(err.value) { return Permanent(err.value); }
    o := CountNonce(st, gas, msg, receipt, err);
  }

  /** The nonce increment at the end of `ApplyMessage`. */
  method CountNonce(st: StateStore, gas: LegacyGasTracker, msg: Message, receipt: Receipt, err: Option<ApplyError>)
    returns (o: Outcome)
    modifies st
    ensures ApplyOut(st.actors, gas.Value(), o) == BumpNonce(old(st.actors), gas.Value(), msg, receipt, err)
  {
    var ct := new CachedTree(st);
    var res := ResolveAddress(msg.from, ct);
    if !res.Resolved? { return Fault; }
    var fromActor := st.GetActor(res.addr);
    if fromActor.None? { return Fault; }
    fromActor.value.IncrementSeqNum();
    st.SetActor(res.addr, fromActor.value);
    o := Applied(receipt, err);
  }

  function After(done: seq<MessageResult>, rest: RunOut): RunOut {
    match rest
    case RunFault(t) => RunFault(t)
    case RunOk(t, g, results) => RunOk(t, g, done + results)
  }

  lemma ApplyAllStep(actors: Actors, t: Tree, gas: Gas, msgs: seq<Message>, owner: Address, done: seq<MessageResult>)
    requires msgs != []
    ensures var o := ApplyMessage(actors, t, gas, msgs[0], owner);
            After(done, ApplyAll(actors, t, gas, msgs, owner)) ==
              if o.outcome.Fault? then RunFault(o.tree)
              else After(done + [ResultOf(o.outcome)], ApplyAll(actors, o.tree, o.gas, msgs[1..], owner))
  {
    hide ApplyMessage;
    var o := ApplyMessage(actors, t, gas, msgs[0], owner);
    if !o.outcome.Fault? {
      var rest := ApplyAll(actors, o.tree, o.gas, msgs[1..], owner);
      if rest.RunOk? {
        assert done + ([ResultOf(o.outcome)] + rest.results) == done + [ResultOf(o.outcome)] + rest.results;
      }
    }
  }

  /** `ApplyMessagesAndPayRewards`; None is a fault. */
  method ApplyBlock(actors: Actors, st: StateStore, msgs: seq<Message>, owner: Address)
    returns (r: Option<seq<MessageResult>>)
    requires NeverDeletes(actors)
    modifies st
    ensures match ApplyMessagesAndPayRewards(actors, old(st.actors), msgs, owner)
            case RunFault(t) => r.None? && st.actors == t
            case RunOk(t, _, results) => r == Some(results) && st.actors == t
  {
    hide ApplyMessage, BlockReward;
    var ok := PayBlockReward(st, owner);
    if !ok { return None; }
    var results := [];
    var gas := new LegacyGasTracker();
    ghost var spec := ApplyAll(actors, st.actors, NO_GAS, msgs, owner);
    assert After([], spec) == spec;
    for i := 0 to |msgs|
      invariant After(results, ApplyAll(actors, st.actors, gas.Value(), msgs[i..], owner)) == spec
    {
      ApplyAllStep(actors, st.actors, gas.Value(), msgs[i..], owner, results);
      assert msgs[i..][1..] == msgs[i + 1..];
      var o := ApplyToState(actors, st, gas, msgs[i], owner);
      if o.Fault? { return None; }
      results := results + [ResultOf(o)];
    }
    assert results + [] == results;
    r := Some(results);
  }

  /** `DeduppedMessages`. */
  method DeduppedMessages(tsMessages: seq<seq<Message>>) returns (all: seq<seq<Message>>)
    ensures all == DedupAll(tsMessages, {})
  {
    all := [];
    var msgFilter: set<Message> := {};
    for i := 0 to |tsMessages|
      invariant all + DedupAll(tsMessages[i..], msgFilter) == DedupAll(tsMessages, {})
    {
      var kept;
      kept, msgFilter := DedupBlock(tsMessages[i], msgFilter);
      assert tsMessages[i..][1..] == tsMessages[i + 1..];
      all := all + [kept];
    }
  }

  method DedupBlock(msgs: seq<Message>, seen: set<Message>) returns (kept: seq<Message>, msgFilter: set<Message>)
    ensures kept == Dedup(msgs, seen)
    ensures msgFilter == seen + (set m | m in msgs)
  {
    hide Dedup;
    kept, msgFilter := [], seen;
    for j := 0 to |msgs|
      invariant msgFilter == seen + (set m | m in msgs[..j])
      invariant kept + Dedup(msgs[j..], msgFilter) == Dedup(msgs, seen)
    {
      DedupFirst(msgs[j..], msgFilter);
      assert msgs[j..][1..] == msgs[j + 1..];
      assert msgs[..j + 1] == msgs[..j] + [msgs[j]];
      if msgs[j] !in msgFilter {
        assert kept + ([msgs[j]] + Dedup(msgs[j + 1..], msgFilter + {msgs[j]}))
            == kept + [msgs[j]] + Dedup(msgs[j + 1..], msgFilter + {msgs[j]});
        kept := kept + [msgs[j]];
        msgFilter := msgFilter + {msgs[j]};
      }
    }
    DedupNone(msgFilter);
    assert msgs[..|msgs|] == msgs;
  }

  function AfterBlocks(done: seq<MessageResult>, rest: TipSetOut): TipSetOut {
    match rest
    case TipSetFault(t) => TipSetFault(t)
    case TipSetOk(t, results) => TipSetOk(t, done + results)
  }

  lemma ProcessBlocksStep(actors: Actors, owners: OwnerLookup, t: Tree, miners: seq<Address>, msgs: seq<seq<Message>>,
                          done: seq<MessageResult>)
    requires |miners| == |msgs| && miners != []
    ensures var owner := owners(t, miners[0]);
            AfterBlocks(done, ProcessBlocks(actors, owners, t, miners, msgs)) ==
              if owner.None? then TipSetFault(t)
              else
                var b := ApplyMessagesAndPayRewards(actors, t, msgs[0], owner.value);
                if b.RunFault? then TipSetFault(b.tree)
                else AfterBlocks(done + b.results, ProcessBlocks(actors, owners, b.tree, miners[1..], msgs[1..]))
  {
    hide ApplyMessagesAndPayRewards;
    if owners(t, miners[0]).Some? {
      var b := ApplyMessagesAndPayRewards(actors, t, msgs[0], owners(t, miners[0]).value);
      if b.RunOk? {
        var rest := ProcessBlocks(actors, owners, b.tree, miners[1..], msgs[1..]);
        if rest.TipSetOk? {
          assert done + (b.results + rest.results) == done + b.results + rest.results;
        }
      }
    }
  }

  /** `ProcessTipSet`; None is a fault. */
  method RunTipSet(actors: Actors, owners: OwnerLookup, st: StateStore, miners: seq<Address>,
                   tsMessages: seq<seq<Message>>)
    returns (r: Option<seq<MessageResult>>)
    requires NeverDeletes(actors) && |miners| == |tsMessages|
    modifies st
    ensures match ProcessTipSet(actors, owners, old(st.actors), miners, tsMessages)
            case TipSetFault(t) => r.None? && st.actors == t
            case TipSetOk(t, results) => r == Some(results) && st.actors == t
  {
    hide ApplyMessagesAndPayRewards;
    if |miners| == 0 { return None; }
    var msgs := DeduppedMessages(tsMessages);
    var results := [];
    ghost var spec := ProcessBlocks(actors, owners, st.actors, miners, msgs);
    assert AfterBlocks([], spec) == spec;
    for i := 0 to |miners|
      invariant AfterBlocks(results, ProcessBlocks(actors, owners, st.actors, miners[i..], msgs[i..])) == spec
    {
      ProcessBlocksStep(actors, owners, st.actors, miners[i..], msgs[i..], results);
      assert miners[i..][1..] == miners[i + 1..] && msgs[i..][1..] == msgs[i + 1..];
      var owner := owners(st.actors, miners[i]);
      if owner.None? { return None; }
      var blkResults := ApplyBlock(actors, st, msgs[i], owner.value);
      if blkResults.None? { return None; }
      results := results + blkResults.value;
    }
    assert results + [] == results;
    r := Some(results);
  }
}
