/** The mutable state tree, the read-through cache over it and the gas tracker. */
module CachedState {
  import opened Primitives
  import opened StateTree
  import opened Messages
  import opened MessageSemantics

  /** An actor held in memory; whoever has it in hand changes its fields in place. */
  class ActorObject {
    var code: Code
    var head: Head
    var callSeqNum: Uint64
    var balance: int

    function Value(): Actor
      reads this
    {
      Actor(code, head, callSeqNum, balance)
    }

    constructor (act: Actor)
      ensures Value() == act
    {
      code, head, callSeqNum, balance := act.code, act.head, act.callSeqNum, act.balance;
    }

    method IncrementSeqNum()
      modifies this
      ensures Value() == old(Value()).(callSeqNum := Wrap(old(callSeqNum) + 1))
    {
      callSeqNum := Wrap(callSeqNum + 1);
    }
  }

  /** The state tree.  Reading an actor decodes a new copy of it; writing one encodes it. */
  class StateStore {
    var actors: Tree

    constructor (t: Tree)
      ensures actors == t
    {
      actors := t;
    }

    method GetActor(a: Address) returns (r: Option<ActorObject>)
      ensures r.Some? <==> a in actors
      ensures r.Some? ==> fresh(r.value) && r.value.Value() == actors[a]
    {
      if a !in actors { return None; }
      var act := new ActorObject(actors[a]);
      r := Some(act);
    }

    method SetActor(a: Address, act: ActorObject)
      modifies this
      ensures actors == old(actors)[a := old(act.Value())]
    {
      actors := actors[a := act.Value()];
    }
  }

  /** A read-through cache.  Nothing reaches the tree below before `Commit`. */
  class CachedTree {
    const st: StateStore
    var cache: map<Address, ActorObject>

    ghost function Objects(): set<ActorObject>
      reads this
    {
      set a | a in cache :: cache[a]
    }

    /** No two addresses share an object, so changing one actor changes one address. */
    ghost predicate Valid()
      reads this
    {
      forall a, b | a in cache && b in cache && a != b :: cache[a] != cache[b]
    }

    /** The tree as seen through the cache. */
    function View(): Tree
      reads this, st, set a | a in cache :: cache[a]
    {
      map a | a in st.actors.Keys + cache.Keys :: if a in cache then cache[a].Value() else st.actors[a]
    }

    lemma Seen(a: Address)
      requires a in cache
      ensures a in View() && View()[a] == cache[a].Value()
    {
    }

    /** Cached objects stay the ones they were; any added are new. */
    twostate predicate Grew()
      reads this
    {
      && (forall a | a in old(cache) :: a in cache && cache[a] == old(cache[a]))
      && (forall a | a in cache && a !in old(cache) :: fresh(cache[a]))
    }

    constructor (store: StateStore)
      ensures st == store && Valid() && cache == map[] && View() == store.actors
    {
      st := store;
      cache := map[];
    }

    method GetActor(a: Address) returns (r: Option<ActorObject>)
      requires Valid()
      modifies this
      ensures Valid() && View() == old(View())
      ensures r.Some? <==> a in View()
      ensures r.Some? ==> a in cache && cache[a] == r.value
      ensures r.None? ==> cache == old(cache)
      ensures Grew()
    {
      if a in cache { return Some(cache[a]); }
      r := st.GetActor(a);
      if r.Some? {
        cache := cache[a := r.value];
      }
    }

    /** Puts a new actor under an address that is not in the tree. */
    method Install(a: Address, act: Actor)
      requires Valid() && a !in View()
      modifies this
      ensures Valid() && View() == old(View())[a := act]
      ensures a in cache && Grew()
    {
      var obj := new ActorObject(act);
      cache := cache[a := obj];
    }

    /** Changes a cached actor in place. */
    method Assign(a: Address, act: Actor)
      requires Valid() && a in cache
      modifies cache[a]
      ensures View() == old(View())[a := act]
    {
      var obj := cache[a];
      obj.code, obj.head, obj.callSeqNum, obj.balance := act.code, act.head, act.callSeqNum, act.balance;
    }

    /** `vm.Transfer` between two cached actors, which may be the same one. */
    method Pay(from: Address, to: Address, value: int) returns (err: Option<VmError>)
      requires Valid() && from in cache && to in cache
      modifies cache[from], cache[to]
      ensures match Transfer(old(View()), from, to, value)
              case Err(e) => err == Some(e) && View() == old(View())
              case Ok(t) => err.None? && View() == t
    {
      ghost var t := View();
      Seen(from);
      Seen(to);
      err := TransferBetween(cache[from], cache[to], value);
      forall a | a in t ensures View()[a] == if err.None? then Move(t, from, to, value)[a] else t[a] {
        if a in cache { Seen(a); }
      }
    }

    /** Takes over the actors as code run by the VM left them. */
    method Adopt(t: Tree)
      requires View().Keys <= t.Keys
      modifies this
      ensures Valid() && View() == t
      ensures forall a | a in cache :: fresh(cache[a])
    {
      StoredIsSeen();
      hide CachedTree.View;
      cache := map[];
      var todo := t.Keys;
      while todo != {}
        invariant todo <= t.Keys && cache.Keys == t.Keys - todo
        invariant Valid()
        invariant forall a | a in cache :: fresh(cache[a]) && cache[a].Value() == t[a]
        decreases |todo|
      {
        var a :| a in todo;
        var obj := new ActorObject(t[a]);
        cache := cache[a := obj];
        todo := todo - {a};
      }
      AllCached(t);
    }

    lemma StoredIsSeen()
      ensures st.actors.Keys <= View().Keys
    {
    }

    lemma AllCached(t: Tree)
      requires st.actors.Keys <= t.Keys == cache.Keys && forall a | a in cache :: cache[a].Value() == t[a]
      ensures View() == t
    {
    }

    lemma AllWritten()
      requires forall a | a in cache :: a in st.actors && st.actors[a] == View()[a]
      ensures st.actors == View()
    {
    }

    /** Writing one cached actor below does not change what is seen through the cache. */
    method WriteBack(a: Address)
      requires a in cache
      modifies st
      ensures View() == old(View())
      ensures st.actors == old(st.actors)[a := View()[a]]
    {
      st.SetActor(a, cache[a]);
    }

    method WriteAll()
      modifies st
      ensures st.actors == View() == old(View())
    {
      ghost var view := View();
      var todo := cache.Keys;
      while todo != {}
        invariant todo <= cache.Keys
        invariant View() == view
        invariant forall a | a in cache && a !in todo :: a in st.actors && st.actors[a] == view[a]
        decreases |todo|
      {
        var a :| a in todo;
        WriteBack(a);
        todo := todo - {a};
      }
      AllWritten();
    }

    method Commit()
      modifies this, st
      ensures st.actors == old(View())
      ensures cache == map[]
    {
      WriteAll();
      cache := map[];
    }
  }

  /** `vmcontext.Transfer`; the two objects may be one. */
  method TransferBetween(from: ActorObject, to: ActorObject, value: int) returns (err: Option<VmError>)
    modifies from, to
    ensures value < 0 ==> err == Some(CannotTransferNegativeValue)
    ensures value >= 0 && old(from.balance) < value ==> err == Some(InsufficientBalance)
    ensures 0 <= value <= old(from.balance) ==> err.None?
    ensures err.Some? ==> from.Value() == old(from.Value()) && to.Value() == old(to.Value())
    ensures err.None? && from == to ==> from.Value() == old(from.Value())
    ensures err.None? && from != to ==>
              && from.Value() == old(from.Value()).(balance := old(from.balance) - value)
              && to.Value() == old(to.Value()).(balance := old(to.balance) + value)
  {
    if value < 0 { return Some(CannotTransferNegativeValue); }
    if from.balance < value { return Some(InsufficientBalance); }
    from.balance := from.balance - value;
    to.balance := to.balance + value;
    err := None;
  }

  class LegacyGasTracker {
    var msgGasLimit: Uint64
    var gasConsumedByBlock: Uint64
    var gasConsumedByMessage: Uint64

    function Value(): Gas
      reads this
    {
      Gas(msgGasLimit, gasConsumedByBlock, gasConsumedByMessage)
    }

    constructor ()
      ensures Value() == NO_GAS
    {
      msgGasLimit, gasConsumedByBlock, gasConsumedByMessage := 0, 0, 0;
    }

    method Reset(msg: Message)
      modifies this
      ensures Value() == ResetForNewMessage(old(Value()), msg)
    {
      msgGasLimit := msg.gasLimit;
      gasConsumedByMessage := 0;
    }

    method ChargeGas(cost: Uint64) returns (ok: bool)
      modifies this
      ensures (Value(), ok) == Charge(old(Value()), cost)
    {
      if Wrap(gasConsumedByMessage + cost) > msgGasLimit {
        gasConsumedByMessage := msgGasLimit;
        gasConsumedByBlock := Wrap(gasConsumedByBlock + msgGasLimit);
        return false;
      }
      gasConsumedByMessage := Wrap(gasConsumedByMessage + cost);
      gasConsumedByBlock := Wrap(gasConsumedByBlock + cost);
      ok := true;
    }

    /** The tracker as actor code left it. */
    method Set(g: Gas)
      modifies this
      ensures Value() == g
    {
      msgGasLimit, gasConsumedByBlock, gasConsumedByMessage := g.msgLimit, g.byBlock, g.byMessage;
    }
  }
}
