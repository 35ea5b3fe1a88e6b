/** Actors, addresses and the state tree as values. */
module StateTree {
  import opened Primitives
  import Varint

  /** The bytes of an address; the first one is the protocol. */
  type Address = a: seq<Byte> | |a| > 0 witness [0]

  const PROTOCOL_ID: Byte := 0
  const PROTOCOL_SECP256K1: Byte := 1
  const PROTOCOL_BLS: Byte := 3

  function Protocol(a: Address): Byte {
    a[0]
  }

  function IdAddress(id: Uint64): Address {
    [PROTOCOL_ID] + Varint.Put(id)
  }

  const INIT_ADDRESS: Address := IdAddress(1)
  const NETWORK_ADDRESS: Address := IdAddress(50)

  datatype Code = NoCode | AccountCode | InitCode | OtherCode(id: nat)

  /** What the head CID of an actor commits to.  The init actor keeps the address book. */
  datatype Head =
    | NoHead
    | InitHead(ids: map<Address, Uint64>, nextId: Uint64)
    | AccountHead(addr: Address)
    | OtherHead(bytes: seq<Byte>)

  datatype Actor = Actor(code: Code, head: Head, callSeqNum: Uint64, balance: int)

  type Tree = map<Address, Actor>

  /** Total money held by the actors of a tree. */
  ghost function Total(t: Tree): int {
    if t == map[] then 0 else
      var a :| a in t;
      t[a].balance + Total(t - {a})
  }

  lemma {:induction false} TotalWithout(t: Tree, a: Address)
    requires a in t
    ensures Total(t) == t[a].balance + Total(t - {a})
    decreases |t|
  {
    var b :| b in t && Total(t) == t[b].balance + Total(t - {b});
    if a != b {
      TotalWithout(t - {b}, a);
      TotalWithout(t - {a}, b);
      assert t - {b} - {a} == t - {a} - {b};
    }
  }

  lemma TotalUpdate(t: Tree, a: Address, act: Actor)
    ensures Total(t[a := act]) == Total(t) + act.balance - (if a in t then t[a].balance else 0)
  {
    TotalWithout(t[a := act], a);
    if a in t {
      TotalWithout(t, a);
      assert t[a := act] - {a} == t - {a};
    } else {
      assert t[a := act] - {a} == t;
    }
  }

  /** `vmcontext.Transfer` on the actors at `from` and `to`, which may be the same actor. */
  function Move(t: Tree, from: Address, to: Address, value: int): Tree
    requires from in t && to in t
  {
    var t1 := t[from := t[from].(balance := t[from].balance - value)];
    t1[to := t1[to].(balance := t1[to].balance + value)]
  }

  lemma MoveConserves(t: Tree, from: Address, to: Address, value: int)
    requires from in t && to in t
    ensures Total(Move(t, from, to, value)) == Total(t)
  {
    hide Total;
    var t1 := t[from := t[from].(balance := t[from].balance - value)];
    TotalUpdate(t, from, t1[from]);
    TotalUpdate(t1, to, t1[to].(balance := t1[to].balance + value));
  }

  datatype Resolution = Unknown | Resolved(addr: Address) | Broken

  /** `ResolveAddress`: an id address is itself, any other is looked up in the init actor. */
  function Resolve(t: Tree, a: Address): Resolution {
    if Protocol(a) == PROTOCOL_ID then Resolved(a)
    else if INIT_ADDRESS !in t || !t[INIT_ADDRESS].head.InitHead? then Broken
    else if a in t[INIT_ADDRESS].head.ids then Resolved(IdAddress(t[INIT_ADDRESS].head.ids[a]))
    else Unknown
  }

  /** The account actor the init actor creates for a public-key address not yet known:
      `getOrCreateActor` when the address does not resolve.  None where the VM aborts. */
  function CreateAccount(t: Tree, a: Address): Option<(Tree, Address)>
    requires Resolve(t, a).Unknown?
  {
    var init := t[INIT_ADDRESS];
    var id := init.head.nextId;
    var idAddr := IdAddress(id);
    var book := InitHead(init.head.ids[a := id], Wrap(id + 1));
    if !init.code.InitCode? then None
    else if idAddr in t && !t[idAddr].code.NoCode? then None
    else if Protocol(a) != PROTOCOL_SECP256K1 && Protocol(a) != PROTOCOL_BLS then None
    else
      var blank := if idAddr in t then t[idAddr] else Actor(NoCode, NoHead, 0, 0);
      var account := blank.(code := AccountCode, head := AccountHead(a));
      Some((t[INIT_ADDRESS := init.(head := book)][idAddr := account], idAddr))
  }

  /** `getOrCreateActor`: the tree and id address at which the actor is then found. */
  function GetOrCreate(t: Tree, a: Address): (r: Option<(Tree, Address)>)
    ensures r.Some? ==> t.Keys <= r.value.0.Keys && r.value.1 in r.value.0
  {
    match Resolve(t, a)
    case Broken => None
    case Resolved(id) => if id in t then Some((t, id)) else None
    case Unknown => CreateAccount(t, a)
  }

  /** The account nonce as seen from outside: an actor not yet in the tree starts at zero. */
  function NonceOf(t: Tree, a: Address): Uint64 {
    if a in t then t[a].callSeqNum else 0
  }

  /** What every state transition leaves intact: the total of the money, existing actors and the
      address book entries already made. */
  ghost predicate Grows(t: Tree, t': Tree) {
    && Total(t') == Total(t)
    && t.Keys <= t'.Keys
    && (INIT_ADDRESS in t && t[INIT_ADDRESS].head.InitHead? ==>
          && t'[INIT_ADDRESS].head.InitHead?
          && t[INIT_ADDRESS].head.ids.Keys <= t'[INIT_ADDRESS].head.ids.Keys
          && forall a | a in t[INIT_ADDRESS].head.ids ::
               t'[INIT_ADDRESS].head.ids[a] == t[INIT_ADDRESS].head.ids[a])
  }

  /** What a run of actor code leaves intact besides: all nonces. */
  ghost predicate Extends(t: Tree, t': Tree) {
    Grows(t, t') && forall a | a in t' :: t'[a].callSeqNum == NonceOf(t, a)
  }

  lemma GrowsTransitive(t: Tree, t': Tree, t'': Tree)
    requires Grows(t, t') && Grows(t', t'')
    ensures Grows(t, t'')
  {
  }

  lemma ExtendsTransitive(t: Tree, t': Tree, t'': Tree)
    requires Extends(t, t') && Extends(t', t'')
    ensures Extends(t, t'')
  {
    forall a | a in t'' ensures t''[a].callSeqNum == NonceOf(t, a) {
    }
  }

  lemma GrowsKeepsResolution(t: Tree, t': Tree, a: Address)
    requires Grows(t, t')
    ensures Resolve(t, a).Resolved? ==> Resolve(t', a) == Resolve(t, a)
    ensures !Resolve(t, a).Broken? ==> !Resolve(t', a).Broken?
  {
  }

  lemma MoveExtends(t: Tree, from: Address, to: Address, value: int)
    requires from in t && to in t
    ensures Extends(t, Move(t, from, to, value))
  {
    hide Total;
    MoveConserves(t, from, to, value);
  }

  /** Creating an actor on demand moves no money and changes no nonce. */
  lemma GetOrCreateExtends(t: Tree, a: Address)
    requires GetOrCreate(t, a).Some?
    ensures Extends(t, GetOrCreate(t, a).value.0)
    ensures forall b | b in t :: GetOrCreate(t, a).value.0[b].balance == t[b].balance
    ensures Resolve(GetOrCreate(t, a).value.0, a) == Resolved(GetOrCreate(t, a).value.1)
  {
    hide Total;
    if Resolve(t, a).Unknown? {
      var init := t[INIT_ADDRESS];
      var idAddr := IdAddress(init.head.nextId);
      var (t', _) := GetOrCreate(t, a).value;
      var t1 := t[INIT_ADDRESS := t'[INIT_ADDRESS]];
      TotalUpdate(t, INIT_ADDRESS, t'[INIT_ADDRESS]);
      TotalUpdate(t1, idAddr, t'[idAddr]);
    }
  }

  // ----- the address book -----

  lemma IdsDiffer(m: Uint64, n: Uint64)
    requires m != n
    ensures IdAddress(m) != IdAddress(n)
  {
    Varint.GetPut(m);
    Varint.GetPut(n);
    assert IdAddress(m)[1..] == Varint.Put(m) && IdAddress(n)[1..] == Varint.Put(n);
  }

  /** Every known address has an id of its own, below the next one, and no actor is at the next id or
      beyond. */
  ghost predicate BookOk(t: Tree) {
    && INIT_ADDRESS in t && t[INIT_ADDRESS].code.InitCode? && t[INIT_ADDRESS].head.InitHead?
    && var book := t[INIT_ADDRESS].head;
    && (forall a | a in book.ids :: book.ids[a] < book.nextId)
    && (forall a, b | a in book.ids && b in book.ids && a != b :: book.ids[a] != book.ids[b])
    && (forall n: Uint64 | n >= book.nextId :: IdAddress(n) !in t)
  }

  /** So different public keys never resolve to one actor. */
  lemma OwnersDiffer(t: Tree, a: Address, b: Address)
    requires BookOk(t) && a != b && Protocol(a) != PROTOCOL_ID && Protocol(b) != PROTOCOL_ID
    requires Resolve(t, a).Resolved? && Resolve(t, b).Resolved?
    ensures Resolve(t, a) != Resolve(t, b)
  {
    var ids := t[INIT_ADDRESS].head.ids;
    IdsDiffer(ids[a], ids[b]);
  }

  /** Whatever the book holds: an actor is found where the address resolves to one; and an address not
      yet known gets one if and only if it is a public key, the init actor is one, and its next id is
      free or holds no code.  What such an id holds already stays there. */
  lemma FoundOrCreatedIff(t: Tree, a: Address)
    ensures GetOrCreate(t, a).Some? <==>
              match Resolve(t, a)
              case Broken => false
              case Resolved(id) => id in t
              case Unknown =>
                var id := IdAddress(t[INIT_ADDRESS].head.nextId);
                && t[INIT_ADDRESS].code.InitCode? && (id in t ==> t[id].code.NoCode?)
                && (Protocol(a) == PROTOCOL_SECP256K1 || Protocol(a) == PROTOCOL_BLS)
    ensures GetOrCreate(t, a).Some? && Resolve(t, a).Resolved? ==> GetOrCreate(t, a).value == (t, Resolve(t, a).addr)
    ensures GetOrCreate(t, a).Some? && Resolve(t, a).Unknown? ==>
              var (t', id) := GetOrCreate(t, a).value;
              && id == IdAddress(t[INIT_ADDRESS].head.nextId)
              && t'[id].code.AccountCode? && t'[id].head == AccountHead(a)
              && (id in t ==> t'[id].balance == t[id].balance && t'[id].callSeqNum == t[id].callSeqNum)
              && (id !in t ==> t'[id].balance == 0 && t'[id].callSeqNum == 0)
  {
    hide IdAddress;
  }

  /** A public key not yet known always gets an account: a new, empty one, at the next id.  It resolves
      to it from then on, all other addresses resolve as before, no other actor changes but for the
      book of the init actor, and the book stays in order while ids last. */
  lemma CreatedIsNew(t: Tree, a: Address)
    requires BookOk(t) && Resolve(t, a).Unknown?
    requires Protocol(a) == PROTOCOL_SECP256K1 || Protocol(a) == PROTOCOL_BLS
    ensures GetOrCreate(t, a).Some?
    ensures var (t', id) := GetOrCreate(t, a).value;
            && id == IdAddress(t[INIT_ADDRESS].head.nextId) && id !in t && t'.Keys == t.Keys + {id}
            && t'[id] == Actor(AccountCode, AccountHead(a), 0, 0) && Resolve(t', a) == Resolved(id)
            && (forall b: Address | b != a :: Resolve(t', b) == Resolve(t, b))
            && (forall b | b in t && b != INIT_ADDRESS :: t'[b] == t[b])
            && t'[INIT_ADDRESS] == t[INIT_ADDRESS].(head := t'[INIT_ADDRESS].head)
            && (t[INIT_ADDRESS].head.nextId + 1 < TWO_64 ==> BookOk(t'))
  {
    hide IdAddress;
    var (t', id) := GetOrCreate(t, a).value;
    var nextId := t[INIT_ADDRESS].head.nextId;
    if nextId + 1 < TWO_64 {
      forall n: Uint64 | n >= nextId + 1 ensures IdAddress(n) !in t' { IdsDiffer(n, nextId); }
    }
  }
}
