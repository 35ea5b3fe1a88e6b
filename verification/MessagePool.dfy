/** The pool of messages received and not yet mined.  A message stands for its CID. */
module MessagePool {
  import opened Primitives
  import opened StateTree
  import opened Messages

  /** Pending messages and the heights at which they were added. */
  type Pending = map<SignedMessage, Uint64>

  type Validator = SignedMessage -> bool

  function Pair(m: SignedMessage): (Address, Uint64) {
    (m.message.from, m.message.callSeqNum)
  }

  function Pairs(p: Pending): set<(Address, Uint64)> {
    set m | m in p :: Pair(m)
  }

  /** At most one message for each sender and nonce, and not too many. */
  predicate PoolOk(p: Pending, maxSize: nat) {
    && (forall m, n | m in p && n in p :: Pair(m) == Pair(n) ==> m == n)
    && |p| <= maxSize
  }

  function AddTo(p: Pending, maxSize: nat, valid: Validator, m: SignedMessage, height: Uint64): (Pending, bool) {
    if m in p then (p, true)
    else if |p| >= maxSize || (exists n :: n in p && Pair(n) == Pair(m)) || !valid(m) then (p, false)
    else (p[m := height], true)
  }

  function AddAll(p: Pending, maxSize: nat, valid: Validator, msgs: seq<SignedMessage>, height: Uint64): Pending
    decreases msgs
  {
    if msgs == [] then p
    else AddAll(AddTo(p, maxSize, valid, msgs[0], height).0, maxSize, valid, msgs[1..], height)
  }

  function Without(p: Pending, msgs: seq<SignedMessage>): Pending {
    map m | m in p && m !in msgs :: p[m]
  }

  function NotBefore(p: Pending, height: Uint64): Pending {
    map m | m in p && p[m] >= height :: p[m]
  }

  predicate SubPool(p: Pending, q: Pending) {
    forall m | m in p :: m in q && p[m] == q[m]
  }

  lemma FewerMessages(p: Pending, q: Pending)
    requires SubPool(p, q)
    ensures |p| <= |q|
  {
    assert p.Keys <= q.Keys;
    FewerElements(p.Keys, q.Keys);
  }

  lemma {:induction false} FewerElements<T>(a: set<T>, b: set<T>)
    requires a <= b
    ensures |a| <= |b|
  {
    if a != {} {
      var x :| x in a;
      FewerElements(a - {x}, b - {x});
    }
  }

  lemma AddKeepsPool(p: Pending, maxSize: nat, valid: Validator, m: SignedMessage, height: Uint64)
    requires PoolOk(p, maxSize)
    ensures PoolOk(AddTo(p, maxSize, valid, m, height).0, maxSize)
  {
  }

  lemma RestrictKeepsPool(p: Pending, q: Pending, maxSize: nat)
    requires PoolOk(q, maxSize) && SubPool(p, q)
    ensures PoolOk(p, maxSize)
  {
    FewerMessages(p, q);
  }

  lemma {:induction false} AddAllFacts(p: Pending, maxSize: nat, valid: Validator, msgs: seq<SignedMessage>,
                                       height: Uint64)
    requires PoolOk(p, maxSize)
    ensures PoolOk(AddAll(p, maxSize, valid, msgs, height), maxSize)
    ensures SubPool(p, AddAll(p, maxSize, valid, msgs, height))
    ensures forall m | m in AddAll(p, maxSize, valid, msgs, height) && m !in p ::
              m in msgs && valid(m) && AddAll(p, maxSize, valid, msgs, height)[m] == height
    decreases msgs
  {
    if msgs != [] {
      AddKeepsPool(p, maxSize, valid, msgs[0], height);
      AddAllFacts(AddTo(p, maxSize, valid, msgs[0], height).0, maxSize, valid, msgs[1..], height);
    }
  }

  /** Why a message is not in a pool it was offered to. */
  predicate Refusable(p: Pending, maxSize: nat, valid: Validator, m: SignedMessage) {
    |p| >= maxSize || !valid(m) || exists n :: n in p && n != m && Pair(n) == Pair(m)
  }

  lemma RefusableLater(p: Pending, q: Pending, maxSize: nat, valid: Validator, m: SignedMessage)
    requires SubPool(p, q) && Refusable(p, maxSize, valid, m)
    ensures Refusable(q, maxSize, valid, m)
  {
    FewerMessages(p, q);
    if n :| n in p && n != m && Pair(n) == Pair(m) { assert n in q; }
  }

  /** Every message offered is in the pool at the end, unless the pool is full, holds another
      message of that sender and nonce, or the message is not valid. */
  lemma {:induction false} AllAddedOrRefused(p: Pending, maxSize: nat, valid: Validator, msgs: seq<SignedMessage>,
                                             height: Uint64, m: SignedMessage)
    requires PoolOk(p, maxSize) && m in msgs
    ensures var q := AddAll(p, maxSize, valid, msgs, height);
            m in q || Refusable(q, maxSize, valid, m)
    decreases |msgs|
  {
    var p' := AddTo(p, maxSize, valid, msgs[0], height).0;
    AddKeepsPool(p, maxSize, valid, msgs[0], height);
    AddAllFacts(p', maxSize, valid, msgs[1..], height);
    var q := AddAll(p, maxSize, valid, msgs, height);
    if m == msgs[0] {
      if m !in p' { RefusableLater(p', q, maxSize, valid, m); }
    } else {
      AllAddedOrRefused(p', maxSize, valid, msgs[1..], height, m);
    }
  }

  // ----- every run of a pool -----

  datatype Op = AddOp(msg: SignedMessage, height: Uint64, valid: Validator) | RemoveOp(removed: SignedMessage)

  function Applied(p: Pending, maxSize: nat, op: Op): Pending {
    match op
    case AddOp(m, h, valid) => AddTo(p, maxSize, valid, m, h).0
    case RemoveOp(m) => p - {m}
  }

  function Run(maxSize: nat, ops: seq<Op>): Pending {
    if ops == [] then map[] else Applied(Run(maxSize, ops[..|ops| - 1]), maxSize, ops[|ops| - 1])
  }

  /** No run of additions and removals puts two messages of one sender and nonce into the pool, or
      more messages than are allowed; and what is there was added, when it was valid, at the height
      it is tagged with. */
  lemma {:induction false} EveryRunKeepsPool(maxSize: nat, ops: seq<Op>)
    ensures PoolOk(Run(maxSize, ops), maxSize)
    ensures forall m | m in Run(maxSize, ops) ::
              exists op :: op in ops && op.AddOp? && op.msg == m && op.height == Run(maxSize, ops)[m] && op.valid(m)
  {
    if ops != [] {
      var before, op := ops[..|ops| - 1], ops[|ops| - 1];
      EveryRunKeepsPool(maxSize, before);
      var p, q := Run(maxSize, before), Run(maxSize, ops);
      if op.RemoveOp? { RestrictKeepsPool(q, p, maxSize); }
      else { AddKeepsPool(p, maxSize, op.valid, op.msg, op.height); }
      forall m | m in q
        ensures exists o :: o in ops && o.AddOp? && o.msg == m && o.height == q[m] && o.valid(m)
      {
        if m in p {
          var o :| o in before && o.AddOp? && o.msg == m && o.height == p[m] && o.valid(m);
          assert o in ops;
        } else {
          assert op in ops && op.msg == m;
        }
      }
    }
  }

  /** `Pool`: the pairs of sender and nonce are kept beside the messages. */
  class Pool {
    const maxPoolSize: nat
    var pending: Pending
    var addressNonces: set<(Address, Uint64)>

    ghost predicate Valid()
      reads this
    {
      PoolOk(pending, maxPoolSize) && addressNonces == Pairs(pending)
    }

    constructor (maxSize: nat)
      ensures Valid() && maxPoolSize == maxSize && pending == map[]
    {
      maxPoolSize, pending, addressNonces := maxSize, map[], {};
    }

    method Add(valid: Validator, msg: SignedMessage, height: Uint64) returns (ok: bool)
      requires Valid()
      modifies this
      ensures Valid() && (pending, ok) == AddTo(old(pending), maxPoolSize, valid, msg, height)
    {
      if msg in pending { return true; }
      var accepted := ValidateMessage(valid, msg);
      if !accepted { return false; }
      AddKeepsPool(pending, maxPoolSize, valid, msg, height);
      PairsAdded(pending, msg, height);
      pending := pending[msg := height];
      addressNonces := addressNonces + {Pair(msg)};
      ok := true;
    }

    /** Looks the pair up in the index instead of searching the messages. */
    method ValidateMessage(valid: Validator, msg: SignedMessage) returns (ok: bool)
      requires Valid() && msg !in pending
      ensures ok == AddTo(pending, maxPoolSize, valid, msg, 0).1
    {
      if |pending| >= maxPoolSize { return false; }
      if Pair(msg) in addressNonces { return false; }
      ok := valid(msg);
    }

    method Remove(msg: SignedMessage)
      requires Valid()
      modifies this
      ensures Valid() && pending == old(pending) - {msg}
    {
      if msg in pending {
        PairsRemoved(pending, msg);
        RestrictKeepsPool(pending - {msg}, pending, maxPoolSize);
        addressNonces := addressNonces - {Pair(msg)};
        pending := pending - {msg};
      }
    }

    /** `Pending`: all messages, in no particular order. */
    method PendingMessages() returns (msgs: seq<SignedMessage>)
      ensures multiset(msgs) == multiset(pending.Keys)
    {
      msgs := [];
      var todo := pending.Keys;
      assert multiset(pending.Keys) == multiset(msgs) + multiset(todo);
      while todo != {}
        invariant todo <= pending.Keys && multiset(msgs) + multiset(todo) == multiset(pending.Keys)
        decreases |todo|
      {
        var m :| m in todo;
        TakenOut(todo, m);
        msgs := msgs + [m];
        todo := todo - {m};
      }
    }

    method PendingBefore(minimumHeight: Uint64) returns (msgs: seq<SignedMessage>)
      ensures forall m :: m in msgs <==> m in pending && pending[m] < minimumHeight
    {
      msgs := [];
      var todo := pending.Keys;
      while todo != {}
        invariant todo <= pending.Keys
        invariant forall m :: m in msgs <==> m in pending && m !in todo && pending[m] < minimumHeight
        decreases |todo|
      {
        var m :| m in todo;
        if pending[m] < minimumHeight { msgs := msgs + [m]; }
        todo := todo - {m};
      }
    }

    method RemoveAll(msgs: seq<SignedMessage>)
      requires Valid()
      modifies this
      ensures Valid() && pending == Without(old(pending), msgs)
    {
      WithoutNone(pending);
      hide Pool.Valid, Without;
      for i := 0 to |msgs|
        invariant Valid() && pending == Without(old(pending), msgs[..i])
      {
        Remove(msgs[i]);
        WithoutMore(old(pending), msgs, i);
      }
      assert msgs[..|msgs|] == msgs;
    }
  }

  lemma TakenOut(todo: set<SignedMessage>, m: SignedMessage)
    requires m in todo
    ensures multiset(todo) == multiset{m} + multiset(todo - {m})
  {
  }

  lemma WithoutNone(p: Pending)
    ensures Without(p, []) == p
  {
  }

  lemma WithoutMore(p: Pending, msgs: seq<SignedMessage>, i: nat)
    requires i < |msgs|
    ensures Without(p, msgs[..i]) - {msgs[i]} == Without(p, msgs[..i + 1])
  {
    assert msgs[..i + 1] == msgs[..i] + [msgs[i]];
  }

  lemma PairsAdded(p: Pending, m: SignedMessage, height: Uint64)
    ensures Pairs(p[m := height]) == Pairs(p) + {Pair(m)}
  {
    var q := p[m := height];
    forall x | x in Pairs(p) + {Pair(m)} ensures x in Pairs(q) {
      if x == Pair(m) { assert m in q; }
      else { var n :| n in p && Pair(n) == x; assert n in q; }
    }
  }

  lemma PairsRemoved(p: Pending, m: SignedMessage)
    requires m in p && forall x, y | x in p && y in p :: Pair(x) == Pair(y) ==> x == y
    ensures Pairs(p - {m}) == Pairs(p) - {Pair(m)}
  {
    var q := p - {m};
    forall x | x in Pairs(p) - {Pair(m)} ensures x in Pairs(q) {
      var n :| n in p && Pair(n) == x;
      assert n in q;
    }
  }
}
