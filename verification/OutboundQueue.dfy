/** The queue of messages sent and not yet mined, in nonce order for each sender. */
module OutboundQueue {
  import opened Primitives
  import opened StateTree
  import opened Messages

  datatype Queued = Queued(msg: SignedMessage, stamp: Uint64)

  type Queues = map<Address, seq<Queued>>

  function Nonce(q: Queued): Uint64 {
    q.msg.message.callSeqNum
  }

  function QueueOf(qs: Queues, a: Address): seq<Queued> {
    if a in qs then qs[a] else []
  }

  /** The messages of one sender, each nonce one more than the last, modulo 2^64. */
  predicate Contiguous(a: Address, l: seq<Queued>) {
    && (forall i | 0 <= i < |l| :: l[i].msg.message.from == a)
    && (forall i | 0 < i < |l| :: Nonce(l[i]) == Wrap(Nonce(l[i - 1]) as int + 1))
  }

  predicate AllContiguous(qs: Queues) {
    forall a | a in qs :: Contiguous(a, qs[a])
  }

  // ----- the operations on values -----

  function Enqueued(qs: Queues, msg: SignedMessage, stamp: Uint64): (Queues, bool) {
    var q := QueueOf(qs, msg.message.from);
    if |q| > 0 && msg.message.callSeqNum != Wrap(Nonce(q[|q| - 1]) as int + 1) then (qs, false)
    else (qs[msg.message.from := q + [Queued(msg, stamp)]], true)
  }

  function Requeued(qs: Queues, msg: SignedMessage, stamp: Uint64): (Queues, bool) {
    var q := QueueOf(qs, msg.message.from);
    if |q| > 0 && msg.message.callSeqNum != Wrap(Nonce(q[0]) as int - 1) then (qs, false)
    else (qs[msg.message.from := [Queued(msg, stamp)] + q], true)
  }

  datatype Removal = Removed(msg: SignedMessage) | NotThere | TooHigh

  function NextRemoved(qs: Queues, sender: Address, expected: Uint64): (Queues, Removal) {
    var q := QueueOf(qs, sender);
    if |q| == 0 || expected < Nonce(q[0]) then (qs, NotThere)
    else if expected == Nonce(q[0]) then (qs[sender := q[1..]], Removed(q[0].msg))
    else (qs, TooHigh)
  }

  function Cleared(qs: Queues, sender: Address): Queues {
    qs - {sender}
  }

  predicate Expires(l: seq<Queued>, stamp: Uint64) {
    |l| > 0 && l[0].stamp < stamp
  }

  function Expired(qs: Queues, stamp: Uint64): Queues {
    map a | a in qs :: if Expires(qs[a], stamp) then [] else qs[a]
  }

  datatype Op =
    | Enqueue(msg: SignedMessage, stamp: Uint64)
    | Requeue(msg: SignedMessage, stamp: Uint64)
    | RemoveNext(sender: Address, expected: Uint64)
    | Clear(sender: Address)
    | ExpireBefore(stamp: Uint64)

  function Applied(qs: Queues, op: Op): Queues {
    match op
    case Enqueue(m, s) => Enqueued(qs, m, s).0
    case Requeue(m, s) => Requeued(qs, m, s).0
    case RemoveNext(a, n) => NextRemoved(qs, a, n).0
    case Clear(a) => Cleared(qs, a)
    case ExpireBefore(s) => Expired(qs, s)
  }

  function Run(qs: Queues, ops: seq<Op>): Queues {
    if ops == [] then qs else Applied(Run(qs, ops[..|ops| - 1]), ops[|ops| - 1])
  }

  lemma PrependKeepsContiguous(a: Address, l: seq<Queued>, q: Queued)
    requires Contiguous(a, l) && q.msg.message.from == a
    requires |l| > 0 ==> Nonce(q) == Wrap(Nonce(l[0]) as int - 1)
    ensures Contiguous(a, [q] + l)
  {
    var r := [q] + l;
    forall i | 0 < i < |r| ensures Nonce(r[i]) == Wrap(Nonce(r[i - 1]) as int + 1) {
      if i > 1 { assert r[i] == l[i - 1] && r[i - 1] == l[i - 2]; }
    }
  }

  lemma AppliedKeepsContiguous(qs: Queues, op: Op)
    requires AllContiguous(qs)
    ensures AllContiguous(Applied(qs, op))
  {
    match op
    case Requeue(m, s) =>
      var a := m.message.from;
      if Requeued(qs, m, s).1 { PrependKeepsContiguous(a, QueueOf(qs, a), Queued(m, s)); }
    case RemoveNext(a, n) =>
      if a in qs && qs[a] != [] { assert Contiguous(a, qs[a][1..]); }
    case _ =>
  }

  /** Whatever operations are made, in whatever order, each sender's list holds that sender's
      messages with nonces that step by exactly one. */
  lemma {:induction false} EveryRunKeepsContiguous(ops: seq<Op>)
    ensures AllContiguous(Run(map[], ops))
  {
    if ops != [] {
      EveryRunKeepsContiguous(ops[..|ops| - 1]);
      AppliedKeepsContiguous(Run(map[], ops[..|ops| - 1]), ops[|ops| - 1]);
    }
  }

  /** Requeuing the message just removed, with the stamp it had, gives the queue there was before. */
  lemma RequeueUndoesRemove(qs: Queues, a: Address, stamp: Uint64)
    requires AllContiguous(qs) && |QueueOf(qs, a)| > 0 && QueueOf(qs, a)[0].stamp == stamp
    ensures var (qs', r) := NextRemoved(qs, a, Nonce(QueueOf(qs, a)[0]));
            r.Removed? && Requeued(qs', r.msg, stamp) == (qs, true)
  {
    hide Contiguous, Wrap;
    var q := qs[a];
    var qs' := NextRemoved(qs, a, Nonce(q[0])).0;
    SecondFollows(a, q);
    assert q[0].msg.message.from == a && [q[0]] + q[1..] == q;
    assert qs' == qs[a := q[1..]] && qs'[a := q] == qs;
  }

  lemma SecondFollows(a: Address, l: seq<Queued>)
    requires Contiguous(a, l) && l != []
    ensures l[0].msg.message.from == a && (|l| > 1 ==> Nonce(l[0]) == Wrap(Nonce(l[1]) as int - 1))
  {
    if |l| > 1 { assert Nonce(l[1]) == Wrap(Nonce(l[0]) as int + 1); }
  }

  // ----- removing mined messages -----

  /** Nonces of mined messages, none of them above `next` when it comes, each of them making the
      one after it expected. */
  predicate NeverSkips(nonces: seq<Uint64>, next: nat) {
    nonces == [] || (nonces[0] <= next && NeverSkips(nonces[1..], if nonces[0] == next then next + 1 else next))
  }

  /** The next nonce expected after them. */
  function NextAfter(nonces: seq<Uint64>, next: nat): nat {
    if nonces == [] then next
    else NextAfter(nonces[1..], if nonces[0] == next then next + 1 else next)
  }

  /** The loop of the queue policy over mined messages; it stops at the first error. */
  function RemoveMined(qs: Queues, mined: seq<SignedMessage>): (Queues, bool) {
    if mined == [] then (qs, true)
    else
      var (qs', r) := NextRemoved(qs, mined[0].message.from, mined[0].message.callSeqNum);
      if r.TooHigh? then (qs', false) else RemoveMined(qs', mined[1..])
  }

  /** The nonces of one sender's messages. */
  function NoncesIn(msgs: seq<Message>, a: Address): seq<Uint64> {
    if msgs == [] then []
    else (if msgs[0].from == a then [msgs[0].callSeqNum] else []) + NoncesIn(msgs[1..], a)
  }

  function NoncesOf(mined: seq<SignedMessage>, a: Address): seq<Uint64> {
    NoncesIn(Unwrap(mined), a)
  }

  lemma {:induction false} NoncesInConcat(x: seq<Message>, y: seq<Message>, a: Address)
    ensures NoncesIn(x + y, a) == NoncesIn(x, a) + NoncesIn(y, a)
  {
    if x == [] {
      assert x + y == y;
    } else {
      NoncesInConcat(x[1..], y, a);
      assert (x + y)[1..] == x[1..] + y && (x + y)[0] == x[0];
    }
  }

  lemma NoncesOfNone(a: Address)
    ensures NoncesOf([], a) == []
  {
  }

  lemma NoncesOfFirst(mined: seq<SignedMessage>, b: Address)
    requires mined != []
    ensures NoncesOf(mined, b) ==
              if mined[0].message.from == b then [mined[0].message.callSeqNum] + NoncesOf(mined[1..], b)
              else NoncesOf(mined[1..], b)
  {
    assert Unwrap(mined)[1..] == Unwrap(mined[1..]);
  }

  /** No nonce of the list is past the end of the 64-bit range. */
  predicate NoWrap(l: seq<Queued>) {
    |l| > 0 ==> Nonce(l[0]) + |l| <= TWO_64
  }

  lemma {:induction false} NoncesFromHead(a: Address, l: seq<Queued>, i: nat)
    requires Contiguous(a, l) && NoWrap(l) && i < |l|
    ensures Nonce(l[i]) == Nonce(l[0]) as int + i
  {
    if i > 0 { NoncesFromHead(a, l, i - 1); }
  }

  /** What is left of a list when the next expected nonce is `next`. */
  function Unmined(l: seq<Queued>, next: nat): seq<Queued> {
    if l == [] || next <= Nonce(l[0]) then l
    else if next - Nonce(l[0]) >= |l| then []
    else l[next - Nonce(l[0])..]
  }

  /** Mined messages whose nonces start no higher than a sender's head. */
  ghost predicate Plausible(qs: Queues, mined: seq<SignedMessage>) {
    forall a: Address | |QueueOf(qs, a)| > 0 ::
      NoWrap(QueueOf(qs, a)) && NeverSkips(NoncesOf(mined, a), Nonce(QueueOf(qs, a)[0]))
  }

  /** Removing mined messages that never skip a nonce cannot fail, and leaves for every sender
      exactly the messages not mined. */
  lemma {:induction false} RemoveMinedLeavesUnmined(qs: Queues, mined: seq<SignedMessage>)
    requires AllContiguous(qs) && Plausible(qs, mined)
    ensures RemoveMined(qs, mined).1
    ensures forall a: Address ::
              QueueOf(RemoveMined(qs, mined).0, a) == Left(QueueOf(qs, a), NoncesOf(mined, a))
    decreases |mined|
  {
    hide NoncesOf;
    if mined == [] {
      forall a: Address ensures NoncesOf(mined, a) == [] { NoncesOfNone(a); }
    } else {
      var a, n := mined[0].message.from, mined[0].message.callSeqNum;
      var (qs', r) := NextRemoved(qs, a, n);
      NoncesOfFirst(mined, a);
      assert !r.TooHigh? by {
        if |QueueOf(qs, a)| > 0 { assert NeverSkips(NoncesOf(mined, a), Nonce(QueueOf(qs, a)[0])); }
      }
      AppliedKeepsContiguous(qs, RemoveNext(a, n));
      PlausibleAfter(qs, mined);
      RemoveMinedLeavesUnmined(qs', mined[1..]);
      forall b: Address
        ensures QueueOf(RemoveMined(qs, mined).0, b) == Left(QueueOf(qs, b), NoncesOf(mined, b))
      {
        OneRemoved(qs, mined, b);
      }
    }
  }

  lemma PlausibleAfter(qs: Queues, mined: seq<SignedMessage>)
    requires AllContiguous(qs) && mined != [] && Plausible(qs, mined)
    ensures Plausible(NextRemoved(qs, mined[0].message.from, mined[0].message.callSeqNum).0, mined[1..])
  {
    hide NoncesOf;
    var a, n := mined[0].message.from, mined[0].message.callSeqNum;
    var (qs', r) := NextRemoved(qs, a, n);
    forall b: Address | |QueueOf(qs', b)| > 0
      ensures NoWrap(QueueOf(qs', b)) && NeverSkips(NoncesOf(mined[1..], b), Nonce(QueueOf(qs', b)[0]))
    {
      var l := QueueOf(qs, b);
      NoncesOfFirst(mined, b);
      assert NoWrap(l) && NeverSkips(NoncesOf(mined, b), Nonce(l[0]));
      if b == a {
        assert NoncesOf(mined, b)[1..] == NoncesOf(mined[1..], b);
        if r.Removed? { NoncesFromHead(b, l, 1); }
      } else {
        assert NoncesOf(mined, b) == NoncesOf(mined[1..], b);
      }
    }
  }

  /** What is left of a list after mined nonces. */
  function Left(l: seq<Queued>, nonces: seq<Uint64>): seq<Queued> {
    if l == [] then [] else Unmined(l, NextAfter(nonces, Nonce(l[0])))
  }

  lemma OneRemoved(qs: Queues, mined: seq<SignedMessage>, b: Address)
    requires AllContiguous(qs) && mined != [] && Plausible(qs, mined)
    ensures var qs' := NextRemoved(qs, mined[0].message.from, mined[0].message.callSeqNum).0;
            Left(QueueOf(qs, b), NoncesOf(mined, b)) == Left(QueueOf(qs', b), NoncesOf(mined[1..], b))
  {
    hide Left, Contiguous, AllContiguous, Plausible, NoncesOf, NoWrap;
    var a, n := mined[0].message.from, mined[0].message.callSeqNum;
    var l := QueueOf(qs, b);
    NoncesOfFirst(mined, b);
    if b == a {
      if l == [] { LeftOfNothing(NoncesOf(mined, b), NoncesOf(mined[1..], b)); }
      else {
        HeadIsNotSkipped(qs, mined);
        OneTaken(a, l, n, NoncesOf(mined[1..], b));
      }
    }
  }

  lemma HeadIsNotSkipped(qs: Queues, mined: seq<SignedMessage>)
    requires AllContiguous(qs) && mined != [] && Plausible(qs, mined) && |QueueOf(qs, mined[0].message.from)| > 0
    ensures var a := mined[0].message.from;
            && Contiguous(a, QueueOf(qs, a)) && NoWrap(QueueOf(qs, a))
            && mined[0].message.callSeqNum <= Nonce(QueueOf(qs, a)[0])
  {
    hide Contiguous, NoncesOf;
    var a := mined[0].message.from;
    NoncesOfFirst(mined, a);
    assert NeverSkips(NoncesOf(mined, a), Nonce(QueueOf(qs, a)[0]));
  }

  lemma LeftOfNothing(x: seq<Uint64>, y: seq<Uint64>)
    ensures Left([], x) == Left([], y)
  {
  }

  /** One nonce takes the head away if it is the head's, and nothing if it is lower. */
  lemma OneTaken(a: Address, l: seq<Queued>, n: Uint64, rest: seq<Uint64>)
    requires l != [] && Contiguous(a, l) && NoWrap(l) && n <= Nonce(l[0])
    ensures Left(l, [n] + rest) == Left(if n == Nonce(l[0]) then l[1..] else l, rest)
  {
    hide Contiguous, Unmined;
    assert ([n] + rest)[1..] == rest;
    if n == Nonce(l[0]) {
      NextOnlyGrows(rest, n as int + 1);
      if |l| == 1 { AllMined(l, NextAfter(rest, n as int + 1)); }
      if |l| > 1 {
        NoncesFromHead(a, l, 1);
        UnminedTail(l, NextAfter(rest, n as int + 1));
      }
    }
  }

  lemma AllMined(l: seq<Queued>, next: nat)
    requires |l| == 1 && next > Nonce(l[0])
    ensures Unmined(l, next) == []
  {
  }

  lemma UnminedTail(l: seq<Queued>, next: nat)
    requires |l| > 1 && Nonce(l[1]) == Nonce(l[0]) as int + 1 && next > Nonce(l[0])
    ensures Unmined(l, next) == Unmined(l[1..], next)
  {
    if next - Nonce(l[0]) < |l| { assert l[next - Nonce(l[0])..] == l[1..][next - Nonce(l[0]) - 1..]; }
  }

  lemma {:induction false} NextOnlyGrows(nonces: seq<Uint64>, next: nat)
    ensures NextAfter(nonces, next) >= next
  {
    if nonces != [] { NextOnlyGrows(nonces[1..], if nonces[0] == next then next + 1 else next); }
  }

  /** No mined nonce is a higher number than the first one left when it comes. */
  predicate NeverAbove(nonces: seq<Uint64>, l: seq<Queued>) {
    nonces == [] || l == [] ||
      (nonces[0] <= Nonce(l[0]) && NeverAbove(nonces[1..], if nonces[0] == Nonce(l[0]) then l[1..] else l))
  }

  /** What is left when each mined nonce takes the first message if it is its own. */
  function Rest(l: seq<Queued>, nonces: seq<Uint64>): seq<Queued>
    decreases nonces
  {
    if l == [] || nonces == [] then l
    else Rest(if nonces[0] == Nonce(l[0]) then l[1..] else l, nonces[1..])
  }

  /** Whatever the nonces, past the end of the 64-bit range or not: removing mined messages succeeds
      if and only if none comes with a higher number than the first message left of its sender. */
  lemma {:induction false} RemoveMinedIff(qs: Queues, mined: seq<SignedMessage>)
    ensures RemoveMined(qs, mined).1 <==> forall a: Address :: NeverAbove(NoncesOf(mined, a), QueueOf(qs, a))
    ensures RemoveMined(qs, mined).1 ==>
              forall a: Address :: QueueOf(RemoveMined(qs, mined).0, a) == Rest(QueueOf(qs, a), NoncesOf(mined, a))
    decreases mined
  {
    hide NoncesOf;
    if mined == [] {
      forall a: Address ensures NoncesOf(mined, a) == [] { NoncesOfNone(a); }
    } else {
      var a, n := mined[0].message.from, mined[0].message.callSeqNum;
      var (qs', r) := NextRemoved(qs, a, n);
      NoncesOfFirst(mined, a);
      if r.TooHigh? {
        assert !NeverAbove(NoncesOf(mined, a), QueueOf(qs, a));
      } else {
        RemoveMinedIff(qs', mined[1..]);
        forall b: Address
          ensures NeverAbove(NoncesOf(mined, b), QueueOf(qs, b)) <==>
                    NeverAbove(NoncesOf(mined[1..], b), QueueOf(qs', b))
          ensures Rest(QueueOf(qs, b), NoncesOf(mined, b)) == Rest(QueueOf(qs', b), NoncesOf(mined[1..], b))
        {
          OneMined(qs, mined, b);
        }
      }
    }
  }

  lemma OneMined(qs: Queues, mined: seq<SignedMessage>, b: Address)
    requires mined != [] && !NextRemoved(qs, mined[0].message.from, mined[0].message.callSeqNum).1.TooHigh?
    ensures var qs' := NextRemoved(qs, mined[0].message.from, mined[0].message.callSeqNum).0;
            var l, l' := QueueOf(qs, b), QueueOf(qs', b);
            && (NeverAbove(NoncesOf(mined, b), l) <==> NeverAbove(NoncesOf(mined[1..], b), l'))
            && Rest(l, NoncesOf(mined, b)) == Rest(l', NoncesOf(mined[1..], b))
  {
    hide NoncesOf;
    NoncesOfFirst(mined, b);
    if mined[0].message.from == b {
      assert NoncesOf(mined, b)[1..] == NoncesOf(mined[1..], b);
    }
  }

  // ----- the next nonce -----

  /** The account or empty actor at an address, or none. */
  function ActorNonce(act: Option<Actor>): Option<Uint64> {
    if act.None? then Some(0)
    else if act.value.code.NoCode? || act.value.code.AccountCode? then Some(act.value.callSeqNum)
    else None
  }

  function LargestNonce(qs: Queues, a: Address): Option<Uint64> {
    var q := QueueOf(qs, a);
    if |q| > 0 then Some(Nonce(q[|q| - 1])) else None
  }

  /** `nextNonce`. */
  function NextNonce(act: Option<Actor>, qs: Queues, a: Address): Option<Uint64> {
    match ActorNonce(act)
    case None => None
    case Some(actorNonce) =>
      match LargestNonce(qs, a)
      case Some(largest) => if largest >= actorNonce then Some(Wrap(largest as int + 1)) else Some(actorNonce)
      case None => Some(actorNonce)
  }

  lemma {:induction false} NoncesWrap(a: Address, l: seq<Queued>, i: nat)
    requires Contiguous(a, l) && i < |l|
    ensures Nonce(l[i]) == Wrap(Nonce(l[0]) as int + i)
  {
    if i > 0 { NoncesWrap(a, l, i - 1); }
  }

  predicate IsQueued(l: seq<Queued>, n: Uint64) {
    exists i | 0 <= i < |l| :: Nonce(l[i]) == n
  }

  /** Which nonces a list holds: from the head to the last, past 2^64 - 1 if the last is lower. */
  lemma IsQueuedIff(a: Address, l: seq<Queued>, n: Uint64)
    requires Contiguous(a, l) && 0 < |l| < TWO_64
    ensures var (first, last) := (Nonce(l[0]), Nonce(l[|l| - 1]));
            IsQueued(l, n) <==> if first <= last then first <= n <= last else first <= n || n <= last
  {
    hide Contiguous;
    var first := Nonce(l[0]);
    NoncesWrap(a, l, |l| - 1);
    forall i | 0 <= i < |l| ensures Nonce(l[i]) == Wrap(first as int + i) { NoncesWrap(a, l, i); }
    var k := if first <= n then n - first else n + TWO_64 - first;
    assert Wrap(first as int + k) == n;
    if k < |l| { assert Nonce(l[k]) == n; }
  }

  /** The next nonce is one in the queue already if and only if the nonces queued pass the end of
      the 64-bit range and the actor's nonce has not. */
  lemma NextNonceIsQueuedIff(act: Option<Actor>, qs: Queues, a: Address)
    requires AllContiguous(qs) && 0 < |QueueOf(qs, a)| < TWO_64 && NextNonce(act, qs, a).Some?
    ensures var q := QueueOf(qs, a);
            IsQueued(q, NextNonce(act, qs, a).value) <==>
              Nonce(q[|q| - 1]) < Nonce(q[0]) <= ActorNonce(act).value
  {
    hide IsQueued, Contiguous;
    var q := QueueOf(qs, a);
    IsQueuedIff(a, q, NextNonce(act, qs, a).value);
    LengthOf(a, q);
  }

  /** A list that is not as long as the range stops short of its own head. */
  lemma LengthOf(a: Address, l: seq<Queued>)
    requires Contiguous(a, l) && 0 < |l| < TWO_64
    ensures Wrap(Nonce(l[|l| - 1]) as int + 1) != Nonce(l[0])
  {
    NoncesWrap(a, l, |l| - 1);
  }

  /** For one, with the last and the first nonce queued, an actor still at the
      last one gets it again. */
  lemma WrappedNonceIsReused(a: Address, last: SignedMessage, first: SignedMessage)
    requires last.message.from == first.message.from == a
    requires last.message.callSeqNum == TWO_64 - 1 && first.message.callSeqNum == 0
    ensures var qs := Run(map[], [Enqueue(last, 0), Enqueue(first, 0)]);
            var act := Some(Actor(AccountCode, NoHead, TWO_64 - 1, 0));
            |QueueOf(qs, a)| == 2 && NextNonce(act, qs, a) == Some(Nonce(QueueOf(qs, a)[0]))
  {
    var ops := [Enqueue(last, 0), Enqueue(first, 0)];
    assert ops[..1] == [Enqueue(last, 0)] && ops[..1][..0] == [];
    var one := Run(map[], ops[..1]);
    assert Run(map[], ops[..1][..0]) == map[];
    assert one == Enqueued(map[], last, 0).0 == map[a := [] + [Queued(last, 0)]];
    assert Run(map[], ops) == Enqueued(one, first, 0).0;
    assert QueueOf(one, a) == [Queued(last, 0)];
  }

  /** Otherwise the next nonce is the least one that is not below the actor's and above all queued; there
      is none if and only if the actor is not an account. */
  lemma NextNonceIsLeast(act: Option<Actor>, qs: Queues, a: Address)
    requires AllContiguous(qs)
    requires var q := QueueOf(qs, a); q != [] ==> Nonce(q[0]) + |q| < TWO_64
    ensures NextNonce(act, qs, a).None? <==>
              act.Some? && !act.value.code.NoCode? && !act.value.code.AccountCode?
    ensures var q, nonce := QueueOf(qs, a), if act.None? then 0 else act.value.callSeqNum;
            NextNonce(act, qs, a).Some? ==>
              var n := NextNonce(act, qs, a).value;
              && n >= nonce && (forall i | 0 <= i < |q| :: Nonce(q[i]) < n)
              && (n == nonce || (n > 0 && IsQueued(q, n - 1)))
  {
    var q := QueueOf(qs, a);
    forall i | 0 <= i < |q| ensures Nonce(q[i]) == Nonce(q[0]) as int + i { NoncesFromHead(a, q, i); }
    if q != [] { assert IsQueued(q, Nonce(q[|q| - 1])); }
  }

  /** A message with the next nonce can be enqueued if and only if the actor's nonce is not past
      what the queue holds. */
  lemma NextNonceEnqueuesIff(act: Option<Actor>, qs: Queues, a: Address, msg: SignedMessage, stamp: Uint64)
    requires msg.message.from == a && NextNonce(act, qs, a) == Some(msg.message.callSeqNum)
    ensures Enqueued(qs, msg, stamp).1 <==>
              LargestNonce(qs, a).None? || ActorNonce(act).value <= LargestNonce(qs, a).value
              || ActorNonce(act).value == LargestNonce(qs, a).value as int + 1
  {
  }

  /** The state of expiry when the senders in `todo` are still to be looked at. */
  ghost predicate ExpiredBut(start: Queues, todo: set<Address>, now: Queues,
                             expired: map<Address, seq<SignedMessage>>, stamp: Uint64) {
    && now.Keys == start.Keys
    && (forall a | a in start :: now[a] == if a !in todo && Expires(start[a], stamp) then [] else start[a])
    && (forall a :: a in expired <==> a in start && a !in todo && Expires(start[a], stamp))
    && (forall a | a in expired ::
          |expired[a]| == |start[a]| && forall i | 0 <= i < |expired[a]| :: expired[a][i] == start[a][i].msg)
  }

  lemma ExpireNone(start: Queues, stamp: Uint64)
    ensures ExpiredBut(start, start.Keys, start, map[], stamp)
  {
  }

  lemma ExpireOne(start: Queues, todo: set<Address>, now: Queues, expired: map<Address, seq<SignedMessage>>,
                  stamp: Uint64, a: Address, msgs: seq<SignedMessage>)
    requires ExpiredBut(start, todo, now, expired, stamp) && todo <= start.Keys && a in todo && Expires(now[a], stamp)
    requires |msgs| == |now[a]| && forall i | 0 <= i < |msgs| :: msgs[i] == now[a][i].msg
    ensures ExpiredBut(start, todo - {a}, now[a := []], expired[a := msgs], stamp)
  {
    hide Expires;
  }

  lemma KeepOne(start: Queues, todo: set<Address>, now: Queues, expired: map<Address, seq<SignedMessage>>,
                stamp: Uint64, a: Address)
    requires ExpiredBut(start, todo, now, expired, stamp) && todo <= start.Keys && a in todo && !Expires(now[a], stamp)
    ensures ExpiredBut(start, todo - {a}, now, expired, stamp)
  {
    hide Expires;
  }

  lemma ExpireAll(start: Queues, now: Queues, expired: map<Address, seq<SignedMessage>>, stamp: Uint64)
    requires ExpiredBut(start, {}, now, expired, stamp)
    ensures now == Expired(start, stamp)
    ensures expired.Keys == set a | a in start && Expires(start[a], stamp)
    ensures forall a | a in expired ::
              |expired[a]| == |start[a]| && forall i | 0 <= i < |expired[a]| :: expired[a][i] == start[a][i].msg
  {
    hide Expires;
  }

  /** `Queue`. */
  class Queue {
    var queues: Queues

    ghost predicate Valid()
      reads this
    {
      AllContiguous(queues)
    }

    constructor ()
      ensures Valid() && queues == map[]
    {
      queues := map[];
    }

    method EnqueueMessage(msg: SignedMessage, stamp: Uint64) returns (ok: bool)
      requires Valid()
      modifies this
      ensures Valid() && (queues, ok) == Enqueued(old(queues), msg, stamp)
      ensures var q := old(QueueOf(queues, msg.message.from));
              ok <==> q == [] || msg.message.callSeqNum == Wrap(Nonce(q[|q| - 1]) as int + 1)
      ensures forall a :: QueueOf(queues, a) ==
                old(QueueOf(queues, a)) + if ok && a == msg.message.from then [Queued(msg, stamp)] else []
    {
      AppliedKeepsContiguous(queues, Enqueue(msg, stamp));
      var q := if msg.message.from in queues then queues[msg.message.from] else [];
      if |q| > 0 {
        var nextNonce := Wrap(q[|q| - 1].msg.message.callSeqNum as int + 1);
        if msg.message.callSeqNum != nextNonce { return false; }
      }
      queues := queues[msg.message.from := q + [Queued(msg, stamp)]];
      ok := true;
    }

    method RequeueMessage(msg: SignedMessage, stamp: Uint64) returns (ok: bool)
      requires Valid()
      modifies this
      ensures Valid() && (queues, ok) == Requeued(old(queues), msg, stamp)
      ensures var q := old(QueueOf(queues, msg.message.from));
              ok <==> q == [] || msg.message.callSeqNum == Wrap(Nonce(q[0]) as int - 1)
      ensures forall a :: QueueOf(queues, a) ==
                (if ok && a == msg.message.from then [Queued(msg, stamp)] else []) + old(QueueOf(queues, a))
    {
      AppliedKeepsContiguous(queues, Requeue(msg, stamp));
      var q := if msg.message.from in queues then queues[msg.message.from] else [];
      if |q| > 0 {
        var prevNonce := Wrap(q[0].msg.message.callSeqNum as int - 1);
        if msg.message.callSeqNum != prevNonce { return false; }
      }
      queues := queues[msg.message.from := [Queued(msg, stamp)] + q];
      ok := true;
    }

    method RemoveNextMessage(sender: Address, expectedNonce: Uint64) returns (r: Removal)
      requires Valid()
      modifies this
      ensures Valid() && (queues, r) == NextRemoved(old(queues), sender, expectedNonce)
      ensures var q := old(QueueOf(queues, sender));
              && (r.NotThere? <==> q == [] || expectedNonce < Nonce(q[0]))
              && (r.TooHigh? <==> q != [] && expectedNonce > Nonce(q[0]))
              && (r.Removed? ==> r.msg == q[0].msg && r.msg.message.callSeqNum == expectedNonce)
      ensures forall a :: QueueOf(queues, a) ==
                if r.Removed? && a == sender then old(QueueOf(queues, a))[1..] else old(QueueOf(queues, a))
    {
      AppliedKeepsContiguous(queues, RemoveNext(sender, expectedNonce));
      var q := if sender in queues then queues[sender] else [];
      r := NotThere;
      if |q| > 0 {
        var head := q[0];
        if expectedNonce == head.msg.message.callSeqNum {
          queues := queues[sender := q[1..]];
          r := Removed(head.msg);
        } else if expectedNonce > head.msg.message.callSeqNum {
          r := TooHigh;
        }
      }
    }

    method ClearSender(sender: Address) returns (wasNonEmpty: bool)
      requires Valid()
      modifies this
      ensures Valid() && queues == Cleared(old(queues), sender) && wasNonEmpty == (|old(QueueOf(queues, sender))| > 0)
      ensures forall a :: QueueOf(queues, a) == if a == sender then [] else old(QueueOf(queues, a))
    {
      var q := if sender in queues then queues[sender] else [];
      queues := queues - {sender};
      wasNonEmpty := |q| > 0;
    }

    /** Empties the lists whose first message is too old, and returns what they held. */
    method Expire(stamp: Uint64) returns (expired: map<Address, seq<SignedMessage>>)
      requires Valid()
      modifies this
      ensures Valid() && queues == Expired(old(queues), stamp)
      ensures expired.Keys == set a | a in old(queues) && |old(queues)[a]| > 0 && old(queues)[a][0].stamp < stamp
      ensures forall a :: QueueOf(queues, a) == if a in expired then [] else old(QueueOf(queues, a))
      ensures forall a | a in expired ::
                && |expired[a]| == |old(queues)[a]|
                && forall i | 0 <= i < |expired[a]| :: expired[a][i] == old(queues)[a][i].msg
    {
      hide Contiguous, ExpiredBut;
      expired := map[];
      ExpireNone(queues, stamp);
      ghost var start := queues;
      var todo := queues.Keys;
      while todo != {}
        invariant todo <= start.Keys == queues.Keys && ExpiredBut(start, todo, queues, expired, stamp)
        decreases |todo|
      {
        var sender :| sender in todo;
        var q := queues[sender];
        if |q| > 0 && q[0].stamp < stamp {
          var msgs := MessagesOf(q);
          ExpireOne(start, todo, queues, expired, stamp, sender, msgs);
          expired := expired[sender := msgs];
          queues := queues[sender := []];
        } else {
          KeepOne(start, todo, queues, expired, stamp, sender);
        }
        todo := todo - {sender};
      }
      ExpireAll(start, queues, expired, stamp);
      AppliedKeepsContiguous(start, ExpireBefore(stamp));
    }

    method MessagesOf(q: seq<Queued>) returns (msgs: seq<SignedMessage>)
      ensures |msgs| == |q| && forall i | 0 <= i < |q| :: msgs[i] == q[i].msg
    {
      msgs := [];
      for i := 0 to |q|
        invariant |msgs| == i && forall k | 0 <= k < i :: msgs[k] == q[k].msg
      {
        msgs := msgs + [q[i].msg];
      }
    }
  }
}
