/** The mining priority queue: a binary heap of per-sender queues in nonce order. */
module MiningQueue {
  import opened Primitives
  import opened StateTree
  import opened Messages
  import Lexicographic
  import GoSort

  // ----- the order the queue promises -----

  /** `queueHeap.Less` on first messages: higher gas price first, then smaller address. */
  predicate Better(a: SignedMessage, b: SignedMessage) {
    || a.message.gasPrice > b.message.gasPrice
    || (a.message.gasPrice == b.message.gasPrice && Lexicographic.Less(a.message.from, b.message.from))
  }

  /** A message no other one of its sender has to precede. */
  predicate IsHead(ms: multiset<SignedMessage>, m: SignedMessage) {
    m in ms && forall x | x in ms && x.message.from == m.message.from :: m.message.callSeqNum <= x.message.callSeqNum
  }

  /** No two messages have both sender and nonce in common. */
  predicate Distinct(ms: multiset<SignedMessage>) {
    && (forall m | m in ms :: ms[m] == 1)
    && (forall a, b | a in ms && b in ms && a != b ::
          a.message.from != b.message.from || a.message.callSeqNum != b.message.callSeqNum)
  }

  /** A head of a sender that is not better than a message.  A sender has several heads only if
      messages of it share a nonce. */
  predicate HasHeadNoBetter(ms: multiset<SignedMessage>, sender: Address, m: SignedMessage) {
    exists y :: y in ms && y.message.from == sender && IsHead(ms, y) && !Better(y, m)
  }

  /** The message to take next: a head, such that every sender has a head that is not better. */
  predicate IsNext(ms: multiset<SignedMessage>, m: SignedMessage) {
    IsHead(ms, m) && forall x | x in ms :: HasHeadNoBetter(ms, x.message.from, m)
  }

  /** Of distinct messages, the next one is a head that no head is better than. */
  lemma NextIsBest(ms: multiset<SignedMessage>, m: SignedMessage, x: SignedMessage)
    requires Distinct(ms) && IsNext(ms, m) && IsHead(ms, x)
    ensures !Better(x, m)
  {
    hide Better;
    assert HasHeadNoBetter(ms, x.message.from, m);
    var y :| y in ms && y.message.from == x.message.from && IsHead(ms, y) && !Better(y, m);
    assert x.message.callSeqNum == y.message.callSeqNum;
  }

  /** Always taking a next message, `out` can be taken from `ms` and leaves `left`. */
  predicate Takes(ms: multiset<SignedMessage>, out: seq<SignedMessage>, left: multiset<SignedMessage>)
    decreases |out|
  {
    if out == [] then ms == left
    else IsNext(ms, out[0]) && Takes(ms - multiset{out[0]}, out[1..], left)
  }

  /** The naive greedy merge: as long as messages remain, take a next one. */
  predicate IsMerge(ms: multiset<SignedMessage>, out: seq<SignedMessage>) {
    Takes(ms, out, multiset{})
  }

  lemma {:induction false} TakesOneMore(ms: multiset<SignedMessage>, out: seq<SignedMessage>,
                                        left: multiset<SignedMessage>, m: SignedMessage)
    requires Takes(ms, out, left) && IsNext(left, m)
    ensures Takes(ms, out + [m], left - multiset{m})
    decreases |out|
  {
    hide IsNext;
    if out == [] {
      assert (out + [m])[1..] == [];
    } else {
      TakesOneMore(ms - multiset{out[0]}, out[1..], left, m);
      assert (out + [m])[1..] == out[1..] + [m];
    }
  }

  lemma BetterIsAsymmetric(a: SignedMessage, b: SignedMessage)
    requires Better(a, b)
    ensures !Better(b, a)
  {
    if a.message.gasPrice == b.message.gasPrice { Lexicographic.Asymmetric(a.message.from, b.message.from); }
  }

  lemma BetterIsTransitive(a: SignedMessage, b: SignedMessage, c: SignedMessage)
    requires Better(a, b) && Better(b, c)
    ensures Better(a, c)
  {
    if a.message.gasPrice == b.message.gasPrice == c.message.gasPrice {
      Lexicographic.Transitive(a.message.from, b.message.from, c.message.from);
    }
  }

  lemma BetterIsTotal(a: SignedMessage, b: SignedMessage)
    requires a.message.from != b.message.from
    ensures Better(a, b) || Better(b, a)
  {
    Lexicographic.Total(a.message.from, b.message.from);
  }

  lemma NextIsUnique(ms: multiset<SignedMessage>, a: SignedMessage, b: SignedMessage)
    requires Distinct(ms) && IsNext(ms, a) && IsNext(ms, b)
    ensures a == b
  {
    NextIsBest(ms, a, b);
    NextIsBest(ms, b, a);
    if a.message.from != b.message.from { BetterIsTotal(a, b); }
  }

  lemma DistinctWithout(ms: multiset<SignedMessage>, m: SignedMessage)
    requires Distinct(ms) && m in ms
    ensures Distinct(ms - multiset{m})
  {
    forall x | x in ms - multiset{m} ensures x in ms && x != m && (ms - multiset{m})[x] == 1 {
    }
  }

  /** With distinct messages there is only one greedy merge, and it depends on nothing but the
      messages: neither on the order of the input nor on that of a map. */
  lemma {:induction false} MergeIsUnique(ms: multiset<SignedMessage>, a: seq<SignedMessage>, b: seq<SignedMessage>)
    requires Distinct(ms) && IsMerge(ms, a) && IsMerge(ms, b)
    ensures a == b
    decreases |a|
  {
    hide Distinct, IsNext;
    if a == [] {
      if b != [] { NextIsIn(ms, b[0]); }
    } else {
      NextIsIn(ms, a[0]);
      assert b != [];
      NextIsUnique(ms, a[0], b[0]);
      DistinctWithout(ms, a[0]);
      MergeIsUnique(ms - multiset{a[0]}, a[1..], b[1..]);
      assert a == [a[0]] + a[1..] && b == [b[0]] + b[1..];
    }
  }

  /** A merge lists every message as often as it was given. */
  lemma {:induction false} MergeIsPermutation(ms: multiset<SignedMessage>, out: seq<SignedMessage>)
    requires IsMerge(ms, out)
    ensures multiset(out) == ms
    decreases |out|
  {
    hide IsNext;
    if out != [] {
      assert out[0] in ms by { NextIsIn(ms, out[0]); }
      MergeIsPermutation(ms - multiset{out[0]}, out[1..]);
      assert out == [out[0]] + out[1..];
    }
  }

  lemma NextIsIn(ms: multiset<SignedMessage>, m: SignedMessage)
    requires IsNext(ms, m)
    ensures m in ms
  {
  }

  /** No head offers a higher gas price than `m`, and of the heads that offer the same, `m` has the
      first address. */
  ghost predicate HighestPrice(ms: multiset<SignedMessage>, m: SignedMessage) {
    && IsHead(ms, m)
    && forall h: SignedMessage | IsHead(ms, h) ::
         && h.message.gasPrice <= m.message.gasPrice
         && (h.message.gasPrice == m.message.gasPrice && h.message.from != m.message.from ==>
               Lexicographic.Precedes(m.message.from, h.message.from))
  }

  lemma {:induction false} SenderHasHead(ms: multiset<SignedMessage>, x: SignedMessage) returns (y: SignedMessage)
    requires x in ms
    ensures IsHead(ms, y) && y.message.from == x.message.from
    decreases x.message.callSeqNum
  {
    if IsHead(ms, x) {
      y := x;
    } else {
      var z :| z in ms && z.message.from == x.message.from && z.message.callSeqNum < x.message.callSeqNum;
      y := SenderHasHead(ms, z);
    }
  }

  lemma NotBetterIff(h: SignedMessage, m: SignedMessage)
    ensures !Better(h, m) <==>
              || h.message.gasPrice < m.message.gasPrice
              || (h.message.gasPrice == m.message.gasPrice
                  && (h.message.from == m.message.from || Lexicographic.Precedes(m.message.from, h.message.from)))
  {
    Lexicographic.LessIff(m.message.from, h.message.from);
    Lexicographic.Irreflexive(m.message.from);
    Lexicographic.Total(h.message.from, m.message.from);
    if Lexicographic.Less(h.message.from, m.message.from) {
      Lexicographic.Asymmetric(h.message.from, m.message.from);
    }
  }

  /** Of distinct messages, the next one is the head with the highest gas price and then the first
      address, and no other. */
  lemma NextIff(ms: multiset<SignedMessage>, m: SignedMessage)
    requires Distinct(ms)
    ensures IsNext(ms, m) <==> HighestPrice(ms, m)
  {
    hide Better, Lexicographic.Precedes, Distinct;
    if IsNext(ms, m) {
      forall h: SignedMessage | IsHead(ms, h)
        ensures h.message.gasPrice <= m.message.gasPrice
        ensures h.message.gasPrice == m.message.gasPrice && h.message.from != m.message.from ==>
                  Lexicographic.Precedes(m.message.from, h.message.from)
      {
        NextIsBest(ms, m, h);
        NotBetterIff(h, m);
      }
    }
    if HighestPrice(ms, m) {
      forall x | x in ms ensures HasHeadNoBetter(ms, x.message.from, m) {
        var y := SenderHasHead(ms, x);
        NotBetterIff(y, m);
      }
    }
  }

  /** In a merge of distinct messages, each one has the highest price of the heads of what is left. */
  lemma {:induction false} MergeIsByPrice(ms: multiset<SignedMessage>, out: seq<SignedMessage>, k: nat)
    requires Distinct(ms) && IsMerge(ms, out) && k < |out|
    ensures HighestPrice(multiset(out[k..]), out[k])
    decreases k
  {
    hide Distinct, IsNext, HighestPrice;
    if k == 0 {
      MergeIsPermutation(ms, out);
      NextIff(ms, out[0]);
      assert out[0..] == out;
    } else {
      NextIsIn(ms, out[0]);
      DistinctWithout(ms, out[0]);
      MergeIsByPrice(ms - multiset{out[0]}, out[1..], k - 1);
      assert out[1..][k - 1..] == out[k..];
    }
  }

  /** For one, of two senders with a message each, at prices 1 and 5, the second comes first. */
  lemma DearerComesFirst(a: SignedMessage, b: SignedMessage, out: seq<SignedMessage>)
    requires a.message.from != b.message.from && a.message.gasPrice == 1 && b.message.gasPrice == 5
    requires IsMerge(multiset{a, b}, out)
    ensures out == [b, a]
  {
    hide Better, IsNext, IsMerge;
    var ms := multiset{a, b};
    MergeIsPermutation(ms, out);
    assert |multiset(out)| == 2;
    TwoHeads(a, b);
    MergeIsByPrice(ms, out, 0);
    assert out[0..] == out;
    CheaperIsNot(a, b, out[0]);
    SecondOfTwo(out, b, a);
  }

  lemma TwoHeads(a: SignedMessage, b: SignedMessage)
    requires a.message.from != b.message.from
    ensures var ms := multiset{a, b}; Distinct(ms) && IsHead(ms, a) && IsHead(ms, b)
  {
  }

  lemma CheaperIsNot(a: SignedMessage, b: SignedMessage, m: SignedMessage)
    requires IsHead(multiset{a, b}, b) && HighestPrice(multiset{a, b}, m) && a.message.gasPrice < b.message.gasPrice
    ensures m == b
  {
    hide Lexicographic.Precedes;
    assert m in multiset{a, b};
  }

  lemma SecondOfTwo<T>(s: seq<T>, x: T, y: T)
    requires multiset(s) == multiset{x, y} && |s| == 2 && s[0] == x && x != y
    ensures s == [x, y]
  {
    assert s == [s[0], s[1]];
    assert s[1] in multiset(s);
  }

  /** The messages of one sender come in the order of their nonces. */
  predicate NonceOrdered(q: seq<SignedMessage>) {
    forall i, j | 0 <= i < j < |q| ::
      q[i].message.from == q[j].message.from ==> q[i].message.callSeqNum <= q[j].message.callSeqNum
  }

  lemma {:induction false} MergeIsNonceOrdered(ms: multiset<SignedMessage>, out: seq<SignedMessage>)
    requires IsMerge(ms, out)
    ensures NonceOrdered(out)
    decreases |out|
  {
    hide Better;
    if out != [] {
      var rest := out[1..];
      MergeIsNonceOrdered(ms - multiset{out[0]}, rest);
      MergeIsPermutation(ms - multiset{out[0]}, rest);
      HeadFirst(ms, out[0], rest);
      assert out == [out[0]] + rest;
    }
  }

  lemma HeadFirst(ms: multiset<SignedMessage>, m: SignedMessage, rest: seq<SignedMessage>)
    requires IsHead(ms, m) && NonceOrdered(rest) && multiset(rest) == ms - multiset{m}
    ensures NonceOrdered([m] + rest)
  {
    var q := [m] + rest;
    forall i, j | 0 <= i < j < |q| && q[i].message.from == q[j].message.from
      ensures q[i].message.callSeqNum <= q[j].message.callSeqNum
    {
      assert q[j] == rest[j - 1];
      if i > 0 {
        assert q[i] == rest[i - 1];
      } else {
        assert rest[j - 1] in multiset(rest);
        assert rest[j - 1] in ms;
      }
    }
  }

  // ----- the heap -----

  /** The messages of one sender in nonce order; never empty while it is in the heap. */
  type NonceQueue = seq<SignedMessage>

  predicate QueueOk(q: NonceQueue) {
    && q != []
    && (forall i | 0 <= i < |q| :: q[i].message.from == q[0].message.from)
    && (forall i, j | 0 <= i < j < |q| :: q[i].message.callSeqNum <= q[j].message.callSeqNum)
  }

  predicate QueuesOk(h: seq<NonceQueue>) {
    && (forall i | 0 <= i < |h| :: QueueOk(h[i]))
    && (forall i, j | 0 <= i < j < |h| :: h[i][0].message.from != h[j][0].message.from)
  }

  /** All messages in the heap. */
  ghost function Contents(h: seq<NonceQueue>): multiset<SignedMessage> {
    if h == [] then multiset{} else multiset(h[0]) + Contents(h[1..])
  }

  lemma {:induction false} ContentsConcat(a: seq<NonceQueue>, b: seq<NonceQueue>)
    ensures Contents(a + b) == Contents(a) + Contents(b)
  {
    hide Contents;
    if a == [] {
      assert a + b == b;
      NothingLeft();
    } else {
      ContentsConcat(a[1..], b);
      ContentsFirst(a);
      ContentsFirst(a + b);
      assert (a + b)[1..] == a[1..] + b;
      Associative(multiset(a[0]), Contents(a[1..]), Contents(b));
    }
  }

  lemma ContentsFirst(h: seq<NonceQueue>)
    requires h != []
    ensures Contents(h) == multiset(h[0]) + Contents(h[1..])
  {
  }

  lemma Associative<T>(x: multiset<T>, y: multiset<T>, z: multiset<T>)
    ensures x + (y + z) == x + y + z
  {
  }

  lemma Cancel<T>(x: multiset<T>, y: multiset<T>, z: multiset<T>)
    requires x + z == y + z
    ensures x == y
  {
    forall e ensures x[e] == y[e] {
      assert (x + z)[e] == x[e] + z[e] && (y + z)[e] == y[e] + z[e];
    }
  }

  lemma ContentsSplit(h: seq<NonceQueue>, i: nat)
    requires i < |h|
    ensures Contents(h) == Contents(h[..i]) + multiset(h[i]) + Contents(h[i + 1..])
  {
    assert h == h[..i] + h[i..];
    ContentsConcat(h[..i], h[i..]);
    assert h[i..][1..] == h[i + 1..];
  }

  lemma ContentsUpdate(h: seq<NonceQueue>, i: nat, q: NonceQueue)
    requires i < |h|
    ensures Contents(h[i := q]) + multiset(h[i]) == Contents(h) + multiset(q)
  {
    hide Contents;
    var h' := h[i := q];
    ContentsSplit(h, i);
    ContentsSplit(h', i);
    assert h'[..i] == h[..i] && h'[i + 1..] == h[i + 1..];
  }

  lemma {:induction false} InContents(h: seq<NonceQueue>, m: SignedMessage)
    ensures m in Contents(h) <==> exists i | 0 <= i < |h| :: m in h[i]
  {
    if h != [] {
      InContents(h[1..], m);
      forall i | 0 <= i < |h[1..]| ensures h[1..][i] == h[i + 1] { }
      if exists i | 0 <= i < |h| :: m in h[i] {
        var i :| 0 <= i < |h| && m in h[i];
        if i > 0 { assert m in h[1..][i - 1]; }
      }
    }
  }

  predicate Less(h: seq<NonceQueue>, i: nat, j: nat)
    requires QueuesOk(h) && i < |h| && j < |h|
  {
    Better(h[i][0], h[j][0])
  }

  function Parent(j: nat): nat
    requires j > 0
  {
    (j - 1) / 2
  }

  /** The child at `j` is not better than its parent. */
  predicate EdgeOk(h: seq<NonceQueue>, j: nat)
    requires QueuesOk(h) && 0 < j < |h|
  {
    !Less(h, j, Parent(j))
  }

  /** Heap order among the first `n` queues, at all nodes from `i` on. */
  predicate HeapFrom(h: seq<NonceQueue>, n: nat, i: nat)
    requires QueuesOk(h) && n <= |h|
  {
    forall j | 0 < j < n && Parent(j) >= i :: EdgeOk(h, j)
  }

  lemma NotBetterIsTransitive(a: SignedMessage, b: SignedMessage, c: SignedMessage)
    requires !Better(b, a) && !Better(c, b)
    ensures !Better(c, a)
  {
    if Better(c, a) {
      if a.message.gasPrice == b.message.gasPrice == c.message.gasPrice {
        Lexicographic.Total(b.message.from, a.message.from);
        Lexicographic.Total(c.message.from, b.message.from);
        if a.message.from != b.message.from && b.message.from != c.message.from {
          Lexicographic.Transitive(a.message.from, b.message.from, c.message.from);
          Lexicographic.Asymmetric(a.message.from, c.message.from);
        }
      }
    }
  }

  /** The first queue of a heap has the best first message. */
  lemma {:induction false} RootIsBest(h: seq<NonceQueue>, j: nat)
    requires QueuesOk(h) && HeapFrom(h, |h|, 0) && j < |h|
    ensures !Better(h[j][0], h[0][0])
    decreases j
  {
    if j == 0 {
      if Better(h[0][0], h[0][0]) { BetterIsAsymmetric(h[0][0], h[0][0]); }
    } else {
      assert EdgeOk(h, j);
      RootIsBest(h, Parent(j));
      NotBetterIsTransitive(h[0][0], h[Parent(j)][0], h[j][0]);
    }
  }

  function Swapped(h: seq<NonceQueue>, i: nat, j: nat): seq<NonceQueue>
    requires i < |h| && j < |h|
  {
    h[i := h[j]][j := h[i]]
  }

  lemma SwapFacts(h: seq<NonceQueue>, i: nat, j: nat)
    requires QueuesOk(h) && i < |h| && j < |h|
    ensures QueuesOk(Swapped(h, i, j)) && Contents(Swapped(h, i, j)) == Contents(h)
  {
    hide Contents;
    SwapKeepsContents(h, i, j);
    SwapKeepsQueues(h, i, j);
  }

  lemma SwapKeepsQueues(h: seq<NonceQueue>, i: nat, j: nat)
    requires QueuesOk(h) && i < |h| && j < |h|
    ensures QueuesOk(Swapped(h, i, j))
  {
    var s: seq<NonceQueue> := Swapped(h, i, j);
    assert forall a | 0 <= a < |s| :: QueueOk(s[a]);
    forall a: nat, b: nat | a < b < |s| ensures s[a][0].message.from != s[b][0].message.from {
      var a' := if a == i then j else if a == j then i else a;
      var b' := if b == i then j else if b == j then i else b;
      assert s[a] == h[a'] && s[b] == h[b'] && a' != b';
    }
  }

  lemma SwapKeepsContents(h: seq<NonceQueue>, i: nat, j: nat)
    requires i < |h| && j < |h|
    ensures Contents(Swapped(h, i, j)) == Contents(h)
  {
    hide Contents;
    if i == j {
      assert Swapped(h, i, j) == h;
    } else {
      var h1 := h[i := h[j]];
      ContentsUpdate(h, i, h[j]);
      ContentsUpdate(h1, j, h[i]);
      assert h1[j] == h[j];
      Cancel(Contents(Swapped(h, i, j)), Contents(h), multiset(h[j]));
    }
  }

  /** While sifting down from `i0`: only the edges below `i` may be out of order, and the queues
      below `i` are in order with the parent of `i`. */
  predicate SiftingDown(h: seq<NonceQueue>, n: nat, i0: nat, i: nat)
    requires QueuesOk(h) && n <= |h|
  {
    && i0 <= i
    && (i == i0 || i < n)
    && (forall j | 0 < j < n && i0 <= Parent(j) && Parent(j) != i :: EdgeOk(h, j))
    && (i > i0 ==> forall j | 0 < j < n && Parent(j) == i :: !Better(h[j][0], h[Parent(i)][0]))
  }

  lemma SiftDownStep(h: seq<NonceQueue>, n: nat, i0: nat, i: nat, j: nat)
    requires QueuesOk(h) && n <= |h| && SiftingDown(h, n, i0, i)
    requires 0 < j < n && Parent(j) == i && Better(h[j][0], h[i][0])
    requires forall k | 0 < k < n && Parent(k) == i :: !Better(h[k][0], h[j][0])
    ensures QueuesOk(Swapped(h, i, j)) && SiftingDown(Swapped(h, i, j), n, i0, j)
  {
    hide Contents, Better;
    SwapKeepsQueues(h, i, j);
    BetterIsAsymmetric(h[j][0], h[i][0]);
    var s := Swapped(h, i, j);
    forall k | 0 < k < n && i0 <= Parent(k) && Parent(k) != j ensures EdgeOk(s, k) {
      if k == i {
        assert s[k] == h[j] && s[Parent(k)] == h[Parent(i)];
      } else if Parent(k) == i {
        assert s[i] == h[j];
        if k == j { assert s[k] == h[i]; }
      } else {
        assert EdgeOk(h, k);
      }
    }
    forall k | 0 < k < n && Parent(k) == j ensures !Better(s[k][0], s[i][0]) {
      assert EdgeOk(h, k);
    }
  }

  lemma SiftDownStart(h: seq<NonceQueue>, n: nat, i0: nat)
    requires QueuesOk(h) && n <= |h| && HeapFrom(h, n, i0 + 1)
    ensures SiftingDown(h, n, i0, i0)
  {
  }

  lemma NoChildren(n: nat, i: nat)
    requires 2 * i + 1 >= n
    ensures forall k | 0 < k < n :: Parent(k) != i
  {
  }

  lemma SiftDownDone(h: seq<NonceQueue>, n: nat, i0: nat, i: nat)
    requires QueuesOk(h) && n <= |h| && SiftingDown(h, n, i0, i)
    requires forall k | 0 < k < n && Parent(k) == i :: !Better(h[k][0], h[i][0])
    ensures HeapFrom(h, n, i0)
  {
  }

  /** While sifting up: only the edge above `j` may be out of order. */
  predicate SiftingUp(h: seq<NonceQueue>, j: nat)
    requires QueuesOk(h)
  {
    && j < |h|
    && (forall k | 0 < k < |h| && k != j :: EdgeOk(h, k))
    && (j > 0 ==> forall k | 0 < k < |h| && Parent(k) == j :: !Better(h[k][0], h[Parent(j)][0]))
  }

  lemma SiftUpStep(h: seq<NonceQueue>, j: nat)
    requires QueuesOk(h) && SiftingUp(h, j) && j > 0 && Better(h[j][0], h[Parent(j)][0])
    ensures QueuesOk(Swapped(h, Parent(j), j)) && SiftingUp(Swapped(h, Parent(j), j), Parent(j))
  {
    hide Contents, Better;
    var i := Parent(j);
    SwapKeepsQueues(h, i, j);
    BetterIsAsymmetric(h[j][0], h[i][0]);
    var s := Swapped(h, i, j);
    forall k | 0 < k < |h| && k != i ensures EdgeOk(s, k) {
      if k == j {
        assert s[k] == h[i] && s[i] == h[j];
      } else if Parent(k) == i {
        assert EdgeOk(h, k);
        if Better(h[k][0], h[j][0]) { BetterIsTransitive(h[k][0], h[j][0], h[i][0]); }
      } else if Parent(k) == j {
        assert s[j] == h[i];
      } else {
        assert EdgeOk(h, k);
      }
    }
    if i > 0 {
      forall k | 0 < k < |h| && Parent(k) == i ensures !Better(s[k][0], s[Parent(i)][0]) {
        assert EdgeOk(h, i);
        if k == j {
        } else {
          assert EdgeOk(h, k);
          NotBetterIsTransitive(h[Parent(i)][0], h[i][0], h[k][0]);
        }
      }
    }
  }

  // ----- building the heap -----

  /** The messages of one sender, in the order given. */
  function BySender(msgs: seq<SignedMessage>, a: Address): seq<SignedMessage> {
    if msgs == [] then []
    else
      var last := msgs[|msgs| - 1];
      BySender(msgs[..|msgs| - 1], a) + if last.message.from == a then [last] else []
  }

  lemma {:induction false} BySenderFacts(msgs: seq<SignedMessage>, a: Address)
    ensures forall m :: m in BySender(msgs, a) <==> m in msgs && m.message.from == a
    ensures forall m: SignedMessage | m.message.from == a :: multiset(BySender(msgs, a))[m] == multiset(msgs)[m]
  {
    if msgs != [] {
      var init, last := msgs[..|msgs| - 1], msgs[|msgs| - 1];
      BySenderFacts(init, a);
      assert msgs == init + [last];
    }
  }

  /** The queue of a sender in the heap, or none. */
  lemma {:induction false} CountInHeap(h: seq<NonceQueue>, m: SignedMessage)
    requires QueuesOk(h)
    ensures forall i | 0 <= i < |h| && h[i][0].message.from == m.message.from :: Contents(h)[m] == multiset(h[i])[m]
    ensures (forall i | 0 <= i < |h| :: h[i][0].message.from != m.message.from) ==> Contents(h)[m] == 0
  {
    if h != [] {
      CountInHeap(h[1..], m);
      assert Contents(h)[m] == multiset(h[0])[m] + Contents(h[1..])[m];
      if h[0][0].message.from == m.message.from {
        assert forall i | 0 <= i < |h[1..]| :: h[1..][i] == h[i + 1];
      } else {
        assert m !in h[0];
        forall i | 0 <= i < |h| && h[i][0].message.from == m.message.from ensures Contents(h)[m] == multiset(h[i])[m] {
          assert h[i] == h[1..][i - 1];
        }
      }
    }
  }

  predicate NonceLess(a: SignedMessage, b: SignedMessage) {
    a.message.callSeqNum < b.message.callSeqNum
  }

  lemma BySenderSnoc(msgs: seq<SignedMessage>, i: nat)
    requires i < |msgs|
    ensures msgs[..i + 1] == msgs[..i] + [msgs[i]]
    ensures forall a :: BySender(msgs[..i + 1], a) ==
              if msgs[i].message.from == a then BySender(msgs[..i], a) + [msgs[i]] else BySender(msgs[..i], a)
  {
    assert msgs[..i + 1][..i] == msgs[..i];
  }

  /** Group messages by sender, in order. */
  method Group(msgs: seq<SignedMessage>) returns (bySender: map<Address, NonceQueue>)
    ensures forall a | a in bySender :: bySender[a] == BySender(msgs, a) != []
    ensures forall m | m in msgs :: m.message.from in bySender
  {
    assert forall a :: BySender(msgs[..0], a) == [];
    hide BySender;
    bySender := map[];
    for i := 0 to |msgs|
      invariant forall a | a in bySender :: bySender[a] == BySender(msgs[..i], a) != []
      invariant forall a | a !in bySender :: BySender(msgs[..i], a) == []
      invariant forall m | m in msgs[..i] :: m.message.from in bySender
    {
      var m := msgs[i];
      BySenderSnoc(msgs, i);
      var q := if m.message.from in bySender then bySender[m.message.from] else [];
      bySender := bySender[m.message.from := q + [m]];
    }
    assert msgs[..|msgs|] == msgs;
  }

  /** The queues of the senders in `done`, each holding the messages of its sender. */
  ghost predicate LinedUp(msgs: seq<SignedMessage>, done: set<Address>, h: seq<NonceQueue>) {
    && QueuesOk(h)
    && (forall i | 0 <= i < |h| :: h[i][0].message.from in done)
    && (forall i | 0 <= i < |h| :: multiset(h[i]) == multiset(BySender(msgs, h[i][0].message.from)))
    && (forall a | a in done :: exists i | 0 <= i < |h| :: h[i][0].message.from == a)
  }

  lemma QueuesOkMore(h: seq<NonceQueue>, q: NonceQueue)
    requires QueuesOk(h) && QueueOk(q) && forall i | 0 <= i < |h| :: h[i][0].message.from != q[0].message.from
    ensures QueuesOk(h + [q])
    ensures q != []
  {
  }

  lemma QueuesNotEmpty(h: seq<NonceQueue>)
    requires forall i | 0 <= i < |h| :: QueueOk(h[i])
    ensures forall i | 0 <= i < |h| :: h[i] != []
  {
  }

  lemma LineUpOne(msgs: seq<SignedMessage>, done: set<Address>, h: seq<NonceQueue>, a: Address, q: NonceQueue)
    requires LinedUp(msgs, done, h) && a !in done
    requires QueueOk(q) && q[0].message.from == a && multiset(q) == multiset(BySender(msgs, a))
    ensures LinedUp(msgs, done + {a}, h + [q])
  {
    hide BySender, QueueOk;
    QueuesOkMore(h, q);
    QueuesNotEmpty(h);
    HasSenders(h, q, done);
    var h': seq<NonceQueue> := h + [q];
    forall i | 0 <= i < |h'|
      ensures h'[i][0].message.from in done + {a} && multiset(h'[i]) == multiset(BySender(msgs, h'[i][0].message.from))
    {
      assert h'[i] == if i < |h| then h[i] else q;
    }
  }

  lemma HasSenders(h: seq<NonceQueue>, q: NonceQueue, done: set<Address>)
    requires q != [] && forall i | 0 <= i < |h| :: h[i] != []
    requires forall a | a in done :: exists i | 0 <= i < |h| :: h[i][0].message.from == a
    ensures forall i | 0 <= i < |h + [q]| :: (h + [q])[i] != []
    ensures forall a | a in done + {q[0].message.from} ::
              exists i | 0 <= i < |h + [q]| :: (h + [q])[i][0].message.from == a
  {
    var h': seq<NonceQueue> := h + [q];
    forall b | b in done + {q[0].message.from} ensures exists i | 0 <= i < |h'| :: h'[i][0].message.from == b {
      if b in done {
        var i :| 0 <= i < |h| && h[i][0].message.from == b;
        assert h'[i][0].message.from == b;
      } else {
        assert h'[|h|][0].message.from == b;
      }
    }
  }

  /** Sorts each queue and lines them up, in whatever order the map yields them. */
  method SortedQueues(msgs: seq<SignedMessage>, bySender: map<Address, NonceQueue>) returns (h: seq<NonceQueue>)
    requires forall a | a in bySender :: bySender[a] == BySender(msgs, a) != []
    requires forall m | m in msgs :: m.message.from in bySender
    ensures QueuesOk(h) && Contents(h) == multiset(msgs)
  {
    hide Contents, BySender, QueueOk;
    h := [];
    var todo := bySender.Keys;
    while todo != {}
      invariant todo <= bySender.Keys
      invariant LinedUp(msgs, bySender.Keys - todo, h)
      decreases |todo|
    {
      var a :| a in todo;
      var nq := GoSort.SortSlice(bySender[a], NonceLess);
      SortedQueueOk(msgs, a, nq);
      LineUpOne(msgs, bySender.Keys - todo, h, a, nq);
      assert bySender.Keys - (todo - {a}) == bySender.Keys - todo + {a};
      h := h + [nq];
      todo := todo - {a};
    }
    assert bySender.Keys - todo == bySender.Keys;
    HeapHasAll(msgs, bySender.Keys, h);
  }

  lemma SortedQueueOk(msgs: seq<SignedMessage>, a: Address, q: NonceQueue)
    requires multiset(q) == multiset(BySender(msgs, a)) && BySender(msgs, a) != [] && GoSort.SortedBy(q, NonceLess)
    ensures QueueOk(q) && q[0].message.from == a
  {
    GoSort.SameElements(q, BySender(msgs, a));
    BySenderFacts(msgs, a);
    forall i | 0 <= i < |q| ensures q[i].message.from == a {
      assert q[i] in q;
    }
    forall i, j | 0 <= i < j < |q| ensures q[i].message.callSeqNum <= q[j].message.callSeqNum {
      assert !NonceLess(q[j], q[i]);
    }
  }

  lemma HeapHasAll(msgs: seq<SignedMessage>, senders: set<Address>, h: seq<NonceQueue>)
    requires LinedUp(msgs, senders, h)
    requires forall m | m in msgs :: m.message.from in senders
    ensures Contents(h) == multiset(msgs)
  {
    hide Contents, BySender;
    forall m ensures Contents(h)[m] == multiset(msgs)[m] {
      CountInHeap(h, m);
      BySenderFacts(msgs, m.message.from);
      if m in msgs {
        var i :| 0 <= i < |h| && h[i][0].message.from == m.message.from;
      }
    }
  }

  class MessageQueue {
    var senderQueues: seq<NonceQueue>

    ghost predicate Valid()
      reads this
    {
      QueuesOk(senderQueues) && HeapFrom(senderQueues, |senderQueues|, 0)
    }

    /** `NewMessageQueue`. */
    constructor (msgs: seq<SignedMessage>)
      ensures Valid() && Contents(senderQueues) == multiset(msgs)
    {
      senderQueues := [];
      new;
      hide Contents;
      var bySender := Group(msgs);
      senderQueues := SortedQueues(msgs, bySender);
      Init();
    }

    method Swap(i: nat, j: nat)
      requires QueuesOk(senderQueues) && i < |senderQueues| && j < |senderQueues|
      modifies this
      ensures senderQueues == Swapped(old(senderQueues), i, j)
      ensures QueuesOk(senderQueues) && Contents(senderQueues) == old(Contents(senderQueues))
    {
      SwapFacts(senderQueues, i, j);
      senderQueues := senderQueues[i := senderQueues[j]][j := senderQueues[i]];
    }

    /** `down` of container/heap. */
    method Down(i0: nat, n: nat) returns (moved: bool)
      requires QueuesOk(senderQueues) && i0 <= n <= |senderQueues|
      requires HeapFrom(senderQueues, n, i0 + 1)
      modifies this
      ensures QueuesOk(senderQueues) && Contents(senderQueues) == old(Contents(senderQueues))
      ensures |senderQueues| == old(|senderQueues|) && senderQueues[n..] == old(senderQueues[n..])
      ensures HeapFrom(senderQueues, n, i0)
    {
      hide Contents, Better, HeapFrom, SiftingDown;
      var i := i0;
      SiftDownStart(senderQueues, n, i0);
      while 2 * i + 1 < n
        invariant i <= n && QueuesOk(senderQueues) && Contents(senderQueues) == old(Contents(senderQueues))
        invariant |senderQueues| == old(|senderQueues|) && senderQueues[n..] == old(senderQueues[n..])
        invariant SiftingDown(senderQueues, n, i0, i)
        decreases n - i
      {
        var j := BetterChild(i, n);
        if !Less(senderQueues, j, i) {
          OtherChildToo(senderQueues, n, i, j);
          SiftDownDone(senderQueues, n, i0, i);
          return i > i0;
        }
        SiftDownStep(senderQueues, n, i0, i, j);
        Swap(i, j);
        i := j;
      }
      NoChildren(n, i);
      SiftDownDone(senderQueues, n, i0, i);
      moved := i > i0;
    }

    /** The child of `i` to compare with: the second one only if it is better. */
    method BetterChild(i: nat, n: nat) returns (j: nat)
      requires QueuesOk(senderQueues) && 2 * i + 1 < n <= |senderQueues|
      ensures 0 < j < n && Parent(j) == i
      ensures forall k | 0 < k < n && Parent(k) == i :: !Better(senderQueues[k][0], senderQueues[j][0])
    {
      j := 2 * i + 1;
      if j + 1 < n && Less(senderQueues, j + 1, j) {
        BetterIsAsymmetric(senderQueues[j + 1][0], senderQueues[j][0]);
        j := j + 1;
      }
      BestChild(senderQueues, n, i, j);
    }

    /** `up` of container/heap. */
    method Up(start: nat)
      requires QueuesOk(senderQueues) && SiftingUp(senderQueues, start)
      modifies this
      ensures Valid() && Contents(senderQueues) == old(Contents(senderQueues))
      ensures |senderQueues| == old(|senderQueues|)
    {
      var j := start;
      while j > 0 && Less(senderQueues, j, Parent(j))
        invariant QueuesOk(senderQueues) && Contents(senderQueues) == old(Contents(senderQueues))
        invariant |senderQueues| == old(|senderQueues|)
        invariant SiftingUp(senderQueues, j)
      {
        SiftUpStep(senderQueues, j);
        Swap(Parent(j), j);
        j := Parent(j);
      }
    }

    /** `heap.Init`. */
    method Init()
      requires QueuesOk(senderQueues)
      modifies this
      ensures Valid() && Contents(senderQueues) == old(Contents(senderQueues))
    {
      hide Contents;
      var n := |senderQueues|;
      var i := n / 2;
      while i > 0
        invariant 0 <= i <= n == |senderQueues|
        invariant QueuesOk(senderQueues) && Contents(senderQueues) == old(Contents(senderQueues))
        invariant HeapFrom(senderQueues, n, i)
      {
        i := i - 1;
        var _ := Down(i, n);
      }
    }

    /** `heap.Fix` at the root. */
    method FixRoot()
      requires QueuesOk(senderQueues) && senderQueues != []
      requires HeapFrom(senderQueues, |senderQueues|, 1)
      modifies this
      ensures Valid() && Contents(senderQueues) == old(Contents(senderQueues))
    {
      hide Contents;
      var moved := Down(0, |senderQueues|);
      if !moved { Up(0); }
    }

    /** `heap.Pop`: the root queue, which has one message left, goes to the end and is cut off. */
    method RemoveRoot()
      requires Valid() && senderQueues != [] && |senderQueues[0]| == 1
      modifies this
      ensures Valid()
      ensures Contents(senderQueues) + multiset{old(senderQueues[0][0])} == old(Contents(senderQueues))
    {
      hide Contents, Better, HeapFrom;
      var n := |senderQueues| - 1;
      ghost var root := senderQueues[0];
      SwapRootAndLast(senderQueues);
      Swap(0, n);
      var _ := Down(0, n);
      assert senderQueues[n] == senderQueues[n..][0] == root;
      CutLast(senderQueues);
      senderQueues := senderQueues[..n];
    }

    /** Removes and returns the next message. */
    method Pop() returns (r: Option<SignedMessage>)
      requires Valid()
      modifies this
      ensures Valid()
      ensures r.None? ==> senderQueues == old(senderQueues) == []
      ensures r.Some? ==> IsNext(old(Contents(senderQueues)), r.value)
      ensures r.Some? ==> Contents(senderQueues) + multiset{r.value} == old(Contents(senderQueues))
      ensures r.Some? && Distinct(old(Contents(senderQueues))) ==> HighestPrice(old(Contents(senderQueues)), r.value)
    {
      hide Contents, Distinct, HighestPrice, IsNext;
      if |senderQueues| == 0 { return None; }
      var msg := senderQueues[0][0];
      TopIsNext(senderQueues);
      if Distinct(Contents(senderQueues)) { NextIff(Contents(senderQueues), msg); }
      if |senderQueues[0]| == 1 {
        RemoveRoot();
      } else {
        AdvanceRoot(senderQueues);
        senderQueues := senderQueues[0 := senderQueues[0][1..]];
        FixRoot();
      }
      r := Some(msg);
    }

    /** Removes and returns all messages: a greedy merge of the contents. */
    method Drain() returns (out: seq<SignedMessage>)
      requires Valid()
      modifies this
      ensures senderQueues == []
      ensures IsMerge(old(Contents(senderQueues)), out)
      ensures Distinct(old(Contents(senderQueues))) ==>
                forall k | 0 <= k < |out| :: HighestPrice(multiset(out[k..]), out[k])
    {
      hide Contents, IsNext, Distinct, HighestPrice;
      out := [];
      ghost var start := Contents(senderQueues);
      ghost var left := start;
      var msg := Pop();
      while msg.Some?
        invariant Valid() && Takes(start, out, left)
        invariant msg.Some? ==> IsNext(left, msg.value) && Contents(senderQueues) + multiset{msg.value} == left
        invariant msg.None? ==> senderQueues == [] && Contents(senderQueues) == left
        decreases |left|
      {
        NextIsIn(left, msg.value);
        TakesOneMore(start, out, left, msg.value);
        out := out + [msg.value];
        left := left - multiset{msg.value};
        assert left == Contents(senderQueues);
        msg := Pop();
      }
      NothingLeft();
      forall k | 0 <= k < |out| && Distinct(start) ensures HighestPrice(multiset(out[k..]), out[k]) {
        MergeIsByPrice(start, out, k);
      }
    }
  }

  lemma NothingLeft()
    ensures Contents([]) == multiset{}
  {
  }

  lemma CutLast(h: seq<NonceQueue>)
    requires h != [] && |h[|h| - 1]| == 1 && QueuesOk(h) && HeapFrom(h, |h| - 1, 0)
    ensures QueuesOk(h[..|h| - 1]) && HeapFrom(h[..|h| - 1], |h| - 1, 0)
    ensures Contents(h[..|h| - 1]) + multiset{h[|h| - 1][0]} == Contents(h)
  {
    hide Contents, Better;
    var n := |h| - 1;
    ContentsSplit(h, n);
    NothingLeft();
    assert h[n] == [h[n][0]] && h[n + 1..] == [];
    CutHeap(h, n);
  }

  lemma CutHeap(h: seq<NonceQueue>, n: nat)
    requires n <= |h| && QueuesOk(h) && HeapFrom(h, n, 0)
    ensures QueuesOk(h[..n]) && HeapFrom(h[..n], n, 0)
  {
    hide Better;
    forall j | 0 < j < n ensures EdgeOk(h[..n], j) {
      assert EdgeOk(h, j);
    }
  }

  /** Exchanging the root with the last node of a heap breaks only the edges at the root. */
  lemma SwapRootAndLast(h: seq<NonceQueue>)
    requires h != [] && QueuesOk(h) && HeapFrom(h, |h|, 0)
    ensures var s := Swapped(h, 0, |h| - 1);
            QueuesOk(s) && HeapFrom(s, |h| - 1, 1)
  {
    hide Better;
    var n := |h| - 1;
    SwapKeepsQueues(h, 0, n);
    forall j | 0 < j < n && Parent(j) >= 1 ensures EdgeOk(Swapped(h, 0, n), j) {
      assert EdgeOk(h, j);
    }
  }

  lemma AdvanceRoot(h: seq<NonceQueue>)
    requires h != [] && QueuesOk(h) && HeapFrom(h, |h|, 0) && |h[0]| > 1
    ensures var h' := h[0 := h[0][1..]];
            QueuesOk(h') && HeapFrom(h', |h|, 1) && Contents(h') + multiset{h[0][0]} == Contents(h)
  {
    hide Contents;
    var h' := h[0 := h[0][1..]];
    ContentsUpdate(h, 0, h[0][1..]);
    assert h[0] == [h[0][0]] + h[0][1..];
    assert multiset(h[0]) == multiset{h[0][0]} + multiset(h[0][1..]);
    Associative(Contents(h'), multiset{h[0][0]}, multiset(h[0][1..]));
    Cancel(Contents(h') + multiset{h[0][0]}, Contents(h), multiset(h[0][1..]));
    forall j | 0 < j < |h| && Parent(j) >= 1 ensures EdgeOk(h', j) {
      assert EdgeOk(h, j);
    }
  }

  lemma FindQueue(h: seq<NonceQueue>, x: SignedMessage) returns (i: nat)
    requires x in Contents(h)
    ensures i < |h| && x in h[i]
  {
    hide Contents;
    InContents(h, x);
    i :| 0 <= i < |h| && x in h[i];
  }

  lemma FirstIsIn(h: seq<NonceQueue>, i: nat)
    requires i < |h| && QueuesOk(h)
    ensures h[i][0] in Contents(h)
  {
    hide Contents;
    InContents(h, h[i][0]);
    assert h[i][0] in h[i];
  }

  lemma FirstIsHead(h: seq<NonceQueue>, i: nat)
    requires i < |h| && QueuesOk(h)
    ensures IsHead(Contents(h), h[i][0])
  {
    hide Contents;
    FirstIsIn(h, i);
    var m := h[i][0];
    forall x | x in Contents(h) && x.message.from == m.message.from
      ensures m.message.callSeqNum <= x.message.callSeqNum
    {
      var k := FindQueue(h, x);
      assert k == i;
    }
  }

  /** The first message of the first queue is the next one of the whole heap. */
  lemma TopIsNext(h: seq<NonceQueue>)
    requires h != [] && QueuesOk(h) && HeapFrom(h, |h|, 0)
    ensures IsNext(Contents(h), h[0][0])
  {
    hide Contents, Better;
    FirstIsHead(h, 0);
    forall x | x in Contents(h) ensures HasHeadNoBetter(Contents(h), x.message.from, h[0][0]) {
      var i := FindQueue(h, x);
      FirstIsHead(h, i);
      FirstIsIn(h, i);
      RootIsBest(h, i);
      assert h[i][0].message.from == x.message.from;
    }
  }

  lemma BestChild(h: seq<NonceQueue>, n: nat, i: nat, j: nat)
    requires QueuesOk(h) && n <= |h| && 0 < j < n && Parent(j) == i
    requires j == 2 * i + 1 && j + 1 < n ==> !Better(h[j + 1][0], h[j][0])
    requires j == 2 * i + 2 ==> !Better(h[j - 1][0], h[j][0])
    ensures forall k | 0 < k < n && Parent(k) == i :: !Better(h[k][0], h[j][0])
  {
    if Better(h[j][0], h[j][0]) { BetterIsAsymmetric(h[j][0], h[j][0]); }
    forall k | 0 < k < n && Parent(k) == i ensures !Better(h[k][0], h[j][0]) {
      assert k == 2 * i + 1 || k == 2 * i + 2;
    }
  }

  lemma OtherChildToo(h: seq<NonceQueue>, n: nat, i: nat, j: nat)
    requires QueuesOk(h) && n <= |h| && 0 < j < n && Parent(j) == i
    requires forall k | 0 < k < n && Parent(k) == i :: !Better(h[k][0], h[j][0])
    requires !Better(h[j][0], h[i][0])
    ensures forall k | 0 < k < n && Parent(k) == i :: !Better(h[k][0], h[i][0])
  {
    forall k | 0 < k < n && Parent(k) == i ensures !Better(h[k][0], h[i][0]) {
      NotBetterIsTransitive(h[i][0], h[j][0], h[k][0]);
    }
  }
}
