/** Walking chains of tipsets: ancestors, the common ancestor of two heads, and what changes
    between them. */
module Ancestry {
  import opened Primitives
  import opened TipSetKeys
  import opened TipSets

  /** Where tipsets are looked up by key. */
  type Provider = map<TipSetKey, TipSet>

  /** Tipsets are filed under their own keys, which are never empty, and are higher than their
      parents, as block validation demands. */
  ghost predicate WellFormed(p: Provider) {
    forall k | k in p ::
      && k != []
      && p[k].Defined()
      && p[k].key == k
      && (p[k].Parents() != [] && p[k].Parents() in p ==>
            p[p[k].Parents()].Defined() && p[p[k].Parents()].Height() < p[k].Height())
  }

  /** Every parent is there. */
  ghost predicate Linked(p: Provider) {
    forall k | k in p :: p[k].Defined() && (p[k].Parents() == [] || p[k].Parents() in p)
  }

  predicate Holds(p: Provider, ts: TipSet) {
    ts.key in p && p[ts.key] == ts
  }

  /** A tipset and its ancestors, as far as they are known. */
  function Chain(p: Provider, ts: TipSet): (c: seq<TipSet>)
    requires WellFormed(p) && Holds(p, ts)
    ensures |c| > 0 && c[0] == ts
    decreases ts.Height()
  {
    if ts.Parents() == [] || ts.Parents() !in p then [ts]
    else [ts] + Chain(p, p[ts.Parents()])
  }

  predicate AllDefined(c: seq<TipSet>) {
    forall i | 0 <= i < |c| :: c[i].Defined()
  }

  predicate Descending(c: seq<TipSet>)
    requires AllDefined(c)
  {
    forall i, j | 0 <= i < j < |c| :: c[i].Height() > c[j].Height()
  }

  lemma {:induction false} ChainFacts(p: Provider, ts: TipSet)
    requires WellFormed(p) && Holds(p, ts)
    ensures forall i | 0 <= i < |Chain(p, ts)| :: Holds(p, Chain(p, ts)[i])
    ensures AllDefined(Chain(p, ts)) && Descending(Chain(p, ts))
    decreases ts.Height()
  {
    if ts.Parents() != [] && ts.Parents() in p {
      ChainFacts(p, p[ts.Parents()]);
    }
  }

  /** The rest of a chain is the chain of the tipset it starts with. */
  lemma {:induction false} ChainSuffix(p: Provider, ts: TipSet, i: nat)
    requires WellFormed(p) && Holds(p, ts) && i < |Chain(p, ts)|
    ensures Holds(p, Chain(p, ts)[i]) && Chain(p, Chain(p, ts)[i]) == Chain(p, ts)[i..]
    decreases ts.Height()
  {
    if i > 0 {
      ChainSuffix(p, p[ts.Parents()], i - 1);
      assert Chain(p, ts)[i..] == Chain(p, p[ts.Parents()])[i - 1..];
    }
  }

  /** A chain goes from each tipset to the one its blocks name as parents, and ends where that is none
      or not there. */
  lemma ChainIsOfParents(p: Provider, ts: TipSet, i: nat)
    requires WellFormed(p) && Holds(p, ts) && i < |Chain(p, ts)|
    ensures var c := Chain(p, ts);
            && c[0] == ts && c[i].Defined()
            && (i + 1 < |c| <==> c[i].blocks[0].parents != [] && c[i].blocks[0].parents in p)
            && (i + 1 < |c| ==> c[i + 1] == p[c[i].blocks[0].parents])
  {
    ChainFacts(p, ts);
    ChainSuffix(p, ts, i);
    var rest := Chain(p, Chain(p, ts)[i]);
    assert i + 1 < |Chain(p, ts)| ==> rest[1] == Chain(p, ts)[i + 1];
  }

  /** `TipsetIterator`. */
  class TipsetIterator {
    const provider: Provider
    var value: TipSet

    ghost predicate Valid()
      reads this
    {
      WellFormed(provider) && (value.Defined() ==> Holds(provider, value))
    }

    /** What is still to come, the current value included. */
    ghost function Remaining(): (c: seq<TipSet>)
      requires Valid()
      reads this
      ensures c == [] <==> !value.Defined()
    {
      if value.Defined() then Chain(provider, value) else []
    }

    constructor (p: Provider, start: TipSet)
      requires WellFormed(p) && (start.Defined() ==> Holds(p, start))
      ensures Valid() && provider == p && value == start
    {
      provider, value := p, start;
    }

    /** Moves on to the parent; it fails if the parent is missing, and is then complete too. */
    method Next() returns (failed: bool)
      requires Valid() && value.Defined()
      modifies this
      ensures Valid() && Remaining() == old(Remaining())[1..]
      ensures failed ==> !Linked(provider) && Remaining() == []
      ensures failed <==> old(value).Parents() != [] && old(value).Parents() !in provider
      ensures Remaining() != [] <==> old(value).Parents() != [] && old(value).Parents() in provider
    {
      var parents := value.Parents();
      if |parents| == 0 {
        value := UNDEF_TIPSET;
        return false;
      }
      if parents !in provider {
        value := UNDEF_TIPSET;
        return true;
      }
      value := provider[parents];
      return false;
    }
  }

  datatype FindError = NoCommonAncestor | NotFound

  predicate Disjoint(a: seq<TipSet>, b: seq<TipSet>) {
    forall x | x in a :: x !in b
  }

  /** Both chains lead to `ts`, and nothing before it is common to them. */
  predicate MeetAt(left: seq<TipSet>, right: seq<TipSet>, ts: TipSet, i: nat, j: nat) {
    && i < |left| && j < |right| && left[i] == ts == right[j]
    && left[i..] == right[j..]
    && Disjoint(left[..i], right) && Disjoint(right[..j], left)
  }

  /** `FindCommonAncestor`, by two pointers of which the higher one moves back. */
  method FindCommonAncestor(leftIter: TipsetIterator, rightIter: TipsetIterator) returns (r: Result<TipSet, FindError>)
    requires leftIter != rightIter && leftIter.Valid() && rightIter.Valid() && leftIter.provider == rightIter.provider
    modifies leftIter, rightIter
    ensures r.Ok? ==> exists i, j :: MeetAt(old(leftIter.Remaining()), old(rightIter.Remaining()), r.value, i, j)
    ensures r == Err(NoCommonAncestor) ==> Disjoint(old(leftIter.Remaining()), old(rightIter.Remaining()))
    ensures r == Err(NotFound) ==> !Linked(leftIter.provider)
    ensures Linked(leftIter.provider) ==>
              (r == Err(NoCommonAncestor) <==> Disjoint(old(leftIter.Remaining()), old(rightIter.Remaining())))
  {
    hide Chain, WellFormed, Linked, Disjoint, MeetAt, TipsetIterator.Valid, TipsetIterator.Remaining;
    ghost var left, right := leftIter.Remaining(), rightIter.Remaining();
    ghost var i, j := 0, 0;
    NothingIsDisjoint(left);
    NothingIsDisjoint(right);
    while rightIter.value.Defined() && leftIter.value.Defined()
      invariant leftIter.Valid() && rightIter.Valid()
      invariant 0 <= i <= |left| && 0 <= j <= |right|
      invariant leftIter.Remaining() == left[i..] && rightIter.Remaining() == right[j..]
      invariant Disjoint(left[..i], right) && Disjoint(right[..j], left)
      decreases |left| - i + |right| - j
    {
      var l, r := leftIter.value, rightIter.value;
      CurrentIs(leftIter, left, i);
      CurrentIs(rightIter, right, j);
      if l.key == r.key {
        TheyMeet(left, right, l, i, j);
        return Ok(l);
      }
      Step(leftIter.provider, left, right, l, r, i, j);
      var leftHeight, rightHeight := l.Height(), r.Height();
      if rightHeight >= leftHeight {
        var failed := rightIter.Next();
        if failed { return Err(NotFound); }
        j := j + 1;
      }
      if leftHeight >= rightHeight {
        var failed := leftIter.Next();
        if failed { return Err(NotFound); }
        i := i + 1;
      }
    }
    assert left[..|left|] == left && right[..|right|] == right;
    if j == |right| { DisjointBack(right, left); }
    r := Err(NoCommonAncestor);
  }

  lemma CurrentIs(iter: TipsetIterator, c: seq<TipSet>, i: nat)
    requires iter.Valid() && iter.value.Defined() && i <= |c| && iter.Remaining() == c[i..]
    ensures WellFormed(iter.provider) && Holds(iter.provider, iter.value)
    ensures i < |c| && c[i] == iter.value && c[i..] == Chain(iter.provider, iter.value) && c[i..][1..] == c[i + 1..]
  {
    hide Chain, WellFormed;
  }

  lemma NothingIsDisjoint(c: seq<TipSet>)
    ensures Disjoint([], c) && Disjoint(c[..0], c)
  {
  }

  lemma TheyMeet(left: seq<TipSet>, right: seq<TipSet>, ts: TipSet, i: nat, j: nat)
    requires i < |left| && j < |right| && left[i] == ts == right[j] && left[i..] == right[j..]
    requires Disjoint(left[..i], right) && Disjoint(right[..j], left)
    ensures MeetAt(left, right, ts, i, j) && !Disjoint(left, right)
  {
    assert ts in left && ts in right;
  }

  lemma DisjointBack(a: seq<TipSet>, b: seq<TipSet>)
    requires Disjoint(a, b)
    ensures Disjoint(b, a)
  {
  }

  /** A tipset at least as high as another one, and different from it, is not on its chain. */
  lemma NotBelow(p: Provider, l: TipSet, r: TipSet)
    requires WellFormed(p) && Holds(p, l) && Holds(p, r) && l != r && r.Height() >= l.Height()
    ensures r !in Chain(p, l)
  {
    ChainFacts(p, l);
  }

  lemma Step(p: Provider, left: seq<TipSet>, right: seq<TipSet>, l: TipSet, r: TipSet, i: nat, j: nat)
    requires WellFormed(p) && Holds(p, l) && Holds(p, r) && l.key != r.key
    requires i < |left| && j < |right| && left[i..] == Chain(p, l) && right[j..] == Chain(p, r)
    requires Disjoint(left[..i], right) && Disjoint(right[..j], left)
    ensures r.Height() >= l.Height() ==> Disjoint(right[..j + 1], left)
    ensures l.Height() >= r.Height() ==> Disjoint(left[..i + 1], right)
  {
    assert left == left[..i] + left[i..] && right == right[..j] + right[j..];
    assert left[i] == l && right[j] == r;
    assert left[..i + 1] == left[..i] + [l] && right[..j + 1] == right[..j] + [r];
    if r.Height() >= l.Height() { NotBelow(p, l, r); }
    if l.Height() >= r.Height() { NotBelow(p, r, l); }
  }

  /** The meeting point is the highest tipset on both chains, and it is the only one. */
  lemma MeetingIsHighest(p: Provider, a: TipSet, b: TipSet, ts: TipSet, i: nat, j: nat, x: TipSet)
    requires WellFormed(p) && Holds(p, a) && Holds(p, b) && MeetAt(Chain(p, a), Chain(p, b), ts, i, j)
    requires x in Chain(p, a) && x in Chain(p, b)
    ensures x.Defined() && ts.Defined() && x.Height() <= ts.Height()
    ensures x.Height() == ts.Height() ==> x == ts
  {
    ChainFacts(p, a);
    var c := Chain(p, a);
    var k :| 0 <= k < |c| && c[k] == x;
    if k < i { InPrefix(c, k, i); }
  }

  lemma InPrefix(c: seq<TipSet>, k: nat, i: nat)
    requires k < i <= |c|
    ensures c[k] in c[..i]
  {
    assert c[..i][k] == c[k];
  }

  // ----- collecting -----

  /** The part of a chain at or above a height. */
  function AtLeast(c: seq<TipSet>, minHeight: nat): (r: seq<TipSet>)
    requires AllDefined(c)
  {
    if c == [] || c[0].Height() < minHeight then [] else [c[0]] + AtLeast(c[1..], minHeight)
  }

  lemma {:induction false} AtLeastIs(c: seq<TipSet>, minHeight: nat, n: nat)
    requires AllDefined(c) && n <= |c|
    requires forall i | 0 <= i < n :: c[i].Height() >= minHeight
    requires n < |c| ==> c[n].Height() < minHeight
    ensures AtLeast(c, minHeight) == c[..n]
  {
    if n > 0 {
      AtLeastIs(c[1..], minHeight, n - 1);
      assert c[..n] == [c[0]] + c[1..][..n - 1];
    }
  }

  lemma AtLeastNone(minHeight: nat)
    ensures AtLeast([], minHeight) == []
  {
  }

  lemma AtLeastStep(c: seq<TipSet>, n: nat, minHeight: nat)
    requires AllDefined(c) && n < |c|
    ensures AtLeast(c[n..], minHeight) ==
              if c[n].Height() < minHeight then [] else [c[n]] + AtLeast(c[n + 1..], minHeight)
  {
    assert c[n..][1..] == c[n + 1..];
  }

  lemma Regroup(a: seq<TipSet>, x: TipSet, b: seq<TipSet>)
    ensures a + ([x] + b) == a + [x] + b
  {
  }

  /** `CollectTipSetsOfHeightAtLeast`.  A missing parent ends the walk without an error. */
  method CollectTipSetsOfHeightAtLeast(iter: TipsetIterator, minHeight: nat) returns (ret: seq<TipSet>)
    requires iter.Valid()
    modifies iter
    ensures AllDefined(old(iter.Remaining())) && ret == AtLeast(old(iter.Remaining()), minHeight)
  {
    hide Chain, WellFormed, Linked, AtLeast;
    ghost var c := iter.Remaining();
    AtLeastNone(minHeight);
    if iter.value.Defined() { ChainFacts(iter.provider, iter.value); }
    ret := [];
    ghost var n := 0;
    while iter.value.Defined()
      invariant iter.Valid() && 0 <= n <= |c| && iter.Remaining() == c[n..]
      invariant ret + AtLeast(c[n..], minHeight) == AtLeast(c, minHeight)
      decreases |c| - n
    {
      AtLeastStep(c, n, minHeight);
      if iter.value.Height() < minHeight { return; }
      Regroup(ret, iter.value, AtLeast(c[n + 1..], minHeight));
      ret := ret + [iter.value];
      var _ := iter.Next();
      n := n + 1;
    }
  }

  // ----- missing parents -----

  ghost predicate Knows(q: Provider, p: Provider) {
    forall k | k in p :: k in q && q[k] == p[k]
  }

  /** Knowing more, a chain goes on where it ended, with the parent that was missing. */
  lemma {:induction false} ChainGoesOn(p: Provider, q: Provider, ts: TipSet)
    requires WellFormed(p) && WellFormed(q) && Knows(q, p) && Holds(p, ts)
    ensures var c := Chain(p, ts);
            var last := c[|c| - 1];
            && Holds(p, last) && last.Defined() && Holds(q, ts)
            && (last.Parents() == [] || last.Parents() !in p)
            && Chain(q, ts) ==
                 c + if last.Parents() != [] && last.Parents() in q then Chain(q, q[last.Parents()]) else []
    decreases ts.Height()
  {
    if ts.Parents() != [] && ts.Parents() in p {
      var parent := p[ts.Parents()];
      ChainGoesOn(p, q, parent);
      var c := Chain(p, parent);
      var last := c[|c| - 1];
      assert Chain(p, ts) == [ts] + c;
      var more := if last.Parents() != [] && last.Parents() in q then Chain(q, q[last.Parents()]) else [];
      assert [ts] + (c + more) == [ts] + c + more;
    }
  }

  /** A store that knows more would have given something else. */
  ghost predicate IsCutShort(p: Provider, ts: TipSet, minHeight: nat)
    requires WellFormed(p) && Holds(p, ts)
  {
    exists q :: WellFormed(q) && Knows(q, p) && DiffersAt(p, q, ts, minHeight)
  }

  ghost predicate DiffersAt(p: Provider, q: Provider, ts: TipSet, minHeight: nat)
    requires WellFormed(p) && WellFormed(q) && Knows(q, p) && Holds(p, ts)
  {
    && AllDefined(Chain(p, ts)) && AllDefined(Chain(q, ts))
    && AtLeast(Chain(q, ts), minHeight) != AtLeast(Chain(p, ts), minHeight)
  }

  /** The last tipset of a chain names a parent that is missing, and every child of that parent leaves
      room for it at the height. */
  ghost predicate ParentIsMissing(p: Provider, ts: TipSet, minHeight: nat)
    requires WellFormed(p) && Holds(p, ts)
  {
    var last := Chain(p, ts)[|Chain(p, ts)| - 1];
    && last.Defined() && last.Parents() != [] && last.Parents() !in p
    && forall k | k in p && p[k].Parents() == last.Parents() :: p[k].Height() > minHeight
  }

  lemma {:induction false} AtLeastOfLower(c: seq<TipSet>, rest: seq<TipSet>, minHeight: nat)
    requires AllDefined(c) && AllDefined(rest) && forall i | 0 <= i < |rest| :: rest[i].Height() < minHeight
    ensures AllDefined(c + rest) && AtLeast(c + rest, minHeight) == AtLeast(c, minHeight)
  {
    if c == [] {
      assert c + rest == rest;
    } else {
      AtLeastOfLower(c[1..], rest, minHeight);
      assert (c + rest)[1..] == c[1..] + rest && (c + rest)[0] == c[0];
    }
  }

  /** Collecting ancestors does not report a missing parent.  What it returns is cut short if and only
      if the last tipset known names a parent that is not in the store and could be high enough. */
  lemma CutShortIff(p: Provider, ts: TipSet, minHeight: nat)
    requires WellFormed(p) && Holds(p, ts) && minHeight < TWO_64
    ensures IsCutShort(p, ts, minHeight) <==> ParentIsMissing(p, ts, minHeight)
  {
    hide AtLeast;
    if ParentIsMissing(p, ts, minHeight) {
      MissingCutsShort(p, ts, minHeight);
    } else {
      forall q | WellFormed(q) && Knows(q, p) ensures !DiffersAt(p, q, ts, minHeight) {
        NothingMissing(p, q, ts, minHeight);
      }
    }
  }

  lemma NothingMissing(p: Provider, q: Provider, ts: TipSet, minHeight: nat)
    requires WellFormed(p) && WellFormed(q) && Knows(q, p) && Holds(p, ts) && !ParentIsMissing(p, ts, minHeight)
    ensures !DiffersAt(p, q, ts, minHeight)
  {
    hide Chain, AtLeast;
    ChainGoesOn(p, q, ts);
    ChainFacts(p, ts);
    var c := Chain(p, ts);
    var last := c[|c| - 1];
    if last.Parents() != [] && last.Parents() in q {
      var parent := q[last.Parents()];
      var k :| k in p && p[k].Parents() == last.Parents() && p[k].Height() <= minHeight;
      assert q[k] == p[k] && parent.Height() < minHeight;
      ChainFacts(q, parent);
      AtLeastOfLower(c, Chain(q, parent), minHeight);
    } else {
      assert c + [] == c;
    }
  }

  /** A tipset without parents for a key: one block for each of its CIDs. */
  function OfHeight(key: TipSetKey, height: Uint64): TipSet {
    TipSet(seq(|key|, i requires 0 <= i < |key| => Block(key[i], [], [], [], 0, height, UNDEF)), key)
  }

  lemma MissingCutsShort(p: Provider, ts: TipSet, minHeight: nat)
    requires WellFormed(p) && Holds(p, ts) && minHeight < TWO_64 && ParentIsMissing(p, ts, minHeight)
    ensures IsCutShort(p, ts, minHeight)
  {
    hide Chain, AtLeast;
    var c := Chain(p, ts);
    var last := c[|c| - 1];
    ChainFacts(p, ts);
    var parent := OfHeight(last.Parents(), minHeight);
    var q: Provider := p[last.Parents() := parent];
    assert WellFormed(q);
    ChainGoesOn(p, q, ts);
    ChainEnds(q, parent);
    ChainFacts(q, ts);
    assert p[last.key] == last && last.Height() > minHeight;
    AtLeastIs(c, minHeight, |c|);
    AtLeastIs(c + [parent], minHeight, |c| + 1);
    assert c[..|c|] == c && (c + [parent])[..|c| + 1] == c + [parent];
    assert DiffersAt(p, q, ts, minHeight);
  }

  lemma ChainEnds(p: Provider, ts: TipSet)
    requires WellFormed(p) && Holds(p, ts) && ts.Parents() == []
    ensures Chain(p, ts) == [ts]
  {
  }

  /** For one, of a store that holds nothing but a tipset at height 5, which has a parent. */
  lemma MissingParentIsSilent()
    ensures exists p, ts: TipSet ::
              && WellFormed(p) && Holds(p, ts) && ts.Parents() != []
              && AllDefined(Chain(p, ts)) && AtLeast(Chain(p, ts), 0) == [ts] && IsCutShort(p, ts, 0)
  {
    var ts := TipSet([Block([1], [], [], [[2]], 0, 5, [])], [[1]]);
    var p: Provider := map[ts.key := ts];
    assert ts.Parents() == [[2]] && [[2]] != [[1]] by { assert [[2]][0] == [2] && [[1]][0] == [1] && [2][0] != [1][0]; }
    assert WellFormed(p) && Chain(p, ts) == [ts];
    assert ParentIsMissing(p, ts, 0);
    CutShortIff(p, ts, 0);
    AtLeastIs([ts], 0, 1);
    assert [ts][..1] == [ts];
  }

  /** The tipsets above the meeting point. */
  lemma AboveMeeting(p: Provider, a: TipSet, b: TipSet, ts: TipSet, i: nat, j: nat)
    requires WellFormed(p) && Holds(p, a) && Holds(p, b) && MeetAt(Chain(p, a), Chain(p, b), ts, i, j)
    ensures AllDefined(Chain(p, a)) && AllDefined(Chain(p, b)) && ts.Defined()
    ensures AtLeast(Chain(p, a), ts.Height() as int + 1) == Chain(p, a)[..i]
    ensures AtLeast(Chain(p, b), ts.Height() as int + 1) == Chain(p, b)[..j]
  {
    ChainFacts(p, a);
    ChainFacts(p, b);
    AtLeastIs(Chain(p, a), ts.Height() as int + 1, i);
    AtLeastIs(Chain(p, b), ts.Height() as int + 1, j);
  }

  datatype Delta = Delta(oldTips: seq<TipSet>, newTips: seq<TipSet>)

  /** What has to be dropped from, and put in front of, one chain to get the other: exactly the
      tipsets that are on one of them only. */
  ghost predicate IsDelta(p: Provider, oldHead: TipSet, newHead: TipSet, d: Delta)
    requires WellFormed(p) && Holds(p, oldHead) && Holds(p, newHead)
  {
    var oldChain, newChain := Chain(p, oldHead), Chain(p, newHead);
    && |d.oldTips| < |oldChain| && d.oldTips == oldChain[..|d.oldTips|]
    && newChain == d.newTips + oldChain[|d.oldTips|..]
    && Disjoint(d.oldTips, newChain) && Disjoint(d.newTips, oldChain)
  }

  lemma MeetingGivesDelta(p: Provider, oldHead: TipSet, newHead: TipSet, ts: TipSet, i: nat, j: nat)
    requires WellFormed(p) && Holds(p, oldHead) && Holds(p, newHead)
    requires MeetAt(Chain(p, oldHead), Chain(p, newHead), ts, i, j)
    ensures IsDelta(p, oldHead, newHead, Delta(Chain(p, oldHead)[..i], Chain(p, newHead)[..j]))
  {
    var newChain := Chain(p, newHead);
    assert newChain == newChain[..j] + newChain[j..];
  }

  /** A tipset of the greatest height has no children, so it is the meeting point of itself only. */
  lemma MeetingHasRoomAbove(p: Provider, a: TipSet, b: TipSet, ts: TipSet, i: nat, j: nat)
    requires WellFormed(p) && Holds(p, a) && Holds(p, b) && MeetAt(Chain(p, a), Chain(p, b), ts, i, j) && a != b
    ensures ts.Defined() && ts.Height() as int + 1 < TWO_64
  {
    ChainFacts(p, a);
    ChainFacts(p, b);
    if i > 0 { assert Chain(p, a)[0].Height() > Chain(p, a)[i].Height(); }
    if j > 0 { assert Chain(p, b)[0].Height() > Chain(p, b)[j].Height(); }
  }

  /** `CollectTipsToCommonAncestor`.  The height above the common ancestor is a 64-bit number, so a head
      at the greatest height, compared with itself, has its whole chain on both sides. */
  method CollectTipsToCommonAncestor(p: Provider, oldHead: TipSet, newHead: TipSet)
    returns (r: Result<Delta, FindError>)
    requires WellFormed(p) && Holds(p, oldHead) && Holds(p, newHead)
    ensures r.Ok? && oldHead != newHead ==> IsDelta(p, oldHead, newHead, r.value)
    ensures r.Ok? && oldHead == newHead ==>
              r.value == if oldHead.Height() as int + 1 < TWO_64 then Delta([], [])
                         else Delta(Chain(p, oldHead), Chain(p, newHead))
    ensures r == Err(NoCommonAncestor) ==> Disjoint(Chain(p, oldHead), Chain(p, newHead))
    ensures r == Err(NotFound) ==> !Linked(p)
  {
    hide *;
    var common, i, j := MeetingOf(p, oldHead, newHead);
    if common.Err? { return Err(common.error); }
    DeltaAbove(p, oldHead, newHead, common.value, i, j);
    var minHeight := Wrap(common.value.Height() as int + 1);
    var oldTips := CollectFrom(p, oldHead, minHeight);
    var newTips := CollectFrom(p, newHead, minHeight);
    r := Ok(Delta(oldTips, newTips));
  }

  method MeetingOf(p: Provider, a: TipSet, b: TipSet) returns (r: Result<TipSet, FindError>, ghost i: nat, ghost j: nat)
    requires WellFormed(p) && Holds(p, a) && Holds(p, b)
    ensures r.Ok? ==> r.value.Defined() && MeetAt(Chain(p, a), Chain(p, b), r.value, i, j)
    ensures r == Err(NoCommonAncestor) ==> Disjoint(Chain(p, a), Chain(p, b))
    ensures r == Err(NotFound) ==> !Linked(p)
  {
    hide Chain;
    i, j := 0, 0;
    ChainFacts(p, a);
    var aIter := new TipsetIterator(p, a);
    var bIter := new TipsetIterator(p, b);
    r := FindCommonAncestor(aIter, bIter);
    if r.Ok? {
      i, j :| MeetAt(Chain(p, a), Chain(p, b), r.value, i, j);
    }
  }

  method CollectFrom(p: Provider, head: TipSet, minHeight: nat) returns (tips: seq<TipSet>)
    requires WellFormed(p) && Holds(p, head)
    ensures AllDefined(Chain(p, head)) && tips == AtLeast(Chain(p, head), minHeight)
  {
    hide Chain, AtLeast;
    ChainFacts(p, head);
    var iter := new TipsetIterator(p, head);
    tips := CollectTipSetsOfHeightAtLeast(iter, minHeight);
  }

  /** What collecting above the meeting point, at a 64-bit height, yields. */
  lemma DeltaAbove(p: Provider, oldHead: TipSet, newHead: TipSet, ts: TipSet, i: nat, j: nat)
    requires WellFormed(p) && Holds(p, oldHead) && Holds(p, newHead) && ts.Defined()
    requires MeetAt(Chain(p, oldHead), Chain(p, newHead), ts, i, j)
    ensures AllDefined(Chain(p, oldHead)) && AllDefined(Chain(p, newHead))
    ensures var minHeight := Wrap(ts.Height() as int + 1);
            var d := Delta(AtLeast(Chain(p, oldHead), minHeight), AtLeast(Chain(p, newHead), minHeight));
            && (oldHead != newHead ==> IsDelta(p, oldHead, newHead, d))
            && (oldHead == newHead ==>
                  d == if oldHead.Height() as int + 1 < TWO_64 then Delta([], [])
                       else Delta(Chain(p, oldHead), Chain(p, newHead)))
  {
    hide Chain, AtLeast;
    AboveMeeting(p, oldHead, newHead, ts, i, j);
    if oldHead != newHead {
      MeetingHasRoomAbove(p, oldHead, newHead, ts, i, j);
      MeetingGivesDelta(p, oldHead, newHead, ts, i, j);
    } else {
      MeetsItselfAtOnce(p, oldHead, ts, i, j);
      var c := Chain(p, oldHead);
      if ts.Height() as int + 1 == TWO_64 { AtLeastIs(c, 0, |c|); assert c[..|c|] == c; }
    }
  }

  lemma MeetsItselfAtOnce(p: Provider, a: TipSet, ts: TipSet, i: nat, j: nat)
    requires WellFormed(p) && Holds(p, a) && MeetAt(Chain(p, a), Chain(p, a), ts, i, j)
    ensures i == 0 && j == 0 && ts == a
  {
    NothingBefore(Chain(p, a), i);
    NothingBefore(Chain(p, a), j);
  }

  lemma NothingBefore(c: seq<TipSet>, i: nat)
    requires i <= |c| && Disjoint(c[..i], c)
    ensures i == 0
  {
    if i > 0 { InPrefix(c, 0, i); }
  }

  // ----- reorganisations -----

  /** `IsReorg`. */
  predicate IsReorg(oldHead: TipSet, newHead: TipSet, commonAncestor: TipSet) {
    !(forall c | c in oldHead.key :: c in newHead.key) && commonAncestor.key != oldHead.key
  }

  /** With the common ancestor found, a reorg is a new head whose chain does not include the old
      head and whose blocks do not include the old head's blocks. */
  lemma IsReorgIff(p: Provider, oldHead: TipSet, newHead: TipSet, ts: TipSet, i: nat, j: nat)
    requires WellFormed(p) && Holds(p, oldHead) && Holds(p, newHead)
    requires MeetAt(Chain(p, oldHead), Chain(p, newHead), ts, i, j)
    ensures IsReorg(oldHead, newHead, ts) <==>
              oldHead !in Chain(p, newHead) && exists c :: c in oldHead.key && c !in newHead.key
  {
    ChainFacts(p, oldHead);
    var c := Chain(p, oldHead);
    assert Holds(p, ts);
    if i > 0 { InPrefix(c, 0, i); }
    if ts == oldHead { assert Chain(p, newHead)[j] == oldHead; }
  }

  /** `ReorgDiff`: how far each head is above their common ancestor. */
  function ReorgDiff(oldHead: TipSet, newHead: TipSet, common: TipSet): Option<(Uint64, Uint64)> {
    if !oldHead.Defined() || !newHead.Defined() || !common.Defined() then None
    else if common.Height() > oldHead.Height() || common.Height() > newHead.Height() then None
    else Some((oldHead.Height() - common.Height(), newHead.Height() - common.Height()))
  }

  /** It never fails for a common ancestor, and a side without new tipsets has a distance of zero. */
  lemma ReorgDiffOfMeeting(p: Provider, oldHead: TipSet, newHead: TipSet, ts: TipSet, i: nat, j: nat)
    requires WellFormed(p) && Holds(p, oldHead) && Holds(p, newHead)
    requires MeetAt(Chain(p, oldHead), Chain(p, newHead), ts, i, j)
    ensures ReorgDiff(oldHead, newHead, ts).Some?
    ensures var (dropped, added) := ReorgDiff(oldHead, newHead, ts).value;
            && ts.Height() + dropped == oldHead.Height() && ts.Height() + added == newHead.Height()
            && dropped >= i && added >= j && (dropped == 0 <==> i == 0) && (added == 0 <==> j == 0)
  {
    ChainFacts(p, oldHead);
    ChainFacts(p, newHead);
    HeightsDrop(Chain(p, oldHead), i);
    HeightsDrop(Chain(p, newHead), j);
  }

  lemma {:induction false} HeightsDrop(c: seq<TipSet>, i: nat)
    requires AllDefined(c) && Descending(c) && i < |c|
    ensures c[0].Height() >= c[i].Height() + i
  {
    if i > 0 {
      HeightsDrop(c, i - 1);
      assert c[i - 1].Height() > c[i].Height();
    }
  }
}
