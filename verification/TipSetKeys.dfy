/** CIDs, blocks, and the canonical keys of sets of blocks. */
module TipSetKeys {
  import opened Primitives
  import Lexicographic
  import GoSort

  /** The bytes of a CID, which identify an object; `cid.Undef` is empty. */
  type Cid = seq<Byte>

  const UNDEF: Cid := []

  predicate CidLess(a: Cid, b: Cid) {
    Lexicographic.Less(a, b)
  }

  lemma CidOrder()
    ensures GoSort.StrictWeakOrder(CidLess)
    ensures forall a, b :: CidLess(a, b) || a == b || CidLess(b, a)
  {
    forall a: Cid, b: Cid ensures CidLess(a, b) ==> !CidLess(b, a) {
      if CidLess(a, b) { Lexicographic.Asymmetric(a, b); }
    }
    forall a: Cid, b: Cid, c: Cid ensures CidLess(a, c) ==> CidLess(a, b) || CidLess(b, c) {
      if CidLess(a, c) {
        Lexicographic.Total(a, b);
        if CidLess(b, a) { Lexicographic.Transitive(b, a, c); }
      }
    }
    forall a: Cid, b: Cid ensures CidLess(a, b) || a == b || CidLess(b, a) {
      Lexicographic.Total(a, b);
    }
  }

  /** A key: CIDs in strictly ascending order. */
  predicate Canonical(k: seq<Cid>) {
    GoSort.StrictlySortedBy(k, CidLess)
  }

  type TipSetKey = k: seq<Cid> | Canonical(k) witness []

  /** Keys with the same CIDs are the same: comparing them one by one is comparing sets. */
  lemma EqualsIsSetEquality(a: TipSetKey, b: TipSetKey)
    ensures a == b <==> (forall c :: c in a <==> c in b)
  {
    if forall c :: c in a <==> c in b {
      CidOrder();
      GoSort.StrictlySortedIsUnique(a, b, CidLess);
    }
  }

  /** The CIDs of a key ascend in byte order. */
  lemma KeyAscends(k: TipSetKey, i: nat, j: nat)
    requires i < j < |k|
    ensures Lexicographic.Precedes(k[i], k[j])
  {
    assert CidLess(k[i], k[j]);
    Lexicographic.LessIff(k[i], k[j]);
  }

  /** `uniq`: sorts and compacts in place; the first `n` elements are the result. */
  method SortAndCompact(cids: array<Cid>) returns (n: nat)
    modifies cids
    ensures n <= cids.Length && Canonical(cids[..n])
    ensures forall c :: c in cids[..n] <==> c in old(cids[..])
  {
    CidOrder();
    var sorted := GoSort.SortSlice(cids[..], CidLess);
    GoSort.SameElements(sorted, cids[..]);
    forall i | 0 <= i < cids.Length {
      cids[i] := sorted[i];
    }
    assert cids[..] == sorted;
    n := Compact(cids);
    GoSort.UniqFacts(sorted, CidLess);
  }

  lemma UniqSnoc(s: seq<Cid>, next: nat)
    requires 0 < next < |s|
    ensures GoSort.Uniq(s[..next + 1]) == GoSort.Uniq(s[..next]) + if s[next] == s[next - 1] then [] else [s[next]]
  {
    assert s[..next + 1][..next] == s[..next];
  }

  method Compact(cids: array<Cid>) returns (n: nat)
    modifies cids
    ensures n <= cids.Length && cids[..n] == GoSort.Uniq(old(cids[..]))
  {
    if cids.Length < 2 { return cids.Length; }
    ghost var s := cids[..];
    var last, next := 0, 1;
    assert cids[..1] == s[..1] == GoSort.Uniq(s[..1]);
    hide GoSort.Uniq;
    while next < cids.Length
      invariant 0 <= last < next <= cids.Length
      invariant cids[..last + 1] == GoSort.Uniq(s[..next])
      invariant cids[last] == s[next - 1]
      invariant forall i | next <= i < cids.Length :: cids[i] == s[i]
    {
      UniqSnoc(s, next);
      if cids[next] != cids[last] {
        last := last + 1;
        cids[last] := cids[next];
        assert cids[..last + 1] == cids[..last] + [s[next]];
      }
      next := next + 1;
    }
    assert s[..next] == s;
    n := last + 1;
  }

  /** `NewTipSetKey`: the one key with the given CIDs. */
  method NewTipSetKey(ids: seq<Cid>) returns (k: TipSetKey)
    ensures forall c :: c in k <==> c in ids
  {
    if |ids| == 0 { return []; }
    var cids := new Cid[|ids|](i requires 0 <= i < |ids| => ids[i]);
    assert cids[..] == ids;
    var n := SortAndCompact(cids);
    k := cids[..n];
  }

  predicate AllDistinct(ids: seq<Cid>) {
    forall i, j | 0 <= i < j < |ids| :: ids[i] != ids[j]
  }

  /** `NewTipSetKeyFromUnique`: an error exactly if a CID is repeated. */
  method NewTipSetKeyFromUnique(ids: seq<Cid>) returns (k: Option<TipSetKey>)
    ensures k.Some? <==> AllDistinct(ids)
    ensures k.Some? ==> |k.value| == |ids| && forall c :: c in k.value <==> c in ids
  {
    var s := NewTipSetKey(ids);
    SizeOfKey(s, ids);
    if |s| != |ids| { return None; }
    k := Some(s);
  }

  function Elements(s: seq<Cid>): set<Cid> {
    set c | c in s
  }

  lemma {:induction false} ElementCount(s: seq<Cid>)
    ensures |Elements(s)| <= |s|
    ensures |Elements(s)| == |s| <==> AllDistinct(s)
  {
    if s != [] {
      var init, last := s[..|s| - 1], s[|s| - 1];
      ElementCount(init);
      assert s == init + [last];
      assert Elements(s) == Elements(init) + {last};
      DistinctSnoc(init, last);
    }
  }

  lemma DistinctSnoc(init: seq<Cid>, last: Cid)
    ensures AllDistinct(init + [last]) <==> AllDistinct(init) && last !in init
  {
    var s := init + [last];
    assert forall i | 0 <= i < |init| :: s[i] == init[i];
    if AllDistinct(s) {
      forall i | 0 <= i < |init| ensures init[i] != last { assert s[i] != s[|init|]; }
      forall i, j | 0 <= i < j < |init| ensures init[i] != init[j] { assert s[i] != s[j]; }
    }
  }

  lemma SizeOfKey(k: TipSetKey, ids: seq<Cid>)
    requires forall c :: c in k <==> c in ids
    ensures |k| == |ids| <==> AllDistinct(ids)
  {
    CidOrder();
    forall i, j | 0 <= i < j < |k| ensures k[i] != k[j] { assert CidLess(k[i], k[j]); }
    ElementCount(k);
    ElementCount(ids);
    assert Elements(k) == Elements(ids);
  }

  /** `TipSetKey.Has`: binary search decides membership. */
  method Has(k: TipSetKey, id: Cid) returns (r: bool)
    ensures r <==> id in k
  {
    CidOrder();
    var f := (i: nat) => i < |k| ==> !CidLess(k[i], id);
    forall i, j | 0 <= i < j < |k| && f(i) ensures f(j) {
      assert CidLess(k[i], k[j]);
      if CidLess(k[j], id) { Lexicographic.Transitive(k[i], k[j], id); }
    }
    var idx := GoSort.Search(|k|, f);
    r := idx < |k| && k[idx] == id;
    forall i | 0 <= i < idx ensures CidLess(k[i], id) { assert !f(i); }
    forall i | idx <= i < |k| ensures !CidLess(k[i], id) { assert f(i); }
    if id in k { FoundAt(k, id, idx); }
  }

  lemma FoundAt(k: TipSetKey, id: Cid, idx: nat)
    requires idx <= |k| && id in k
    requires forall i | 0 <= i < idx :: CidLess(k[i], id)
    requires forall i | idx <= i < |k| :: !CidLess(k[i], id)
    ensures idx < |k| && k[idx] == id
  {
    var i :| 0 <= i < |k| && k[i] == id;
    Lexicographic.Irreflexive(id);
    if idx < i { Ordered(k, idx, i); }
  }

  lemma Ordered(k: TipSetKey, i: nat, j: nat)
    requires i < j < |k|
    ensures CidLess(k[i], k[j])
  {
  }

  method Equals(a: TipSetKey, b: TipSetKey) returns (r: bool)
    ensures r <==> a == b
    ensures r <==> (forall c :: c in a <==> c in b)
  {
    EqualsIsSetEquality(a, b);
    if |a| != |b| { return false; }
    for i := 0 to |a|
      invariant a[..i] == b[..i]
    {
      if a[i] != b[i] { return false; }
    }
    return true;
  }

  /** `TipSetKey.ContainsAll`: one pass over both keys decides whether one is part of the other. */
  method ContainsAll(k: TipSetKey, other: TipSetKey) returns (r: bool)
    ensures r <==> (forall c | c in other :: c in k)
  {
    var otherIdx := 0;
    var i := 0;
    while i < |k| && otherIdx < |other|
      invariant 0 <= i <= |k| && 0 <= otherIdx <= |other|
      invariant forall j | 0 <= j < otherIdx :: other[j] in k
      invariant otherIdx < |other| ==> other[otherIdx] !in k[..i]
    {
      if k[i] == other[otherIdx] {
        otherIdx := otherIdx + 1;
        if otherIdx < |other| { LaterIsBeyond(k, other, i, otherIdx); }
      }
      i := i + 1;
    }
    assert k[..|k|] == k;
    if otherIdx < |other| { assert other[otherIdx] in other; }
    r := otherIdx == |other|;
  }

  lemma LaterIsBeyond(k: TipSetKey, other: TipSetKey, i: nat, o: nat)
    requires i < |k| && 0 < o < |other| && other[o - 1] == k[i]
    ensures other[o] !in k[..i + 1]
  {
    CidOrder();
    assert CidLess(other[o - 1], other[o]);
    forall j | 0 <= j < i + 1 ensures k[j] != other[o] {
      if j < i { assert CidLess(k[j], k[i]); }
    }
  }

  // ----- the printed form -----

  const SPACE: Byte := 32
  const OPEN: Byte := 123
  const CLOSE: Byte := 125

  /** How CIDs are printed: injectively, and without a space or brace. */
  ghost predicate Printable(enc: Cid -> seq<Byte>) {
    && (forall c, d :: enc(c) == enc(d) ==> c == d)
    && (forall c, i | 0 <= i < |enc(c)| :: enc(c)[i] != SPACE && enc(c)[i] != CLOSE)
  }

  function Words(k: seq<Cid>, enc: Cid -> seq<Byte>): seq<Byte> {
    if k == [] then [] else [SPACE] + enc(k[0]) + Words(k[1..], enc)
  }

  /** `TipSetKey.String`. */
  function KeyString(k: seq<Cid>, enc: Cid -> seq<Byte>): seq<Byte> {
    [OPEN] + Words(k, enc) + [SPACE, CLOSE]
  }

  /** As for a key of two CIDs: "{ c d }". */
  lemma KeyStringOfTwo(c: Cid, d: Cid, enc: Cid -> seq<Byte>)
    ensures KeyString([c, d], enc) == [123, 32] + enc(c) + [32] + enc(d) + [32, 125]
  {
    assert [c, d][1..] == [d] && [d][1..] == [];
    assert Words([], enc) == [];
    assert Words([d], enc) == [SPACE] + enc(d);
    assert Words([c, d], enc) == [SPACE] + enc(c) + ([SPACE] + enc(d));
  }

  /** The first space ends a word. */
  lemma WordsSplit(a: seq<Byte>, b: seq<Byte>, x: seq<Byte>, y: seq<Byte>)
    requires a + [SPACE] + x == b + [SPACE] + y
    requires SPACE !in a && SPACE !in b
    ensures a == b && x == y
  {
    var s := a + [SPACE] + x;
    if |a| < |b| {
      ShorterWord(a, b, x, y);
    } else if |b| < |a| {
      ShorterWord(b, a, y, x);
    } else {
      assert a == s[..|a|] == b;
      assert x == s[|a| + 1..] == y;
    }
  }

  lemma ShorterWord(a: seq<Byte>, b: seq<Byte>, x: seq<Byte>, y: seq<Byte>)
    requires |a| < |b| && SPACE !in b
    ensures a + [SPACE] + x != b + [SPACE] + y
  {
    assert (a + [SPACE] + x)[|a|] == SPACE;
    assert (b + [SPACE] + y)[|a|] == b[|a|];
  }

  lemma {:induction false} WordsInjective(j: seq<Cid>, k: seq<Cid>, enc: Cid -> seq<Byte>)
    requires Printable(enc)
    requires Words(j, enc) + [SPACE, CLOSE] == Words(k, enc) + [SPACE, CLOSE]
    ensures j == k
  {
    if j == [] || k == [] {
      if j != [] { NotEmpty(j, enc); } else if k != [] { NotEmpty(k, enc); }
    } else {
      var x, y := RestOfWords(j, enc), RestOfWords(k, enc);
      FirstWord(j, enc);
      FirstWord(k, enc);
      assert ([SPACE] + (enc(j[0]) + [SPACE] + x))[1..] == enc(j[0]) + [SPACE] + x;
      assert ([SPACE] + (enc(k[0]) + [SPACE] + y))[1..] == enc(k[0]) + [SPACE] + y;
      WordsSplit(enc(j[0]), enc(k[0]), x, y);
      assert [SPACE] + x == Words(j[1..], enc) + [SPACE, CLOSE] by { RestIs(j, enc); }
      assert [SPACE] + y == Words(k[1..], enc) + [SPACE, CLOSE] by { RestIs(k, enc); }
      WordsInjective(j[1..], k[1..], enc);
      assert j == [j[0]] + j[1..] && k == [k[0]] + k[1..];
    }
  }

  /** What follows the first word and a space. */
  function RestOfWords(k: seq<Cid>, enc: Cid -> seq<Byte>): seq<Byte>
    requires k != []
  {
    (Words(k[1..], enc) + [SPACE, CLOSE])[1..]
  }

  lemma RestIs(k: seq<Cid>, enc: Cid -> seq<Byte>)
    requires k != []
    ensures [SPACE] + RestOfWords(k, enc) == Words(k[1..], enc) + [SPACE, CLOSE]
  {
    var w := Words(k[1..], enc) + [SPACE, CLOSE];
    assert w[0] == SPACE;
    assert w == [w[0]] + w[1..];
  }

  lemma FirstWord(k: seq<Cid>, enc: Cid -> seq<Byte>)
    requires k != []
    ensures Words(k, enc) + [SPACE, CLOSE] == [SPACE] + (enc(k[0]) + [SPACE] + RestOfWords(k, enc))
  {
    RestIs(k, enc);
    var r := Words(k[1..], enc) + [SPACE, CLOSE];
    assert Words(k, enc) + [SPACE, CLOSE] == [SPACE] + (enc(k[0]) + r);
    assert enc(k[0]) + ([SPACE] + RestOfWords(k, enc)) == enc(k[0]) + [SPACE] + RestOfWords(k, enc);
  }

  lemma NotEmpty(k: seq<Cid>, enc: Cid -> seq<Byte>)
    requires k != [] && Printable(enc)
    ensures Words(k, enc) + [SPACE, CLOSE] != [] + [SPACE, CLOSE]
  {
    assert |Words(k, enc) + [SPACE, CLOSE]| >= 3;
  }

  /** Different keys print differently, so the printed form can serve as an index. */
  lemma KeyStringInjective(j: seq<Cid>, k: seq<Cid>, enc: Cid -> seq<Byte>)
    requires Printable(enc) && KeyString(j, enc) == KeyString(k, enc)
    ensures j == k
  {
    assert KeyString(j, enc)[1..] == Words(j, enc) + [SPACE, CLOSE];
    assert KeyString(k, enc)[1..] == Words(k, enc) + [SPACE, CLOSE];
    WordsInjective(j, k, enc);
  }
}
