/** The chain store and what of it survives a restart. */
module ChainStore {
  import opened Primitives
  import opened TipSetKeys
  import opened TipSets
  import opened Ancestry
  import opened StoreKeys
  import opened TipIndexes

  /** Values of the datastore, decoded. */
  datatype Value = HeadValue(key: TipSetKey) | StateValue(stateRoot: Cid, receipts: Cid)

  type Data = map<seq<Byte>, Value>

  /** "/chain/heaviestTipSet". */
  const HEAD_KEY: seq<Byte> :=
    [47, 99, 104, 97, 105, 110, 47, 104, 101, 97, 118, 105, 101, 115, 116, 84, 105, 112, 83, 101, 116]

  /** Keys of the datastore are rooted. */
  function StateKey(enc: Cid -> seq<Byte>, ts: TipSet): seq<Byte>
    requires ts.Defined()
  {
    [47] + MakeKey(KeyString(ts.key, enc), ts.Height())
  }

  lemma StateKeysAreDistinct(enc: Cid -> seq<Byte>, a: TipSet, b: TipSet)
    requires Printable(enc) && a.Defined() && b.Defined()
    ensures StateKey(enc, a) != HEAD_KEY
    ensures StateKey(enc, a) == StateKey(enc, b) ==> a.key == b.key
  {
    assert StateKey(enc, a)[1] == 112;
    if StateKey(enc, a) == StateKey(enc, b) {
      assert StateKey(enc, a)[1..] == StateKey(enc, b)[1..];
      MakeKeyInjective(a.key, a.Height(), b.key, b.Height(), enc);
    }
  }

  // ----- the store as a value -----

  datatype State = State(data: Data, entries: Entries, head: TipSet)

  datatype Op = PutMetadata(m: TipSetMetadata) | MoveHead(ts: TipSet)

  predicate PutSucceeds(m: TipSetMetadata) {
    m.tipset.Defined() && m.stateRoot != UNDEF && m.receipts != UNDEF
  }

  function Applied(enc: Cid -> seq<Byte>, s: State, op: Op): State {
    match op
    case PutMetadata(m) =>
      State(if PutSucceeds(m) then s.data[StateKey(enc, m.tipset) := StateValue(m.stateRoot, m.receipts)] else s.data,
            s.entries[m.tipset.key := m], s.head)
    case MoveHead(ts) => State(s.data[HEAD_KEY := HeadValue(ts.key)], s.entries, ts)
  }

  function Run(enc: Cid -> seq<Byte>, s: State, ops: seq<Op>): State {
    if ops == [] then s else Applied(enc, Run(enc, s, ops[..|ops| - 1]), ops[|ops| - 1])
  }

  /** The datastore holds the state of every tipset indexed, and the head. */
  ghost predicate Persisted(enc: Cid -> seq<Byte>, s: State) {
    && (forall k | k in s.entries ::
          && s.entries[k].tipset.key == k
          && PutSucceeds(s.entries[k])
          && StateKey(enc, s.entries[k].tipset) in s.data
          && s.data[StateKey(enc, s.entries[k].tipset)] == StateValue(s.entries[k].stateRoot, s.entries[k].receipts))
    && (s.head.Defined() ==> HEAD_KEY in s.data && s.data[HEAD_KEY] == HeadValue(s.head.key))
  }

  /** The datastore holds the state of every tipset indexed whose metadata were accepted, and the
      head. */
  ghost predicate AcceptedIsPersisted(enc: Cid -> seq<Byte>, s: State) {
    && (forall k | k in s.entries :: s.entries[k].tipset.key == k)
    && (forall k | k in s.entries && PutSucceeds(s.entries[k]) ::
          && StateKey(enc, s.entries[k].tipset) in s.data
          && s.data[StateKey(enc, s.entries[k].tipset)] == StateValue(s.entries[k].stateRoot, s.entries[k].receipts))
    && (s.head.Defined() ==> HEAD_KEY in s.data && s.data[HEAD_KEY] == HeadValue(s.head.key))
  }

  lemma AppliedKeepsAccepted(enc: Cid -> seq<Byte>, s: State, op: Op)
    requires Printable(enc) && AcceptedIsPersisted(enc, s)
    ensures AcceptedIsPersisted(enc, Applied(enc, s, op))
  {
    hide StateKey, Printable;
    match op
    case PutMetadata(m) =>
      if PutSucceeds(m) {
        StateKeysAreDistinct(enc, m.tipset, m.tipset);
        forall k | k in s.entries && PutSucceeds(s.entries[k])
          ensures StateKey(enc, s.entries[k].tipset) == StateKey(enc, m.tipset) ==> k == m.tipset.key
        {
          StateKeysAreDistinct(enc, s.entries[k].tipset, m.tipset);
        }
      }
    case MoveHead(ts) =>
      forall k | k in s.entries && PutSucceeds(s.entries[k]) ensures StateKey(enc, s.entries[k].tipset) != HEAD_KEY {
        StateKeysAreDistinct(enc, s.entries[k].tipset, s.entries[k].tipset);
      }
  }

  lemma {:induction false} EveryRunPersistsAccepted(enc: Cid -> seq<Byte>, data: Data, ops: seq<Op>)
    requires Printable(enc)
    ensures AcceptedIsPersisted(enc, Run(enc, State(data, map[], UNDEF_TIPSET), ops))
  {
    hide Printable;
    if ops != [] {
      EveryRunPersistsAccepted(enc, data, ops[..|ops| - 1]);
      AppliedKeepsAccepted(enc, Run(enc, State(data, map[], UNDEF_TIPSET), ops[..|ops| - 1]), ops[|ops| - 1]);
    }
  }

  /** What was put last under a key. */
  function LastPut(ops: seq<Op>, k: TipSetKey): Option<TipSetMetadata> {
    if ops == [] then None
    else
      var op := ops[|ops| - 1];
      if op.PutMetadata? && op.m.tipset.key == k then Some(op.m) else LastPut(ops[..|ops| - 1], k)
  }

  ghost predicate LastPutsSucceed(ops: seq<Op>) {
    forall k | LastPut(ops, k).Some? :: PutSucceeds(LastPut(ops, k).value)
  }

  /** The index holds what was put last under each key. */
  lemma {:induction false} EntriesArePutLast(enc: Cid -> seq<Byte>, data: Data, ops: seq<Op>, k: TipSetKey)
    ensures var s := Run(enc, State(data, map[], UNDEF_TIPSET), ops);
            && (k in s.entries <==> LastPut(ops, k).Some?)
            && (k in s.entries ==> LastPut(ops, k) == Some(s.entries[k]))
  {
    if ops != [] { EntriesArePutLast(enc, data, ops[..|ops| - 1], k); }
  }

  /** After every run, index and datastore agree if and only if, under each key, the metadata put last
      were accepted. */
  lemma PersistedIff(enc: Cid -> seq<Byte>, data: Data, ops: seq<Op>)
    requires Printable(enc)
    ensures Persisted(enc, Run(enc, State(data, map[], UNDEF_TIPSET), ops)) <==> LastPutsSucceed(ops)
  {
    hide Run, LastPut, StateKey, Printable;
    var s := Run(enc, State(data, map[], UNDEF_TIPSET), ops);
    EveryRunPersistsAccepted(enc, data, ops);
    forall k: TipSetKey
      ensures k in s.entries <==> LastPut(ops, k).Some?
      ensures k in s.entries ==> LastPut(ops, k) == Some(s.entries[k])
    {
      EntriesArePutLast(enc, data, ops, k);
    }
    if LastPutsSucceed(ops) {
      forall k | k in s.entries ensures PutSucceeds(s.entries[k]) { assert LastPut(ops, k).Some?; }
    }
  }

  /** A tipset with a state root or receipts missing is refused after it was indexed: then the index
      has what the datastore has not. */
  lemma RefusedMetadataIsIndexed(enc: Cid -> seq<Byte>, s: State, m: TipSetMetadata)
    requires !PutSucceeds(m)
    ensures m.tipset.key in Applied(enc, s, PutMetadata(m)).entries && Applied(enc, s, PutMetadata(m)).data == s.data
    ensures !Persisted(enc, Applied(enc, s, PutMetadata(m)))
  {
    var s' := Applied(enc, s, PutMetadata(m));
    assert s'.entries[m.tipset.key] == m;
  }

  // ----- loading -----

  predicate HasState(enc: Cid -> seq<Byte>, data: Data, ts: TipSet) {
    && ts.Defined()
    && StateKey(enc, ts) in data
    && data[StateKey(enc, ts)].StateValue?
    && data[StateKey(enc, ts)].stateRoot != UNDEF
    && data[StateKey(enc, ts)].receipts != UNDEF
  }

  function MetadataOf(enc: Cid -> seq<Byte>, data: Data, ts: TipSet): TipSetMetadata
    requires HasState(enc, data, ts)
  {
    var v := data[StateKey(enc, ts)];
    TipSetMetadata(v.stateRoot, ts, v.receipts)
  }

  /** The stored head leads back, over tipsets whose states are stored, to the genesis block alone. */
  ghost predicate Loadable(enc: Cid -> seq<Byte>, data: Data, blocks: Provider, genesis: Cid)
    requires WellFormed(blocks)
  {
    && HEAD_KEY in data && data[HEAD_KEY].HeadValue? && data[HEAD_KEY].key in blocks
    && var c := Chain(blocks, blocks[data[HEAD_KEY].key]);
    && (forall i | 0 <= i < |c| :: HasState(enc, data, c[i]))
    && |c[|c| - 1].blocks| == 1 && c[|c| - 1].blocks[0].cid == genesis
  }

  /** The head of a run has its whole chain put and leads back to the genesis block. */
  ghost predicate ChainWasPut(s: State, blocks: Provider, genesis: Cid)
    requires WellFormed(blocks)
  {
    && s.head.Defined() && Holds(blocks, s.head)
    && var c := Chain(blocks, s.head);
    && (forall i | 0 <= i < |c| :: c[i].key in s.entries && s.entries[c[i].key].tipset == c[i])
    && |c[|c| - 1].blocks| == 1 && c[|c| - 1].blocks[0].cid == genesis
  }

  /** The datastore loads, with the head of a store and, for each ancestor of it, the tipset, the state
      root and the receipts the store has. */
  ghost predicate LoadsTheSame(enc: Cid -> seq<Byte>, s: State, blocks: Provider, genesis: Cid)
    requires WellFormed(blocks) && ChainWasPut(s, blocks, genesis)
  {
    && Loadable(enc, s.data, blocks, genesis)
    && blocks[s.data[HEAD_KEY].key] == s.head
    && AllStored(enc, s, Chain(blocks, s.head))
  }

  /** Each of some tipsets was accepted when it was put last. */
  predicate AllAcceptedLast(ops: seq<Op>, c: seq<TipSet>) {
    forall i | 0 <= i < |c| :: LastPut(ops, c[i].key).Some? && PutSucceeds(LastPut(ops, c[i].key).value)
  }

  predicate AllAccepted(entries: Entries, c: seq<TipSet>) {
    forall i | 0 <= i < |c| :: c[i].key in entries && PutSucceeds(entries[c[i].key])
  }

  predicate AllStored(enc: Cid -> seq<Byte>, s: State, c: seq<TipSet>) {
    forall i | 0 <= i < |c| ::
      && c[i].key in s.entries
      && HasState(enc, s.data, c[i]) && MetadataOf(enc, s.data, c[i]) == s.entries[c[i].key]
  }

  lemma {:induction false} StoredIffAccepted(enc: Cid -> seq<Byte>, s: State, c: seq<TipSet>)
    requires AcceptedIsPersisted(enc, s)
    requires forall i | 0 <= i < |c| :: c[i].key in s.entries && s.entries[c[i].key].tipset == c[i]
    ensures AllStored(enc, s, c) <==> AllAccepted(s.entries, c)
  {
    hide StateKey;
    if AllAccepted(s.entries, c) {
      forall i | 0 <= i < |c|
        ensures c[i].key in s.entries
        ensures HasState(enc, s.data, c[i]) && MetadataOf(enc, s.data, c[i]) == s.entries[c[i].key]
      {
        var m := s.entries[c[i].key];
        assert PutSucceeds(m) && m.tipset == c[i];
        assert s.data[StateKey(enc, c[i])] == StateValue(m.stateRoot, m.receipts);
      }
    }
    if AllStored(enc, s, c) {
      forall i | 0 <= i < |c| ensures PutSucceeds(s.entries[c[i].key]) {
        assert MetadataOf(enc, s.data, c[i]) == s.entries[c[i].key];
      }
    }
  }

  /** Where what was accepted is stored, a store loads the same if and only if the whole chain of the
      head was accepted. */
  lemma {:induction false} LoadsTheSameIff(enc: Cid -> seq<Byte>, s: State, blocks: Provider, genesis: Cid)
    requires AcceptedIsPersisted(enc, s) && WellFormed(blocks) && ChainWasPut(s, blocks, genesis)
    ensures LoadsTheSame(enc, s, blocks, genesis) <==> AllAccepted(s.entries, Chain(blocks, s.head))
  {
    hide Chain, StateKey, HasState;
    StoredIffAccepted(enc, s, Chain(blocks, s.head));
    hide AllAccepted, AcceptedIsPersisted;
    HeadIsStored(enc, s);
    assert blocks[s.data[HEAD_KEY].key] == s.head;
  }

  lemma HeadIsStored(enc: Cid -> seq<Byte>, s: State)
    requires AcceptedIsPersisted(enc, s) && s.head.Defined()
    ensures HEAD_KEY in s.data && s.data[HEAD_KEY] == HeadValue(s.head.key)
  {
  }

  /** After every run of tipsets put and heads set, however often and in whatever order, where the
      chain of the head was put and leads back to genesis: loading finds the same head and what was
      put last for every ancestor if and only if each of those was accepted when it was put last.
      What becomes of other tipsets does not matter. */
  lemma {:induction false} ReloadAfterEveryRun(enc: Cid -> seq<Byte>, data: Data, ops: seq<Op>, blocks: Provider,
                                               genesis: Cid)
    requires Printable(enc) && WellFormed(blocks)
    requires ChainWasPut(Run(enc, State(data, map[], UNDEF_TIPSET), ops), blocks, genesis)
    ensures var s := Run(enc, State(data, map[], UNDEF_TIPSET), ops);
            LoadsTheSame(enc, s, blocks, genesis) <==> AllAcceptedLast(ops, Chain(blocks, s.head))
  {
    hide Run, LastPut, Chain, StateKey, Printable, WellFormed, LoadsTheSame, AcceptedIsPersisted, AllAccepted,
      AllAcceptedLast;
    var s := Run(enc, State(data, map[], UNDEF_TIPSET), ops);
    EveryRunPersistsAccepted(enc, data, ops);
    LoadsTheSameIff(enc, s, blocks, genesis);
    AcceptedIffPut(enc, data, ops, Chain(blocks, s.head));
  }

  lemma AcceptedIffPut(enc: Cid -> seq<Byte>, data: Data, ops: seq<Op>, c: seq<TipSet>)
    ensures AllAccepted(Run(enc, State(data, map[], UNDEF_TIPSET), ops).entries, c) <==> AllAcceptedLast(ops, c)
  {
    hide Run, LastPut, PutSucceeds;
    var s := Run(enc, State(data, map[], UNDEF_TIPSET), ops);
    forall i | 0 <= i < |c|
      ensures c[i].key in s.entries <==> LastPut(ops, c[i].key).Some?
      ensures c[i].key in s.entries ==> LastPut(ops, c[i].key) == Some(s.entries[c[i].key])
    {
      EntriesArePutLast(enc, data, ops, c[i].key);
    }
  }

  ghost predicate HasStates(enc: Cid -> seq<Byte>, data: Data, entries: Entries, c: seq<TipSet>, n: nat)
    requires n <= |c|
  {
    forall i | 0 <= i < n ::
      HasState(enc, data, c[i]) && c[i].key in entries && entries[c[i].key] == MetadataOf(enc, data, c[i])
  }

  ghost predicate HasOnly(entries: Entries, c: seq<TipSet>, n: nat)
    requires n <= |c|
  {
    forall k | k in entries :: exists i :: 0 <= i < n && c[i].key == k
  }

  /** The index holds the first `n` tipsets of a chain and no others, with the states stored for them. */
  ghost predicate Loaded(enc: Cid -> seq<Byte>, data: Data, entries: Entries, c: seq<TipSet>, n: nat)
    requires n <= |c|
  {
    HasStates(enc, data, entries, c, n) && HasOnly(entries, c, n)
  }

  lemma LoadedNothing(enc: Cid -> seq<Byte>, data: Data, c: seq<TipSet>)
    ensures Loaded(enc, data, map[], c, 0)
  {
  }

  lemma LoadedMore(enc: Cid -> seq<Byte>, data: Data, entries: Entries, blocks: Provider, c: seq<TipSet>, n: nat)
    requires n < |c| && Loaded(enc, data, entries, c, n) && forall i | 0 <= i < |c| :: Holds(blocks, c[i])
    ensures c[n].key in entries ==> entries[c[n].key].tipset == c[n]
    ensures HasState(enc, data, c[n]) ==> Loaded(enc, data, entries[c[n].key := MetadataOf(enc, data, c[n])], c, n + 1)
  {
    hide HasState, HasStates, HasOnly;
    if c[n].key in entries {
      var i := FindKey(entries, c, n, c[n].key);
      assert Holds(blocks, c[i]) && Holds(blocks, c[n]);
      StateAt(enc, data, entries, c, n, i);
    }
    if HasState(enc, data, c[n]) {
      HasStatesMore(enc, data, entries, blocks, c, n);
      HasOnlyMore(entries, c, n, MetadataOf(enc, data, c[n]));
    }
  }

  lemma FindKey(entries: Entries, c: seq<TipSet>, n: nat, k: TipSetKey) returns (i: nat)
    requires n <= |c| && HasOnly(entries, c, n) && k in entries
    ensures i < n && c[i].key == k
  {
    i :| 0 <= i < n && c[i].key == k;
  }

  lemma StateAt(enc: Cid -> seq<Byte>, data: Data, entries: Entries, c: seq<TipSet>, n: nat, i: nat)
    requires i < n <= |c| && HasStates(enc, data, entries, c, n)
    ensures c[i].key in entries && entries[c[i].key].tipset == c[i]
  {
  }

  lemma HasStatesMore(enc: Cid -> seq<Byte>, data: Data, entries: Entries, blocks: Provider, c: seq<TipSet>, n: nat)
    requires n < |c| && HasStates(enc, data, entries, c, n) && HasState(enc, data, c[n])
    requires forall i | 0 <= i < |c| :: Holds(blocks, c[i])
    ensures HasStates(enc, data, entries[c[n].key := MetadataOf(enc, data, c[n])], c, n + 1)
  {
    hide HasState, MetadataOf;
    var entries' := entries[c[n].key := MetadataOf(enc, data, c[n])];
    forall i | 0 <= i < n + 1
      ensures HasState(enc, data, c[i]) && c[i].key in entries' && entries'[c[i].key] == MetadataOf(enc, data, c[i])
    {
      if c[i].key == c[n].key { assert Holds(blocks, c[i]) && Holds(blocks, c[n]); }
    }
  }

  lemma HasOnlyMore(entries: Entries, c: seq<TipSet>, n: nat, m: TipSetMetadata)
    requires n < |c| && HasOnly(entries, c, n)
    ensures HasOnly(entries[c[n].key := m], c, n + 1)
  {
    var entries' := entries[c[n].key := m];
    forall k | k in entries' ensures exists i :: 0 <= i < n + 1 && c[i].key == k {
      if k == c[n].key { assert c[n].key == k; }
      else { var i :| 0 <= i < n && c[i].key == k; assert c[i].key == k; }
    }
  }

  lemma LoadedAll(enc: Cid -> seq<Byte>, data: Data, entries: Entries, c: seq<TipSet>)
    requires Loaded(enc, data, entries, c, |c|)
    ensures forall i | 0 <= i < |c| :: HasState(enc, data, c[i])
  {
    hide HasState;
  }

  /** The datastore outlives stores. */
  class Datastore {
    var data: Data

    constructor ()
      ensures data == map[]
    {
      data := map[];
    }
  }

  /** `Store`; `blocks` is what can be built from the blocks stored. */
  class Store {
    const enc: Cid -> seq<Byte>
    const genesis: Cid
    const ds: Datastore
    var tipIndex: TipIndex
    var head: TipSet

    ghost predicate Valid()
      reads this, tipIndex
    {
      tipIndex.Valid() && tipIndex.enc == enc
    }

    ghost function Value(): State
      requires Valid()
      reads this, tipIndex, ds
    {
      State(ds.data, tipIndex.Contents(), head)
    }

    constructor (e: Cid -> seq<Byte>, d: Datastore, g: Cid)
      requires Printable(e)
      ensures Valid() && fresh(tipIndex) && enc == e && ds == d && genesis == g
      ensures Value() == State(d.data, map[], UNDEF_TIPSET)
    {
      enc, ds, genesis, head := e, d, g, UNDEF_TIPSET;
      tipIndex := new TipIndex(e);
    }

    method PutTipSetMetadata(m: TipSetMetadata) returns (ok: bool)
      requires Valid()
      requires m.tipset.key in tipIndex.Contents() ==> tipIndex.Contents()[m.tipset.key].tipset == m.tipset
      modifies tipIndex, ds
      ensures Valid() && ok == PutSucceeds(m) && Value() == Applied(enc, old(Value()), PutMetadata(m))
    {
      hide KeyString, MakeKey, SameEntries, Printable;
      ok := tipIndex.Put(m);
      if !ok { return; }
      ok := WriteTipSetMetadata(m);
    }

    method WriteTipSetMetadata(m: TipSetMetadata) returns (ok: bool)
      requires m.tipset.Defined()
      modifies ds
      ensures ok == PutSucceeds(m)
      ensures ds.data ==
                if ok then old(ds.data)[StateKey(enc, m.tipset) := StateValue(m.stateRoot, m.receipts)]
                else old(ds.data)
    {
      if m.stateRoot == UNDEF { return false; }
      if m.receipts == UNDEF { return false; }
      var key := [47] + MakeKey(KeyString(m.tipset.key, enc), m.tipset.Height());
      ds.data := ds.data[key := StateValue(m.stateRoot, m.receipts)];
      ok := true;
    }

    /** The head is written to the datastore before it is compared with the current one. */
    method SetHead(ts: TipSet) returns (published: bool, failed: bool)
      requires Valid() && (ts.key == head.key ==> ts == head)
      modifies this`head, ds
      ensures Valid() && Value() == Applied(enc, old(Value()), MoveHead(ts))
      ensures published <==> ts != old(head) && ts.Defined()
      ensures failed <==> ts != old(head) && !ts.Defined()
    {
      hide KeyString, MakeKey, SameEntries, Printable;
      ds.data := ds.data[HEAD_KEY := HeadValue(ts.key)];
      if ts.key == head.key { return false, false; }
      head := ts;
      if !ts.Defined() { return false, true; }
      return true, false;
    }

    /** Loads what the datastore knows of one tipset. */
    method LoadStateRootAndReceipts(ts: TipSet) returns (r: Option<TipSetMetadata>)
      requires ts.Defined()
      ensures r.Some? <==> StateKey(enc, ts) in ds.data && ds.data[StateKey(enc, ts)].StateValue?
      ensures r.Some? ==>
                var v := ds.data[StateKey(enc, ts)];
                r.value == TipSetMetadata(v.stateRoot, ts, v.receipts)
    {
      var key := [47] + MakeKey(KeyString(ts.key, enc), ts.Height());
      if key !in ds.data || !ds.data[key].StateValue? { return None; }
      r := Some(TipSetMetadata(ds.data[key].stateRoot, ts, ds.data[key].receipts));
    }

    /** One turn of the loop of `Load`. */
    method LoadOne(ghost blocks: Provider, ghost c: seq<TipSet>, ghost n: nat, ts: TipSet) returns (ok: bool)
      requires Valid() && n < |c| && ts == c[n] && ts.Defined() && Loaded(enc, ds.data, tipIndex.Contents(), c, n)
      requires forall i | 0 <= i < |c| :: Holds(blocks, c[i])
      modifies tipIndex, ds
      ensures Valid() && ds.data == old(ds.data)
      ensures ok == HasState(enc, ds.data, ts)
      ensures ok ==> Loaded(enc, ds.data, tipIndex.Contents(), c, n + 1)
    {
      hide StateKey, TipIndex.Valid, TipIndex.Contents, Loaded;
      var m := LoadStateRootAndReceipts(ts);
      if m.None? { return false; }
      LoadedMore(enc, ds.data, tipIndex.Contents(), blocks, c, n);
      ok := PutTipSetMetadata(m.value);
      assert ds.data == old(ds.data);
    }

    /** `Load`: exactly what the datastore leads to is indexed, and the datastore does not change. */
    method Load(blocks: Provider) returns (ok: bool)
      requires Valid() && Printable(enc) && WellFormed(blocks)
      requires head.key in blocks ==> head == blocks[head.key]
      modifies this, ds
      ensures Valid() && fresh(tipIndex) && ds.data == old(ds.data)
      ensures ok <==> Loadable(enc, ds.data, blocks, genesis)
      ensures ok ==> head == blocks[ds.data[HEAD_KEY].key]
      ensures ok ==> Loaded(enc, ds.data, tipIndex.Contents(), Chain(blocks, head), |Chain(blocks, head)|)
      ensures !ok ==> head == old(head)
    {
      hide TipIndex.Valid, TipIndex.Contents, StateKey, Printable, Chain, WellFormed, HasState, Loaded;
      tipIndex := new TipIndex(enc);
      if HEAD_KEY !in ds.data || !ds.data[HEAD_KEY].HeadValue? { return false; }
      var headKey := ds.data[HEAD_KEY].key;
      if headKey !in blocks { return false; }
      var headTs := blocks[headKey];
      HeldIs(blocks, headKey);
      ghost var c := Chain(blocks, headTs);
      ChainFacts(blocks, headTs);
      var iter := new TipsetIterator(blocks, headTs);
      var genesii := UNDEF_TIPSET;
      ghost var n := 0;
      LoadedNothing(enc, ds.data, c);
      while iter.value.Defined()
        invariant Valid() && fresh(tipIndex) && fresh(iter) && ds.data == old(ds.data) && head == old(head)
        invariant iter.Valid() && 0 <= n <= |c| && iter.Remaining() == c[n..]
        invariant Loaded(enc, ds.data, tipIndex.Contents(), c, n) && genesii == if n > 0 then c[n - 1] else UNDEF_TIPSET
        decreases |c| - n
      {
        assert iter.value == c[n];
        ok := LoadOne(blocks, c, n, iter.value);
        if !ok { return; }
        genesii := iter.value;
        var _ := iter.Next();
        n := n + 1;
      }
      LoadedAll(enc, ds.data, tipIndex.Contents(), c);
      if |genesii.blocks| != 1 { return false; }
      if genesii.blocks[0].cid != genesis { return false; }
      var _, _ := SetHead(headTs);
      assert ds.data == old(ds.data);
      ok := true;
    }
  }

  /** A new store on the datastore a run has left, where the chain of the head was accepted: it loads,
      with the head of that run, and with exactly the chain of the head indexed, each tipset as it was
      put last. */
  method Reopen(enc: Cid -> seq<Byte>, ds: Datastore, genesis: Cid, blocks: Provider, ghost data: Data,
                ghost ops: seq<Op>)
    returns (store: Store, ok: bool)
    requires Printable(enc) && WellFormed(blocks)
    requires ChainWasPut(Run(enc, State(data, map[], UNDEF_TIPSET), ops), blocks, genesis)
    requires AllAcceptedLast(ops, Chain(blocks, Run(enc, State(data, map[], UNDEF_TIPSET), ops).head))
    requires ds.data == Run(enc, State(data, map[], UNDEF_TIPSET), ops).data
    modifies ds
    ensures ok && fresh(store) && store.Valid() && ds.data == old(ds.data)
    ensures var s := Run(enc, State(data, map[], UNDEF_TIPSET), ops);
            && store.head == s.head
            && forall k :: k in store.tipIndex.Contents() <==> exists ts :: ts in Chain(blocks, s.head) && ts.key == k
    ensures var s := Run(enc, State(data, map[], UNDEF_TIPSET), ops);
            forall ts | ts in Chain(blocks, s.head) ::
              ts.key in store.tipIndex.Contents() && store.tipIndex.Contents()[ts.key] == s.entries[ts.key]
  {
    hide Run, AllAcceptedLast, Chain, StateKey, Printable, WellFormed, Loadable, HasState, Loaded, TipIndex.Valid,
      TipIndex.Contents;
    ReloadAfterEveryRun(enc, data, ops, blocks, genesis);
    NoEmptyKey(blocks);
    store := new Store(enc, ds, genesis);
    ok := store.Load(blocks);
    ghost var s := Run(enc, State(data, map[], UNDEF_TIPSET), ops);
    LoadedIs(enc, s.data, store.tipIndex.Contents(), Chain(blocks, s.head));
  }

  lemma NoEmptyKey(blocks: Provider)
    requires WellFormed(blocks)
    ensures [] !in blocks
  {
  }

  /** A chain loaded as a whole: exactly its keys, and what the datastore has for each. */
  lemma LoadedIs(enc: Cid -> seq<Byte>, data: Data, entries: Entries, c: seq<TipSet>)
    requires Loaded(enc, data, entries, c, |c|)
    ensures forall k :: k in entries <==> exists ts :: ts in c && ts.key == k
    ensures forall ts | ts in c :: HasState(enc, data, ts) && ts.key in entries
              && entries[ts.key] == MetadataOf(enc, data, ts)
  {
    hide HasState;
    forall k | k in entries ensures exists ts :: ts in c && ts.key == k {
      var i :| 0 <= i < |c| && c[i].key == k;
      assert c[i] in c;
    }
  }

  lemma HeldIs(blocks: Provider, key: TipSetKey)
    requires WellFormed(blocks) && key in blocks
    ensures Holds(blocks, blocks[key]) && blocks[key].Defined() && blocks[key].key == key
  {
  }
}
