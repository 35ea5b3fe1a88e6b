/** The index of tipsets by key, and by parents and height. */
module TipIndexes {
  import opened Primitives
  import opened TipSetKeys
  import opened TipSets
  import opened StoreKeys

  datatype TipSetMetadata = TipSetMetadata(stateRoot: Cid, tipset: TipSet, receipts: Cid)

  type ById = map<seq<Byte>, TipSetMetadata>

  type Entries = map<TipSetKey, TipSetMetadata>

  function ParentsKey(enc: Cid -> seq<Byte>, m: TipSetMetadata): seq<Byte>
    requires m.tipset.Defined()
  {
    MakeKey(KeyString(m.tipset.Parents(), enc), m.tipset.Height())
  }

  /** The second index holds a tipset exactly where its parents and height say, with what the first
      index holds. */
  ghost predicate SameEntries(enc: Cid -> seq<Byte>, byId: ById, byParents: map<seq<Byte>, ById>) {
    && (forall s, t | s in byParents && t in byParents[s] ::
          t in byId && byParents[s][t] == byId[t] && byId[t].tipset.Defined() && ParentsKey(enc, byId[t]) == s)
    && (forall t | t in byId && byId[t].tipset.Defined() ::
          ParentsKey(enc, byId[t]) in byParents && t in byParents[ParentsKey(enc, byId[t])])
    && (forall s | s in byParents :: byParents[s] != map[])
  }

  function Filed(enc: Cid -> seq<Byte>, byParents: map<seq<Byte>, ById>, t: seq<Byte>,
                 m: TipSetMetadata): map<seq<Byte>, ById>
    requires m.tipset.Defined()
  {
    var s := ParentsKey(enc, m);
    byParents[s := (if s in byParents then byParents[s] else map[])[t := m]]
  }

  lemma FiledKeepsSame(enc: Cid -> seq<Byte>, byId: ById, byParents: map<seq<Byte>, ById>, t: seq<Byte>,
                       m: TipSetMetadata)
    requires SameEntries(enc, byId, byParents) && m.tipset.Defined()
    requires t in byId ==> byId[t].tipset == m.tipset
    ensures SameEntries(enc, byId[t := m], Filed(enc, byParents, t, m))
  {
    hide MakeKey, KeyString;
    var byId', byParents' := byId[t := m], Filed(enc, byParents, t, m);
    var s := ParentsKey(enc, m);
    assert t in byParents'[s];
    forall u | u in byId' && byId'[u].tipset.Defined()
      ensures ParentsKey(enc, byId'[u]) in byParents' && u in byParents'[ParentsKey(enc, byId'[u])]
    {
      if u != t { assert u in byParents[ParentsKey(enc, byId[u])]; }
    }
  }

  lemma UnfiledKeepsSame(enc: Cid -> seq<Byte>, byId: ById, byParents: map<seq<Byte>, ById>, t: seq<Byte>,
                         m: TipSetMetadata)
    requires SameEntries(enc, byId, byParents) && !m.tipset.Defined()
    requires t in byId ==> byId[t].tipset == m.tipset
    ensures SameEntries(enc, byId[t := m], byParents)
  {
    hide MakeKey, KeyString;
  }

  ghost predicate Named(enc: Cid -> seq<Byte>, byId: ById) {
    forall t | t in byId :: t == KeyString(byId[t].tipset.key, enc)
  }

  /** The first index by tipset key. */
  ghost function ByKey(enc: Cid -> seq<Byte>, byId: ById): Entries
    requires Named(enc, byId)
  {
    map t | t in byId :: byId[t].tipset.key := byId[t]
  }

  lemma ByKeyAt(enc: Cid -> seq<Byte>, byId: ById, key: TipSetKey)
    requires Printable(enc) && Named(enc, byId)
    ensures key in ByKey(enc, byId) <==> KeyString(key, enc) in byId
    ensures key in ByKey(enc, byId) ==>
              ByKey(enc, byId)[key] == byId[KeyString(key, enc)] && ByKey(enc, byId)[key].tipset.key == key
  {
    hide KeyString, Printable;
    if KeyString(key, enc) in byId {
      KeyStringInjective(key, byId[KeyString(key, enc)].tipset.key, enc);
    }
  }

  lemma ByKeyPut(enc: Cid -> seq<Byte>, byId: ById, m: TipSetMetadata)
    requires Printable(enc) && Named(enc, byId)
    ensures Named(enc, byId[KeyString(m.tipset.key, enc) := m])
    ensures ByKey(enc, byId[KeyString(m.tipset.key, enc) := m]) == ByKey(enc, byId)[m.tipset.key := m]
  {
    hide KeyString, Printable, ByKey;
    var byId' := byId[KeyString(m.tipset.key, enc) := m];
    var e, e' := ByKey(enc, byId)[m.tipset.key := m], ByKey(enc, byId');
    forall k: TipSetKey ensures k in e <==> k in e' ensures k in e ==> e[k] == e'[k] {
      ByKeyAt(enc, byId, k);
      ByKeyAt(enc, byId', k);
      if KeyString(k, enc) == KeyString(m.tipset.key, enc) { KeyStringInjective(k, m.tipset.key, enc); }
    }
  }

  /** `TipIndex`; CIDs identify blocks, so one key never stands for two tipsets. */
  class TipIndex {
    const enc: Cid -> seq<Byte>
    var byId: ById
    var byParentsAndHeight: map<seq<Byte>, ById>

    ghost predicate Valid()
      reads this
    {
      Printable(enc) && SameEntries(enc, byId, byParentsAndHeight) && Named(enc, byId)
    }

    /** What has been put, by key. */
    ghost function Contents(): Entries
      requires Valid()
      reads this
    {
      ByKey(enc, byId)
    }

    constructor (e: Cid -> seq<Byte>)
      requires Printable(e)
      ensures Valid() && enc == e && Contents() == map[]
    {
      enc, byId, byParentsAndHeight := e, map[], map[];
    }

    /** An undefined tipset is still filed under its key before the error. */
    method Put(m: TipSetMetadata) returns (ok: bool)
      requires Valid()
      requires m.tipset.key in Contents() ==> Contents()[m.tipset.key].tipset == m.tipset
      modifies this
      ensures Valid() && ok == m.tipset.Defined()
      ensures Contents() == old(Contents())[m.tipset.key := m]
    {
      hide KeyString, MakeKey, Printable, SameEntries, Named, ByKey;
      var t := KeyString(m.tipset.key, enc);
      ByKeyAt(enc, byId, m.tipset.key);
      ByKeyPut(enc, byId, m);
      if m.tipset.Defined() { FiledKeepsSame(enc, byId, byParentsAndHeight, t, m); }
      else { UnfiledKeepsSame(enc, byId, byParentsAndHeight, t, m); }
      byId := byId[t := m];
      if !m.tipset.Defined() { return false; }
      var key := MakeKey(KeyString(m.tipset.Parents(), enc), m.tipset.Height());
      var children := if key in byParentsAndHeight then byParentsAndHeight[key] else map[];
      byParentsAndHeight := byParentsAndHeight[key := children[t := m]];
      ok := true;
    }

    method Get(key: TipSetKey) returns (r: Option<TipSetMetadata>)
      requires Valid()
      ensures r.Some? <==> key in Contents()
      ensures r.Some? ==> r.value == Contents()[key] && r.value.tipset.key == key
    {
      ByKeyAt(enc, byId, key);
      var t := KeyString(key, enc);
      if t !in byId { return None; }
      r := Some(byId[t]);
    }

    /** All that was put with these parents at this height, and nothing else. */
    method GetByParentsAndHeight(parents: TipSetKey, height: Uint64) returns (r: seq<TipSetMetadata>, found: bool)
      requires Valid()
      ensures forall m :: m in r <==> IsChild(m, parents, height)
      ensures found <==> r != []
    {
      hide KeyString, MakeKey, Printable;
      var key := MakeKey(KeyString(parents, enc), height);
      r := [];
      FoundUnder(parents, height);
      if key !in byParentsAndHeight { return [], false; }
      var children := byParentsAndHeight[key];
      var todo := children.Keys;
      while todo != {}
        invariant todo <= children.Keys
        invariant forall m :: m in r <==> exists t :: t in children && t !in todo && children[t] == m
        decreases |todo|
      {
        var t :| t in todo;
        r := r + [children[t]];
        todo := todo - {t};
      }
      var some :| some in children;
      assert children[some] in r;
      found := true;
    }

    ghost predicate IsChild(m: TipSetMetadata, parents: TipSetKey, height: Uint64)
      requires Valid()
      reads this
    {
      && m.tipset.key in Contents() && Contents()[m.tipset.key] == m
      && m.tipset.Defined() && m.tipset.Parents() == parents && m.tipset.Height() == height
    }

    lemma FoundUnder(parents: TipSetKey, height: Uint64)
      requires Valid()
      ensures var key := MakeKey(KeyString(parents, enc), height);
              forall m :: IsChild(m, parents, height) <==>
                key in byParentsAndHeight && exists t :: t in byParentsAndHeight[key] && byParentsAndHeight[key][t] == m
    {
      hide KeyString, MakeKey;
      var key := MakeKey(KeyString(parents, enc), height);
      forall m
        ensures IsChild(m, parents, height) <==>
                  && key in byParentsAndHeight
                  && exists t :: t in byParentsAndHeight[key] && byParentsAndHeight[key][t] == m
      {
        ByKeyAt(enc, byId, m.tipset.key);
        if IsChild(m, parents, height) {
          var t := KeyString(m.tipset.key, enc);
          assert ParentsKey(enc, m) == key && t in byParentsAndHeight[key];
        }
        if key in byParentsAndHeight {
          if t :| t in byParentsAndHeight[key] && byParentsAndHeight[key][t] == m {
            assert byId[t] == m;
            MakeKeyInjective(m.tipset.Parents(), m.tipset.Height(), parents, height, enc);
          }
        }
      }
    }
  }
}
