/** `ChainSelector`: the weight of a tipset and the choice between two. */
module ForkChoice {
  import opened Primitives
  import opened TipSetKeys
  import opened TipSets
  import opened FixedPoint
  import Lexicographic

  datatype WeightError = EmptyTipSet | UndefinedState | NoState | Arithmetic(error: FixedError)

  /** What weighing depends on: genesis, the total power in each stored state, and how CIDs are
      printed. */
  datatype Selector = Selector(genesis: Cid, power: map<Cid, nat>, show: Cid -> seq<Byte>)

  function Weight(sel: Selector, ts: TipSet, state: Cid): Result<Uint64, WeightError> {
    if ts.Defined() && ts.blocks[0].cid == sel.genesis then Ok(0)
    else if !ts.Defined() then Err(EmptyTipSet)
    else if ToBig(ts.ParentWeight()).Err? then Err(Arithmetic(ToBig(ts.ParentWeight()).error))
    else if state == UNDEF then Err(UndefinedState)
    else if state !in sel.power then Err(NoState)
    else match WeightOf(ts.ParentWeight(), |ts.blocks|, sel.power[state])
      case Err(e) => Err(Arithmetic(e))
      case Ok(w) => Ok(w)
  }

  datatype CompareError = Unweighable(error: WeightError) | Unordered

  /** `IsHeavier`: by weight, then by smaller ticket, then by printed key. */
  function IsHeavier(sel: Selector, a: TipSet, b: TipSet, aState: Cid, bState: Cid): Result<bool, CompareError> {
    var aW := Weight(sel, a, aState);
    if aW.Err? then Err(Unweighable(aW.error))
    else
      var bW := Weight(sel, b, bState);
      if bW.Err? then Err(Unweighable(bW.error))
      else if aW.value != bW.value then Ok(aW.value > bW.value)
      else if a.MinTicket() != b.MinTicket() then Ok(Lexicographic.Less(a.MinTicket(), b.MinTicket()))
      else if KeyString(a.key, sel.show) == KeyString(b.key, sel.show) then Err(Unordered)
      else Ok(Lexicographic.Less(KeyString(b.key, sel.show), KeyString(a.key, sel.show)))
  }

  /** Tipsets and their states are given by their keys, and all of them can be weighed. */
  ghost predicate Weighable(sel: Selector, tipsets: set<TipSet>, states: map<TipSet, Cid>) {
    && Printable(sel.show)
    && (forall a, b | a in tipsets && b in tipsets && a.key == b.key :: a == b)
    && (forall a | a in tipsets :: a in states && Weight(sel, a, states[a]).Ok?)
  }

  ghost predicate Heavier(sel: Selector, states: map<TipSet, Cid>, a: TipSet, b: TipSet)
    requires a in states && b in states
  {
    IsHeavier(sel, a, b, states[a], states[b]) == Ok(true)
  }

  /** Comparing is an error exactly for a tipset and itself, and else one of two is heavier:
      fork choice is total and asymmetric. */
  lemma HeavierIsTotal(sel: Selector, tipsets: set<TipSet>, states: map<TipSet, Cid>, a: TipSet, b: TipSet)
    requires Weighable(sel, tipsets, states) && a in tipsets && b in tipsets
    ensures IsHeavier(sel, a, b, states[a], states[b]).Err? <==> a.key == b.key
    ensures a.key != b.key ==> (Heavier(sel, states, a, b) <==> !Heavier(sel, states, b, a))
    ensures a.key == b.key ==> !Heavier(sel, states, a, b)
  {
    hide KeyString, Weight, Lexicographic.Less;
    var s, t := KeyString(a.key, sel.show), KeyString(b.key, sel.show);
    if a.key != b.key {
      if s == t { KeyStringInjective(a.key, b.key, sel.show); }
      Ordered(s, t);
      if a.Defined() && b.Defined() { Ordered(a.MinTicket(), b.MinTicket()); }
    }
    WeighedIsDefined(sel, a, states[a]);
    WeighedIsDefined(sel, b, states[b]);
  }

  lemma WeighedIsDefined(sel: Selector, ts: TipSet, state: Cid)
    requires Weight(sel, ts, state).Ok?
    ensures ts.Defined()
  {
  }

  lemma Ordered(s: seq<Byte>, t: seq<Byte>)
    ensures s != t ==> (Lexicographic.Less(s, t) <==> !Lexicographic.Less(t, s))
  {
    Lexicographic.Total(s, t);
    if Lexicographic.Less(s, t) { Lexicographic.Asymmetric(s, t); }
    if Lexicographic.Less(t, s) { Lexicographic.Asymmetric(t, s); }
  }

  /** Fork choice is transitive. */
  lemma HeavierIsTransitive(sel: Selector, tipsets: set<TipSet>, states: map<TipSet, Cid>, a: TipSet, b: TipSet,
                            c: TipSet)
    requires Weighable(sel, tipsets, states) && a in tipsets && b in tipsets && c in tipsets
    requires Heavier(sel, states, a, b) && Heavier(sel, states, b, c)
    ensures Heavier(sel, states, a, c)
  {
    hide KeyString, Weight, Lexicographic.Less;
    WeighedIsDefined(sel, a, states[a]);
    WeighedIsDefined(sel, b, states[b]);
    WeighedIsDefined(sel, c, states[c]);
    var aw, bw, cw := Weight(sel, a, states[a]).value, Weight(sel, b, states[b]).value, Weight(sel, c, states[c]).value;
    if aw == bw == cw {
      Chain(a.MinTicket(), b.MinTicket(), c.MinTicket());
      Chain(KeyString(c.key, sel.show), KeyString(b.key, sel.show), KeyString(a.key, sel.show));
    }
  }

  lemma Chain(a: seq<Byte>, b: seq<Byte>, c: seq<Byte>)
    ensures Lexicographic.Less(a, b) && Lexicographic.Less(b, c) ==> Lexicographic.Less(a, c) && a != c
    ensures Lexicographic.Less(a, b) ==> a != b
    ensures Lexicographic.Less(b, c) ==> b != c
  {
    if Lexicographic.Less(a, b) { Lexicographic.Asymmetric(a, b); }
    if Lexicographic.Less(b, c) { Lexicographic.Asymmetric(b, c); }
    if Lexicographic.Less(a, b) && Lexicographic.Less(b, c) {
      Lexicographic.Transitive(a, b, c);
      Lexicographic.Asymmetric(a, c);
    }
  }

  /** A child that names its parent's weight is heavier than the parent, if both can be weighed. */
  lemma ChildIsHeavier(sel: Selector, parent: TipSet, child: TipSet, parentState: Cid, childState: Cid)
    requires Weight(sel, parent, parentState).Ok? && Weight(sel, child, childState).Ok?
    requires child.Defined() && child.blocks[0].cid != sel.genesis
    requires child.ParentWeight() == Weight(sel, parent, parentState).value
    requires Countable(|child.blocks|, sel.power[childState])
    ensures IsHeavier(sel, child, parent, childState, parentState) == Ok(true)
  {
    hide WeightOf, ToBig, Countable;
    WeightAlwaysGrows(child.ParentWeight(), |child.blocks|, sel.power[childState]);
  }

  /** While whole parts stay below 2^53, the weight of a tipset is that of its parent plus, in
      thousandths, twice its number of blocks and the number of binary digits of the power: for every
      tipset there is that is not genesis and whose parent state is stored, and no other. */
  lemma WeightIs(sel: Selector, ts: TipSet, state: Cid)
    requires ts.Defined() && ts.blocks[0].cid != sel.genesis
    requires state in sel.power ==>
               ts.blocks[0].parentWeight / 1000 + 2 * |ts.blocks| + BitLen(sel.power[state]) < 9007199254740992
    requires ts.blocks[0].parentWeight / 1000 < 9007199254740992
    ensures Weight(sel, ts, state) ==
              if state == UNDEF then Err(UndefinedState)
              else if state !in sel.power then Err(NoState)
              else Ok(ts.blocks[0].parentWeight + 1000 * (2 * |ts.blocks| + BitLen(sel.power[state])))
  {
    hide ToBig, WeightOf, BitLen;
    SmallIsFixed(ts.blocks[0].parentWeight);
    if state in sel.power { WeightIsExact(ts.blocks[0].parentWeight, |ts.blocks|, sel.power[state]); }
  }

  lemma SmallIsFixed(w: Uint64)
    requires w / 1000 < 9007199254740992
    ensures ToBig(w).Ok?
  {
  }

  /** Genesis weighs nothing, and a tipset without blocks cannot be weighed. */
  lemma WeightOfEnds(sel: Selector, ts: TipSet, state: Cid)
    ensures ts.blocks == [] ==> Weight(sel, ts, state) == Err(EmptyTipSet)
    ensures ts.blocks != [] && ts.blocks[0].cid == sel.genesis ==> Weight(sel, ts, state) == Ok(0)
  {
    hide ToBig, WeightOf;
  }

  /** So of two tipsets on the same parent the one with more blocks is heavier, whatever their tickets. */
  lemma MoreBlocksAreHeavier(sel: Selector, a: TipSet, b: TipSet, state: Cid)
    requires a.Defined() && b.Defined() && a.blocks[0].cid != sel.genesis && b.blocks[0].cid != sel.genesis
    requires a.blocks[0].parentWeight == b.blocks[0].parentWeight && state != UNDEF && state in sel.power
    requires a.blocks[0].parentWeight / 1000 + 2 * |a.blocks| + BitLen(sel.power[state]) < 9007199254740992
    requires |a.blocks| > |b.blocks|
    ensures IsHeavier(sel, a, b, state, state) == Ok(true)
    ensures IsHeavier(sel, b, a, state, state) == Ok(false)
  {
    hide Weight, BitLen;
    WeightIs(sel, a, state);
    WeightIs(sel, b, state);
  }

  /** Who wins between tipsets of the same weight: the one whose least ticket comes first in byte order
      and, with equal tickets, the one whose printed key comes last. */
  lemma TiesGoTo(sel: Selector, a: TipSet, b: TipSet, aState: Cid, bState: Cid)
    requires Weight(sel, a, aState).Ok? && Weight(sel, a, aState) == Weight(sel, b, bState)
    ensures a.Defined() && b.Defined()
    ensures a.MinTicket() != b.MinTicket() ==>
              IsHeavier(sel, a, b, aState, bState) == Ok(Lexicographic.Precedes(a.MinTicket(), b.MinTicket()))
    ensures a.MinTicket() == b.MinTicket() && KeyString(a.key, sel.show) != KeyString(b.key, sel.show) ==>
              IsHeavier(sel, a, b, aState, bState) ==
                Ok(Lexicographic.Precedes(KeyString(b.key, sel.show), KeyString(a.key, sel.show)))
  {
    hide Weight, KeyString, Lexicographic.Less, Lexicographic.Precedes;
    WeighedIsDefined(sel, a, aState);
    WeighedIsDefined(sel, b, bState);
    Lexicographic.LessIff(a.MinTicket(), b.MinTicket());
    Lexicographic.LessIff(KeyString(b.key, sel.show), KeyString(a.key, sel.show));
  }

  /** The condition on printed CIDs can be met: two letters for each byte. */
  function Letters(c: Cid): seq<Byte> {
    if c == [] then [] else [65 + c[0] / 16, 65 + c[0] % 16] + Letters(c[1..])
  }

  lemma LettersFirst(c: Cid)
    requires c != []
    ensures var x := Letters(c);
            |x| >= 2 && x[0] == 65 + c[0] / 16 && x[1] == 65 + c[0] % 16 && x[2..] == Letters(c[1..])
  {
  }

  lemma {:induction false} LettersInjective(c: Cid, d: Cid)
    requires Letters(c) == Letters(d)
    ensures c == d
  {
    hide Letters;
    if c == [] || d == [] {
      assert Letters([]) == [] by { NoLetters(); }
      if c != [] { LettersFirst(c); } else if d != [] { LettersFirst(d); }
    } else {
      LettersFirst(c);
      LettersFirst(d);
      LettersInjective(c[1..], d[1..]);
      assert c == [c[0]] + c[1..] && d == [d[0]] + d[1..];
    }
  }

  lemma NoLetters()
    ensures Letters([]) == []
  {
  }

  lemma {:induction false} LettersAreLetters(c: Cid)
    ensures forall i | 0 <= i < |Letters(c)| :: 65 <= Letters(c)[i] <= 80
  {
    if c != [] { LettersAreLetters(c[1..]); }
  }

  lemma LettersArePrintable()
    ensures Printable(Letters)
  {
    forall c, d | Letters(c) == Letters(d) ensures c == d { LettersInjective(c, d); }
    forall c, i | 0 <= i < |Letters(c)| ensures Letters(c)[i] != SPACE && Letters(c)[i] != CLOSE {
      LettersAreLetters(c);
    }
  }
}
