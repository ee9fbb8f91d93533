/** Translation between physical values and hardware registers (src/ConfigConverter.cpp).

    A value is spread over registers by a list of units; each unit names a sub-register, the bits of the
    register it occupies and the bits of the value it carries. All four conversions visit units one after
    the other and fold what they see into a tree, so a conversion is specified as a fold over the list of
    visits; what the folds mean, whatever the order of the visits, is proved about that list. */
module Translation {
  import opened Bits
  import opened I2cMaster

  datatype TranslationUnit = TranslationUnit(registerName: string, maskRegister: nat, maskValue: nat)

  type TranslationMap = map<string, seq<TranslationUnit>>

  datatype ConvertError =
    | PathNotInMap       // "Did not find all nodes in translation map"
    | NodeNotFound       // "Did not find node ... in translation map"
    | RegisterNotFound   // "Did not find register ... in translation map"
    | BadValue           // a stored number does not fit the device's integer type
    | UnknownValue       // a requested value is not in the map
    | NotConsecutive     // as many bits as the register, but not its low ones
    | NoReference        // no layout or no reference value for a register

  datatype Converted<+T> = Done(value: T) | Failed(error: ConvertError)

  /** Everything before the first dot; the whole name when there is none. */
  function RegisterOf(name: string): string {
    if name == [] || name[0] == '.' then [] else [name[0]] + RegisterOf(name[1..])
  }

  /** That is a beginning of the name without a dot, and it ends at a dot or with the name. */
  lemma {:induction false} RegisterOfMeans(name: string)
    ensures
      var n := |RegisterOf(name)|;
      && n <= |name| && RegisterOf(name) == name[..n] && '.' !in name[..n] && (n < |name| ==> name[n] == '.')
  {
    if name != [] && name[0] != '.' {
      RegisterOfMeans(name[1..]);
      var n := |RegisterOf(name[1..])|;
      assert name[..n + 1] == [name[0]] + name[1..][..n];
    }
  }

  /** `paths` visits every leaf of the tree once, in whatever order. */
  ghost predicate Enumerates(paths: seq<string>, keys: set<string>) {
    && (forall p :: p in paths <==> p in keys)
    && (forall i, j | 0 <= i < j < |paths| :: paths[i] != paths[j])
  }

  // ----- Visits -----

  /** One unit of one value, met while walking the paths. */
  datatype Visit = Visit(path: string, unit: TranslationUnit, value: nat)

  function UnitVisits(path: string, units: seq<TranslationUnit>, value: nat): (vs: seq<Visit>)
    ensures |vs| == |units|
    ensures forall k | 0 <= k < |units| :: vs[k] == Visit(path, units[k], value)
  {
    seq(|units|, k requires 0 <= k < |units| => Visit(path, units[k], value))
  }

  function Visits(tmap: TranslationMap, tree: Tree, paths: seq<string>): seq<Visit>
    requires forall p | p in paths :: p in tmap && p in tree
  {
    if paths == [] then []
    else
      var p := paths[|paths| - 1];
      Visits(tmap, tree, paths[..|paths| - 1]) + UnitVisits(p, tmap[p], tree[p])
  }

  /** The part of the value a unit carries, moved down to bit zero. */
  function SubValue(v: Visit): nat
    requires v.unit.maskValue > 0
  {
    Shr(And(v.value, v.unit.maskValue), Ctz(v.unit.maskValue))
  }

  /** A mask left at its default: all ones of an unsigned int. */
  const DEFAULT_MASK: nat := 0xFFFF_FFFF

  lemma {:induction false} AndDefault(value: nat)
    requires value < Pow2(32)
    ensures And(value, DEFAULT_MASK) == value
  {
    Pow2Of32();
    FitsIffNoHighBits(value, 32);
    forall b: nat ensures Bit(And(value, DEFAULT_MASK), b) == Bit(value, b) {
      BitOfAnd(value, DEFAULT_MASK, b);
      BitOfOnes(32, b);
    }
    SameBits(And(value, DEFAULT_MASK), value);
  }

  /** A unit with the default value mask carries the whole value as it is. */
  lemma {:induction false} DefaultCarriesAll(v: Visit)
    requires v.unit.maskValue == DEFAULT_MASK && v.value < Pow2(32)
    ensures SubValue(v) == v.value
  {
    AndDefault(v.value);
    assert Ctz(DEFAULT_MASK) == 0;
  }

  /** The same part moved to its place in the register, on a word of `w` bits. */
  function FlatValue(w: nat, v: Visit): nat
    requires v.unit.maskValue > 0 && v.unit.maskRegister > 0
  {
    Truncate(w, Shl(SubValue(v), Ctz(v.unit.maskRegister)))
  }

  /** `tree.get(name, 0u)`: absent, or too large for an unsigned int, reads as zero. */
  function Get0u(tree: Tree, name: string): nat {
    if name in tree && tree[name] < TWO_32 then tree[name] else 0
  }

  /** Masks are words of the device's integer type, and no shift count is undefined. */
  ghost predicate MasksOk(tmap: TranslationMap, w: nat) {
    forall p, k | p in tmap && 0 <= k < |tmap[p]| ::
      0 < tmap[p][k].maskValue < Pow2(w) && 0 < tmap[p][k].maskRegister < Pow2(w)
  }

  ghost predicate MasksNonZero(visits: seq<Visit>) {
    forall k | 0 <= k < |visits| :: visits[k].unit.maskValue > 0 && visits[k].unit.maskRegister > 0
  }

  // ----- Accumulating with + -----

  datatype Entry = Entry(key: string, addend: nat)

  /** `tree.put(key, tree.get(key, 0u) + addend)` for one entry after the other, on words of `w` bits. */
  function AccTree(w: nat, entries: seq<Entry>): Tree {
    if entries == [] then map[]
    else
      var e, t := entries[|entries| - 1], AccTree(w, entries[..|entries| - 1]);
      t[e.key := Truncate(w, Get0u(t, e.key) + e.addend)]
  }

  /** What is added under one key, in order. */
  function Addends(entries: seq<Entry>, key: string): seq<nat> {
    if entries == [] then []
    else
      var e, init := entries[|entries| - 1], Addends(entries[..|entries| - 1], key);
      if e.key == key then init + [e.addend] else init
  }

  function Accumulate(w: nat, cs: seq<nat>): nat {
    if cs == [] then 0
    else
      var acc := Accumulate(w, cs[..|cs| - 1]);
      Truncate(w, (if acc < TWO_32 then acc else 0) + cs[|cs| - 1])
  }

  lemma {:induction false} AccTreeAt(w: nat, entries: seq<Entry>, key: string)
    ensures key in AccTree(w, entries) <==> Addends(entries, key) != []
    ensures key in AccTree(w, entries) ==> AccTree(w, entries)[key] == Accumulate(w, Addends(entries, key))
  {
    if entries != [] {
      var e, init := entries[|entries| - 1], entries[..|entries| - 1];
      AccTreeAt(w, init, key);
      if e.key == key {
        assert (Addends(init, key) + [e.addend])[..|Addends(init, key)|] == Addends(init, key);
      }
    }
  }

  lemma {:induction false} NothingAccumulated(w: nat)
    ensures AccTree(w, []) == map[]
  {
  }

  lemma {:induction false} AccTreeStep(w: nat, entries: seq<Entry>, e: Entry)
    ensures AccTree(w, entries + [e])
      == AccTree(w, entries)[e.key := Truncate(w, Get0u(AccTree(w, entries), e.key) + e.addend)]
  {
    assert (entries + [e])[..|entries|] == entries;
  }

  lemma {:induction false} AddendsFrom(entries: seq<Entry>, key: string, x: nat)
    ensures x in Addends(entries, key) <==> exists i :: 0 <= i < |entries| && entries[i] == Entry(key, x)
  {
    if entries != [] {
      var e, init := entries[|entries| - 1], entries[..|entries| - 1];
      AddendsFrom(init, key, x);
      if i :| 0 <= i < |entries| && entries[i] == Entry(key, x) {
        if i < |init| { assert init[i] == Entry(key, x); }
      }
      if i :| 0 <= i < |init| && init[i] == Entry(key, x) { assert entries[i] == Entry(key, x); }
    }
  }

  /** Entries under a single key are all added there. */
  lemma {:induction false} OneKey(entries: seq<Entry>, key: string)
    requires forall k | 0 <= k < |entries| :: entries[k].key == key
    ensures |Addends(entries, key)| == |entries|
    ensures forall k | 0 <= k < |entries| :: Addends(entries, key)[k] == entries[k].addend
  {
    if entries != [] { OneKey(entries[..|entries| - 1], key); }
  }

  /** Different entries under the same key never set the same bit. */
  ghost predicate EntriesDisjoint(entries: seq<Entry>) {
    forall i, j | 0 <= i < j < |entries|
      && entries[i].key == entries[j].key :: Disjoint(entries[i].addend, entries[j].addend)
  }

  lemma {:induction false} AddendsDisjoint(entries: seq<Entry>, key: string)
    requires EntriesDisjoint(entries)
    ensures PairwiseDisjoint(Addends(entries, key))
  {
    if entries != [] {
      var e, init := entries[|entries| - 1], entries[..|entries| - 1];
      AddendsDisjoint(init, key);
      var cs := Addends(init, key);
      if e.key == key {
        forall i | 0 <= i < |cs| ensures Disjoint(cs[i], e.addend) {
          AddendsFrom(init, key, cs[i]);
          var j :| 0 <= j < |init| && init[j] == Entry(key, cs[i]);
          assert entries[j].key == e.key;
        }
      }
    }
  }

  /** No partial sum outgrows what `get(name, 0u)` can read back. */
  ghost predicate PrefixesReadBack(cs: seq<nat>) {
    forall k | 0 <= k < |cs| :: OrAll(cs[..k]) < TWO_32
  }

  /** That is so exactly when every addend but the last fits an unsigned int itself. */
  lemma {:induction false} PrefixesReadBackIff(cs: seq<nat>)
    ensures PrefixesReadBack(cs) <==> forall j | 0 <= j < |cs| - 1 :: cs[j] < TWO_32
  {
    Pow2Of32();
    if PrefixesReadBack(cs) {
      forall j | 0 <= j < |cs| - 1 ensures cs[j] < TWO_32 { AddendBelowUnion(cs[..j + 1], j); }
    }
    if forall j | 0 <= j < |cs| - 1 :: cs[j] < TWO_32 {
      forall k | 0 <= k < |cs| ensures OrAll(cs[..k]) < TWO_32 {
        forall i | 0 <= i < k ensures cs[..k][i] < Pow2(32) { assert cs[i] < TWO_32; }
        OrAllFits(cs[..k], 32);
      }
    }
  }

  lemma {:induction false} AddendBelowUnion(cs: seq<nat>, j: nat)
    requires j < |cs| && OrAll(cs) < TWO_32
    ensures cs[j] < TWO_32
  {
    Pow2Of32();
    FitsIffNoHighBits(OrAll(cs), 32);
    forall b: nat | b >= 32 ensures !Bit(cs[j], b) { BitOfOrAll(cs, b); }
    FitsIffNoHighBits(cs[j], 32);
  }

  lemma {:induction false} AccumulateOrs(w: nat, cs: seq<nat>)
    requires PairwiseDisjoint(cs) && PrefixesReadBack(cs)
    requires forall i | 0 <= i < |cs| :: cs[i] < Pow2(w)
    ensures Accumulate(w, cs) == OrAll(cs)
  {
    if cs != [] {
      var init, c := cs[..|cs| - 1], cs[|cs| - 1];
      forall k | 0 <= k < |init| ensures OrAll(init[..k]) < TWO_32 { assert init[..k] == cs[..k]; }
      AccumulateOrs(w, init);
      DisjointFromUnion(init, c);
      AddIsOr(OrAll(init), c);
      OrAllFits(cs, w);
      TruncateFits(w, OrAll(cs));
    }
  }

  /** Once a partial sum cannot be read back, its bits are gone for good. */
  lemma {:induction false} AccumulateLoses(w: nat, cs: seq<nat>, k: nat, b: nat)
    requires PairwiseDisjoint(cs)
    requires forall i | 0 <= i < |cs| :: cs[i] < Pow2(w)
    requires k < |cs| && Accumulate(w, cs[..k]) >= TWO_32
    requires forall i | k <= i < |cs| :: !Bit(cs[i], b)
    ensures !Bit(Accumulate(w, cs), b)
    ensures Within(Accumulate(w, cs), OrAll(cs[k..]))
  {
    hide Bit, Pow2;
    var init, c := cs[..|cs| - 1], cs[|cs| - 1];
    var acc := Accumulate(w, init);
    var kept := if acc < TWO_32 then acc else 0;
    if k == |init| {
      assert cs[..k] == init;
      BitsOfZero();
    } else {
      assert cs[..k] == init[..k];
      AccumulateLoses(w, init, k, b);
      BitsOfZero();
    }
    assert k < |init| ==> cs[k..] == init[k..] + [c];
    forall i: nat | Bit(kept, i) ensures k < |init| && Bit(OrAll(init[k..]), i) {}
    forall i: nat ensures !(Bit(kept, i) && Bit(c, i)) {
      if Bit(kept, i) {
        BitOfOrAll(init[k..], i);
        var j :| 0 <= j < |init[k..]| && Bit(init[k..][j], i);
        assert Disjoint(cs[k + j], c);
      }
    }
    AddIsOr(kept, c);
    forall i: nat | Bit(Truncate(w, Or(kept, c)), i) ensures Bit(OrAll(cs[k..]), i) {
      BitOfTruncate(w, Or(kept, c), i);
      BitOfOr(kept, c, i);
      BitOfOrAll(cs[k..], i);
      if Bit(kept, i) {
        BitOfOrAll(init[k..], i);
        var j :| 0 <= j < |init[k..]| && Bit(init[k..][j], i);
        assert Bit(cs[k..][j], i);
      } else {
        assert Bit(cs[k..][|cs| - 1 - k], i);
      }
    }
    BitOfOrAll(cs[k..], b);
    assert forall j | 0 <= j < |cs[k..]| :: cs[k..][j] == cs[k + j];
  }

  lemma {:induction false} BitsOfZero()
    ensures forall i: nat :: !Bit(0, i)
  {
    forall i: nat ensures !Bit(0, i) { BitOfZero(i); }
  }

  /** The exact condition: adding disjoint parts gives their union if and only if every partial sum that
      is read back fits in an unsigned int. */
  lemma {:induction false} AccumulateIsUnionIff(w: nat, cs: seq<nat>)
    requires PairwiseDisjoint(cs)
    requires forall i | 0 <= i < |cs| :: cs[i] < Pow2(w)
    ensures Accumulate(w, cs) == OrAll(cs) <==> PrefixesReadBack(cs)
  {
    if PrefixesReadBack(cs) {
      AccumulateOrs(w, cs);
    } else {
      var k := FirstTooLarge(cs, 0);
      var head := cs[..k];
      forall j | 0 <= j < |head| ensures OrAll(head[..j]) < TWO_32 { assert head[..j] == cs[..j]; }
      AccumulateOrs(w, head);
      var b := Ctz(OrAll(head));
      CtzIsLowestBit(OrAll(head));
      BitOfOrAll(head, b);
      var j :| 0 <= j < |head| && Bit(head[j], b);
      forall i | k <= i < |cs| ensures !Bit(cs[i], b) {
        assert Disjoint(cs[j], cs[i]);
      }
      AccumulateLoses(w, cs, k, b);
      BitOfOrAll(cs, b);
      assert Bit(cs[j], b);
    }
  }

  /** On 32-bit words nothing is too large to be read back, so the parts are just added up. */
  lemma {:induction false} Accumulate32(cs: seq<nat>)
    ensures Accumulate(32, cs) == Truncate(32, Sum(cs))
  {
    hide Truncate;
    Pow2Of32();
    if cs != [] {
      var init, c := cs[..|cs| - 1], cs[|cs| - 1];
      Accumulate32(init);
      TruncateFits(32, Sum(init));
      TruncateSum(32, Sum(init), c);
    } else {
      TruncateFits(32, 0);
    }
  }

  /** There, whatever the parts, as long as their sum does not wrap: adding gives their union if and only if no two
      of them share a bit. */
  lemma {:induction false} Accumulate32IsUnionIff(cs: seq<nat>)
    requires Sum(cs) < TWO_32
    ensures Accumulate(32, cs) == OrAll(cs) <==> PairwiseDisjoint(cs)
  {
    Pow2Of32();
    Accumulate32(cs);
    TruncateFits(32, Sum(cs));
    SumIsUnionIff(cs);
  }

  lemma {:induction false} FirstTooLarge(cs: seq<nat>, from: nat) returns (k: nat)
    requires exists m :: from <= m < |cs| && OrAll(cs[..m]) >= TWO_32
    requires forall j | 0 <= j < from :: OrAll(cs[..j]) < TWO_32
    ensures k < |cs| && OrAll(cs[..k]) >= TWO_32
    ensures forall j | 0 <= j < k :: OrAll(cs[..j]) < TWO_32
    decreases |cs| - from
  {
    if OrAll(cs[..from]) >= TWO_32 { k := from; } else { k := FirstTooLarge(cs, from + 1); }
  }

  // ----- Values to sub-registers and to flat registers -----

  function SubTree(visits: seq<Visit>): Tree
    requires MasksNonZero(visits)
  {
    if visits == [] then map[]
    else
      var v := visits[|visits| - 1];
      SubTree(visits[..|visits| - 1])[v.unit.registerName := SubValue(v)]
  }

  function FlatEntries(w: nat, visits: seq<Visit>): (es: seq<Entry>)
    requires MasksNonZero(visits)
    ensures |es| == |visits|
  {
    seq(|visits|, k requires 0 <= k < |visits| =>
      Entry(RegisterOf(visits[k].unit.registerName), FlatValue(w, visits[k])))
  }

  function FlatTree(w: nat, visits: seq<Visit>): Tree
    requires MasksNonZero(visits)
  {
    AccTree(w, FlatEntries(w, visits))
  }

  function FlatMask(visits: seq<Visit>): Tree {
    if visits == [] then map[]
    else
      var v, t := visits[|visits| - 1], FlatMask(visits[..|visits| - 1]);
      var name := RegisterOf(v.unit.registerName);
      t[name := if name in t then Or(t[name], v.unit.maskRegister) else v.unit.maskRegister]
  }
}
