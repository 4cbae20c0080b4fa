/** The passthrough side channel: a reduction appends (value, key) entries to
    an example's passthrough feature list, when the example has one, so that
    an outer reduction can read them. The key mixes a per-call-site `magic`
    with an index. */
module Passthrough {
  import opened Wrappers
  import opened Examples

  /** `FNV_prime` comes from the engine's constant header, which is not part of
      this model; its value is the 32-bit FNV prime, widened to 64 bits. */
  const FnvPrime: bv64 := 16777619

  /** The key of a passthrough entry: `(FNV_prime * magic) ^ i` in unsigned
      64-bit arithmetic, so the product wraps modulo 2^64. Given `magic`, the
      key gives back the index. */
  function PassthroughKey(magic: bv64, i: bv64): (k: bv64)
    ensures k ^ (FnvPrime * magic) == i
  {
    (FnvPrime * magic) ^ i
  }

  /** The index a key was made from, for a known magic: the inverse of
      `PassthroughKey` in its index argument. */
  function KeyIndex(magic: bv64, k: bv64): (i: bv64)
    ensures PassthroughKey(magic, i) == k
  {
    k ^ (FnvPrime * magic)
  }

  /** `add_passthrough_feature_magic`: with no passthrough list the example is
      returned as it is; otherwise exactly one entry `(x, key)` is appended
      after the entries already there, and nothing else changes. */
  function AddPassthroughFeatureMagic<V>(e: Example<V>, magic: bv64, i: bv64, x: V): (r: Example<V>)
    ensures r.tag == e.tag && r.indices == e.indices
    ensures r.passthrough.Some? <==> e.passthrough.Some?
    ensures e.passthrough.None? ==> r == e
    ensures e.passthrough.Some? ==>
      var (before, after) := (e.passthrough.value, r.passthrough.value);
      && |after| == |before| + 1
      && after[..|before|] == before
      && after[|before|].value == x
      && after[|before|].index ^ (FnvPrime * magic) == i
  {
    match e.passthrough
    case None => e
    case Some(fs) => e.(passthrough := Some(fs + [Feature(x, PassthroughKey(magic, i))]))
  }

  /** One request to the side channel, as a reduction issues it. */
  datatype Write<V> = Write(index: bv64, value: V)

  /** Successive calls of `add_passthrough_feature_magic` with one `magic`. */
  function AddPassthroughFeatures<V>(e: Example<V>, magic: bv64, ws: seq<Write<V>>): (r: Example<V>)
    ensures r.tag == e.tag && r.indices == e.indices
    ensures r.passthrough.Some? <==> e.passthrough.Some?
    ensures e.passthrough.Some? ==>
      && |r.passthrough.value| == |e.passthrough.value| + |ws|
      && r.passthrough.value[..|e.passthrough.value|] == e.passthrough.value
    decreases |ws|
  {
    if |ws| == 0 then e
    else AddPassthroughFeatures(AddPassthroughFeatureMagic(e, magic, ws[0].index, ws[0].value), magic, ws[1..])
  }

  /** For a fixed magic, the key is injective in the index, and `KeyIndex`
      undoes it in both directions: XOR with a fixed word is a bijection. */
  lemma KeyIsBijectionInIndex(magic: bv64)
    ensures forall i, j :: PassthroughKey(magic, i) == PassthroughKey(magic, j) ==> i == j
    ensures forall i :: KeyIndex(magic, PassthroughKey(magic, i)) == i
    ensures forall k :: PassthroughKey(magic, KeyIndex(magic, k)) == k
  {
  }

  /** Keys carry no call-site separation: whatever the two magics, each key of
      the first is also the key of some index under the second. */
  lemma KeysOfTwoCallSitesCanCoincide(m1: bv64, m2: bv64, i: bv64)
    ensures exists j :: PassthroughKey(m2, j) == PassthroughKey(m1, i)
  {
    var j := KeyIndex(m2, PassthroughKey(m1, i));
    assert PassthroughKey(m2, j) == PassthroughKey(m1, i);
  }

  /** The product wraps: with magic 2^64 - 1 and index 0 the key is
      2^64 - FNV_prime, not the unbounded product. */
  lemma KeyProductWraps()
    ensures PassthroughKey(0xFFFF_FFFF_FFFF_FFFF, 0) == 0xFFFF_FFFF_FEFF_FE6D
    ensures PassthroughKey(0xFFFF_FFFF_FFFF_FFFF, 0) as int == 0x1_0000_0000_0000_0000 - FnvPrime as int
  {
  }

  /** Two writes with the same magic and index append entries with the same key. */
  lemma SameMagicAndIndexSameKey<V>(e: Example<V>, magic: bv64, i: bv64, x: V, y: V)
    requires e.passthrough.Some?
    ensures var r := AddPassthroughFeatureMagic(AddPassthroughFeatureMagic(e, magic, i, x), magic, i, y);
      var n := |e.passthrough.value|;
      && |r.passthrough.value| == n + 2
      && r.passthrough.value[n].index == r.passthrough.value[n + 1].index
  {
  }

  /** The entries a run of writes appends: one per write, in call order, each
      carrying the write's value and its key. */
  lemma {:induction false} AddPassthroughFeaturesAppends<V>(e: Example<V>, magic: bv64, ws: seq<Write<V>>)
    requires e.passthrough.Some?
    ensures var (before, after) := (e.passthrough.value, AddPassthroughFeatures(e, magic, ws).passthrough.value);
      forall k :: 0 <= k < |ws| ==>
        after[|before| + k] == Feature(ws[k].value, PassthroughKey(magic, ws[k].index))
    decreases |ws|
  {
    if |ws| > 0 {
      var e' := AddPassthroughFeatureMagic(e, magic, ws[0].index, ws[0].value);
      AddPassthroughFeaturesAppends(e', magic, ws[1..]);
      var before := e.passthrough.value;
      var mid := e'.passthrough.value;
      var after := AddPassthroughFeatures(e, magic, ws).passthrough.value;
      assert after == AddPassthroughFeatures(e', magic, ws[1..]).passthrough.value;
      forall k | 0 <= k < |ws|
        ensures after[|before| + k] == Feature(ws[k].value, PassthroughKey(magic, ws[k].index))
      {
        if k == 0 {
          assert after[..|mid|] == mid;
          assert after[|before|] == mid[|before|];
        } else {
          assert ws[1..][k - 1] == ws[k];
          assert |before| + k == |mid| + (k - 1);
        }
      }
    }
  }

  /** With no passthrough list, any run of writes leaves the example as it is. */
  lemma AbsentPassthroughIgnoresWrites<V>(e: Example<V>, magic: bv64, ws: seq<Write<V>>)
    requires e.passthrough.None?
    ensures AddPassthroughFeatures(e, magic, ws) == e
  {
  }

  /** Writes with pairwise distinct indices under one magic append pairwise
      distinct keys. */
  lemma DistinctIndicesGiveDistinctKeys<V>(e: Example<V>, magic: bv64, ws: seq<Write<V>>)
    requires e.passthrough.Some?
    requires forall j, k :: 0 <= j < k < |ws| ==> ws[j].index != ws[k].index
    ensures var added := AddPassthroughFeatures(e, magic, ws).passthrough.value[|e.passthrough.value|..];
      forall j, k :: 0 <= j < k < |added| ==> added[j].index != added[k].index
  {
    AddPassthroughFeaturesAppends(e, magic, ws);
    KeyIsBijectionInIndex(magic);
    var n := |e.passthrough.value|;
    var added := AddPassthroughFeatures(e, magic, ws).passthrough.value[n..];
    forall j, k | 0 <= j < k < |added|
      ensures added[j].index != added[k].index
    {
      assert added[j] == Feature(ws[j].value, PassthroughKey(magic, ws[j].index));
      assert added[k] == Feature(ws[k].value, PassthroughKey(magic, ws[k].index));
    }
  }

  /** Passthrough writes never turn an example into a newline example or
      back. */
  lemma WritesPreserveNewline<V>(e: Example<V>, magic: bv64, ws: seq<Write<V>>)
    ensures IsNewline(AddPassthroughFeatures(e, magic, ws)) == IsNewline(e)
  {
  }
}
