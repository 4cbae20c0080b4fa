/** Namespace indices of an example: the bytes the engine reserves for its own
    namespaces, and the test for a byte that may name a user namespace. */
module Namespaces {

  /** A namespace index is one unsigned byte. */
  type NamespaceIndex = bv8

  const DefaultNamespace: NamespaceIndex := 32
  const WapLdfNamespace: NamespaceIndex := 126
  const HistoryNamespace: NamespaceIndex := 127
  /** The namespace that carries the constant (bias) feature. */
  const ConstantNamespace: NamespaceIndex := 128
  const NnOutputNamespace: NamespaceIndex := 129
  const AutolinkNamespace: NamespaceIndex := 130
  const NeighborNamespace: NamespaceIndex := 131
  const AffixNamespace: NamespaceIndex := 132
  const SpellingNamespace: NamespaceIndex := 133
  const ConditioningNamespace: NamespaceIndex := 134
  const DictionaryNamespace: NamespaceIndex := 135
  const NodeIdNamespace: NamespaceIndex := 136
  const MessageNamespace: NamespaceIndex := 137
  const CcbSlotNamespace: NamespaceIndex := 139
  const CcbIdNamespace: NamespaceIndex := 140

  /** Every reserved namespace, in the order the header declares them. */
  const Reserved: seq<NamespaceIndex> :=
    [ DefaultNamespace, WapLdfNamespace, HistoryNamespace, ConstantNamespace,
      NnOutputNamespace, AutolinkNamespace, NeighborNamespace, AffixNamespace,
      SpellingNamespace, ConditioningNamespace, DictionaryNamespace,
      NodeIdNamespace, MessageNamespace, CcbSlotNamespace, CcbIdNamespace ]

  /** The two delimiter bytes of the input format: '|' and ':'. */
  const Pipe: bv8 := 0x7C
  const Colon: bv8 := 0x3A

  /** `valid_ns`: a byte may name a user namespace unless it is a delimiter.
      The C++ compares a `char`; both sides of each comparison come from the
      same `char` type, so comparing the bytes gives the same answer whether
      `char` is signed or not. */
  function ValidNs(c: bv8): (r: bool)
    ensures r <==> (c as int) != ('|' as int) && (c as int) != (':' as int)
  {
    !(c == Pipe || c == Colon)
  }

  /** No reserved namespace is a delimiter, so every one passes `valid_ns`:
      that test does not keep a user namespace off the reserved bytes. */
  lemma ReservedAreValid()
    ensures forall k :: 0 <= k < |Reserved| ==> ValidNs(Reserved[k])
  {
  }

  /** The reserved namespaces are pairwise distinct. */
  lemma ReservedAreDistinct()
    ensures forall j, k :: 0 <= j < k < |Reserved| ==> Reserved[j] != Reserved[k]
  {
  }
}
