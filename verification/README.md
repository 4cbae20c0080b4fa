# Example-header helpers of Vowpal Wabbit, modelled in Dafny

This project models the inline logic of `vowpalwabbit/example.h`, the header
that declares the engine's per-example record. An *example* moves through a
pipeline of learning reductions. The header's inline helpers read three of its
fields: the identifier `tag`, the ordered list of namespace indices `indices`
(inherited from `example_predict`), and the optional `passthrough` feature
list.

The model is functional. An example is an immutable `Example<V>` datatype.
`V` stands for the C++ `float` value, which is only carried along and never
inspected. A null passthrough pointer is `None`. The modules are:

- `Wrappers` holds `Option`.
- `Namespaces` holds the reserved namespace bytes and `valid_ns`. A namespace
  index is a `bv8`.
- `Examples` holds the example record and `example_is_newline`, which
  recognises an empty ("newline") example: no tag, and either no namespace or
  the constant namespace alone. It does not read the record's separate
  `end_pass` flag; the header does not say what callers use the test for.
- `Passthrough` holds the key `(FNV_prime * magic) ^ i`, computed in `bv64` so
  that the product wraps modulo 2^64. It also holds `add_passthrough_feature_magic`
  and the effect of a run of such calls.

`FNV_prime` is declared in the engine's constant header, which is not part of
this model. It is written here as the named constant `FnvPrime` with the
32-bit FNV prime 16777619. Only `Passthrough.KeyProductWraps` depends on that value.

Read as a condition on the *set* of namespaces present, the newline test
would accept a repeated constant namespace. The code tests the *list*: its
length must be 0, or 1 with the constant namespace as the entry.
`Examples.NewlineIsNotASetCondition` shows an example on which the two
readings disagree: two copies of the constant namespace and no tag.

## Model

| member | source | states |
|---|---|---|
| `Namespaces.ValidNs` | vowpalwabbit/example.h:131 | a byte names a valid namespace exactly when it is neither the pipe character nor the colon character |
| `Namespaces.ReservedAreValid` | vowpalwabbit/example.h:27-42 | every reserved namespace byte (32, 126-137, 139, 140) passes `valid_ns`, so that test does not keep a user namespace off the reserved bytes |
| `Namespaces.ReservedAreDistinct` | vowpalwabbit/example.h:27-42 | the fifteen reserved namespace bytes are pairwise distinct |
| `Examples.IsNewline` | vowpalwabbit/example.h:124-129 | a non-empty tag never makes a newline example; otherwise the example is one exactly when its namespace list is empty or is the constant namespace alone |
| `Examples.NewlineIffOnlyConstant` | vowpalwabbit/example.h:124-129 | order-free reading: a newline example has no tag, at most one namespace, and only the constant namespace |
| `Examples.NewlineNeedsAtMostOneNamespace` | vowpalwabbit/example.h:128 | two or more namespaces never make a newline example, whatever they are |
| `Examples.NewlineIsNotASetCondition` | vowpalwabbit/example.h:128 | the constant namespace listed twice, with no tag, has the namespace set {constant} and is not a newline example |
| `Examples.NewlineIgnoresPassthrough` | vowpalwabbit/example.h:124-129 | the newline test does not depend on the passthrough list |
| `Examples.NewlineScenarios` | vowpalwabbit/example.h:124-129 | four concrete cases: default+constant with no tag is not a newline example; constant alone is; tag "a" with no namespace is not; no tag and no namespace is |
| `Passthrough.PassthroughKey` | vowpalwabbit/example.h:136 | for a known magic, the key gives back the index it was made from |
| `Passthrough.KeyIndex` | vowpalwabbit/example.h:136 | recovering the index from a key: keying the recovered index gives the key back |
| `Passthrough.KeyIsBijectionInIndex` | vowpalwabbit/example.h:136 | for a fixed magic the key is injective in the index, and `KeyIndex` inverts it in both directions |
| `Passthrough.KeysOfTwoCallSitesCanCoincide` | vowpalwabbit/example.h:136 | every key made under one magic is also the key of some index under any other magic |
| `Passthrough.KeyProductWraps` | vowpalwabbit/example.h:136 | the product `FNV_prime * magic` wraps modulo 2^64: magic 2^64-1 with index 0 gives 2^64 - FNV_prime |
| `Passthrough.SameMagicAndIndexSameKey` | vowpalwabbit/example.h:136 | two writes with the same magic and index append entries with the same key |
| `Passthrough.AddPassthroughFeatureMagic` | vowpalwabbit/example.h:133-137 | with no passthrough list the example is returned unchanged; otherwise exactly one entry is appended after an unchanged prefix, it carries the value and a key that decodes to the index, and the tag and namespaces are unchanged |
| `Passthrough.AddPassthroughFeatures` | vowpalwabbit/example.h:133-137 | a run of calls keeps the tag, the namespaces and whether a list is present; with a list, it grows by one entry per call and keeps the old entries as a prefix |
| `Passthrough.AddPassthroughFeaturesAppends` | vowpalwabbit/example.h:133-137 | after a run of calls, the appended entries are one per call, in call order, each with the call's value and key |
| `Passthrough.AbsentPassthroughIgnoresWrites` | vowpalwabbit/example.h:135 | with no passthrough list, any run of calls leaves the example equal to its input |
| `Passthrough.DistinctIndicesGiveDistinctKeys` | vowpalwabbit/example.h:136 | calls with one magic and pairwise distinct indices append pairwise distinct keys |
| `Passthrough.WritesPreserveNewline` | vowpalwabbit/example.h:124-137 | passthrough writes never change whether an example is a newline example |

## Left out

- `example_is_newline` returns an `int` that is 0 or 1. It is modelled as a `bool`.
- The `features` container behind `passthrough` is modelled as a sequence of (value, index) entries. Its running sum of squared values is a float and is not modelled. `feature_group.h` is not part of this model.
- Only the raw-pointer semantics of `passthrough` are modelled: null or present. Ownership by the allocating reduction is not modelled.
- The `add_passthrough_feature` macro derives `magic` from the first three characters of `__FILE__`. That depends on the preprocessor and on whether `char` is signed, so `magic` is an arbitrary 64-bit input here.
- Distinct magics with the same index give distinct keys, because `FNV_prime` is odd. This is not proved: the required reasoning about 64-bit multiplication is beyond what the solver handles within its limits.
- `flatten_example`, `flatten_sort_example` and `free_flatten_example` are only declared in the header. Their bodies are elsewhere and manage raw allocation.
- `restore_prediction`, `swap_restore_action_scores_prediction`, `swap_restore_pdf_prediction` and `swap_restore_cb_label` show only constructor and destructor declarations. Their restore behaviour is not in the header, and their purpose is scope-bound unwinding.
- The `polylabel` and `polyprediction` unions and `delete_scalars` are left out. They are untagged-union memory layouts and heap management, and their payload types come from headers outside this model.
- The float scalars (`weight`, `loss`, `partial_prediction`, `updated_prediction`, `total_sum_feat_sq`, `confidence`) are left out. So are the counters and flags (`example_counter`, `num_features`, `test_only`, `end_pass`, `sorted`, `in_use`). None of the modelled helpers reads them.
- `clear_seq_and_finish_examples`, `return_multiple_example` and the `*_to_string` renderers are left out. They are engine plumbing and diagnostics whose bodies are not in the header.
