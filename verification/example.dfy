/** The part of the `example` record that the inline helpers of the example
    header read: the identifier tag, the ordered namespace index inherited
    from `example_predict`, and the optional passthrough feature list. */
module Examples {
  import opened Wrappers
  import opened Namespaces

  /** One entry of a feature list: a value and its 64-bit feature index.
      `V` stands for the C++ `float` value, which is only carried along. */
  datatype Feature<V> = Feature(value: V, index: bv64)

  /** An example. `passthrough` is `None` when the C++ pointer is null. */
  datatype Example<V> = Example(
    tag: seq<char>,
    indices: seq<NamespaceIndex>,
    passthrough: Option<seq<Feature<V>>>)

  /** `example_is_newline`: an empty ("newline") example has no tag and either
      no namespace at all or the constant namespace alone. This test does not
      read the record's separate end-of-pass flag. */
  function IsNewline<V>(e: Example<V>): (r: bool)
    ensures |e.tag| > 0 ==> !r
    ensures r <==> e.tag == [] && (e.indices == [] || e.indices == [ConstantNamespace])
  {
    if |e.tag| > 0 then false
    else |e.indices| == 0 || (|e.indices| == 1 && e.indices[|e.indices| - 1] == ConstantNamespace)
  }

  /** An order-free reading of the newline test: no tag, at most one namespace,
      and every namespace present is the constant one. */
  lemma NewlineIffOnlyConstant<V>(e: Example<V>)
    ensures IsNewline(e) <==>
      && e.tag == []
      && |e.indices| <= 1
      && forall k :: k in e.indices ==> k == ConstantNamespace
  {
    if |e.indices| == 1 {
      // the single entry is the last one, which the C++ test compares
      assert e.indices[0] in e.indices;
    }
  }

  /** Two or more namespaces never make a newline example, even when every one of
      them is the constant namespace. */
  lemma NewlineNeedsAtMostOneNamespace<V>(e: Example<V>)
    requires |e.indices| >= 2
    ensures !IsNewline(e)
  {
  }

  /** The newline test is a condition on the list of namespaces, not on the
      set: a repeated constant namespace has the set {constant} but is not a
      newline example. */
  lemma NewlineIsNotASetCondition()
    ensures var e: Example<real> := Example([], [ConstantNamespace, ConstantNamespace], None);
      && (set k | k in e.indices) == {ConstantNamespace}
      && !IsNewline(e)
  {
    var e: Example<real> := Example([], [ConstantNamespace, ConstantNamespace], None);
    assert ConstantNamespace in e.indices;
  }

  /** The newline test never looks at the passthrough list. */
  lemma NewlineIgnoresPassthrough<V>(e: Example<V>, p: Option<seq<Feature<V>>>)
    ensures IsNewline(e.(passthrough := p)) == IsNewline(e)
  {
  }

  /** Four concrete cases of the newline test: default and constant
      namespaces with no tag; the constant namespace alone with no tag; the
      tag "a" with no namespace; no tag, no namespace and an empty
      passthrough list. */
  lemma NewlineScenarios()
    ensures !IsNewline<real>(Example([], [DefaultNamespace, ConstantNamespace], None))
    ensures IsNewline<real>(Example([], [ConstantNamespace], None))
    ensures !IsNewline<real>(Example("a", [], None))
    ensures IsNewline<real>(Example([], [], Some([])))
  {
  }
}
