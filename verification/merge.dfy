/**
 The generated loader's mergeConfig, as semantics over a record tree instead
 of reflection. A configuration is the sequence of fields of the aggregate
 configuration struct; a field is a string leaf or a nested record, each
 named by its yaml tag. Merging a loaded key/value map walks the fields in
 order: a nested record recurses with the prefix extended by its tag and a
 dot, and a leaf takes the loaded value at prefix + tag when the validator
 accepts it.
 */
module Merge {
  import opened Utils

  datatype Node = Leaf(key: string, value: string) | Record(key: string, fields: seq<Node>)

  /** Go's read of a missing map key gives the zero value, the empty text. */
  function Lookup(loaded: map<string, string>, k: string): (r: string)
    ensures k in loaded ==> r == loaded[k]
    ensures k !in loaded ==> r == ""
  {
    if k in loaded then loaded[k] else ""
  }

  function MergeNode(loaded: map<string, string>, prefix: string, node: Node, valid: string -> bool): Node
    decreases node
  {
    match node
    case Leaf(k, v) =>
      var x := Lookup(loaded, prefix + k);
      if valid(x) then Leaf(k, x) else node
    case Record(k, fs) => Record(k, MergeFields(loaded, prefix + k + ".", fs, valid))
  }

  /** Every field in order, each under the same prefix: the prefix a nested
      record extends is restored for its siblings. */
  function MergeFields(loaded: map<string, string>, prefix: string, fs: seq<Node>, valid: string -> bool): seq<Node>
    decreases fs
  {
    if |fs| == 0 then []
    else [MergeNode(loaded, prefix, fs[0], valid)] + MergeFields(loaded, prefix, fs[1..], valid)
  }

  // ---------------------------------------------------------------------
  // Reference views of a tree

  /** The leaves as (path, value) pairs, in field order. */
  function Flatten(prefix: string, node: Node): seq<(string, string)>
    decreases node
  {
    match node
    case Leaf(k, v) => [(prefix + k, v)]
    case Record(k, fs) => FlattenFields(prefix + k + ".", fs)
  }

  function FlattenFields(prefix: string, fs: seq<Node>): seq<(string, string)>
    decreases fs
  {
    if |fs| == 0 then [] else Flatten(prefix, fs[0]) + FlattenFields(prefix, fs[1..])
  }

  /** The tree with every leaf value blanked: its shape. */
  function Shape(node: Node): Node
    decreases node
  {
    match node
    case Leaf(k, _) => Leaf(k, "")
    case Record(k, fs) => Record(k, ShapeFields(fs))
  }

  function ShapeFields(fs: seq<Node>): seq<Node>
    decreases fs
  {
    if |fs| == 0 then [] else [Shape(fs[0])] + ShapeFields(fs[1..])
  }

  /** One leaf's update: the loaded value at its path if the validator
      accepts it, the old value otherwise. */
  function Override(loaded: map<string, string>, valid: string -> bool, e: (string, string)): (string, string)
  {
    var x := Lookup(loaded, e.0);
    if valid(x) then (e.0, x) else e
  }

  /** Every leaf updated on its own. */
  function Overridden(loaded: map<string, string>, valid: string -> bool, es: seq<(string, string)>)
    : (r: seq<(string, string)>)
    ensures |r| == |es|
    ensures forall i :: 0 <= i < |es| ==> r[i] == Override(loaded, valid, es[i])
  {
    seq(|es|, i requires 0 <= i < |es| => Override(loaded, valid, es[i]))
  }

  lemma OverriddenAppend(loaded: map<string, string>, valid: string -> bool, a: seq<(string, string)>, b: seq<(string, string)>)
    ensures Overridden(loaded, valid, a + b) == Overridden(loaded, valid, a) + Overridden(loaded, valid, b)
  {
    var l := Overridden(loaded, valid, a + b);
    var r := Overridden(loaded, valid, a) + Overridden(loaded, valid, b);
    assert |l| == |r|;
    forall i | 0 <= i < |l| ensures l[i] == r[i] {
      if i < |a| {
        assert (a + b)[i] == a[i];
      } else {
        assert (a + b)[i] == b[i - |a|];
      }
    }
  }

  // ---------------------------------------------------------------------
  // Properties of the merge

  /** Merging never changes the tree's shape: the same tags, the same
      nesting, the same field order. */
  lemma {:induction false} MergeKeepsShape(loaded: map<string, string>, prefix: string, node: Node, valid: string -> bool)
    ensures Shape(MergeNode(loaded, prefix, node, valid)) == Shape(node)
    decreases node
  {
    match node
    case Leaf(_, _) =>
    case Record(k, fs) => MergeFieldsKeepShape(loaded, prefix + k + ".", fs, valid);
  }

  lemma {:induction false} MergeFieldsKeepShape(loaded: map<string, string>, prefix: string, fs: seq<Node>, valid: string -> bool)
    ensures ShapeFields(MergeFields(loaded, prefix, fs, valid)) == ShapeFields(fs)
    decreases fs
  {
    if |fs| > 0 {
      MergeKeepsShape(loaded, prefix, fs[0], valid);
      MergeFieldsKeepShape(loaded, prefix, fs[1..], valid);
    }
  }

  /** The merge is a leaf-by-leaf update: flattening the merged tree gives
      the same paths, each leaf holding the loaded value at its path exactly
      when the validator accepts that value, and its old value otherwise. */
  lemma {:induction false} MergeIsOverride(loaded: map<string, string>, prefix: string, node: Node, valid: string -> bool)
    ensures Flatten(prefix, MergeNode(loaded, prefix, node, valid)) == Overridden(loaded, valid, Flatten(prefix, node))
    decreases node
  {
    match node
    case Leaf(k, v) =>
    case Record(k, fs) => MergeFieldsAreOverride(loaded, prefix + k + ".", fs, valid);
  }

  lemma {:induction false} MergeFieldsAreOverride(loaded: map<string, string>, prefix: string, fs: seq<Node>, valid: string -> bool)
    ensures FlattenFields(prefix, MergeFields(loaded, prefix, fs, valid)) == Overridden(loaded, valid, FlattenFields(prefix, fs))
    decreases fs
  {
    if |fs| > 0 {
      MergeIsOverride(loaded, prefix, fs[0], valid);
      MergeFieldsAreOverride(loaded, prefix, fs[1..], valid);
      OverriddenAppend(loaded, valid, Flatten(prefix, fs[0]), FlattenFields(prefix, fs[1..]));
    }
  }

  /** A leaf changes only to a value the validator accepts, read from the
      loaded map at that leaf's path. */
  lemma MergeChangesOnlyToValid(loaded: map<string, string>, prefix: string, fs: seq<Node>, valid: string -> bool)
    ensures var before := FlattenFields(prefix, fs);
      var after := FlattenFields(prefix, MergeFields(loaded, prefix, fs, valid));
      && |after| == |before|
      && forall i :: 0 <= i < |before| ==>
        && after[i].0 == before[i].0
        && (after[i].1 != before[i].1 ==> valid(after[i].1) && after[i].1 == Lookup(loaded, before[i].0))
        && (valid(Lookup(loaded, before[i].0)) ==> after[i].1 == Lookup(loaded, before[i].0))
  {
    MergeFieldsAreOverride(loaded, prefix, fs, valid);
  }

  /** A tree whose every leaf path reads a value the validator rejects comes
      out of the merge unchanged. */
  lemma {:induction false} MergeNodeUnchanged(loaded: map<string, string>, prefix: string, node: Node, valid: string -> bool)
    requires forall e :: e in Flatten(prefix, node) ==> !valid(Lookup(loaded, e.0))
    ensures MergeNode(loaded, prefix, node, valid) == node
    decreases node
  {
    match node
    case Leaf(k, v) =>
      assert (prefix + k, v) in Flatten(prefix, node);
    case Record(k, fs) => MergeFieldsUnchanged(loaded, prefix + k + ".", fs, valid);
  }

  lemma {:induction false} MergeFieldsUnchanged(loaded: map<string, string>, prefix: string, fs: seq<Node>, valid: string -> bool)
    requires forall e :: e in FlattenFields(prefix, fs) ==> !valid(Lookup(loaded, e.0))
    ensures MergeFields(loaded, prefix, fs, valid) == fs
    decreases fs
  {
    if |fs| > 0 {
      MergeNodeUnchanged(loaded, prefix, fs[0], valid);
      MergeFieldsUnchanged(loaded, prefix, fs[1..], valid);
      assert fs == [fs[0]] + fs[1..];
    }
  }

  /** Merging an empty map under NotBlank changes nothing: every lookup
      gives the empty text, which NotBlank rejects. */
  lemma EmptyMergeIsIdentity(prefix: string, fs: seq<Node>)
    ensures MergeFields(map[], prefix, fs, NotBlank) == fs
  {
    EmptyIsBlank();
    MergeFieldsUnchanged(map[], prefix, fs, NotBlank);
  }

  /** Under NotBlank a map of blank values changes nothing either: blank
      values never overwrite. */
  lemma BlankValuesNeverOverwrite(loaded: map<string, string>, prefix: string, fs: seq<Node>)
    requires forall k :: k in loaded ==> IsBlank(loaded[k])
    ensures MergeFields(loaded, prefix, fs, NotBlank) == fs
  {
    EmptyIsBlank();
    MergeFieldsUnchanged(loaded, prefix, fs, NotBlank);
  }

  /** Merging the same map twice is merging it once. */
  lemma {:induction false} MergeNodeIdempotent(loaded: map<string, string>, prefix: string, node: Node, valid: string -> bool)
    ensures MergeNode(loaded, prefix, MergeNode(loaded, prefix, node, valid), valid) == MergeNode(loaded, prefix, node, valid)
    decreases node
  {
    match node
    case Leaf(k, v) =>
    case Record(k, fs) => MergeFieldsIdempotent(loaded, prefix + k + ".", fs, valid);
  }

  lemma {:induction false} MergeFieldsIdempotent(loaded: map<string, string>, prefix: string, fs: seq<Node>, valid: string -> bool)
    ensures MergeFields(loaded, prefix, MergeFields(loaded, prefix, fs, valid), valid) == MergeFields(loaded, prefix, fs, valid)
    decreases fs
  {
    if |fs| > 0 {
      MergeNodeIdempotent(loaded, prefix, fs[0], valid);
      MergeFieldsIdempotent(loaded, prefix, fs[1..], valid);
      var once := MergeFields(loaded, prefix, fs, valid);
      assert once[0] == MergeNode(loaded, prefix, fs[0], valid);
      assert once[1..] == MergeFields(loaded, prefix, fs[1..], valid);
    }
  }
}
