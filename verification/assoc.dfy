/**
 Maps built by successive assignments, as the source builds its alias,
 default-value and argument maps: `m[k] = v` in order, so a later entry for
 the same key wins. An entry is `None` where the source assigns nothing.
 */
module Assoc {
  import opened Results

  /** True when entry `i` assigns a key that no later entry assigns again. */
  ghost predicate LastFor<K, V>(es: seq<Option<(K, V)>>, i: int) {
    0 <= i < |es| && es[i].Some? &&
    forall j :: i < j < |es| && es[j].Some? ==> es[j].value.0 != es[i].value.0
  }

  /** The map left by performing every assignment of `es` in order. */
  function FromEntries<K(!new), V>(es: seq<Option<(K, V)>>): (m: map<K, V>)
    ensures forall k :: k in m <==> exists i :: 0 <= i < |es| && es[i].Some? && es[i].value.0 == k
    decreases |es|
  {
    if |es| == 0 then map[]
    else
      var init := es[..|es| - 1];
      var prev := FromEntries(init);
      LastForPrefix(es);
      match es[|es| - 1]
      case None => prev
      case Some(kv) => prev[kv.0 := kv.1]
  }

  /** The value a key ends up with is the one its last assignment gave. */
  lemma {:induction false} FromEntriesLastWins<K(!new), V>(es: seq<Option<(K, V)>>)
    ensures forall i :: LastFor(es, i) ==> FromEntries(es)[es[i].value.0] == es[i].value.1
    decreases |es|
  {
    if |es| > 0 {
      var init := es[..|es| - 1];
      FromEntriesLastWins(init);
      LastForPrefix(es);
    }
  }

  lemma LastForPrefix<K, V>(es: seq<Option<(K, V)>>)
    requires |es| > 0
    ensures forall i :: 0 <= i < |es| - 1 ==> es[..|es| - 1][i] == es[i]
    ensures forall i :: LastFor(es, i) && i < |es| - 1 ==> LastFor(es[..|es| - 1], i)
  {
  }

  /** Assigning two runs of entries one after the other: the later run's
      keys override the earlier one's. */
  lemma {:induction false} FromEntriesAppend<K(!new), V>(a: seq<Option<(K, V)>>, b: seq<Option<(K, V)>>)
    ensures FromEntries(a + b) == FromEntries(a) + FromEntries(b)
    decreases |b|
  {
    if |b| == 0 {
      assert a + b == a;
    } else {
      var b' := b[..|b| - 1];
      assert (a + b)[..|a + b| - 1] == a + b';
      FromEntriesAppend(a, b');
    }
  }

  /** An empty entry in front assigns nothing. */
  lemma FromEntriesSkipNone<K(!new), V>(es: seq<Option<(K, V)>>)
    ensures FromEntries([None] + es) == FromEntries(es)
  {
    var none: seq<Option<(K, V)>> := [None];
    FromEntriesAppend(none, es);
    assert FromEntries(none) == map[] by {
      assert none[..0] == [];
    }
    assert FromEntries(none) + FromEntries(es) == FromEntries(es);
  }

  /** The values of the `Some` entries, in order. */
  function Values<T>(es: seq<Option<T>>): (r: seq<T>)
    ensures |r| <= |es|
    ensures forall x :: x in r ==> exists i :: 0 <= i < |es| && es[i] == Some(x)
    ensures forall i :: 0 <= i < |es| && es[i].Some? ==> es[i].value in r
    decreases |es|
  {
    if |es| == 0 then []
    else
      var rest := Values(es[1..]);
      assert forall i :: 1 <= i < |es| ==> es[i] == es[1..][i - 1];
      if es[0].Some? then [es[0].value] + rest else rest
  }

  lemma ValuesStep<T>(es: seq<Option<T>>)
    requires |es| > 0
    ensures Values(es) == (if es[0].Some? then [es[0].value] else []) + Values(es[1..])
  {
  }

  lemma {:induction false} ValuesAppend<T>(a: seq<Option<T>>, b: seq<Option<T>>)
    ensures Values(a + b) == Values(a) + Values(b)
    decreases |a|
  {
    if |a| == 0 {
      assert a + b == b;
    } else {
      assert (a + b)[1..] == a[1..] + b;
      ValuesAppend(a[1..], b);
    }
  }

  /** Go's iteration over a map visits each key once, in an order the
      program does not choose: any listing of the keys may come out. */
  method SomeListing(keys: set<string>) returns (order: seq<string>)
    ensures forall t :: t in keys <==> t in order
    ensures forall i, j :: 0 <= i < j < |order| ==> order[i] != order[j]
  {
    var left := keys;
    order := [];
    while left != {}
      invariant left !! (set t | t in order)
      invariant forall t :: t in keys <==> t in left || t in order
      invariant forall i, j :: 0 <= i < j < |order| ==> order[i] != order[j]
      decreases |left|
    {
      var t :| t in left;
      order := order + [t];
      left := left - {t};
    }
  }
}
