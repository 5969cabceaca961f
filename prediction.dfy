/**
 * Prediction (`predict_value`): the query table is reduced to the columns the
 * fitted network knows, the target column "forecast" is always dropped, the
 * network's inference completes the target, and any failure along the way
 * yields no value instead of an exception.
 */
module Prediction {
  import opened Optional

  /** The target column's name. */
  const Target: string := "forecast"

  /** One named column of a table with its values, one per row. */
  datatype Column<V> = Column(name: string, values: seq<V>)

  /** A table as its columns, in order; names may repeat, as in a data frame. */
  type Frame<V> = seq<Column<V>>

  /**
   * A fitted network as far as prediction sees it: its node names and its
   * inference capability, which either fails (None) or returns the predicted
   * columns by name.
   */
  datatype Network<!V> = Network(nodes: set<string>, infer: Frame<V> -> Option<map<string, seq<V>>>)

  /** The set of column names of a table (`set(states.columns)`). */
  function Names<V(!new)>(f: Frame<V>): set<string> {
    set i | 0 <= i < |f| :: f[i].name
  }

  /** `Names` holds every column's name and nothing else. */
  lemma NamesMembers<V(!new)>(f: Frame<V>)
    ensures forall c :: c in f ==> c.name in Names(f)
    ensures forall n :: n in Names(f) ==> exists c :: c in f && c.name == n
  {
    forall c | c in f ensures c.name in Names(f) {
      var i :| 0 <= i < |f| && f[i] == c;
    }
  }

  /**
   * The table with every column whose name is in `labels` removed, the other
   * columns kept unchanged and in their original order.
   */
  function Without<V(!new)>(f: Frame<V>, labels: set<string>): (r: Frame<V>)
    ensures |r| <= |f|
    ensures forall c :: c in r <==> c in f && c.name !in labels
    ensures Names(r) == Names(f) - labels
    ensures (forall c :: c in f ==> c.name !in labels) ==> r == f
    decreases |f|
  {
    if f == [] then []
    else
      var rest := Without(f[1..], labels);
      assert f == [f[0]] + f[1..];
      var r := if f[0].name in labels then rest else [f[0]] + rest;
      assert forall c :: c in r <==> c in f && c.name !in labels;
      NamesOfFiltered(f, r, labels);
      r
  }

  /** A table holding exactly the columns of `f` not named in `labels` has the names of `f` minus `labels`. */
  lemma NamesOfFiltered<V(!new)>(f: Frame<V>, r: Frame<V>, labels: set<string>)
    requires forall c :: c in r <==> c in f && c.name !in labels
    ensures Names(r) == Names(f) - labels
  {
    NamesMembers(f);
    NamesMembers(r);
    forall n | n in Names(f) - labels ensures n in Names(r) {
      var c :| c in f && c.name == n;
      assert c in r;
    }
  }

  /** A single column is dropped exactly when its name is a label. */
  lemma WithoutOne<V(!new)>(c: Column<V>, labels: set<string>)
    ensures Without([c], labels) == if c.name in labels then [] else [c]
  {
    assert [c][1..] == [];
  }

  /**
   * Dropping works column by column and keeps the original order: the result
   * for two tables side by side is the two results side by side.
   */
  lemma {:induction false} WithoutAppend<V(!new)>(f: Frame<V>, g: Frame<V>, labels: set<string>)
    ensures Without(f + g, labels) == Without(f, labels) + Without(g, labels)
    decreases |f|
  {
    if f != [] {
      var head: Frame<V> := if f[0].name in labels then [] else [f[0]];
      assert (f + g)[0] == f[0];
      assert (f + g)[1..] == f[1..] + g;
      assert Without(f + g, labels) == head + Without(f[1..] + g, labels);
      assert Without(f, labels) == head + Without(f[1..], labels);
      WithoutAppend(f[1..], g, labels);
    } else {
      assert f + g == g;
    }
  }

  /**
   * `f.drop(columns=labels)`: pandas refuses (KeyError) when a label is not a
   * column of the table.
   */
  function DropColumns<V(!new)>(f: Frame<V>, labels: set<string>): (r: Option<Frame<V>>)
    ensures r.None? <==> exists l :: l in labels && l !in Names(f)
    ensures r.Some? ==> Names(r.value) == Names(f) - labels
    ensures r.Some? ==> forall c :: c in r.value <==> c in f && c.name !in labels
  {
    if labels <= Names(f) then Some(Without(f, labels)) else None
  }

  /** The labels `predict_value` drops: the columns unknown to the model, and the target. */
  function DroppedLabels<V(!new)>(nodes: set<string>, states: Frame<V>): (r: set<string>)
    ensures Target in r
    ensures Target in Names(states) ==> r <= Names(states)
    ensures Names(states) - r == (Names(states) * nodes) - {Target}
  {
    (Names(states) - nodes) + {Target}
  }

  /**
   * The columns passed to inference are exactly the query's columns that are
   * model nodes, minus the target; the target never reaches inference, even
   * when it is a model node.  Dropping fails exactly when the query has no
   * target column.
   */
  lemma InferenceColumns<V(!new)>(nodes: set<string>, states: Frame<V>)
    ensures DropColumns(states, DroppedLabels(nodes, states)).None? <==> Target !in Names(states)
    ensures Target in Names(states) ==>
              Names(DropColumns(states, DroppedLabels(nodes, states)).value) == (Names(states) * nodes) - {Target}
    ensures Target in Names(states) ==>
              forall c :: c in DropColumns(states, DroppedLabels(nodes, states)).value <==>
                c in states && c.name in nodes && c.name != Target
  {
    var labels := DroppedLabels(nodes, states);
    if Target in Names(states) {
      assert labels <= Names(states);
      assert Names(states) - labels == (Names(states) * nodes) - {Target};
    } else {
      assert Target in labels;
    }
  }

  /**
   * `predict_value`: None when the query lacks the target column (the drop
   * fails), when inference fails, or when inference does not return the
   * target; otherwise the predicted target values.
   */
  function PredictValue<V(!new)>(net: Network<V>, states: Frame<V>): (r: Option<seq<V>>)
    ensures var input := Without(states, DroppedLabels(net.nodes, states));
            r.Some? <==> Target in Names(states) && net.infer(input).Some? && Target in net.infer(input).value
    ensures var input := Without(states, DroppedLabels(net.nodes, states));
            r.Some? ==>
              && Target !in Names(input)
              && Names(input) <= net.nodes
              && r.value == net.infer(input).value[Target]
  {
    match DropColumns(states, DroppedLabels(net.nodes, states))
    case None => None
    case Some(dataNew) =>
      match net.infer(dataNew)
      case None => None
      case Some(prediction) =>
        if Target in prediction then Some(prediction[Target]) else None
  }

  /** Two tables with the same column names, in order, that differ at most in the target column's values. */
  ghost predicate SameExceptTarget<V(!new)>(a: Frame<V>, b: Frame<V>) {
    && |a| == |b|
    && (forall i :: 0 <= i < |a| ==> a[i].name == b[i].name)
    && (forall i :: 0 <= i < |a| && a[i].name != Target ==> a[i] == b[i])
  }

  /** Tables that differ only in the target column's values have the same column names. */
  lemma {:induction false} SameExceptTargetNames<V(!new)>(a: Frame<V>, b: Frame<V>)
    requires SameExceptTarget(a, b)
    ensures Names(a) == Names(b)
  {
    forall n ensures n in Names(a) <==> n in Names(b) {
      if n in Names(a) {
        var c :| c in a && c.name == n;
        var i :| 0 <= i < |a| && a[i] == c;
        assert b[i].name == n;
      }
      if n in Names(b) {
        var c :| c in b && c.name == n;
        var i :| 0 <= i < |b| && b[i] == c;
        assert a[i].name == n;
      }
    }
  }

  /** Dropping a label set that includes the target erases any difference in the target column's values. */
  lemma {:induction false} WithoutSameExceptTarget<V(!new)>(a: Frame<V>, b: Frame<V>, labels: set<string>)
    requires SameExceptTarget(a, b)
    requires Target in labels
    ensures Without(a, labels) == Without(b, labels)
    decreases |a|
  {
    if a != [] {
      assert SameExceptTarget(a[1..], b[1..]) by {
        forall i | 0 <= i < |a| - 1 ensures a[1..][i].name == b[1..][i].name {
          assert a[i + 1].name == b[i + 1].name;
        }
      }
      WithoutSameExceptTarget(a[1..], b[1..], labels);
      assert a[0].name == b[0].name;
    }
  }

  /**
   * The prediction never depends on the values of the query's target column:
   * changing them leaves the result unchanged.
   */
  lemma PredictionIgnoresTargetValues<V(!new)>(net: Network<V>, a: Frame<V>, b: Frame<V>)
    requires SameExceptTarget(a, b)
    ensures PredictValue(net, a) == PredictValue(net, b)
  {
    SameExceptTargetNames(a, b);
    WithoutSameExceptTarget(a, b, DroppedLabels(net.nodes, a));
  }
}
