/** Distributed aggregation as a tree of stages.

    Each leaf is one PARTIAL1 stage over its own share of the raw rows. Each
    inner node is one PARTIAL2 stage that merges the partials of its children.
    A FINAL stage merges the partials of a list of trees and returns the count.
    The trees may have any shape and fan-out and the rows may be split among
    the leaves in any way. */
module MergeTree {
  import opened Results
  import opened Codec
  import opened BitMapBuffer
  import opened CountUdaf
  import opened Protocol

  datatype Tree = Leaf(rows: seq<Row>) | Combine(children: seq<Tree>)

  /** The partial a tree hands to its parent. */
  function PartialOf(t: Tree): Result<Option<Bytes>, Fault>
    decreases t
  {
    match t
    case Leaf(rows) =>
      var out := Stage(Partial1, RawRows(rows));
      Success(out.value.partial)
    case Combine(children) =>
      var partials := PartialsOf(children);
      if partials.Failure? then Failure(partials.error)
      else
        var out := Stage(Partial2, Partials(partials.value));
        if out.Failure? then Failure(out.error) else Success(out.value.partial)
  }

  /** The partials of a list of trees, left to right. */
  function PartialsOf(ts: seq<Tree>): Result<seq<Option<Bytes>>, Fault>
    decreases ts
  {
    if ts == [] then Success([])
    else
      var first := PartialOf(ts[0]);
      if first.Failure? then Failure(first.error)
      else
        var rest := PartialsOf(ts[1..]);
        if rest.Failure? then Failure(rest.error) else Success([first.value] + rest.value)
  }

  /** The raw rows at the leaves of a tree, left to right. */
  function Rows(t: Tree): seq<Row>
    decreases t
  {
    match t
    case Leaf(rows) => rows
    case Combine(children) => RowsAll(children)
  }

  function RowsAll(ts: seq<Tree>): seq<Row>
    decreases ts
  {
    if ts == [] then [] else Rows(ts[0]) + RowsAll(ts[1..])
  }

  /** The FINAL stage over the partials of `ts`. */
  function FinalCount(ts: seq<Tree>): Result<nat, Fault> {
    var partials := PartialsOf(ts);
    if partials.Failure? then Failure(partials.error)
    else
      var out := Stage(Final, Partials(partials.value));
      if out.Failure? then Failure(out.error) else Success(out.value.count)
  }

  /** The COMPLETE stage over all rows at once. */
  function CompleteCount(rows: seq<Row>): (n: nat)
    ensures n == |Values(rows)|
  {
    Stage(Complete, RawRows(rows)).value.count
  }

  /** Every tree's partial is well-formed and carries exactly the distinct
      values of the rows at its leaves. */
  lemma {:induction false} PartialOfTree(t: Tree)
    ensures PartialOf(t).Success? && PartialOf(t).value.Some?
    ensures Decode(PartialOf(t).value.value) == Some(Values(Rows(t)))
    decreases t
  {
    match t
    case Leaf(rows) =>
    case Combine(children) =>
      PartialsOfTrees(children);
  }

  lemma {:induction false} PartialsOfTrees(ts: seq<Tree>)
    ensures PartialsOf(ts).Success?
    ensures !AnyMalformed(PartialsOf(ts).value)
    ensures CarriedAll(PartialsOf(ts).value) == Values(RowsAll(ts))
    decreases ts
  {
    if ts != [] {
      PartialOfTree(ts[0]);
      PartialsOfTrees(ts[1..]);
      var ps := PartialsOf(ts).value;
      assert ps[1..] == PartialsOf(ts[1..]).value;
      ValuesAppend(Rows(ts[0]), RowsAll(ts[1..]));
    }
  }

  /** The FINAL count over any forest of merge trees is the number of
      distinct values among all raw rows at its leaves. */
  lemma FinalCountsDistinct(ts: seq<Tree>)
    ensures FinalCount(ts) == Success(|Values(RowsAll(ts))|)
  {
    PartialsOfTrees(ts);
  }

  /** Splitting the rows among PARTIAL1 stages in any way, and merging their
      partials through PARTIAL2 and FINAL stages in any order and tree shape,
      gives the count COMPLETE gives over all the rows. */
  lemma FinalMatchesComplete(ts: seq<Tree>, rows: seq<Row>)
    requires multiset(RowsAll(ts)) == multiset(rows)
    ensures FinalCount(ts) == Success(CompleteCount(rows))
  {
    FinalCountsDistinct(ts);
    ValuesOfPermutation(RowsAll(ts), rows);
  }

  /** Two merge forests over the same rows give the same count, whatever
      their shapes. */
  lemma ShapeIndependent(ts: seq<Tree>, us: seq<Tree>)
    requires multiset(RowsAll(ts)) == multiset(RowsAll(us))
    ensures FinalCount(ts) == FinalCount(us)
  {
    FinalMatchesComplete(ts, RowsAll(us));
    FinalMatchesComplete(us, RowsAll(us));
  }

  /** A row holding a single non-null value. */
  function ValueRow(x: int32): Row {
    Some([Some(x)])
  }

  lemma RowsOfPair(t: Tree, u: Tree)
    ensures RowsAll([t]) == Rows(t)
    ensures RowsAll([t, u]) == Rows(t) + Rows(u)
  {
    assert [t, u][1..] == [u];
    assert RowsAll([u]) == Rows(u) + RowsAll([]);
  }

  lemma ValuesOfValueRows(x: int32, y: int32, z: int32)
    ensures Values([ValueRow(x), ValueRow(y), ValueRow(z)]) == {x, y, z}
  {
    var rows := [ValueRow(x), ValueRow(y), ValueRow(z)];
    assert forall v :: RowValues(ValueRow(v)) == {v};
    assert rows[1..] == [ValueRow(y), ValueRow(z)];
    assert rows[1..][1..] == [ValueRow(z)];
    assert rows[1..][1..][1..] == [];
    assert Values(rows[1..][1..]) == {z};
    assert Values(rows[1..]) == {y, z};
  }

  lemma OverlapValues(a: seq<Row>, b: seq<Row>)
    requires a == [ValueRow(1), ValueRow(2), ValueRow(3)]
    requires b == [ValueRow(3), ValueRow(4), ValueRow(5)]
    ensures RowsAll([Combine([Leaf(a), Leaf(b)])]) == a + b
    ensures |Values(a + b)| == 5
  {
    RowsOfPair(Leaf(a), Leaf(b));
    RowsOfPair(Combine([Leaf(a), Leaf(b)]), Leaf(b));
    ValuesOfValueRows(1, 2, 3);
    ValuesOfValueRows(3, 4, 5);
    ValuesAppend(a, b);
    assert Values(a + b) == {1, 2, 3, 4, 5};
  }

  /** Two map-side stages over 1, 2, 3 and 3, 4, 5 merged by a combiner and
      then a reducer count 5, not 6. */
  lemma TwoNodesOverlap()
    ensures FinalCount([Combine([Leaf([ValueRow(1), ValueRow(2), ValueRow(3)]),
                                 Leaf([ValueRow(3), ValueRow(4), ValueRow(5)])])])
         == Success(5)
  {
    var a := [ValueRow(1), ValueRow(2), ValueRow(3)];
    var b := [ValueRow(3), ValueRow(4), ValueRow(5)];
    FinalCountsDistinct([Combine([Leaf(a), Leaf(b)])]);
    OverlapValues(a, b);
  }

  /** Three partitions each holding the same value count 1 in a skewed tree. */
  lemma SameValueEverywhere()
    ensures FinalCount([Combine([Leaf([ValueRow(1)]), Leaf([ValueRow(1)])]), Leaf([ValueRow(1)])])
         == Success(1)
  {
    var one := [ValueRow(1)];
    var ts := [Combine([Leaf(one), Leaf(one)]), Leaf(one)];
    FinalCountsDistinct(ts);
    assert RowsAll([Leaf(one)]) == one;
    assert RowsAll([Leaf(one), Leaf(one)]) == one + one;
    assert RowsAll(ts) == one + one + one;
    assert RowValues(ValueRow(1)) == {1};
    assert Values(one) == {1};
    ValuesAppend(one, one);
    ValuesAppend(one + one, one);
    assert Values(RowsAll(ts)) == {1};
  }
}
