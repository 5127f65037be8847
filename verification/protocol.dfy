/** One stage of the aggregation: the fixed call sequence the host engine runs
    on a fresh buffer in each mode.

    PARTIAL1   reset, iterate*, terminatePartial   (map side)
    PARTIAL2   reset, merge*,   terminatePartial   (combiner)
    FINAL      reset, merge*,   terminate          (reducer)
    COMPLETE   reset, iterate*, terminate          (map-only) */
module Protocol {
  import opened Results
  import opened Codec
  import opened BitMapBuffer
  import opened CountUdaf

  /** What a stage is fed: raw rows or the partials of earlier stages. */
  datatype Input = RawRows(rows: seq<Row>) | Partials(partials: seq<Option<Bytes>>)

  /** What a stage hands back: a partial or the final count. */
  datatype Output = PartialOut(partial: Option<Bytes>) | CountOut(count: nat)

  /** The distinct values counted in a sequence of rows. */
  function Values(rows: seq<Row>): set<int32> {
    if rows == [] then {} else RowValues(rows[0]) + Values(rows[1..])
  }

  /** The values a sequence of partials carries. */
  function CarriedAll(partials: seq<Option<Bytes>>): set<int32> {
    if partials == [] then {} else Carried(partials[0]) + CarriedAll(partials[1..])
  }

  /** Some partial in the sequence is neither null nor decodable. */
  predicate AnyMalformed(partials: seq<Option<Bytes>>) {
    exists i :: 0 <= i < |partials| && partials[i].Some? && Decode(partials[i].value).None?
  }

  /** `iterate` over each row in turn. */
  function IterateAll(agg: Buffer, rows: seq<Row>): (r: Buffer)
    requires Present(agg)
    ensures Present(r)
    ensures Members(r) == Members(agg) + Values(rows)
    decreases |rows|
  {
    if rows == [] then agg else IterateAll(Iterate(agg, rows[0]), rows[1..])
  }

  /** `merge` of each partial in turn, stopping at the first malformed one. */
  function MergeAll(agg: Buffer, partials: seq<Option<Bytes>>): (r: Result<Buffer, Fault>)
    requires Present(agg)
    ensures r.Failure? <==> AnyMalformed(partials)
    ensures r.Success? ==> Present(r.value) && Members(r.value) == Members(agg) + CarriedAll(partials)
    decreases |partials|
  {
    if partials == [] then Success(agg)
    else
      var m := MergePartial(agg, partials[0]);
      if m.Failure? then m
      else
        var rest := MergeAll(m.value, partials[1..]);
        assert AnyMalformed(partials) <==> AnyMalformed(partials[1..]) by {
          if AnyMalformed(partials) {
            var i :| 0 <= i < |partials| && partials[i].Some? && Decode(partials[i].value).None?;
            assert i != 0;
            assert partials[1..][i - 1] == partials[i];
          }
          if AnyMalformed(partials[1..]) {
            var i :| 0 <= i < |partials[1..]| && partials[1..][i].Some? && Decode(partials[1..][i].value).None?;
            assert partials[i + 1] == partials[1..][i];
          }
        }
        rest
  }

  /** The host feeds raw rows to the modes that iterate and partials to the
      modes that merge. */
  predicate Feeds(mode: Mode, input: Input) {
    input.RawRows? <==> ConsumesKind(mode) == IntValue
  }

  /** One stage in `mode`: a fresh buffer, filled from the input, then read
      out as a partial or as the count. */
  function Stage(mode: Mode, input: Input): (r: Result<Output, Fault>)
    requires Feeds(mode, input)
    ensures r.Failure? <==> input.Partials? && AnyMalformed(input.partials)
    ensures r.Success? ==> (r.value.PartialOut? <==> EmitsKind(mode) == BinaryValue)
    ensures r.Success? ==> (r.value.CountOut? <==> Prepare(1, mode).value.output == IntValue)
    ensures r.Success? && r.value.PartialOut? ==>
      r.value.partial.Some? && Decode(r.value.partial.value) == Some(StageValues(input))
    ensures r.Success? && r.value.CountOut? ==> r.value.count == |StageValues(input)|
  {
    var agg := NewAggregationBuffer();
    var filled: Result<Buffer, Fault> :=
      match input
      case RawRows(rows) => Success(IterateAll(agg, rows))
      case Partials(partials) => MergeAll(agg, partials);
    if filled.Failure? then Failure(filled.error)
    else if EmitsKind(mode) == BinaryValue then Success(PartialOut(TerminatePartial(filled.value)))
    else Success(CountOut(Terminate(filled.value)))
  }

  /** The values a stage's input brings in. */
  function StageValues(input: Input): set<int32> {
    match input
    case RawRows(rows) => Values(rows)
    case Partials(partials) => CarriedAll(partials)
  }

  /** The values of concatenated rows are the union of the parts' values. */
  lemma {:induction false} ValuesAppend(a: seq<Row>, b: seq<Row>)
    ensures Values(a + b) == Values(a) + Values(b)
    decreases |a|
  {
    if a == [] {
      assert a + b == b;
    } else {
      assert (a + b)[0] == a[0];
      assert (a + b)[1..] == a[1..] + b;
      ValuesAppend(a[1..], b);
    }
  }

  /** A value is counted exactly when some row contributes it. */
  lemma {:induction false} ValuesMembership(rows: seq<Row>, x: int32)
    ensures x in Values(rows) <==> exists i :: 0 <= i < |rows| && x in RowValues(rows[i])
    decreases |rows|
  {
    if rows != [] {
      ValuesMembership(rows[1..], x);
      if x in Values(rows[1..]) {
        var i :| 0 <= i < |rows[1..]| && x in RowValues(rows[1..][i]);
        assert rows[i + 1] == rows[1..][i];
      }
      if exists i :: 0 <= i < |rows| && x in RowValues(rows[i]) {
        var i :| 0 <= i < |rows| && x in RowValues(rows[i]);
        if i > 0 {
          assert rows[1..][i - 1] == rows[i];
        }
      }
    }
  }

  /** The counted values depend only on which rows occur, not on their
      order: any reordering of the rows counts the same values. */
  lemma ValuesOfPermutation(a: seq<Row>, b: seq<Row>)
    requires multiset(a) == multiset(b)
    ensures Values(a) == Values(b)
  {
    forall x | x in Values(a) ensures x in Values(b) {
      ValuesMembership(a, x);
      var i :| 0 <= i < |a| && x in RowValues(a[i]);
      assert a[i] in multiset(b);
      var j :| 0 <= j < |b| && b[j] == a[i];
      ValuesMembership(b, x);
    }
    forall x | x in Values(b) ensures x in Values(a) {
      ValuesMembership(b, x);
      var j :| 0 <= j < |b| && x in RowValues(b[j]);
      assert b[j] in multiset(a);
      var i :| 0 <= i < |a| && a[i] == b[j];
      ValuesMembership(a, x);
    }
  }
}
