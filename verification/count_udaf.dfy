/** The resolver and the evaluator of the distinct-count aggregate function.

    The host engine first asks the resolver for an evaluator, then calls the
    evaluator's `init` once per mode and drives the aggregation buffer through
    `iterate`, `merge`, `terminatePartial` and `terminate`. Object inspectors
    are reduced to the kind of value they describe, and the raw argument is
    taken as an already-coerced `int`. */
module CountUdaf {
  import opened Results
  import opened Codec
  import opened BitMapBuffer

  /** The four aggregation modes of the host engine. */
  datatype Mode = Partial1 | Partial2 | Final | Complete

  /** The kind of value an object inspector describes: a raw `int` or the
      binary form of a partial. */
  datatype ValueKind = IntValue | BinaryValue

  /** What `init` records as its input and declares as its output. */
  datatype Signature = Signature(input: ValueKind, output: ValueKind)

  /** Failures of the resolver and of `init`: more than one argument, or an
      empty parameter array read at index 0. */
  datatype UdafFault = TooManyArguments | MissingArgument

  /** The evaluator object; it carries no aggregation state of its own. */
  datatype Evaluator = BitmapDistinctEvaluator

  /** The kind of value a mode feeds in: raw rows through `iterate` in the
      modes that start from raw data, partials through `merge` otherwise. */
  function ConsumesKind(mode: Mode): ValueKind {
    match mode
    case Partial1 => IntValue
    case Complete => IntValue
    case Partial2 => BinaryValue
    case Final => BinaryValue
  }

  /** The kind of value a mode hands back: a partial from `terminatePartial`
      in the modes that feed a later stage, the count from `terminate`
      otherwise. */
  function EmitsKind(mode: Mode): ValueKind {
    match mode
    case Partial1 => BinaryValue
    case Partial2 => BinaryValue
    case Final => IntValue
    case Complete => IntValue
  }

  /** `getEvaluator`: refuses more than one argument type and accepts zero or
      one. */
  function GetEvaluator(argCount: nat): (r: Result<Evaluator, UdafFault>)
    ensures r.Success? <==> argCount <= 1
    ensures r.Failure? ==> r.error == TooManyArguments
  {
    if argCount > 1 then Failure(TooManyArguments) else Success(BitmapDistinctEvaluator)
  }

  /** `init`: reads parameter 0 (failing on an empty parameter array) as the
      raw input in the modes that iterate and as a partial in the modes that
      merge, and declares an `int` output only in FINAL. */
  function Init(mode: Mode, arity: nat): (r: Result<Signature, UdafFault>)
    ensures r.Failure? <==> arity == 0
    ensures r.Failure? ==> r.error == MissingArgument
    ensures r.Success? ==> r.value.input == ConsumesKind(mode)
    ensures r.Success? ==> (r.value.output == IntValue <==> mode == Final)
  {
    if arity == 0 then Failure(MissingArgument)
    else
      var input := if mode == Partial1 || mode == Complete then IntValue else BinaryValue;
      var output := if mode == Final then IntValue else BinaryValue;
      Success(Signature(input, output))
  }

  /** The signature a mode needs: it reads what the mode consumes and
      declares what the mode emits. */
  predicate Consistent(mode: Mode, sig: Signature) {
    sig.input == ConsumesKind(mode) && sig.output == EmitsKind(mode)
  }

  /** As written, the resolver lets a call with no argument through, and
      `init` then fails on it in both modes that read raw rows. */
  lemma ZeroArgumentsPassResolver()
    ensures GetEvaluator(0).Success?
    ensures Init(Partial1, 0) == Failure(MissingArgument)
    ensures Init(Complete, 0) == Failure(MissingArgument)
  {
  }

  /** The argument check the resolver's message describes: exactly one. */
  function GetEvaluatorExact(argCount: nat): (r: Result<Evaluator, UdafFault>)
    ensures r.Success? <==> argCount == 1
  {
    if argCount > 1 then Failure(TooManyArguments)
    else if argCount == 0 then Failure(MissingArgument)
    else Success(BitmapDistinctEvaluator)
  }

  /** With the exact check, every evaluator handed out initialises in every
      mode. */
  lemma ExactResolverInitialises(argCount: nat, mode: Mode)
    requires GetEvaluatorExact(argCount).Success?
    ensures Init(mode, argCount).Success?
  {
  }

  /** As written, `init` declares a binary output in COMPLETE although that
      mode ends with `terminate`, which returns an `int`. The other three
      modes are declared consistently. */
  lemma CompleteOutputMismatch()
    ensures Init(Complete, 1).Success? && !Consistent(Complete, Init(Complete, 1).value)
    ensures forall mode :: mode != Complete ==> Consistent(mode, Init(mode, 1).value)
  {
  }

  /** `init` with the output chosen by what the mode returns: an `int` in
      FINAL and COMPLETE, a partial in PARTIAL1 and PARTIAL2. */
  function InitFixed(mode: Mode, arity: nat): (r: Result<Signature, UdafFault>)
    ensures r.Failure? <==> arity == 0
    ensures r.Success? ==> Consistent(mode, r.value)
    ensures r.Success? ==> (r.value.output == IntValue <==> mode == Final || mode == Complete)
  {
    if arity == 0 then Failure(MissingArgument)
    else
      var input := if mode == Partial1 || mode == Complete then IntValue else BinaryValue;
      var output := if mode == Final || mode == Complete then IntValue else BinaryValue;
      Success(Signature(input, output))
  }

  /** Resolver and `init` together, with both corrections: an evaluator is
      handed out and initialised exactly for one argument, and its signature
      then fits the mode. */
  function Prepare(argCount: nat, mode: Mode): (r: Result<Signature, UdafFault>)
    ensures r.Success? <==> argCount == 1
    ensures r.Success? ==> Consistent(mode, r.value)
  {
    var evaluator := GetEvaluatorExact(argCount);
    if evaluator.Failure? then Failure(evaluator.error) else InitFixed(mode, argCount)
  }

  /** `getNewAggregationBuffer`: a constructed buffer, reset. */
  function NewAggregationBuffer(): (b: Buffer)
    ensures Present(b)
    ensures Cardinality(b) == 0
    ensures GetPartial(b) == Some(Encode({}))
  {
    Reset(New())
  }

  /** `reset`: the buffer's own reset. */
  function ResetBuffer(agg: Buffer): (r: Buffer)
    requires Present(agg)
    ensures Present(r) && Cardinality(r) == 0
  {
    Reset(agg)
  }

  /** The parameter array of one `iterate` call: null, or an array of
      possibly-null values. */
  type Row = Option<seq<Option<int32>>>

  /** `iterate` adds something for this row: the array is not null, has
      exactly one element, and that element is not null. */
  predicate Counted(row: Row) {
    row.Some? && |row.value| == 1 && row.value[0].Some?
  }

  /** The values a row contributes: its single value when it is counted. */
  function RowValues(row: Row): (s: set<int32>)
    ensures |s| <= 1
  {
    if Counted(row) then {row.value[0].value} else {}
  }

  /** `iterate`: skips a null array, an array of the wrong length and a null
      value; otherwise adds exactly that value. */
  function Iterate(agg: Buffer, row: Row): (r: Buffer)
    requires Counted(row) ==> Present(agg)
    ensures !Counted(row) ==> r == agg
    ensures Counted(row) ==> Present(r) && Members(r) == Members(agg) + RowValues(row)
  {
    if row.None? || |row.value| != 1 then agg
    else if row.value[0].Some? then AddItem(agg, row.value[0].value)
    else agg
  }

  /** `terminatePartial`: the buffer's partial, null only for a null bitmap. */
  function TerminatePartial(agg: Buffer): (r: Option<Bytes>)
    ensures r.None? <==> !Present(agg)
    ensures r.Some? ==> Decode(r.value) == Some(Members(agg))
  {
    GetPartial(agg)
  }

  /** `merge`: a null partial leaves the buffer as it is; any other partial is
      handed to the buffer's merge. */
  function MergePartial(agg: Buffer, partial: Option<Bytes>): (r: Result<Buffer, Fault>)
    ensures partial.None? ==> r == Success(agg)
    ensures r.Failure? <==> partial.Some? && Decode(partial.value).None?
    ensures Present(agg) && r.Success? ==>
      Present(r.value) && Members(r.value) == Members(agg) + Carried(partial)
    ensures r.Success? && partial.Some? ==>
      && Present(r.value)
      && Members(r.value) == (if Present(agg) then Members(agg) else {}) + Carried(partial)
  {
    if partial.None? then Success(agg) else Merge(agg, partial)
  }

  /** The members a partial carries into a merge: none for a null or
      malformed partial. */
  function Carried(partial: Option<Bytes>): set<int32> {
    if partial.None? then {}
    else match Decode(partial.value)
      case None => {}
      case Some(s) => s
  }

  /** `terminate`: the number of distinct values in the buffer. */
  function Terminate(agg: Buffer): (n: nat)
    requires Present(agg)
    ensures n == |Members(agg)|
  {
    Cardinality(agg)
  }

  /** A buffer's partial carries into the next stage exactly as many values
      as `terminate` would count on that buffer. */
  lemma PartialCarriesCount(agg: Buffer)
    requires Present(agg)
    ensures |Carried(TerminatePartial(agg))| == Terminate(agg)
  {
  }
}
