/** The aggregation buffer: one nullable bitmap field and the operations on it.

    The bitmap is modelled by the set of its members. An absent bitmap (a null
    field) is `None`; a present one, however empty, is `Some`. Every operation
    is a pure function from the old buffer to the new one. Operations that
    dereference the field without a null check require a present bitmap; the two
    that check for null model both branches. */
module BitMapBuffer {
  import opened Results
  import opened Codec

  datatype Buffer = Buffer(bitmap: Option<set<int32>>)

  /** Why a buffer operation can fail: the partial's bytes are not a
      serialized bitmap, or a method dereferenced a null bitmap. */
  datatype Fault = MalformedPartial | NullBitmap

  /** The bitmap field is not null. */
  predicate Present(b: Buffer) {
    b.bitmap.Some?
  }

  /** The members of a present bitmap. */
  function Members(b: Buffer): set<int32>
    requires Present(b)
  {
    b.bitmap.value
  }

  /** The constructor allocates an empty bitmap. */
  function New(): (b: Buffer)
    ensures Present(b) && Members(b) == {}
  {
    Buffer(Some({}))
  }

  /** `addItem`: inserts `id`; every member stays and nothing else joins. */
  function AddItem(b: Buffer, id: int32): (r: Buffer)
    requires Present(b)
    ensures Present(r)
    ensures forall x :: x in Members(r) <==> x == id || x in Members(b)
    ensures |Members(r)| == if id in Members(b) then |Members(b)| else |Members(b)| + 1
  {
    var s := b.bitmap.value;
    assert id in s ==> s + {id} == s;
    Buffer(Some(s + {id}))
  }

  /** `merge(byte[])`: a null partial is ignored; otherwise the bytes are
      decoded first (a malformed partial fails), and then either become the
      bitmap when the field is null or are united into it. */
  function Merge(b: Buffer, partial: Option<Bytes>): (r: Result<Buffer, Fault>)
    ensures partial.None? ==> r == Success(b)
    ensures r.Failure? <==> partial.Some? && Decode(partial.value).None?
    ensures r.Success? && partial.Some? ==>
      && Present(r.value)
      && Members(r.value) == (if Present(b) then Members(b) else {}) + Decode(partial.value).value
  {
    match partial
    case None => Success(b)
    case Some(bytes) =>
      match Decode(bytes)
      case None => Failure(MalformedPartial)
      case Some(other) =>
        match b.bitmap
        case None => Success(Buffer(Some(other)))
        case Some(mine) => Success(Buffer(Some(mine + other)))
  }

  /** `getPartial`: null exactly when the field is null; otherwise bytes that
      decode back to the current members. */
  function GetPartial(b: Buffer): (r: Option<Bytes>)
    ensures r.None? <==> !Present(b)
    ensures r.Some? ==> Decode(r.value) == Some(Members(b))
  {
    match b.bitmap
    case None => None
    case Some(s) => RoundTrip(s); Some(Encode(s))
  }

  /** `getCardinalityCount`: the number of distinct members. */
  function Cardinality(b: Buffer): (n: nat)
    requires Present(b)
    ensures n == |Members(b)|
    ensures n == 0 <==> Members(b) == {}
  {
    |b.bitmap.value|
  }

  /** `reset`: clears the bitmap, leaving it present and empty (never null). */
  function Reset(b: Buffer): (r: Buffer)
    requires Present(b)
    ensures Present(r) && Members(r) == {}
  {
    Buffer(Some({}))
  }

  /** One call a caller can make on a buffer. */
  datatype Call =
    | AddItemCall(id: int32)
    | MergeCall(partial: Option<Bytes>)
    | GetPartialCall
    | CardinalityCall
    | ResetCall

  /** Applies `calls` in order, stopping at the first failure. A call that
      dereferences the bitmap without a null check fails on a null bitmap. The
      two reading calls leave the buffer as it was. */
  function Run(b: Buffer, calls: seq<Call>): Result<Buffer, Fault>
    decreases |calls|
  {
    if calls == [] then Success(b)
    else
      var next: Result<Buffer, Fault> :=
        match calls[0]
        case MergeCall(partial) => Merge(b, partial)
        case GetPartialCall => Success(b)
        case _ =>
          if !Present(b) then Failure(NullBitmap)
          else if calls[0].AddItemCall? then Success(AddItem(b, calls[0].id))
          else if calls[0].ResetCall? then Success(Reset(b))
          else Success(b);
      if next.Failure? then next else Run(next.value, calls[1..])
  }

  /** Calls on a buffer with a present bitmap never meet a null bitmap, and
      leave it present. */
  lemma {:induction false} StaysPresent(b: Buffer, calls: seq<Call>)
    requires Present(b)
    ensures Run(b, calls) != Failure(NullBitmap)
    ensures Run(b, calls).Success? ==> Present(Run(b, calls).value)
    decreases |calls|
  {
    if calls != [] {
      var next: Result<Buffer, Fault> :=
        match calls[0]
        case MergeCall(partial) => Merge(b, partial)
        case GetPartialCall => Success(b)
        case AddItemCall(id) => Success(AddItem(b, id))
        case ResetCall => Success(Reset(b))
        case CardinalityCall => Success(b);
      if next.Success? {
        StaysPresent(next.value, calls[1..]);
      }
    }
  }

  /** The constructor's bitmap is never replaced by null: every buffer reached
      from a new one by any calls has a present bitmap, so no call fails on a
      null bitmap and the null branches of `merge` and `getPartial` are never
      taken. */
  lemma NeverNull(calls: seq<Call>)
    ensures Run(New(), calls) != Failure(NullBitmap)
    ensures Run(New(), calls).Success? ==> GetPartial(Run(New(), calls).value).Some?
  {
    StaysPresent(New(), calls);
  }

  /** Adding an id twice gives the same buffer as adding it once. */
  lemma AddIdempotent(b: Buffer, id: int32)
    requires Present(b)
    ensures AddItem(AddItem(b, id), id) == AddItem(b, id)
  {
  }

  /** The order in which two ids are added does not matter. */
  lemma AddCommutes(b: Buffer, x: int32, y: int32)
    requires Present(b)
    ensures AddItem(AddItem(b, x), y) == AddItem(AddItem(b, y), x)
  {
    assert Members(b) + {x} + {y} == Members(b) + {y} + {x};
  }

  /** Merging one buffer's partial into a present buffer yields the union. */
  lemma MergePartialIsUnion(b: Buffer, c: Buffer)
    requires Present(b) && Present(c)
    ensures Merge(b, GetPartial(c)) == Success(Buffer(Some(Members(b) + Members(c))))
  {
  }

  /** Merging a partial into a null bitmap copies it exactly. */
  lemma MergeIntoAbsentCopies(c: Buffer)
    requires Present(c)
    ensures Merge(Buffer(None), GetPartial(c)) == Success(c)
  {
  }

  /** Merging partials in either order gives the same buffer. */
  lemma MergeCommutes(b: Buffer, c: Buffer, d: Buffer)
    requires Present(b) && Present(c) && Present(d)
    ensures Merge(b, GetPartial(c)).Success?
    ensures Merge(Merge(b, GetPartial(c)).value, GetPartial(d))
         == Merge(Merge(b, GetPartial(d)).value, GetPartial(c))
  {
    MergePartialIsUnion(b, c);
    MergePartialIsUnion(b, d);
    MergePartialIsUnion(Buffer(Some(Members(b) + Members(c))), d);
    MergePartialIsUnion(Buffer(Some(Members(b) + Members(d))), c);
    assert Members(b) + Members(c) + Members(d) == Members(b) + Members(d) + Members(c);
  }

  /** Merging a buffer's own partial back into it changes nothing. */
  lemma MergeSelfIdempotent(b: Buffer)
    requires Present(b)
    ensures Merge(b, GetPartial(b)) == Success(b)
  {
    MergePartialIsUnion(b, b);
    assert Members(b) + Members(b) == Members(b);
  }

  /** After a reset the partial is the encoding of the empty set, not null,
      and the count is zero. */
  lemma ResetGivesEmptyPartial(b: Buffer)
    requires Present(b)
    ensures GetPartial(Reset(b)) == Some(Encode({}))
    ensures Cardinality(Reset(b)) == 0
  {
  }
}
