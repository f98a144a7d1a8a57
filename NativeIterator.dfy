/**
 * The iterator that hands serialized columnar batches to the native scanner
 * (io.glutenproject.execution.ColumnarNativeIterator).
 *
 * The wrapped Java iterator is modelled by the sequence of batches it will
 * yield, `delegated`, and the number of batches it has already yielded, `pos`:
 * `delegated.hasNext()` is `pos < |delegated|`, and `delegated.next()` returns
 * `delegated[pos]` and advances `pos`. Converting a batch to an Arrow record
 * batch and serializing it is one opaque function, `encode`.
 */
module NativeIterator {
  import opened Wrappers

  /** A columnar batch as the iterator sees it: an identity standing for its
      column data, and the row count it reports. */
  datatype Batch = Batch(id: nat, numRows: int)

  /** The bytes of one serialized Arrow record batch. */
  type Wire = seq<bv8>

  /** How next() can fail: the pending batch is still null (a
      NullPointerException), or it has no rows (an IllegalStateException). */
  datatype IterError = NullBatch | IllegalState

  predicate NonEmpty(b: Batch) {
    b.numRows > 0
  }

  /** The iterator's mutable state: the cursor of the wrapped iterator and the
      pending batch, `nextBatch`. */
  datatype IterState = IterState(pos: nat, pending: Option<Batch>)

  /** What one hasNext() call answers, and the state it leaves behind. */
  datatype Probe = Probe(found: bool, after: IterState)

  /** hasNext(): pull batches, each one overwriting the pending batch, until one
      has rows or the wrapped iterator is exhausted. */
  function HasNextSpec(delegated: seq<Batch>, st: IterState): (p: Probe)
    requires st.pos <= |delegated|
    ensures st.pos <= p.after.pos <= |delegated|
    ensures p.found ==> st.pos < p.after.pos
    ensures !p.found ==> p.after.pos == |delegated|
    decreases |delegated| - st.pos
  {
    if st.pos == |delegated| then Probe(false, st)
    else
      var b := delegated[st.pos];
      var st' := IterState(st.pos + 1, Some(b));
      if NonEmpty(b) then Probe(true, st') else HasNextSpec(delegated, st')
  }

  /** next(): encode the pending batch, or throw. */
  function Produce(encode: Batch -> Wire, pending: Option<Batch>): (r: Result<Wire, IterError>) {
    match pending
    case None => Failure(NullBatch)
    case Some(b) => if NonEmpty(b) then Success(encode(b)) else Failure(IllegalState)
  }

  /** What a caller that strictly alternates hasNext() and next(), stopping at
      the first false, receives from state `st` on. */
  function Drain(encode: Batch -> Wire, delegated: seq<Batch>, st: IterState): (out: seq<Wire>)
    requires st.pos <= |delegated|
    decreases |delegated| - st.pos
  {
    var p := HasNextSpec(delegated, st);
    if !p.found then []
    else
      match Produce(encode, p.after.pending)
      case Success(w) => [w] + Drain(encode, delegated, p.after)
      case Failure(_) => []
  }

  /** The batches of `s` that have rows, in their original order. */
  function NonEmptyBatches(s: seq<Batch>): (r: seq<Batch>)
    ensures |r| <= |s|
    ensures forall b :: b in r ==> b in s && NonEmpty(b)
  {
    if s == [] then []
    else (if NonEmpty(s[0]) then [s[0]] else []) + NonEmptyBatches(s[1..])
  }

  function EncodeAll(encode: Batch -> Wire, s: seq<Batch>): (r: seq<Wire>)
    ensures |r| == |s|
  {
    if s == [] then [] else [encode(s[0])] + EncodeAll(encode, s[1..])
  }

  /** hasNext() answers true exactly when an unread batch with rows remains.
      Then the pending batch is the first such batch, the cursor sits just
      after it, and every batch passed over on the way had no rows. */
  lemma {:induction false} HasNextFindsFirstNonEmpty(delegated: seq<Batch>, st: IterState)
    requires st.pos <= |delegated|
    ensures var p := HasNextSpec(delegated, st);
      && (p.found <==> exists k :: st.pos <= k < |delegated| && NonEmpty(delegated[k]))
      && (p.found ==>
            && NonEmpty(delegated[p.after.pos - 1])
            && p.after.pending == Some(delegated[p.after.pos - 1])
            && forall k :: st.pos <= k < p.after.pos - 1 ==> !NonEmpty(delegated[k]))
    decreases |delegated| - st.pos
  {
    if st.pos < |delegated| && !NonEmpty(delegated[st.pos]) {
      HasNextFindsFirstNonEmpty(delegated, IterState(st.pos + 1, Some(delegated[st.pos])));
    }
  }

  /** A hasNext() that answers false leaves the wrapped iterator exhausted.
      The pending batch is then unchanged if it was already exhausted, and
      otherwise the last batch read, which has no rows. */
  lemma {:induction false} HasNextExhausted(delegated: seq<Batch>, st: IterState)
    requires st.pos <= |delegated|
    ensures var p := HasNextSpec(delegated, st);
      !p.found ==>
        && p.after.pos == |delegated|
        && (st.pos == |delegated| ==> p.after.pending == st.pending)
        && (st.pos < |delegated| ==>
              && p.after.pending == Some(delegated[|delegated| - 1])
              && !NonEmpty(delegated[|delegated| - 1]))
    decreases |delegated| - st.pos
  {
    if st.pos < |delegated| && !NonEmpty(delegated[st.pos]) {
      HasNextExhausted(delegated, IterState(st.pos + 1, Some(delegated[st.pos])));
    }
  }

  /** next() after a hasNext(): the encoding of the batch hasNext() stopped at
      when it answered true; an IllegalStateException when it answered false
      after reading batches; and, when the wrapped iterator was already
      exhausted, whatever the stale pending batch gives. */
  lemma ProbeThenProduce(encode: Batch -> Wire, delegated: seq<Batch>, st: IterState)
    requires st.pos <= |delegated|
    ensures var p := HasNextSpec(delegated, st);
      && (p.found ==> Produce(encode, p.after.pending) == Success(encode(delegated[p.after.pos - 1])))
      && (!p.found && st.pos < |delegated| ==> Produce(encode, p.after.pending) == Failure(IllegalState))
      && (!p.found && st.pos == |delegated| ==> Produce(encode, p.after.pending) == Produce(encode, st.pending))
  {
    HasNextFindsFirstNonEmpty(delegated, st);
    HasNextExhausted(delegated, st);
  }

  /** hasNext() is not idempotent: a second call without next() in between
      starts after the pending batch, so that batch is never offered again. */
  lemma HasNextTwiceSkipsPending(delegated: seq<Batch>, st: IterState)
    requires st.pos <= |delegated|
    requires HasNextSpec(delegated, st).found
    ensures var first := HasNextSpec(delegated, st).after;
      var second := HasNextSpec(delegated, first);
      && (second.found <==> exists k :: first.pos <= k < |delegated| && NonEmpty(delegated[k]))
      && (second.found ==>
            && first.pos < second.after.pos
            && second.after.pending == Some(delegated[second.after.pos - 1]))
  {
    var first := HasNextSpec(delegated, st).after;
    HasNextFindsFirstNonEmpty(delegated, first);
  }

  /** Two batches with rows: the second hasNext() replaces the first batch by
      the second before any next() could encode it. */
  lemma HasNextTwiceExample(encode: Batch -> Wire)
    ensures var d := [Batch(0, 1), Batch(1, 2)];
      var first := HasNextSpec(d, IterState(0, None));
      var second := HasNextSpec(d, first.after);
      && first == Probe(true, IterState(1, Some(Batch(0, 1))))
      && second == Probe(true, IterState(2, Some(Batch(1, 2))))
      && Produce(encode, second.after.pending) == Success(encode(Batch(1, 2)))
  {
  }

  /** One batch with rows: after hasNext() answered true and then false on the
      exhausted iterator, next() encodes that batch instead of failing. */
  lemma StaleBatchAfterExhaustion(encode: Batch -> Wire)
    ensures var d := [Batch(0, 3)];
      var first := HasNextSpec(d, IterState(0, None));
      var second := HasNextSpec(d, first.after);
      && first.found && !second.found
      && Produce(encode, second.after.pending) == Success(encode(Batch(0, 3)))
  {
  }

  /** next() after a false hasNext() on an exhausted iterator gives what the
      stale pending batch gives: NullBatch when no batch was ever read, and an
      IllegalStateException when the last batch read had no rows. */
  lemma NextAfterExhaustionExamples(encode: Batch -> Wire)
    ensures var p := HasNextSpec([], IterState(0, None));
      !p.found && Produce(encode, p.after.pending) == Failure(NullBatch)
    ensures var d := [Batch(0, 0)];
      var first := HasNextSpec(d, IterState(0, None));
      var second := HasNextSpec(d, first.after);
      && !first.found && !second.found
      && Produce(encode, second.after.pending) == Failure(IllegalState)
  {
  }

  /** One round of Drain: a true probe contributes the encoding of the batch
      it left pending. */
  lemma DrainStep(encode: Batch -> Wire, delegated: seq<Batch>, st: IterState)
    requires st.pos <= |delegated|
    ensures var p := HasNextSpec(delegated, st);
      && (p.found ==>
            && p.after.pending.Some?
            && Drain(encode, delegated, st) == [encode(p.after.pending.value)] + Drain(encode, delegated, p.after))
      && (!p.found ==> Drain(encode, delegated, st) == [])
  {
    HasNextFindsFirstNonEmpty(delegated, st);
  }

  /** Strictly alternating hasNext() and next() until hasNext() answers false
      yields the encodings of exactly the unread batches with rows, in order. */
  lemma {:induction false} DrainEncodesNonEmptyInOrder(encode: Batch -> Wire, delegated: seq<Batch>, st: IterState)
    requires st.pos <= |delegated|
    ensures Drain(encode, delegated, st) == EncodeAll(encode, NonEmptyBatches(delegated[st.pos..]))
    decreases |delegated| - st.pos
  {
    if st.pos < |delegated| {
      var b := delegated[st.pos];
      var st' := IterState(st.pos + 1, Some(b));
      assert delegated[st.pos..] == [b] + delegated[st.pos + 1..];
      DrainEncodesNonEmptyInOrder(encode, delegated, st');
      if NonEmpty(b) {
        assert NonEmptyBatches(delegated[st.pos..]) == [b] + NonEmptyBatches(delegated[st.pos + 1..]);
      } else {
        assert NonEmptyBatches(delegated[st.pos..]) == NonEmptyBatches(delegated[st.pos + 1..]);
      }
    }
  }

  class ColumnarNativeIterator {
    /** Everything the wrapped iterator yields, in order. */
    const delegated: seq<Batch>
    /** Arrow conversion followed by serialization. */
    const encode: Batch -> Wire
    /** How many batches the wrapped iterator has yielded. */
    var pos: nat
    /** The field `nextBatch`; None is Java's initial null. */
    var nextBatch: Option<Batch>

    ghost predicate Valid()
      reads this
    {
      pos <= |delegated|
    }

    function State(): (st: IterState)
      reads this
    {
      IterState(pos, nextBatch)
    }

    constructor (delegated: seq<Batch>, encode: Batch -> Wire)
      ensures Valid()
      ensures this.delegated == delegated && this.encode == encode
      ensures pos == 0 && nextBatch == None
    {
      this.delegated := delegated;
      this.encode := encode;
      pos := 0;
      nextBatch := None;
    }

    method HasNext() returns (found: bool)
      requires Valid()
      modifies this
      ensures Valid()
      ensures Probe(found, State()) == HasNextSpec(delegated, old(State()))
      ensures found <==> exists k :: old(pos) <= k < |delegated| && NonEmpty(delegated[k])
      ensures found ==> NonEmpty(delegated[pos - 1]) && nextBatch == Some(delegated[pos - 1])
      ensures !found ==> pos == |delegated|
    {
      while pos < |delegated|
        invariant Valid()
        invariant HasNextSpec(delegated, State()) == HasNextSpec(delegated, old(State()))
        decreases |delegated| - pos
      {
        nextBatch := Some(delegated[pos]);
        pos := pos + 1;
        if NonEmpty(nextBatch.value) {
          HasNextFindsFirstNonEmpty(delegated, old(State()));
          return true;
        }
      }
      HasNextFindsFirstNonEmpty(delegated, old(State()));
      return false;
    }

    method Next() returns (r: Result<Wire, IterError>)
      ensures r == Produce(encode, nextBatch)
      ensures r.Success? <==> nextBatch.Some? && NonEmpty(nextBatch.value)
      ensures r.Success? ==> r.value == encode(nextBatch.value)
      ensures nextBatch.Some? && !NonEmpty(nextBatch.value) ==> r == Failure(IllegalState)
    {
      match nextBatch
      case None =>
        r := Failure(NullBatch);
      case Some(b) =>
        if NonEmpty(b) {
          r := Success(encode(b));
        } else {
          r := Failure(IllegalState);
        }
    }

    /** close() holds no resource and does nothing. */
    method Close()
      ensures unchanged(this)
    {
    }
  }

  /** Two next() calls in a row encode the same pending batch: next() moves
      neither the cursor nor the pending batch. */
  method RepeatedNext(it: ColumnarNativeIterator) returns (first: Result<Wire, IterError>, second: Result<Wire, IterError>)
    ensures first == second
    ensures first == Produce(it.encode, it.nextBatch)
  {
    first := it.Next();
    second := it.Next();
  }

  /** A caller that strictly alternates hasNext() and next() until hasNext()
      answers false. */
  method DrainAlternating(it: ColumnarNativeIterator) returns (out: seq<Wire>)
    requires it.Valid()
    modifies it
    ensures it.Valid() && it.pos == |it.delegated|
    ensures out == Drain(it.encode, it.delegated, old(it.State()))
    ensures out == EncodeAll(it.encode, NonEmptyBatches(it.delegated[old(it.pos)..]))
  {
    ghost var start := it.State();
    DrainEncodesNonEmptyInOrder(it.encode, it.delegated, start);
    out := [];
    var more := it.HasNext();
    DrainStep(it.encode, it.delegated, start);
    while more
      invariant it.Valid()
      invariant more ==> it.nextBatch.Some? && NonEmpty(it.nextBatch.value)
      invariant more ==> Drain(it.encode, it.delegated, start) ==
                         out + [it.encode(it.nextBatch.value)] + Drain(it.encode, it.delegated, it.State())
      invariant !more ==> it.pos == |it.delegated| && Drain(it.encode, it.delegated, start) == out
      decreases |it.delegated| - it.pos, more
    {
      ghost var before := it.State();
      var w := it.Next();
      out := out + [w.value];
      more := it.HasNext();
      DrainStep(it.encode, it.delegated, before);
    }
  }
}
