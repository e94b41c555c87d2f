/**
 * Byte-fed state machines. A machine is a step function on whole parser states;
 * feeding it a buffer is a left fold, and a connection is a sequence of buffers.
 */
module Streams {
  import opened Bytes

  /** What every parser reports after a feed call. */
  datatype Status = Incomplete | Complete | Invalid

  function Run<S>(step: (S, byte) -> S, state: S, input: bytes): S {
    if input == [] then state else Run(step, step(state, input[0]), input[1..])
  }

  /** One feed call per read. */
  function RunParts<S>(step: (S, byte) -> S, state: S, parts: seq<bytes>): S {
    if parts == [] then state else RunParts(step, Run(step, state, parts[0]), parts[1..])
  }

  /** Feeding is an action of byte strings on states. */
  lemma {:induction false} RunConcat<S>(step: (S, byte) -> S, state: S, a: bytes, b: bytes)
    ensures Run(step, state, a + b) == Run(step, Run(step, state, a), b)
    decreases |a|
  {
    if a == [] {
      assert a + b == b;
    } else {
      assert (a + b)[1..] == a[1..] + b;
      RunConcat(step, step(state, a[0]), a[1..], b);
    }
  }

  lemma RunSnoc<S>(step: (S, byte) -> S, state: S, a: bytes, b: byte)
    ensures Run(step, state, a + [b]) == step(Run(step, state, a), b)
  {
    RunConcat(step, state, a, [b]);
    assert [b][1..] == [];
  }

  lemma RunNone<S>(step: (S, byte) -> S, state: S, input: bytes)
    ensures Run(step, state, []) == state && Run(step, state, input[..0]) == state
  {
  }

  lemma RunPair<S>(step: (S, byte) -> S, state: S, a: byte, b: byte)
    ensures Run(step, state, [a, b]) == step(step(state, a), b)
  {
    RunSnoc(step, state, [], a);
    RunSnoc(step, state, [a], b);
    assert [] + [a] == [a] && [a] + [b] == [a, b];
  }

  /** A state that every byte leaves alone is where the run stays. */
  lemma {:induction false} Absorbs<S>(step: (S, byte) -> S, state: S, input: bytes)
    requires forall b :: step(state, b) == state
    ensures Run(step, state, input) == state
    decreases |input|
  {
    if input != [] {
      Absorbs(step, state, input[1..]);
    }
  }

  /** One more byte of a feed; and nothing after it matters once the machine has stopped there. */
  lemma StopsAt<S>(step: (S, byte) -> S, state: S, input: bytes, index: nat)
    requires index < |input|
    ensures var next := step(Run(step, state, input[..index]), input[index]);
      && Run(step, state, input[..index + 1]) == next
      && ((forall b :: step(next, b) == next) ==> Run(step, state, input) == next)
  {
    assert input[..index + 1] == input[..index] + [input[index]];
    RunSnoc(step, state, input[..index], input[index]);
    var next := step(Run(step, state, input[..index]), input[index]);
    if forall b :: step(next, b) == next {
      assert input == input[..index + 1] + input[index + 1..];
      RunConcat(step, state, input[..index + 1], input[index + 1..]);
      Absorbs(step, next, input[index + 1..]);
    }
  }

  /** However a stream is cut into reads, the machine ends in the same state. */
  lemma {:induction false} SegmentationIndependence<S>(step: (S, byte) -> S, state: S, parts: seq<bytes>)
    ensures RunParts(step, state, parts) == Run(step, state, Concat(parts))
    decreases |parts|
  {
    if parts != [] {
      RunConcat(step, state, parts[0], Concat(parts[1..]));
      SegmentationIndependence(step, Run(step, state, parts[0]), parts[1..]);
    }
  }
}
