/** Bytes, results and the few sequence facts the other modules share. */
module Bytes {
  type byte = b: int | 0 <= b < 256
  type bytes = seq<byte>

  /** A 16-bit unit. */
  type word = w: int | 0 <= w < 0x1_0000

  datatype Option<+T> = None | Some(value: T)

  /** What a Python call does: return a value, or raise one of the exceptions the tool can meet. */
  datatype Error = OsError | StructError | TypeError | AttributeError | KeyError | ValueError
  datatype Result<+T> = Ok(value: T) | Err(error: Error) {
    predicate IsFailure() { Err? }
    function PropagateFailure<U>(): Result<U> requires Err? { Err(error) }
    function Extract(): T requires Ok? { value }
  }

  function Zeros(n: nat): (z: bytes)
    ensures |z| == n && forall i :: 0 <= i < n ==> z[i] == 0
  {
    seq(n, i => 0)
  }

  /** Writing the chunks one after another. */
  function Flatten(chunks: seq<bytes>): bytes {
    if chunks == [] then [] else chunks[0] + Flatten(chunks[1..])
  }

  lemma {:induction false} FlattenAppend(a: seq<bytes>, b: seq<bytes>)
    ensures Flatten(a + b) == Flatten(a) + Flatten(b)
  {
    if a == [] {
      assert a + b == b;
    } else {
      assert (a + b)[1..] == a[1..] + b;
      FlattenAppend(a[1..], b);
    }
  }

  /** Chunk k is found at the total length of the chunks before it. */
  lemma FlattenSlice(chunks: seq<bytes>, k: nat)
    requires k < |chunks|
    ensures |Flatten(chunks[..k])| + |chunks[k]| <= |Flatten(chunks)|
    ensures Flatten(chunks)[|Flatten(chunks[..k])|..][..|chunks[k]|] == chunks[k]
  {
    var before, here := Flatten(chunks[..k]), chunks[k];
    assert chunks == chunks[..k] + ([here] + chunks[k + 1..]);
    FlattenAppend(chunks[..k], [here] + chunks[k + 1..]);
    assert Flatten(chunks)[|before|..] == here + Flatten(chunks[k + 1..]);
  }

  lemma {:induction false} EqualChunks(chunks: seq<bytes>, n: nat)
    requires forall c :: c in chunks ==> |c| == n
    ensures |Flatten(chunks)| == n * |chunks|
  {
    if chunks == [] {
    } else {
      assert chunks[0] in chunks && forall c :: c in chunks[1..] ==> c in chunks;
      assert n * |chunks| == n + n * |chunks[1..]|;
      EqualChunks(chunks[1..], n);
    }
  }
}
