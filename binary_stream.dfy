/**
 * The binary passthrough (`BinaryDecode`): every non-empty chunk is pushed on
 * unchanged, counted and fed to the digest as it arrives.
 */
module BinaryStream {
  import opened Basics

  class BinaryDecoder {
    var length: nat
    /** Every chunk handed to `_transform` so far, empty ones included. */
    ghost var input: seq<Bytes>
    /** The byte sequences fed to the MD5 digest, in order; each is also the buffer pushed. */
    ghost var digestLog: seq<Bytes>

    /** The bytes measured, and pushed, are exactly the bytes received, in order. */
    ghost predicate Valid()
      reads this
    {
      Measured(length, digestLog) && Concat(digestLog) == Concat(input)
      && forall i :: 0 <= i < |digestLog| ==> digestLog[i] != []
    }

    /** `new BinaryDecode()`; called without `new` it builds the same thing. */
    constructor ()
      ensures Valid()
      ensures length == 0 && input == [] && digestLog == []
    {
      length := 0;
      input := [];
      digestLog := [];
    }

    /**
     * `_transform`: a non-empty chunk is counted, fed to the digest and pushed
     * (`pushed` is the buffer handed to `push`, `None` when nothing is pushed);
     * an empty chunk changes nothing. The callback is always invoked.
     */
    method Transform(chunk: Bytes) returns (pushed: Option<Bytes>)
      requires Valid()
      modifies this
      ensures Valid()
      ensures input == old(input) + [chunk]
      ensures chunk != [] ==> pushed == Some(chunk) && length == old(length) + |chunk|
                              && digestLog == old(digestLog) + [chunk]
      ensures chunk == [] ==> pushed == None && length == old(length) && digestLog == old(digestLog)
      ensures length == |Concat(input)|
    {
      ConcatPush(input, chunk);
      input := input + [chunk];
      if chunk != [] {
        MeasuredPush(length, digestLog, chunk);
        length := length + |chunk|;
        digestLog := digestLog + [chunk];
        pushed := Some(chunk);
      } else {
        pushed := None;
      }
    }
  }

  /** Two chunks through a fresh decoder: the output is their concatenation and `length` their total size. */
  method PassTwo(a: Bytes, b: Bytes) returns (d: BinaryDecoder)
    ensures d.Valid()
    ensures Concat(d.digestLog) == a + b
    ensures d.length == |a| + |b|
  {
    d := new BinaryDecoder();
    var _ := d.Transform(a);
    var _ := d.Transform(b);
    ConcatPush([a], b);
    assert [a] + [b] == [a, b];
    assert Concat([a]) == a + Concat([a][1..]);
    assert [a][1..] == [];
  }
}
