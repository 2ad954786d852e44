/**
 * Values shared by the three decoders: octets, the outcome of a call that may
 * throw, the foreign primitives the decoders call, and the bookkeeping that
 * ties a decoder's `length` counter to the bytes fed to its digest.
 */
module Basics {

  newtype byte = x: int | 0 <= x < 256

  type Bytes = seq<byte>

  datatype Option<T> = None | Some(value: T)

  /** `Err` stands for an exception thrown by a foreign primitive; it reaches
      the caller unchanged and the decoder's state is left as it was. */
  datatype Result<T> = Ok(value: T) | Err(failure: string)

  /**
   * The foreign primitives, kept uninterpreted: a decoder is given them when it
   * is built and only ever calls them.
   *   decodeQuotedPrintable(text, mimeWord, charset)  -- mimelib's decoder; `text` is
   *                                                     passed set or unset, as the decoder holds it
   *   decodeFile(text, filename)                      -- uue's payload decoder
   *   convert(data, firstCharset, secondCharset)      -- the `encoding` package's converter
   */
  datatype Collaborators = Collaborators(
    decodeQuotedPrintable: (Option<string>, bool, string) -> Result<Bytes>,
    decodeFile: (string, string) -> Result<Bytes>,
    convert: (Bytes, string, string) -> Result<Bytes>)

  /** The parts joined end to end, in order. */
  function Concat<T>(parts: seq<seq<T>>): seq<T>
  {
    if parts == [] then [] else parts[0] + Concat(parts[1..])
  }

  /** Sum of the lengths of the parts: what a running byte counter holds. */
  function TotalLength<T>(parts: seq<seq<T>>): nat
  {
    if parts == [] then 0 else |parts[0]| + TotalLength(parts[1..])
  }

  lemma {:induction false} ConcatAppend<T>(a: seq<seq<T>>, b: seq<seq<T>>)
    ensures Concat(a + b) == Concat(a) + Concat(b)
  {
    if a == [] {
      assert a + b == b;
    } else {
      assert (a + b)[0] == a[0];
      assert (a + b)[1..] == a[1..] + b;
      ConcatAppend(a[1..], b);
    }
  }

  /** Appending one part to the log extends the concatenation by exactly that part. */
  lemma ConcatPush<T>(a: seq<seq<T>>, p: seq<T>)
    ensures Concat(a + [p]) == Concat(a) + p
  {
    ConcatAppend(a, [p]);
    assert Concat([p]) == p + Concat([p][1..]);
    assert [p][1..] == [];
  }

  lemma {:induction false} TotalLengthIsConcatLength<T>(parts: seq<seq<T>>)
    ensures TotalLength(parts) == |Concat(parts)|
  {
    if parts != [] {
      TotalLengthIsConcatLength(parts[1..]);
    }
  }

  /** The running counter after one more part is the old counter plus that part's length. */
  lemma TotalLengthPush<T>(a: seq<seq<T>>, p: seq<T>)
    ensures TotalLength(a + [p]) == TotalLength(a) + |p|
  {
    TotalLengthIsConcatLength(a + [p]);
    TotalLengthIsConcatLength(a);
    ConcatPush(a, p);
  }

  /**
   * Node's `Buffer.concat(list, totalLength)`: the parts joined, cut to
   * `totalLength` bytes when they are longer, padded with zero bytes when they
   * are shorter.
   */
  function BufferConcat(list: seq<Bytes>, totalLength: nat): (r: Bytes)
    ensures |r| == totalLength
    ensures totalLength <= |Concat(list)| ==> r == Concat(list)[..totalLength]
    ensures totalLength >= |Concat(list)| ==> r[..|Concat(list)|] == Concat(list)
    ensures forall i :: |Concat(list)| <= i < totalLength ==> r[i] == 0
  {
    var joined := Concat(list);
    if totalLength <= |joined| then joined[..totalLength]
    else joined + seq(totalLength - |joined|, _ => 0 as byte)
  }

  /** When the counter passed to `Buffer.concat` is the true total, nothing is cut or padded. */
  lemma BufferConcatExact(list: seq<Bytes>, totalLength: nat)
    requires totalLength == TotalLength(list)
    ensures BufferConcat(list, totalLength) == Concat(list)
  {
    TotalLengthIsConcatLength(list);
  }

  /**
   * The bookkeeping every decoder keeps: `length` is the number of bytes fed
   * to the digest so far, the digest being modelled by the log of the byte
   * sequences given to its `update`, in order.
   */
  ghost predicate Measured(length: nat, digestLog: seq<Bytes>)
  {
    length == |Concat(digestLog)|
  }

  /** One more update of the digest with `out`, and `length` grown by `|out|`, keep the bookkeeping. */
  lemma MeasuredPush(length: nat, digestLog: seq<Bytes>, out: Bytes)
    requires Measured(length, digestLog)
    ensures Measured(length + |out|, digestLog + [out])
    ensures Concat(digestLog + [out]) == Concat(digestLog) + out
  {
    ConcatPush(digestLog, out);
  }
}
