/**
 * The uuencode decoder (`UUEDecode`): a batch decoder. Writes only buffer the
 * chunks; a read joins them, finds the file name in the header, normalises
 * line endings and hands the text to the foreign uudecoder.
 */
module UUEStream {
  import opened Basics
  import opened Text
  import opened Charset

  /** How many leading bytes are searched for the file name. */
  const HeaderLimit: nat := 1024

  function Min(a: nat, b: nat): nat
  {
    if a <= b then a else b
  }

  /** The first min(length, 1024) bytes, read as text. */
  function HeaderOf(buffer: Bytes): (header: string)
    ensures |header| == Min(|buffer|, HeaderLimit)
    ensures header == AsText(buffer)[..|header|]
  {
    AsTextPrefix(buffer, Min(|buffer|, HeaderLimit));
    AsText(buffer[..Min(|buffer|, HeaderLimit)])
  }

  /** Token 2 of the header cut at every whitespace character, or "" when there is none. */
  function FilenameOf(buffer: Bytes): (name: string)
    ensures NoWhitespace(name)
    ensures |Separators(HeaderOf(buffer))| < 2 ==> name == ""
  {
    FilenameToken(HeaderOf(buffer))
  }

  /** Only the first 1024 bytes matter for the file name. */
  lemma FilenameOfIgnoresTail(b1: Bytes, b2: Bytes)
    requires |b1| >= HeaderLimit && |b2| >= HeaderLimit
    requires b1[..HeaderLimit] == b2[..HeaderLimit]
    ensures FilenameOf(b1) == FilenameOf(b2)
  {
  }

  /** The non-empty chunks, in arrival order. */
  function NonEmpty(chunks: seq<Bytes>): (r: seq<Bytes>)
    ensures forall i :: 0 <= i < |r| ==> r[i] != []
  {
    if chunks == [] then []
    else if chunks[0] == [] then NonEmpty(chunks[1..])
    else [chunks[0]] + NonEmpty(chunks[1..])
  }

  lemma {:induction false} NonEmptyPush(chunks: seq<Bytes>, chunk: Bytes)
    ensures NonEmpty(chunks + [chunk]) == NonEmpty(chunks) + (if chunk == [] then [] else [chunk])
  {
    if chunks == [] {
      assert chunks + [chunk] == [chunk];
      assert [chunk][1..] == [];
    } else {
      assert (chunks + [chunk])[0] == chunks[0];
      assert (chunks + [chunk])[1..] == chunks[1..] + [chunk];
      NonEmptyPush(chunks[1..], chunk);
    }
  }

  /** Dropping the empty chunks does not change the bytes they make up. */
  lemma {:induction false} NonEmptyKeepsBytes(chunks: seq<Bytes>)
    ensures Concat(NonEmpty(chunks)) == Concat(chunks)
  {
    if chunks != [] {
      NonEmptyKeepsBytes(chunks[1..]);
    }
  }

  class UUEDecoder {
    const charset: string
    const lib: Collaborators
    /** `this.buf`: the non-empty chunks written so far. */
    var buf: seq<Bytes>
    /** `this.buflen`: running total of their lengths. */
    var buflen: nat
    var length: nat
    /** Every chunk written so far, empty ones included. */
    ghost var written: seq<Bytes>
    /** The byte sequences fed to the MD5 digest, in order. */
    ghost var digestLog: seq<Bytes>

    ghost predicate Valid()
      reads this
    {
      buf == NonEmpty(written) && buflen == TotalLength(buf) && Measured(length, digestLog)
    }

    /** `new UUEDecode(charset)` when `viaNew`, `UUEDecode(charset)` otherwise. */
    constructor (viaNew: bool, given: Option<string>, lib: Collaborators)
      ensures Valid()
      ensures charset == EffectiveCharset(viaNew, given) && this.lib == lib
      ensures buf == [] && buflen == 0 && length == 0 && written == [] && digestLog == []
    {
      this.charset := EffectiveCharset(viaNew, given);
      this.lib := lib;
      buf := [];
      buflen := 0;
      length := 0;
      written := [];
      digestLog := [];
    }

    /** `_write`: a non-empty chunk is appended to `buf` and counted in `buflen`; an empty one is ignored without the callback. */
    method Write(chunk: Bytes) returns (acknowledged: bool)
      requires Valid()
      modifies this
      ensures Valid()
      ensures acknowledged <==> chunk != []
      ensures written == old(written) + [chunk]
      ensures buf == if chunk == [] then old(buf) else old(buf) + [chunk]
      ensures buflen == old(buflen) + |chunk|
      ensures length == old(length) && digestLog == old(digestLog)
    {
      NonEmptyPush(written, chunk);
      written := written + [chunk];
      if chunk == [] {
        assert buf + [] == buf;
        return false;
      }
      TotalLengthPush(buf, chunk);
      buf := buf + [chunk];
      buflen := buflen + |chunk|;
      acknowledged := true;
    }

    /**
     * `decode`: no file name means an empty result; otherwise the buffer, read
     * as text with every CRLF turned into LF, goes to the foreign uudecoder
     * with the file name, and its output through the charset step.
     */
    function Decode(buffer: Bytes): (r: Result<Bytes>)
      ensures FilenameOf(buffer) == "" ==> r == Ok([])
      ensures FilenameOf(buffer) != "" && lib.decodeFile(NormalizeLineEndings(AsText(buffer)), FilenameOf(buffer)).Err? ==> r.Err?
      ensures FilenameOf(buffer) != "" && lib.decodeFile(NormalizeLineEndings(AsText(buffer)), FilenameOf(buffer)).Ok? ==>
                r == ApplyCharset(lib.decodeFile(NormalizeLineEndings(AsText(buffer)), FilenameOf(buffer)).value, charset, lib.convert)
    {
      var filename := FilenameOf(buffer);
      if filename == "" then Ok([])
      else
        match lib.decodeFile(NormalizeLineEndings(AsText(buffer)), filename)
        case Err(e) => Err(e)
        case Ok(decoded) => ApplyCharset(decoded, charset, lib.convert)
    }

    /**
     * `__flush`: decodes the bytes of every chunk written, whatever their
     * boundaries; on success `length` grows by the result's size and the digest
     * is fed the result (an empty one too); on failure nothing changes.
     */
    method Flush() returns (r: Result<Bytes>)
      requires Valid()
      modifies this
      ensures Valid()
      ensures r == Decode(Concat(written))
      ensures buf == old(buf) && buflen == old(buflen) && written == old(written)
      ensures r.Ok? ==> length == old(length) + |r.value| && digestLog == old(digestLog) + [r.value]
      ensures r.Err? ==> length == old(length) && digestLog == old(digestLog)
    {
      BufferConcatExact(buf, buflen);
      NonEmptyKeepsBytes(written);
      r := Decode(BufferConcat(buf, buflen));
      if r.Ok? {
        MeasuredPush(length, digestLog, r.value);
        length := length + |r.value|;
        digestLog := digestLog + [r.value];
      }
    }

    /** `_read`: flushes and pushes the result. */
    method Read() returns (r: Result<Bytes>)
      requires Valid()
      modifies this
      ensures Valid()
      ensures r == Decode(Concat(written))
      ensures buf == old(buf) && buflen == old(buflen) && written == old(written)
      ensures r.Ok? ==> length == old(length) + |r.value| && digestLog == old(digestLog) + [r.value]
      ensures r.Err? ==> length == old(length) && digestLog == old(digestLog)
    {
      r := Flush();
    }
  }

  /** Input without a file name in its first 1024 bytes reads as empty: no error, `length` unchanged. */
  method ReadWithoutHeader(d: UUEDecoder) returns (r: Result<Bytes>)
    requires d.Valid()
    requires FilenameOf(Concat(d.written)) == ""
    modifies d
    ensures d.Valid()
    ensures d.buf == old(d.buf) && d.buflen == old(d.buflen) && d.written == old(d.written)
    ensures r == Ok([])
    ensures d.length == old(d.length)
    ensures d.digestLog == old(d.digestLog) + [[]]
  {
    r := d.Read();
  }
}
