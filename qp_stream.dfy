/**
 * The quoted-printable decoder (`QPDecode`): it reassembles the written text
 * chunks into `current`, and on every read decodes the whole of `current`,
 * counts the result and feeds it to the digest.
 */
module QPStream {
  import opened Basics
  import opened Text
  import opened Charset

  /**
   * What one write does to `current`: an empty chunk changes nothing; otherwise
   * the chunk loses one leading CRLF, becomes `current` if none is set yet, and
   * is otherwise appended after a CRLF.
   */
  function AppendChunk(current: Option<string>, chunk: string): (r: Option<string>)
    ensures chunk == [] ==> r == current
    ensures chunk != [] ==> r.Some?
    ensures current.Some? ==> r.Some? && current.value <= r.value
  {
    if chunk == [] then current
    else
      var stripped := StripLeadingCrlf(chunk);
      match current
      case None => Some(stripped)
      case Some(text) => Some(text + CRLF + stripped)
  }

  /** `current` after the chunks were written in this order to a fresh decoder. */
  function Accumulate(chunks: seq<string>): (r: Option<string>)
    ensures r.Some? <==> exists i :: 0 <= i < |chunks| && chunks[i] != []
  {
    if chunks == [] then None
    else AppendChunk(Accumulate(chunks[..|chunks| - 1]), chunks[|chunks| - 1])
  }

  /** The non-empty chunks, each without its leading CRLF. */
  function Pieces(chunks: seq<string>): seq<string>
  {
    if chunks == [] then []
    else if chunks[0] == [] then Pieces(chunks[1..])
    else [StripLeadingCrlf(chunks[0])] + Pieces(chunks[1..])
  }

  /** The pieces with a CRLF between each two neighbours. */
  function JoinLines(pieces: seq<string>): string
    requires pieces != []
  {
    if |pieces| == 1 then pieces[0] else pieces[0] + CRLF + JoinLines(pieces[1..])
  }

  lemma {:induction false} PiecesPush(chunks: seq<string>, chunk: string)
    ensures Pieces(chunks + [chunk]) == Pieces(chunks) + (if chunk == [] then [] else [StripLeadingCrlf(chunk)])
  {
    if chunks == [] {
      assert chunks + [chunk] == [chunk];
      assert [chunk][1..] == [];
    } else {
      assert (chunks + [chunk])[0] == chunks[0];
      assert (chunks + [chunk])[1..] == chunks[1..] + [chunk];
      PiecesPush(chunks[1..], chunk);
    }
  }

  lemma {:induction false} JoinLinesPush(pieces: seq<string>, piece: string)
    requires pieces != []
    ensures JoinLines(pieces + [piece]) == JoinLines(pieces) + CRLF + piece
  {
    if |pieces| == 1 {
      assert (pieces + [piece])[1..] == [piece];
    } else {
      assert (pieces + [piece])[1..] == pieces[1..] + [piece];
      JoinLinesPush(pieces[1..], piece);
    }
  }

  /**
   * Whatever the chunk boundaries, `current` is unset until a non-empty chunk
   * arrives, and is then the non-empty chunks, each stripped of one leading
   * CRLF, joined by CRLF in arrival order.
   */
  lemma {:induction false} AccumulateJoinsPieces(chunks: seq<string>)
    ensures Pieces(chunks) == [] ==> Accumulate(chunks) == None
    ensures Pieces(chunks) != [] ==> Accumulate(chunks) == Some(JoinLines(Pieces(chunks)))
  {
    if chunks != [] {
      var init, last := chunks[..|chunks| - 1], chunks[|chunks| - 1];
      assert chunks == init + [last];
      AccumulateJoinsPieces(init);
      PiecesPush(init, last);
      assert Accumulate(chunks) == AppendChunk(Accumulate(init), last);
      if last != [] {
        var piece := StripLeadingCrlf(last);
        assert Pieces(chunks) == Pieces(init) + [piece];
        if Pieces(init) == [] {
          assert Pieces(chunks) == [piece];
        } else {
          JoinLinesPush(Pieces(init), piece);
        }
      } else {
        assert Pieces(chunks) == Pieces(init) + [];
        assert Pieces(init) + [] == Pieces(init);
      }
    }
  }

  /** Two lines written as separate chunks: a leading CRLF on the second is dropped, one CRLF goes between. */
  lemma AccumulateTwoLines()
    ensures Accumulate(["abc", "\r\ndef"]) == Some("abc\r\ndef")
  {
    var chunks := ["abc", "\r\ndef"];
    assert chunks[..1] == ["abc"];
    assert ["abc"][..0] == [];
    assert Accumulate(["abc"]) == Some("abc");
    assert StartsWithCrlf("\r\ndef");
    assert "\r\ndef"[2..] == "def";
    assert Accumulate(chunks) == AppendChunk(Accumulate(["abc"]), "\r\ndef");
    assert "abc" + CRLF + "def" == "abc\r\ndef";
  }

  /**
   * What a read emits: the foreign decoder applied to the whole of `current`
   * (set or unset), then the charset step; a failure of either propagates.
   */
  function DecodeAll(current: Option<string>, charset: string, lib: Collaborators): (r: Result<Bytes>)
    ensures lib.decodeQuotedPrintable(current, false, charset).Err? ==> r.Err?
    ensures lib.decodeQuotedPrintable(current, false, charset).Ok? ==>
              r == ApplyCharset(lib.decodeQuotedPrintable(current, false, charset).value, charset, lib.convert)
  {
    match lib.decodeQuotedPrintable(current, false, charset)
    case Err(e) => Err(e)
    case Ok(decoded) => ApplyCharset(decoded, charset, lib.convert)
  }

  /** With the default charset a read emits exactly what the foreign decoder returns. */
  lemma DecodeAllDefaultCharset(current: Option<string>, lib: Collaborators)
    ensures DecodeAll(current, DefaultCharset, lib) == lib.decodeQuotedPrintable(current, false, DefaultCharset)
  {
  }

  class QPDecoder {
    const charset: string
    const lib: Collaborators
    var current: Option<string>
    var length: nat
    /** Every chunk written so far, empty ones included. */
    ghost var written: seq<string>
    /** The byte sequences fed to the MD5 digest, in order. */
    ghost var digestLog: seq<Bytes>

    ghost predicate Valid()
      reads this
    {
      current == Accumulate(written) && Measured(length, digestLog)
    }

    /** `new QPDecode(charset)` when `viaNew`, `QPDecode(charset)` otherwise. */
    constructor (viaNew: bool, given: Option<string>, lib: Collaborators)
      ensures Valid()
      ensures charset == EffectiveCharset(viaNew, given) && this.lib == lib
      ensures current == None && length == 0 && written == [] && digestLog == []
    {
      this.charset := EffectiveCharset(viaNew, given);
      this.lib := lib;
      current := None;
      length := 0;
      written := [];
      digestLog := [];
    }

    /** `_write`: `acknowledged` says whether the callback is invoked (not for an empty chunk). */
    method Write(chunk: string) returns (acknowledged: bool)
      requires Valid()
      modifies this
      ensures Valid()
      ensures acknowledged <==> chunk != []
      ensures written == old(written) + [chunk]
      ensures current == AppendChunk(old(current), chunk)
      ensures old(current).Some? ==> current.Some? && old(current).value <= current.value
      ensures length == old(length) && digestLog == old(digestLog)
    {
      written := written + [chunk];
      assert written[..|written| - 1] == old(written);
      if chunk == [] {
        return false;
      }
      var text := StripLeadingCrlf(chunk);
      if current.None? {
        current := Some(text);
      } else {
        current := Some(current.value + CRLF + text);
      }
      acknowledged := true;
    }

    /**
     * `_read`: the whole of `current` is decoded again; on success `length`
     * grows by exactly the emitted buffer's size and the digest is fed exactly
     * that buffer; on failure nothing changes.
     */
    method Read() returns (r: Result<Bytes>)
      requires Valid()
      modifies this
      ensures Valid()
      ensures r == DecodeAll(current, charset, lib)
      ensures current == old(current) && written == old(written)
      ensures r.Ok? ==> length == old(length) + |r.value| && digestLog == old(digestLog) + [r.value]
      ensures r.Ok? ==> Concat(digestLog) == Concat(old(digestLog)) + r.value
      ensures r.Err? ==> length == old(length) && digestLog == old(digestLog)
    {
      var decoded := lib.decodeQuotedPrintable(current, false, charset);
      if decoded.Err? {
        return Err(decoded.failure);
      }
      var buffer := decoded.value;
      var kind := Classify(charset);
      if kind == Binary {
        // the decoded bytes are kept as they are
      } else if kind == Other {
        var converted := lib.convert(buffer, "utf-8", charset);
        if converted.Err? {
          return Err(converted.failure);
        }
        buffer := converted.value;
      } else {
        // materialised as UTF-8: unchanged on ASCII-range data
      }
      MeasuredPush(length, digestLog, buffer);
      length := length + |buffer|;
      digestLog := digestLog + [buffer];
      r := Ok(buffer);
    }
  }

  /** Two reads with no write between them emit the same buffer and count it twice. */
  method ReadTwice(d: QPDecoder) returns (first: Result<Bytes>, second: Result<Bytes>)
    requires d.Valid()
    modifies d
    ensures d.Valid()
    ensures first == second
    ensures d.current == old(d.current) && d.written == old(d.written)
    ensures first.Err? ==> d.length == old(d.length) && d.digestLog == old(d.digestLog)
    ensures first.Ok? ==> d.length == old(d.length) + 2 * |first.value|
    ensures first.Ok? ==> d.digestLog == old(d.digestLog) + [first.value, first.value]
  {
    first := d.Read();
    second := d.Read();
  }
}
