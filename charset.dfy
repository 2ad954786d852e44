/**
 * The charset handling the quoted-printable and uuencode decoders share: the
 * charset a decoder is built with, and what its decoded bytes go through
 * before they are counted, fed to the digest and emitted.
 */
module Charset {
  import opened Basics

  const DefaultCharset: string := "UTF-8"

  /**
   * The charset a decoder ends up with. A falsy argument (absent or empty)
   * falls back to the default, and so does any argument when the constructor
   * is called without `new`: it then re-invokes itself with no argument.
   */
  function EffectiveCharset(viaNew: bool, given: Option<string>): (charset: string)
    ensures charset != ""
    ensures !viaNew ==> charset == DefaultCharset
    ensures given.None? ==> charset == DefaultCharset
    ensures given == Some("") ==> charset == DefaultCharset
    ensures viaNew && given.Some? && given.value != "" ==> charset == given.value
    ensures charset == DefaultCharset <==>
              !viaNew || given.None? || given == Some("") || given == Some(DefaultCharset)
  {
    if !viaNew then DefaultCharset
    else match given
      case None => DefaultCharset
      case Some(c) => if c == "" then DefaultCharset else c
  }

  function LowerChar(c: char): char
  {
    if 'A' <= c <= 'Z' then (c as int + 32) as char else c
  }

  /** `toLowerCase()`, on the ASCII letters. */
  function Lower(s: string): (r: string)
    ensures EqualIgnoringCase(s, r)
    ensures forall i :: 0 <= i < |r| ==> !('A' <= r[i] <= 'Z')
  {
    seq(|s|, i requires 0 <= i < |s| => LowerChar(s[i]))
  }

  /** The two names are the same up to the case of their letters. */
  predicate EqualIgnoringCase(a: string, b: string)
  {
    |a| == |b| && forall i :: 0 <= i < |a| ==> LowerChar(a[i]) == LowerChar(b[i])
  }

  /** How a charset name is treated: the sentinel "binary", UTF-8, or a charset to convert. */
  datatype CharsetKind = Binary | Utf8 | Other

  function Classify(charset: string): (kind: CharsetKind)
    ensures kind == Binary <==> EqualIgnoringCase(charset, "binary")
    ensures kind == Utf8 <==> EqualIgnoringCase(charset, "utf-8")
  {
    var lower := Lower(charset);
    assert EqualIgnoringCase(charset, "binary") <==> lower == "binary";
    assert EqualIgnoringCase(charset, "utf-8") <==> lower == "utf-8";
    if lower == "binary" then Binary
    else if lower != "utf-8" then Other
    else Utf8
  }

  /** Names that differ only in letter case are treated alike. */
  lemma ClassifyIgnoresCase(a: string, b: string)
    requires EqualIgnoringCase(a, b)
    ensures Classify(a) == Classify(b)
  {
  }

  /** The default charset, whichever way the constructor was called, selects the UTF-8 branch. */
  lemma DefaultCharsetIsUtf8(viaNew: bool, given: Option<string>)
    requires !viaNew || given.None? || given == Some("")
    ensures Classify(EffectiveCharset(viaNew, given)) == Utf8
  {
  }

  /**
   * The charset step after the foreign decode (lib/streams.js:59-65 and 149-153):
   * "binary" keeps the bytes; any other name but "utf-8" hands them to the
   * converter, with "utf-8" and the charset name as given; "utf-8" keeps them.
   * In the quoted-printable decoder the "utf-8" branch re-materialises the
   * decoded value as UTF-8, which on ASCII-range data leaves the bytes as they are.
   */
  function ApplyCharset(decoded: Bytes, charset: string, convert: (Bytes, string, string) -> Result<Bytes>): (r: Result<Bytes>)
    ensures EqualIgnoringCase(charset, "binary") ==> r == Ok(decoded)
    ensures EqualIgnoringCase(charset, "utf-8") ==> r == Ok(decoded)
    ensures !EqualIgnoringCase(charset, "binary") && !EqualIgnoringCase(charset, "utf-8") ==>
              r == convert(decoded, "utf-8", charset)
  {
    match Classify(charset)
    case Binary => Ok(decoded)
    case Other => convert(decoded, "utf-8", charset)
    case Utf8 => Ok(decoded)
  }

  /** With the default charset, whatever the converter does, the decoded bytes pass unchanged. */
  lemma DefaultCharsetKeepsBytes(decoded: Bytes, convert: (Bytes, string, string) -> Result<Bytes>)
    ensures ApplyCharset(decoded, EffectiveCharset(true, None), convert) == Ok(decoded)
    ensures ApplyCharset(decoded, "Binary", convert) == Ok(decoded)
  {
  }

  /** Any spelling of the name but those two reaches the converter, e.g. "ISO-8859-1". */
  lemma IsoCharsetConverts(decoded: Bytes, convert: (Bytes, string, string) -> Result<Bytes>)
    ensures ApplyCharset(decoded, "ISO-8859-1", convert) == convert(decoded, "utf-8", "ISO-8859-1")
  {
  }
}
