/**
 * The string helpers the decoders are built from: the leading line separator
 * a quoted-printable chunk loses, the CRLF-to-LF normalisation applied before
 * uudecoding, and the whitespace split that finds the uuencoded file name.
 */
module Text {
  import opened Basics

  const CRLF: string := "\r\n"

  predicate StartsWithCrlf(s: string)
  {
    |s| >= 2 && s[0] == '\r' && s[1] == '\n'
  }

  /** A chunk with one leading CRLF removed, if it has one (the anchored regex `^\r\n`). */
  function StripLeadingCrlf(chunk: string): (r: string)
    ensures StartsWithCrlf(chunk) ==> chunk == CRLF + r
    ensures !StartsWithCrlf(chunk) ==> r == chunk
    ensures |chunk| - 2 <= |r| <= |chunk|
  {
    if StartsWithCrlf(chunk) then chunk[2..] else chunk
  }

  /** Only one separator goes, however many the chunk starts with. */
  lemma StripLeadingCrlfOnce(s: string)
    ensures StripLeadingCrlf(CRLF + s) == s
    ensures StripLeadingCrlf(CRLF + CRLF + s) == CRLF + s
  {
  }

  // ---------------------------------------------------------------------------
  // CRLF normalisation: `text.replace(/\r\n/g, '\n')`
  // ---------------------------------------------------------------------------

  /** Each "\r\n" replaced by "\n", scanning left to right, matches never overlapping. */
  function NormalizeLineEndings(s: string): (r: string)
    ensures |r| <= |s|
    decreases |s|
  {
    if s == [] then []
    else if StartsWithCrlf(s) then "\n" + NormalizeLineEndings(s[2..])
    else [s[0]] + NormalizeLineEndings(s[1..])
  }

  /** Number of positions at which "\r\n" occurs in `s`. */
  function CrlfCount(s: string): nat
    decreases |s|
  {
    if |s| < 2 then 0
    else (if s[0] == '\r' && s[1] == '\n' then 1 else 0) + CrlfCount(s[1..])
  }

  /** The text shrinks by exactly one character per "\r\n" it holds. */
  lemma {:induction false} NormalizeShrinksByCrlfCount(s: string)
    ensures |NormalizeLineEndings(s)| == |s| - CrlfCount(s)
    decreases |s|
  {
    if s == [] {
    } else if StartsWithCrlf(s) {
      // an occurrence cannot overlap the next one: s[1] is '\n', not '\r'
      assert s[1..][1..] == s[2..];
      assert CrlfCount(s[1..]) == CrlfCount(s[2..]);
      NormalizeShrinksByCrlfCount(s[2..]);
    } else {
      NormalizeShrinksByCrlfCount(s[1..]);
    }
  }

  lemma {:induction false} NormalizeWithoutCrlf(s: string)
    requires CrlfCount(s) == 0
    ensures NormalizeLineEndings(s) == s
    decreases |s|
  {
    if s != [] {
      assert !StartsWithCrlf(s);
      assert |s| >= 2 ==> CrlfCount(s[1..]) == 0;
      NormalizeWithoutCrlf(s[1..]);
    }
  }

  /** The text is left as it is exactly when it holds no "\r\n". */
  lemma {:induction false} NormalizeUnchangedIff(s: string)
    ensures NormalizeLineEndings(s) == s <==> CrlfCount(s) == 0
  {
    NormalizeShrinksByCrlfCount(s);
    if CrlfCount(s) == 0 {
      NormalizeWithoutCrlf(s);
    }
  }

  /**
   * The step taken at the leftmost "\r\n": everything before it is kept, the
   * pair becomes "\n", and the scan resumes right after it. With
   * `NormalizeUnchangedIff` this fixes the result on every text.
   */
  lemma {:induction false} NormalizeFirstCrlf(a: string, b: string)
    requires CrlfCount(a) == 0
    ensures NormalizeLineEndings(a + CRLF + b) == a + "\n" + NormalizeLineEndings(b)
    decreases |a|
  {
    if a == [] {
      assert a + CRLF + b == CRLF + b;
      assert (CRLF + b)[2..] == b;
    } else {
      var s := a + CRLF + b;
      assert s[0] == a[0];
      assert s[1..] == a[1..] + CRLF + b;
      if |a| == 1 {
        assert s[1] == '\r';
      } else {
        assert s[1] == a[1];
        assert CrlfCount(a[1..]) == 0;
      }
      assert !StartsWithCrlf(s);
      NormalizeFirstCrlf(a[1..], b);
      assert a == [a[0]] + a[1..];
    }
  }

  /** Normalising is not idempotent: a lone "\r" before a "\r\n" survives and forms a new pair. */
  lemma NormalizeNotIdempotent()
    ensures NormalizeLineEndings("\r\r\n") == "\r\n"
    ensures NormalizeLineEndings(NormalizeLineEndings("\r\r\n")) == "\n"
  {
  }

  /** Each "\n" replaced by "\r\n": the line ending a CRLF-transported text carries. */
  function ExpandLf(t: string): string
  {
    if t == [] then []
    else if t[0] == '\n' then CRLF + ExpandLf(t[1..])
    else [t[0]] + ExpandLf(t[1..])
  }

  /** Normalising undoes CRLF transport of a text that holds no carriage return of its own. */
  lemma {:induction false} NormalizeUndoesExpand(t: string)
    requires forall i :: 0 <= i < |t| ==> t[i] != '\r'
    ensures NormalizeLineEndings(ExpandLf(t)) == t
  {
    if t != [] {
      var rest := ExpandLf(t[1..]);
      NormalizeUndoesExpand(t[1..]);
      if t[0] == '\n' {
        assert ExpandLf(t) == CRLF + rest;
        assert (CRLF + rest)[2..] == rest;
      } else {
        assert ExpandLf(t) == [t[0]] + rest;
        assert ([t[0]] + rest)[1..] == rest;
      }
    }
  }

  /** Normalising distributes over a split that does not fall inside a "\r\n". */
  lemma {:induction false} NormalizeConcat(a: string, b: string)
    requires !(a != [] && a[|a| - 1] == '\r' && b != [] && b[0] == '\n')
    ensures NormalizeLineEndings(a + b) == NormalizeLineEndings(a) + NormalizeLineEndings(b)
    decreases |a|
  {
    if a == [] {
      assert a + b == b;
    } else if StartsWithCrlf(a) {
      assert StartsWithCrlf(a + b);
      assert (a + b)[2..] == a[2..] + b;
      NormalizeConcat(a[2..], b);
    } else {
      assert !StartsWithCrlf(a + b);
      assert (a + b)[0] == a[0];
      assert (a + b)[1..] == a[1..] + b;
      NormalizeConcat(a[1..], b);
    }
  }

  /** Normalising chunk by chunk is not the same: a "\r\n" split between two chunks survives. */
  lemma NormalizePerChunkDiffers()
    ensures NormalizeLineEndings("\r") + NormalizeLineEndings("\n") == "\r\n"
    ensures NormalizeLineEndings("\r" + "\n") == "\n"
  {
  }

  // ---------------------------------------------------------------------------
  // Whitespace split: `text.split(/\s/)`
  // ---------------------------------------------------------------------------

  /** The characters of the regular-expression class `\s`. */
  predicate IsWhitespace(c: char)
    ensures c as int < 128 ==> (IsWhitespace(c) <==> c in " \t\n\r\U{000B}\U{000C}")
    ensures '0' <= c <= '9' || 'A' <= c <= 'Z' || 'a' <= c <= 'z' || c in "._-+" ==> !IsWhitespace(c)
  {
    c == ' ' || c == '\t' || c == '\n' || c == '\r' || c == '\U{000B}' || c == '\U{000C}'
    || c == '\U{00A0}' || c == '\U{1680}' || ('\U{2000}' <= c <= '\U{200A}')
    || c == '\U{2028}' || c == '\U{2029}' || c == '\U{202F}' || c == '\U{205F}'
    || c == '\U{3000}' || c == '\U{FEFF}'
  }

  predicate NoWhitespace(s: string)
  {
    forall i :: 0 <= i < |s| ==> !IsWhitespace(s[i])
  }

  /** The text cut at every single whitespace character; two separators in a row give an empty token. */
  function SplitWhitespace(s: string): (tokens: seq<string>)
    ensures |tokens| >= 1
  {
    if s == [] then [[]]
    else
      var rest := SplitWhitespace(s[1..]);
      if IsWhitespace(s[0]) then [[]] + rest
      else [[s[0]] + rest[0]] + rest[1..]
  }

  /** The whitespace characters of the text, in order: the separators the split removes. */
  function Separators(s: string): string
  {
    if s == [] then []
    else if IsWhitespace(s[0]) then [s[0]] + Separators(s[1..])
    else Separators(s[1..])
  }

  /** Tokens put back together with the separators between them. */
  function Interleave(tokens: seq<string>, seps: string): string
    requires |tokens| == |seps| + 1
  {
    if seps == [] then tokens[0]
    else tokens[0] + [seps[0]] + Interleave(tokens[1..], seps[1..])
  }

  lemma {:induction false} InterleaveExtendFirst(c: char, tokens: seq<string>, seps: string)
    requires |tokens| == |seps| + 1
    ensures Interleave([[c] + tokens[0]] + tokens[1..], seps) == [c] + Interleave(tokens, seps)
  {
  }

  /** One token more than separators, no token holds whitespace, and putting them back gives the text. */
  lemma {:induction false} SplitWhitespaceRoundTrip(s: string)
    ensures |SplitWhitespace(s)| == |Separators(s)| + 1
    ensures forall k :: 0 <= k < |SplitWhitespace(s)| ==> NoWhitespace(SplitWhitespace(s)[k])
    ensures Interleave(SplitWhitespace(s), Separators(s)) == s
  {
    if s != [] {
      var rest := SplitWhitespace(s[1..]);
      SplitWhitespaceRoundTrip(s[1..]);
      if IsWhitespace(s[0]) {
        var tokens := [[]] + rest;
        assert SplitWhitespace(s) == tokens;
        assert tokens[1..] == rest;
        assert Separators(s) == [s[0]] + Separators(s[1..]);
        assert s == [] + [s[0]] + s[1..];
      } else {
        InterleaveExtendFirst(s[0], rest, Separators(s[1..]));
        assert s == [s[0]] + s[1..];
        var tokens := [[s[0]] + rest[0]] + rest[1..];
        assert SplitWhitespace(s) == tokens;
        forall k | 0 <= k < |tokens| ensures NoWhitespace(tokens[k]) {
          if k == 0 {
            assert NoWhitespace(rest[0]);
          } else {
            assert tokens[k] == rest[k];
          }
        }
      }
    }
  }

  /** A word followed by one whitespace character becomes the first token, and the split goes on after it. */
  lemma {:induction false} SplitAfterWord(word: string, w: char, rest: string)
    requires NoWhitespace(word) && IsWhitespace(w)
    ensures SplitWhitespace(word + [w] + rest) == [word] + SplitWhitespace(rest)
    decreases |word|
  {
    if word == [] {
      assert word + [w] + rest == [w] + rest;
      assert ([w] + rest)[1..] == rest;
    } else {
      var s := word + [w] + rest;
      assert s[0] == word[0];
      assert s[1..] == word[1..] + [w] + rest;
      SplitAfterWord(word[1..], w, rest);
      assert [word[0]] + word[1..] == word;
    }
  }

  /** A word that runs to the end of the text or to a whitespace character is the first token. */
  lemma {:induction false} SplitFirstWord(word: string, rest: string)
    requires NoWhitespace(word)
    requires rest == [] || IsWhitespace(rest[0])
    ensures SplitWhitespace(word + rest)[0] == word
    decreases |word|
  {
    if word == [] {
      assert word + rest == rest;
    } else {
      var s := word + rest;
      assert s[0] == word[0];
      assert s[1..] == word[1..] + rest;
      SplitFirstWord(word[1..], rest);
      assert [word[0]] + word[1..] == word;
    }
  }

  /** Token 2 of the whitespace split, or the empty string when there is none. */
  function FilenameToken(header: string): (name: string)
    ensures NoWhitespace(name)
    ensures |Separators(header)| < 2 ==> name == ""
  {
    SplitWhitespaceRoundTrip(header);
    var tokens := SplitWhitespace(header);
    if |tokens| > 2 then tokens[2] else ""
  }

  /** In `<a> <b> <name><rest>` the file name is `<name>`, whatever the two single separators are. */
  lemma FilenameTokenOfHeader(a: string, w1: char, b: string, w2: char, name: string, rest: string)
    requires NoWhitespace(a) && NoWhitespace(b) && NoWhitespace(name)
    requires IsWhitespace(w1) && IsWhitespace(w2)
    requires rest == [] || IsWhitespace(rest[0])
    ensures FilenameToken(a + [w1] + b + [w2] + name + rest) == name
  {
    var tail := b + [w2] + name + rest;
    assert a + [w1] + b + [w2] + name + rest == a + [w1] + tail;
    SplitAfterWord(a, w1, tail);
    assert b + [w2] + name + rest == b + [w2] + (name + rest);
    SplitAfterWord(b, w2, name + rest);
    SplitFirstWord(name, rest);
  }

  /** The conventional header `begin <mode> <name>` yields `<name>`. */
  lemma FilenameTokenOfBeginLine()
    ensures FilenameToken("begin 644 a.txt\r\nM") == "a.txt"
  {
    FilenameTokenOfHeader("begin", ' ', "644", ' ', "a.txt", "\r\nM");
    assert "begin" + [' '] + "644" + [' '] + "a.txt" + "\r\nM" == "begin 644 a.txt\r\nM";
  }

  /** A doubled separator before the mode gives an empty token 1, so the mode is taken for the name. */
  lemma FilenameTokenDoubledFirstSeparator()
    ensures FilenameToken("begin  644 a.txt") == "644"
  {
    FilenameTokenOfHeader("begin", ' ', "", ' ', "644", " a.txt");
    assert "begin" + [' '] + "" + [' '] + "644" + " a.txt" == "begin  644 a.txt";
  }

  /** Two whitespace characters in a row after the second token give an empty token 2: no file name. */
  lemma FilenameTokenDoubledSecondSeparator(a: string, w1: char, b: string, w2: char, w3: char, rest: string)
    requires NoWhitespace(a) && NoWhitespace(b)
    requires IsWhitespace(w1) && IsWhitespace(w2) && IsWhitespace(w3)
    ensures FilenameToken(a + [w1] + b + [w2] + [w3] + rest) == ""
  {
    var s := a + [w1] + b + [w2] + [w3] + rest;
    SplitAfterWord([], w3, rest);
    assert [] + [w3] + rest == [w3] + rest;
    SplitAfterWord(b, w2, [w3] + rest);
    assert b + [w2] + ([w3] + rest) == b + [w2] + [w3] + rest;
    SplitAfterWord(a, w1, b + [w2] + [w3] + rest);
    assert a + [w1] + (b + [w2] + [w3] + rest) == s;
  }

  // ---------------------------------------------------------------------------
  // Bytes read as text
  // ---------------------------------------------------------------------------

  /** Bytes read as text one character per byte (the data is taken to be in the ASCII range). */
  function AsText(b: Bytes): (t: string)
    ensures |t| == |b|
    ensures forall i :: 0 <= i < |b| ==> t[i] as int == b[i] as int
  {
    seq(|b|, i requires 0 <= i < |b| => (b[i] as int) as char)
  }

  /** Reading a prefix of the bytes gives the same prefix of the text. */
  lemma AsTextPrefix(b: Bytes, k: nat)
    requires k <= |b|
    ensures AsText(b[..k]) == AsText(b)[..k]
  {
  }
}
