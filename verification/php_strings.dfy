/** The PHP string built-ins the mailer relies on, over PHP strings seen as byte
    sequences: truthiness of an optional string argument, `rtrim` with its
    default character list, `implode` and `chunk_split` with its default
    arguments (76-byte chunks, each followed by CRLF). */
module PhpStrings {

  /** A byte, written as a char below 256 so that PHP's string literals can be
      written as Dafny string literals. */
  type Byte = c: char | c as int < 256 witness 'A'

  /** A PHP string: a sequence of bytes, with no encoding attached. */
  type Bytes = seq<Byte>

  /** An optional argument: `None` stands for PHP's `null` default. */
  datatype Option<+T> = None | Some(value: T)

  const CRLF: Bytes := "\r\n"

  /** PHP's truthiness of a string-or-null argument: `null`, `""` and `"0"`
      are false, every other string is true. */
  predicate Truthy(v: Option<Bytes>) {
    v.Some? && v.value != [] && v.value != "0"
  }

  // ---------------------------------------------------------------------------
  // rtrim($s) with the default character list " \t\n\r\0\x0B"
  // ---------------------------------------------------------------------------

  predicate IsTrimmable(c: char) {
    c == ' ' || c == '\t' || c == '\n' || c == '\r' || c == '\0' || c as int == 11
  }

  /** `rtrim`: the longest prefix of `s` after which only trimmable bytes follow. */
  function RTrim(s: Bytes): (r: Bytes)
    ensures |r| <= |s| && r == s[..|r|]
    ensures |r| > 0 ==> !IsTrimmable(r[|r| - 1])
    ensures forall i | |r| <= i < |s| :: IsTrimmable(s[i])
    decreases |s|
  {
    if |s| > 0 && IsTrimmable(s[|s| - 1]) then RTrim(s[..|s| - 1]) else s
  }

  /** Trimming stops inside `b` as soon as `b` holds one byte that is not
      trimmable, so a prefix `a` is never touched. */
  lemma {:induction false} RTrimAppend(a: Bytes, b: Bytes, k: int)
    requires 0 <= k < |b| && !IsTrimmable(b[k])
    ensures RTrim(a + b) == a + RTrim(b)
    decreases |b|
  {
    var ab := a + b;
    if IsTrimmable(b[|b| - 1]) {
      assert k < |b| - 1;
      assert ab[..|ab| - 1] == a + b[..|b| - 1];
      assert b[..|b| - 1][k] == b[k];
      RTrimAppend(a, b[..|b| - 1], k);
    } else {
      assert ab[|ab| - 1] == b[|b| - 1];
    }
  }

  /** Trimming never reaches past a byte that is not trimmable. */
  lemma RTrimKeeps(s: Bytes, k: int)
    requires 0 <= k < |s| && !IsTrimmable(s[k])
    ensures k < |RTrim(s)| && RTrim(s)[..k + 1] == s[..k + 1]
  {
  }

  /** A CRLF after a byte that is not trimmable is exactly what `rtrim` removes. */
  lemma RTrimCrlf(s: Bytes)
    requires |s| > 0 && !IsTrimmable(s[|s| - 1])
    ensures RTrim(s + CRLF) == s
  {
    var x := s + CRLF;
    assert x[..|x| - 1] == s + "\r";
    assert x[..|x| - 1][..|x| - 2] == s;
  }

  // ---------------------------------------------------------------------------
  // implode($glue, $pieces)
  // ---------------------------------------------------------------------------

  /** Total length of a list of strings. */
  function TotalLength(pieces: seq<Bytes>): nat {
    if |pieces| == 0 then 0 else |pieces[0]| + TotalLength(pieces[1..])
  }

  /** `implode`: the pieces in order with `glue` between neighbours; the empty
      list gives the empty string. */
  function Implode(glue: Bytes, pieces: seq<Bytes>): (r: Bytes)
    ensures |pieces| > 0 ==> |r| == TotalLength(pieces) + |glue| * (|pieces| - 1)
    ensures |pieces| == 0 ==> r == []
    ensures |pieces| > 0 ==> r[..|pieces[0]|] == pieces[0]
  {
    if |pieces| == 0 then []
    else if |pieces| == 1 then pieces[0]
    else pieces[0] + glue + Implode(glue, pieces[1..])
  }

  /** Appending one piece to a non-empty list appends the glue and the piece. */
  lemma {:induction false} ImplodeAppend(glue: Bytes, pieces: seq<Bytes>, x: Bytes)
    requires |pieces| > 0
    ensures Implode(glue, pieces + [x]) == Implode(glue, pieces) + glue + x
    decreases |pieces|
  {
    var ps := pieces + [x];
    if |pieces| == 1 {
      assert ps == [pieces[0], x];
      assert ps[1..] == [x];
    } else {
      assert ps[1..] == pieces[1..] + [x];
      ImplodeAppend(glue, pieces[1..], x);
    }
  }

  // ---------------------------------------------------------------------------
  // chunk_split($s) with chunklen 76 and end "\r\n"
  // ---------------------------------------------------------------------------

  const ChunkLength: nat := 76

  /** Concatenation of a list of strings. */
  function Flatten(pieces: seq<Bytes>): Bytes {
    if |pieces| == 0 then [] else pieces[0] + Flatten(pieces[1..])
  }

  /** Each piece followed by CRLF, concatenated. */
  function Terminated(pieces: seq<Bytes>): Bytes {
    if |pieces| == 0 then [] else pieces[0] + CRLF + Terminated(pieces[1..])
  }

  /** The division of `s` into 76-byte chunks: at least one chunk, every chunk
      at most 76 bytes, all but the last exactly 76, together spelling `s`. */
  function Chunks(s: Bytes): (cs: seq<Bytes>)
    ensures |cs| > 0
    ensures Flatten(cs) == s
    ensures forall i | 0 <= i < |cs| :: |cs[i]| <= ChunkLength
    ensures forall i | 0 <= i < |cs| - 1 :: |cs[i]| == ChunkLength
    ensures |s| > 0 ==> forall i | 0 <= i < |cs| :: |cs[i]| > 0
    decreases |s|
  {
    if |s| <= ChunkLength then [s]
    else
      var rest := Chunks(s[ChunkLength..]);
      assert s == s[..ChunkLength] + s[ChunkLength..];
      assert ([s[..ChunkLength]] + rest)[1..] == rest;
      [s[..ChunkLength]] + rest
  }

  /** `chunk_split`: a string no longer than the chunk length comes back with
      CRLF appended (so the empty string gives CRLF); a longer one has CRLF
      appended after every 76 bytes and after the remainder, if any. */
  function ChunkSplit(s: Bytes): (r: Bytes)
    ensures r == Terminated(Chunks(s))
    decreases |s|
  {
    if |s| <= ChunkLength then s + CRLF
    else
      var rest := Chunks(s[ChunkLength..]);
      assert ([s[..ChunkLength]] + rest)[1..] == rest;
      s[..ChunkLength] + CRLF + ChunkSplit(s[ChunkLength..])
  }

  predicate IsLineBreak(c: char) {
    c == '\r' || c == '\n'
  }

  /** `s` with every CR and LF byte deleted. */
  function RemoveLineBreaks(s: Bytes): Bytes {
    if |s| == 0 then []
    else if IsLineBreak(s[0]) then RemoveLineBreaks(s[1..])
    else [s[0]] + RemoveLineBreaks(s[1..])
  }

  lemma {:induction false} RemoveLineBreaksAppend(a: Bytes, b: Bytes)
    ensures RemoveLineBreaks(a + b) == RemoveLineBreaks(a) + RemoveLineBreaks(b)
    decreases |a|
  {
    if |a| > 0 {
      assert (a + b)[0] == a[0];
      assert (a + b)[1..] == a[1..] + b;
      RemoveLineBreaksAppend(a[1..], b);
      if IsLineBreak(a[0]) {
        assert RemoveLineBreaks(a) == RemoveLineBreaks(a[1..]);
      } else {
        assert RemoveLineBreaks(a) == [a[0]] + RemoveLineBreaks(a[1..]);
        assert RemoveLineBreaks(a + b) == [a[0]] + RemoveLineBreaks(a[1..] + b);
      }
    } else {
      assert a + b == b;
    }
  }

  lemma {:induction false} RemoveLineBreaksNone(s: Bytes)
    requires forall i | 0 <= i < |s| :: !IsLineBreak(s[i])
    ensures RemoveLineBreaks(s) == s
    decreases |s|
  {
    if |s| > 0 {
      RemoveLineBreaksNone(s[1..]);
      assert s == [s[0]] + s[1..];
    }
  }

  /** Deleting the line breaks `chunk_split` inserted gives back its input,
      provided the input had none of its own. */
  lemma {:induction false} ChunkSplitUnsplit(s: Bytes)
    requires forall i | 0 <= i < |s| :: !IsLineBreak(s[i])
    ensures RemoveLineBreaks(ChunkSplit(s)) == s
    decreases |s|
  {
    RemoveLineBreaksNone(s);
    var crlf := RemoveLineBreaks(CRLF);
    assert crlf == [] by {
      var lf: Bytes := CRLF[1..];
      assert lf[1..] == [];
    }
    if |s| <= ChunkLength {
      RemoveLineBreaksAppend(s, CRLF);
    } else {
      var head := s[..ChunkLength];
      var tail := s[ChunkLength..];
      RemoveLineBreaksNone(head);
      ChunkSplitUnsplit(tail);
      RemoveLineBreaksAppend(head + CRLF, ChunkSplit(tail));
      RemoveLineBreaksAppend(head, CRLF);
      assert s == head + tail;
    }
  }
}
