/** The director's newline framing of an agent's status stream: received
    text is appended to a buffer, every complete `\n`-terminated line is
    cut off in order, empty lines are skipped, and the unterminated rest
    stays buffered. */
module Framing {
  import opened Text

  /** The non-empty strings of `lines`, in order. */
  function NonEmpty(lines: seq<string>): (r: seq<string>)
    ensures |r| <= |lines|
    ensures forall i :: 0 <= i < |r| ==> r[i] != ""
    ensures forall x :: x in r <==> x in lines && x != ""
    ensures (forall i :: 0 <= i < |lines| ==> lines[i] != "") ==> r == lines
  {
    if |lines| == 0 then []
    else
      var rest := NonEmpty(lines[1..]);
      assert forall x :: x in lines <==> x == lines[0] || x in lines[1..];
      if lines[0] != "" then
        assert [lines[0]] + lines[1..] == lines;
        [lines[0]] + rest
      else rest
  }

  lemma NonEmptyAppend(a: seq<string>, b: seq<string>)
    ensures NonEmpty(a + b) == NonEmpty(a) + NonEmpty(b)
    decreases |a|
  {
    if |a| == 0 {
      assert a + b == b;
    } else {
      assert (a + b)[1..] == a[1..] + b;
      NonEmptyAppend(a[1..], b);
    }
  }

  /** Position of the first `c` in `s`. */
  function IndexOf(s: string, c: char): (i: nat)
    requires c in s
    ensures i < |s| && s[i] == c && c !in s[..i]
  {
    if s[0] == c then 0
    else
      var j := IndexOf(s[1..], c);
      assert s[..j + 1] == [s[0]] + s[1..][..j];
      j + 1
  }

  /** The inner loop `while '\n' in buffer`: the complete lines of `buffer`
      that are not empty, in order, and the unterminated rest. This is
      exactly what splitting the whole buffer at every newline gives,
      without the final piece, which is what stays buffered. */
  function Drain(buffer: string): (r: (seq<string>, string))
    ensures r.0 == NonEmpty(Init(Split(buffer, '\n')))
    ensures r.1 == Last(Split(buffer, '\n'))
    ensures '\n' !in r.1
    ensures '\n' !in buffer ==> r == ([], buffer)
    decreases |buffer|
  {
    if '\n' in buffer then
      var i := IndexOf(buffer, '\n');
      var line := buffer[..i];
      var rest := buffer[i + 1..];
      assert buffer == line + ['\n'] + rest;
      SplitAtFirst(line, rest, '\n');
      var (more, tail) := Drain(rest);
      var parts := Split(rest, '\n');
      assert Init([line] + parts) == [line] + Init(parts);
      NonEmptyAppend([line], Init(parts));
      ((if line != "" then [line] else []) + more, tail)
    else
      SplitNoSep(buffer, '\n');
      ([], buffer)
  }

  function Concat(chunks: seq<string>): string
  {
    if |chunks| == 0 then "" else chunks[0] + Concat(chunks[1..])
  }

  /** The read loop over a sequence of received chunks: each is appended to
      the buffer and the buffer drained. Returns every line cut off and the
      final buffer. */
  function FeedAll(buffer: string, chunks: seq<string>): (r: (seq<string>, string))
    ensures '\n' !in r.1
    decreases |chunks|
  {
    if |chunks| == 0 then Drain(buffer)
    else
      var (lines, rest) := Drain(buffer + chunks[0]);
      var (more, tail) := FeedAll(rest, chunks[1..]);
      (lines + more, tail)
  }

  /** Feeding chunks yields exactly the framing of their concatenation. */
  lemma {:induction false} FeedAllIsSplit(buffer: string, chunks: seq<string>)
    ensures FeedAll(buffer, chunks) == Drain(buffer + Concat(chunks))
    decreases |chunks|
  {
    if |chunks| == 0 {
      assert buffer + Concat(chunks) == buffer;
    } else {
      var b := buffer + chunks[0];
      var c := Concat(chunks[1..]);
      assert buffer + Concat(chunks) == b + c;
      FeedAllIsSplit(Last(Split(b, '\n')), chunks[1..]);
      SplitAppend(b, c, '\n');
      var A := Init(Split(b, '\n'));
      var B := Split(Last(Split(b, '\n')) + c, '\n');
      assert Init(A + B) == A + Init(B);
      assert Last(A + B) == Last(B);
      NonEmptyAppend(A, Init(B));
    }
  }

  /** The lines and the leftover depend only on the text received, not on
      how it was cut into chunks. */
  lemma ChunkingIndependent(chunks1: seq<string>, chunks2: seq<string>)
    requires Concat(chunks1) == Concat(chunks2)
    ensures FeedAll("", chunks1) == FeedAll("", chunks2)
  {
    FeedAllIsSplit("", chunks1);
    FeedAllIsSplit("", chunks2);
  }

  /** How an agent writes reports: each line followed by a newline. */
  function Encode(lines: seq<string>): string
  {
    if |lines| == 0 then "" else lines[0] + "\n" + Encode(lines[1..])
  }

  lemma {:induction false} SplitEncode(lines: seq<string>)
    requires forall i :: 0 <= i < |lines| ==> '\n' !in lines[i]
    ensures Split(Encode(lines), '\n') == lines + [""]
    decreases |lines|
  {
    if |lines| > 0 {
      SplitEncode(lines[1..]);
      SplitAtFirst(lines[0], Encode(lines[1..]), '\n');
      assert [lines[0]] + (lines[1..] + [""]) == lines + [""];
    }
  }

  /** Every non-empty line an agent writes is read back once, in order, with
      nothing left over, however the stream is chunked. */
  lemma EncodeRoundTrip(lines: seq<string>, chunks: seq<string>)
    requires forall i :: 0 <= i < |lines| ==> lines[i] != "" && '\n' !in lines[i]
    requires Concat(chunks) == Encode(lines)
    ensures FeedAll("", chunks) == (lines, "")
  {
    FeedAllIsSplit("", chunks);
    assert "" + Concat(chunks) == Encode(lines);
    SplitEncode(lines);
    assert Init(lines + [""]) == lines;
  }
}
