/** The line and byte counter: `countLinesAndBytes` runs a line scanner
    (`bufio.Scanner` with its default `ScanLines` split) over the file and,
    per token, adds one line and the token's length plus one byte. */
module Lines {
  import opened Common

  /** The raw lines of `d`: the pieces between line terminators. An empty tail
      after a final '\n' is no line; a non-empty tail without one is. */
  function Segments(d: seq<byte>): seq<seq<byte>>
    decreases |d|
  {
    if d == [] then []
    else
      var i := IndexOf(d, LF);
      if i < 0 then [d] else [d[..i]] + Segments(d[i + 1..])
  }

  /** A line with one trailing '\r' removed, as `ScanLines` hands it out. */
  function DropCR(t: seq<byte>): (r: seq<byte>)
    ensures |r| == |t| - (if EndsInCR(t) then 1 else 0)
    ensures r == t[..|r|]
  {
    if EndsInCR(t) then t[..|t| - 1] else t
  }

  predicate EndsInCR(t: seq<byte>)
  {
    |t| > 0 && t[|t| - 1] == CR
  }

  /** The tokens `ScanLines` yields for content `d`, in order. */
  function Tokens(d: seq<byte>): seq<seq<byte>>
  {
    DropEachCR(Segments(d))
  }

  function DropEachCR(ss: seq<seq<byte>>): seq<seq<byte>>
  {
    if ss == [] then [] else [DropCR(ss[0])] + DropEachCR(ss[1..])
  }

  /** The byte total the counter accumulates: each token's length plus one. */
  function ByteSum(ts: seq<seq<byte>>): nat
  {
    if ts == [] then 0 else ByteSum(ts[..|ts| - 1]) + |ts[|ts| - 1]| + 1
  }

  /** The content does not end in a line terminator (and is not empty). */
  predicate Unterminated(d: seq<byte>)
  {
    d != [] && d[|d| - 1] != LF
  }

  /** The lines laid end to end, each followed by a '\n'. */
  function Terminated(ss: seq<seq<byte>>): seq<byte>
  {
    if ss == [] then [] else ss[0] + [LF] + Terminated(ss[1..])
  }

  /** The number of lines that end in '\r'. */
  function CountCR(ss: seq<seq<byte>>): nat
  {
    if ss == [] then 0 else (if EndsInCR(ss[0]) then 1 else 0) + CountCR(ss[1..])
  }

  /** Content without a '\n' is one line. */
  lemma SegmentsLast(d: seq<byte>)
    requires d != [] && LF !in d
    ensures Segments(d) == [d]
  {
  }

  /** The first line of content with a '\n' ends just before it. */
  lemma SegmentsNext(d: seq<byte>, i: int)
    requires i == IndexOf(d, LF) && i >= 0
    ensures Segments(d) == [d[..i]] + Segments(d[i + 1..])
  {
  }

  lemma DropEachCRCons(s: seq<byte>, ss: seq<seq<byte>>)
    ensures DropEachCR([s] + ss) == [DropCR(s)] + DropEachCR(ss)
  {
    assert ([s] + ss)[1..] == ss;
  }

  lemma TerminatedCons(s: seq<byte>, ss: seq<seq<byte>>)
    ensures Terminated([s] + ss) == s + [LF] + Terminated(ss)
  {
    assert ([s] + ss)[1..] == ss;
  }

  /** The first token of content with a '\n', and the tokens after it. */
  lemma TokensNext(d: seq<byte>, i: int)
    requires i == IndexOf(d, LF) && i >= 0
    ensures Tokens(d) == [DropCR(d[..i])] + Tokens(d[i + 1..])
  {
    SegmentsNext(d, i);
    DropEachCRCons(d[..i], Segments(d[i + 1..]));
  }

  /** Content without a '\n' is one token. */
  lemma TokensLast(d: seq<byte>)
    requires d != [] && LF !in d
    ensures Tokens(d) == [DropCR(d)]
  {
    SegmentsLast(d);
    DropEachCRCons(d, []);
    assert [d] + [] == [d];
  }

  /** No line holds a '\n'. */
  lemma {:induction false} SegmentsWithoutLF(d: seq<byte>)
    ensures forall k :: 0 <= k < |Segments(d)| ==> LF !in Segments(d)[k]
    decreases |d|
  {
    if d != [] {
      var i := IndexOf(d, LF);
      if i < 0 {
        SegmentsLast(d);
      } else {
        SegmentsNext(d, i);
        SegmentsWithoutLF(d[i + 1..]);
      }
    }
  }

  /** Content cut at a '\n': the pieces, and the last line lies after it. */
  lemma SplitAtLF(d: seq<byte>, i: int)
    requires 0 <= i < |d| && d[i] == LF
    ensures d == d[..i] + [LF] + d[i + 1..]
    ensures Unterminated(d) == Unterminated(d[i + 1..])
  {
    var rest := d[i + 1..];
    if rest != [] { assert d[|d| - 1] == rest[|rest| - 1]; }
  }

  /** The lines rebuild the content: terminating each gives back `d`, plus the
      one '\n' an unterminated last line lacks. */
  lemma {:induction false} SegmentsRebuild(d: seq<byte>)
    ensures Terminated(Segments(d)) == d + (if Unterminated(d) then [LF] else [])
    decreases |d|
  {
    if d != [] {
      var i := IndexOf(d, LF);
      if i < 0 {
        SegmentsLast(d);
        TerminatedCons(d, []);
        assert d[|d| - 1] in d;
      } else {
        var rest := d[i + 1..];
        var tail := if Unterminated(rest) then [LF] else [];
        calc {
          Terminated(Segments(d));
          { SegmentsNext(d, i); }
          Terminated([d[..i]] + Segments(rest));
          { TerminatedCons(d[..i], Segments(rest)); }
          d[..i] + [LF] + Terminated(Segments(rest));
          { SegmentsRebuild(rest); }
          d[..i] + [LF] + (rest + tail);
          { AppendAssoc(d[..i] + [LF], rest, tail); }
          d[..i] + [LF] + rest + tail;
          { SplitAtLF(d, i); }
          d + (if Unterminated(d) then [LF] else []);
        }
      }
    }
  }

  /** Each line contributes exactly its one terminator. */
  lemma {:induction false} TerminatorsOfLines(ss: seq<seq<byte>>)
    requires forall k :: 0 <= k < |ss| ==> LF !in ss[k]
    ensures multiset(Terminated(ss))[LF] == |ss|
  {
    if ss != [] {
      TerminatorsOfLines(ss[1..]);
      assert multiset(ss[0])[LF] == 0;
      assert multiset(Terminated(ss))
          == multiset(ss[0]) + multiset{LF} + multiset(Terminated(ss[1..]));
    }
  }

  /** The line count is the number of '\n' bytes, plus one for a non-empty
      unterminated last line; empty content has no lines. */
  lemma LineCount(d: seq<byte>)
    ensures |Tokens(d)| == multiset(d)[LF] + (if Unterminated(d) then 1 else 0)
  {
    DropEachCRLength(Segments(d));
    SegmentsRebuild(d);
    SegmentsWithoutLF(d);
    TerminatorsOfLines(Segments(d));
    assert multiset(d + (if Unterminated(d) then [LF] else []))
        == multiset(d) + multiset(if Unterminated(d) then [LF] else []);
  }

  lemma {:induction false} DropEachCRLength(ss: seq<seq<byte>>)
    ensures |DropEachCR(ss)| == |ss|
  {
    if ss != [] {
      DropEachCRLength(ss[1..]);
    }
  }

  lemma {:induction false} ByteSumPrepend(t: seq<byte>, ts: seq<seq<byte>>)
    ensures ByteSum([t] + ts) == |t| + 1 + ByteSum(ts)
    decreases |ts|
  {
    if ts != [] {
      var last := ts[|ts| - 1];
      assert ([t] + ts)[..|ts|] == [t] + ts[..|ts| - 1];
      ByteSumPrepend(t, ts[..|ts| - 1]);
    }
  }

  /** The tokens add up to the terminated lines less one byte per dropped '\r'. */
  lemma {:induction false} ByteSumDropCR(ss: seq<seq<byte>>)
    ensures ByteSum(DropEachCR(ss)) + CountCR(ss) == |Terminated(ss)|
  {
    if ss != [] {
      ByteSumDropCR(ss[1..]);
      ByteSumPrepend(DropCR(ss[0]), DropEachCR(ss[1..]));
    }
  }

  /** The byte count is the content length, plus one for an unterminated last
      line, less one for every line that ends in "\r\n" or in a final '\r'. */
  lemma ByteCount(d: seq<byte>)
    ensures ByteSum(Tokens(d)) + CountCR(Segments(d))
         == |d| + (if Unterminated(d) then 1 else 0)
  {
    ByteSumDropCR(Segments(d));
    SegmentsRebuild(d);
  }

  lemma CountCRCons(t: seq<byte>, ss: seq<seq<byte>>)
    ensures CountCR([t] + ss) == (if EndsInCR(t) then 1 else 0) + CountCR(ss)
  {
    assert ([t] + ss)[1..] == ss;
  }

  lemma NotEndsInCR(t: seq<byte>)
    requires CR !in t
    ensures !EndsInCR(t)
  {
    if t != [] {
      assert t[|t| - 1] in t;
    }
  }

  lemma NoCRInPieces(d: seq<byte>, i: int)
    requires 0 <= i < |d| && CR !in d
    ensures CR !in d[..i] && CR !in d[i + 1..]
  {
    assert forall b :: b in d[..i] ==> b in d;
    assert forall b :: b in d[i + 1..] ==> b in d;
  }

  lemma {:induction false} NoCRInSegments(d: seq<byte>)
    requires CR !in d
    ensures CountCR(Segments(d)) == 0
    decreases |d|
  {
    if d != [] {
      var i := IndexOf(d, LF);
      if i >= 0 {
        SegmentsNext(d, i);
        CountCRCons(d[..i], Segments(d[i + 1..]));
        NoCRInPieces(d, i);
        NotEndsInCR(d[..i]);
        NoCRInSegments(d[i + 1..]);
      } else {
        SegmentsLast(d);
        CountCRCons(d, []);
        assert [d] + [] == [d];
        NotEndsInCR(d);
      }
    }
  }

  /** Without any '\r', the byte count is the content length, plus one when
      the last line is unterminated. */
  lemma ByteCountWithoutCR(d: seq<byte>)
    requires CR !in d
    ensures ByteSum(Tokens(d)) == |d| + (if Unterminated(d) then 1 else 0)
  {
    ByteCount(d);
    NoCRInSegments(d);
  }

  lemma ByteSumSnoc(ts: seq<seq<byte>>, t: seq<byte>)
    ensures ByteSum(ts + [t]) == ByteSum(ts) + |t| + 1
  {
    assert (ts + [t])[..|ts|] == ts;
  }

  /** `bufio.ScanLines` on the bytes not yet consumed, all of them at hand
      (the file's end reached): the bytes to advance and the token. The token
      runs up to the first '\n', which is consumed with it; without a '\n'
      the rest is the final token. A trailing '\r' is dropped either way. */
  function ScanLines(rest: seq<byte>): (r: (nat, seq<byte>))
    requires rest != []
    ensures 0 < r.0 <= |rest|
    ensures Tokens(rest) == [r.1] + Tokens(rest[r.0..])
  {
    var i := IndexOf(rest, LF);
    if i >= 0 then
      TokensNext(rest, i);
      (i + 1, DropCR(rest[..i]))
    else
      TokensLast(rest);
      assert rest[|rest|..] == [];
      (|rest|, DropCR(rest))
  }

  /** Every token adds at least one byte, so there are never fewer bytes
      than lines. */
  lemma {:induction false} BytesAtLeastLines(ts: seq<seq<byte>>)
    ensures ByteSum(ts) >= |ts|
  {
    if ts != [] {
      BytesAtLeastLines(ts[..|ts| - 1]);
    }
  }

  /** A `bufio.Scanner` over a file, splitting with `ScanLines`. It holds the
      bytes the file delivers and whether a read then fails; `pos` is how far
      the split has advanced and `token` the last token scanned. */
  class LineScanner {
    const data: seq<byte>
    const readFails: bool
    var pos: nat
    var token: seq<byte>

    ghost predicate Valid()
      reads this
    {
      pos <= |data|
    }

    /** The tokens still to come. */
    ghost function Pending(): seq<seq<byte>>
      reads this
      requires Valid()
    {
      Tokens(data[pos..])
    }

    constructor (file: File)
      requires !file.Unopenable?
      ensures Valid()
      ensures data == file.data && readFails == file.ReadFails?
      ensures Pending() == Tokens(file.data)
    {
      data := file.data;
      readFails := file.ReadFails?;
      pos := 0;
      token := [];
      assert file.data[0..] == file.data;
    }

    /** Advances to the next token. Returns false at the end of the
        delivered bytes, and then leaves the scanner as it was. */
    method Scan() returns (more: bool)
      requires Valid()
      modifies this`pos, this`token
      ensures Valid()
      ensures more <==> old(Pending()) != []
      ensures more ==> old(Pending()) == [token] + Pending()
      ensures more ==> old(pos) < pos
      ensures !more ==> pos == old(pos) && token == old(token)
    {
      if pos == |data| {
        assert data[pos..] == [];
        return false;
      }
      var rest := data[pos..];
      var r := ScanLines(rest);
      SliceOfSlice(data, pos, r.0);
      assert |Tokens(rest)| == 1 + |Tokens(rest[r.0..])|;
      token := r.1;
      pos := pos + r.0;
      more := true;
    }

    /** The error the scan ended with: a failed read, never end of file. */
    function Err(): (e: Option<Error>)
      reads this
      ensures e.Some? <==> readFails
    {
      if readFails then Some(ReadFailed) else None
    }
  }

  /** `countLinesAndBytes`, with its results in the source's order: bytes,
      lines, error. On success the counts are those of the `ScanLines` tokens
      of the content; on any failure both counts are zero. */
  method CountLinesAndBytes(file: File) returns (bytes: nat, lines: nat, err: Option<Error>)
    ensures err == FileError(file)
    ensures err.Some? ==> bytes == 0 && lines == 0
    ensures err.None? ==> lines == |Tokens(file.data)| && bytes == ByteSum(Tokens(file.data))
  {
    if file.Unopenable? {
      return 0, 0, Some(OpenFailed);
    }
    var scanner := new LineScanner(file);
    lines, bytes := 0, 0;
    ghost var all := Tokens(file.data);
    ghost var scanned: seq<seq<byte>> := [];
    var more := scanner.Scan();
    while more
      invariant scanner.Valid()
      invariant scanner.data == file.data && scanner.readFails == file.ReadFails?
      invariant more ==> scanned + [scanner.token] + scanner.Pending() == all
      invariant !more ==> scanned == all
      invariant lines == |scanned| && bytes == ByteSum(scanned)
      decreases |scanner.data| - scanner.pos, more
    {
      ByteSumSnoc(scanned, scanner.token);
      lines := lines + 1;
      bytes := bytes + |scanner.token| + 1;
      scanned := scanned + [scanner.token];
      ghost var pending := scanner.Pending();
      more := scanner.Scan();
      if more {
        AppendAssoc(scanned, [scanner.token], scanner.Pending());
      } else {
        assert scanned + pending == scanned;
      }
    }
    err := scanner.Err();
    if err.Some? {
      return 0, 0, err;
    }
  }
}
