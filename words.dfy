/** The word counter: `countWords` returns the number of fields that
    `strings.Fields` cuts the file content into, that is the number of
    maximal runs of non-whitespace bytes. */
module Words {
  import opened Common

  /** The ASCII white space of `strings.Fields`: '\t', '\n', '\v', '\f', '\r'
      and ' '. */
  predicate IsSpace(b: byte)
  {
    b == 9 || b == 10 || b == 11 || b == 12 || b == 13 || b == 32
  }

  predicate AllSpace(s: seq<byte>)
  {
    forall i :: 0 <= i < |s| ==> IsSpace(s[i])
  }

  predicate NoSpace(s: seq<byte>)
  {
    forall i :: 0 <= i < |s| ==> !IsSpace(s[i])
  }

  /** The length of the run of non-space bytes at the front of `s`. */
  function RunLength(s: seq<byte>): (n: nat)
    ensures n <= |s|
    ensures NoSpace(s[..n])
    ensures n < |s| ==> IsSpace(s[n])
  {
    if s == [] || IsSpace(s[0]) then 0
    else
      var k := RunLength(s[1..]);
      assert s[..k + 1] == [s[0]] + s[1..][..k];
      k + 1
  }

  /** The fields of `s`: its maximal runs of non-space bytes, in order. */
  function Fields(s: seq<byte>): (fs: seq<seq<byte>>)
    ensures forall k :: 0 <= k < |fs| ==> fs[k] != [] && NoSpace(fs[k])
    decreases |s|
  {
    if s == [] then []
    else if IsSpace(s[0]) then Fields(s[1..])
    else
      var n := RunLength(s);
      [s[..n]] + Fields(s[n..])
  }

  /** `countWords`: the number of fields, and no error, when the file reads
      in full; zero and the error when opening or reading fails. */
  function CountWords(file: File): (r: (nat, Option<Error>))
    ensures r.1 == FileError(file)
    ensures r.1.Some? ==> r.0 == 0
    ensures file.Readable? ==> r.0 == |Fields(file.data)|
  {
    match file
    case Readable(data) => (|Fields(data)|, None)
    case _ => (0, FileError(file))
  }

  /** There are no words exactly when the content is all white space
      (the empty content included). */
  lemma {:induction false} NoFieldsIffAllSpace(s: seq<byte>)
    ensures Fields(s) == [] <==> AllSpace(s)
    decreases |s|
  {
    if s != [] {
      if IsSpace(s[0]) {
        NoFieldsIffAllSpace(s[1..]);
        assert AllSpace(s) <==> AllSpace(s[1..]) by {
          assert forall i :: 1 <= i < |s| ==> s[i] == s[1..][i - 1];
        }
      } else {
        assert !AllSpace(s);
      }
    }
  }

  /** Leading white space does not change the fields. */
  lemma {:induction false} LeadingSpace(w: seq<byte>, s: seq<byte>)
    requires AllSpace(w)
    ensures Fields(w + s) == Fields(s)
  {
    if w == [] {
      assert w + s == s;
    } else {
      assert (w + s)[1..] == w[1..] + s;
      LeadingSpace(w[1..], s);
    }
  }

  /** The leading run of `a + [c] + b` is that of `a` when `c` is white space. */
  lemma {:induction false} RunLengthBeforeSpace(a: seq<byte>, c: byte, b: seq<byte>)
    requires IsSpace(c)
    ensures RunLength(a + [c] + b) == RunLength(a)
  {
    if a == [] {
    } else if !IsSpace(a[0]) {
      assert (a + [c] + b)[1..] == a[1..] + [c] + b;
      RunLengthBeforeSpace(a[1..], c, b);
    }
  }

  /** A white-space byte separates: the fields of `a`, a space and `b` are
      the fields of `a` followed by those of `b`. */
  lemma {:induction false} FieldsSplitAtSpace(a: seq<byte>, c: byte, b: seq<byte>)
    requires IsSpace(c)
    ensures Fields(a + [c] + b) == Fields(a) + Fields(b)
    decreases |a|
  {
    var s := a + [c] + b;
    if a == [] {
      assert s[1..] == b;
    } else if IsSpace(a[0]) {
      assert s[1..] == a[1..] + [c] + b;
      FieldsSplitAtSpace(a[1..], c, b);
    } else {
      RunLengthBeforeSpace(a, c, b);
      var n := RunLength(a);
      assert s[..n] == a[..n];
      assert s[n..] == a[n..] + [c] + b;
      FieldsSplitAtSpace(a[n..], c, b);
    }
  }

  /** Trailing white space does not change the fields. */
  lemma {:induction false} TrailingSpace(s: seq<byte>, w: seq<byte>)
    requires AllSpace(w)
    ensures Fields(s + w) == Fields(s)
  {
    if w == [] {
      assert s + w == s;
    } else {
      assert s + w == s + [w[0]] + w[1..];
      FieldsSplitAtSpace(s, w[0], w[1..]);
      NoFieldsIffAllSpace(w[1..]);
    }
  }

  /** A run of non-space bytes is one field. */
  lemma {:induction false} OneWord(w: seq<byte>)
    requires w != [] && NoSpace(w)
    ensures Fields(w) == [w]
  {
    var n := RunLength(w);
    assert n == |w|;
    assert w[..n] == w && w[n..] == [];
  }

  /** `Fields` inverts joining words with single spaces: the words come back
      one for one. */
  lemma {:induction false} FieldsOfJoin(ws: seq<seq<byte>>)
    requires forall k :: 0 <= k < |ws| ==> ws[k] != [] && NoSpace(ws[k])
    ensures Fields(Join(ws, [32])) == ws
  {
    if |ws| == 1 {
      OneWord(ws[0]);
    } else if |ws| > 1 {
      FieldsSplitAtSpace(ws[0], 32, Join(ws[1..], [32]));
      OneWord(ws[0]);
      FieldsOfJoin(ws[1..]);
    }
  }

  /** The non-space bytes of `s`, in order. */
  function NonSpace(s: seq<byte>): seq<byte>
  {
    if s == [] then [] else (if IsSpace(s[0]) then [] else [s[0]]) + NonSpace(s[1..])
  }

  lemma {:induction false} NonSpaceAppend(a: seq<byte>, b: seq<byte>)
    ensures NonSpace(a + b) == NonSpace(a) + NonSpace(b)
  {
    if a == [] {
      assert a + b == b;
    } else {
      assert (a + b)[1..] == a[1..] + b;
      NonSpaceAppend(a[1..], b);
    }
  }

  lemma {:induction false} NonSpaceOfWord(w: seq<byte>)
    requires NoSpace(w)
    ensures NonSpace(w) == w
  {
    if w != [] {
      NonSpaceOfWord(w[1..]);
    }
  }

  /** The fields hold every non-space byte of the content, in order, and
      nothing else. */
  lemma {:induction false} FieldsCoverNonSpace(s: seq<byte>)
    ensures Flatten(Fields(s)) == NonSpace(s)
    decreases |s|
  {
    if s != [] {
      if IsSpace(s[0]) {
        FieldsCoverNonSpace(s[1..]);
      } else {
        var n := RunLength(s);
        FieldsCoverNonSpace(s[n..]);
        assert s == s[..n] + s[n..];
        NonSpaceAppend(s[..n], s[n..]);
        NonSpaceOfWord(s[..n]);
        assert ([s[..n]] + Fields(s[n..]))[1..] == Fields(s[n..]);
      }
    }
  }

  /** The bytes of `s` that begin a word: non-space bytes at the very front
      (when `afterSpace`) or right after a white-space byte. */
  function WordStarts(s: seq<byte>, afterSpace: bool): nat
  {
    if s == [] then 0
    else (if afterSpace && !IsSpace(s[0]) then 1 else 0) + WordStarts(s[1..], IsSpace(s[0]))
  }

  lemma {:induction false} SkipRun(s: seq<byte>, n: nat)
    requires 0 < n <= |s| && NoSpace(s[..n])
    ensures WordStarts(s[1..], false) == WordStarts(s[n..], false)
    decreases n
  {
    if n > 1 {
      var t := s[1..];
      assert t[..n - 1] == s[1..n];
      assert NoSpace(t[..n - 1]);
      assert !IsSpace(t[0]);
      SkipRun(t, n - 1);
      assert t[n - 1..] == s[n..];
    }
  }

  /** The word count is the number of bytes that begin a word: `Fields`
      splits the content into maximal runs of non-space bytes. */
  lemma {:induction false} FieldsCountWordStarts(s: seq<byte>)
    ensures |Fields(s)| == WordStarts(s, true)
    decreases |s|
  {
    if s != [] {
      if IsSpace(s[0]) {
        FieldsCountWordStarts(s[1..]);
      } else {
        var n := RunLength(s);
        SkipRun(s, n);
        FieldsCountWordStarts(s[n..]);
        var rest := s[n..];
        if rest != [] {
          assert IsSpace(rest[0]);
          assert WordStarts(rest, false) == WordStarts(rest, true);
        }
      }
    }
  }
}
