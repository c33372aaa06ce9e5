/** Vocabulary shared by the counters, the metric selector and the formatter:
    bytes, optional values, results, the command's errors and the file a
    counter reads. */
module Common {

  /** One byte of file content. */
  newtype byte = b: int | 0 <= b < 0x100

  /** The line terminator '\n' and the carriage return '\r'. */
  const LF: byte := 10
  const CR: byte := 13

  datatype Option<+T> = None | Some(value: T)

  /** Success with a value, or the error the command stops with. */
  datatype Result<+T> = Success(value: T) | Failure(error: Error)

  /** The ways a run can fail. */
  datatype Error =
    | MissingFilename  // no positional argument was given
    | OpenFailed       // the named file cannot be opened
    | ReadFailed       // a read fails part-way through the file

  /** What the file system hands a counter that opens the named file.
      `ReadFails(data)` delivers `data` and then reports a read error. */
  datatype File =
    | Unopenable
    | Readable(data: seq<byte>)
    | ReadFails(data: seq<byte>)

  /** The error a counter reports for a file, if any. */
  function FileError(f: File): (e: Option<Error>)
    ensures e.None? <==> f.Readable?
    ensures f.Unopenable? ==> e == Some(OpenFailed)
  {
    match f
    case Unopenable => Some(OpenFailed)
    case Readable(_) => None
    case ReadFails(_) => Some(ReadFailed)
  }

  /** The position of the first `x` in `s`, or -1 when there is none
      (the contract of a byte or rune search such as `bytes.IndexByte`). */
  function IndexOf<T(==)>(s: seq<T>, x: T): (i: int)
    ensures -1 <= i < |s|
    ensures i < 0 <==> x !in s
    ensures 0 <= i ==> s[i] == x && x !in s[..i]
  {
    if s == [] then -1
    else if s[0] == x then 0
    else
      var k := IndexOf(s[1..], x);
      assert s[1..][..if k < 0 then 0 else k] == s[1..if k < 0 then 1 else k + 1];
      if k < 0 then -1 else k + 1
  }

  /** `IndexOf` skips a prefix free of `x` and stops at the `x` after it. */
  lemma {:induction false} IndexOfAfter<T>(p: seq<T>, x: T, t: seq<T>)
    requires x !in p
    ensures IndexOf(p + [x] + t, x) == |p|
  {
    if p != [] {
      assert (p + [x] + t)[1..] == p[1..] + [x] + t;
      IndexOfAfter(p[1..], x, t);
    }
  }

  lemma HeadTail<T>(s: seq<T>)
    requires s != []
    ensures [s[0]] + s[1..] == s
  {
  }

  lemma AppendAssoc<T>(a: seq<T>, b: seq<T>, c: seq<T>)
    ensures a + (b + c) == a + b + c
  {
  }

  lemma SliceOfSlice<T>(s: seq<T>, p: nat, a: nat)
    requires p + a <= |s|
    ensures s[p..][a..] == s[p + a..]
  {
  }

  /** The parts joined with `sep` between neighbours, like `strings.Join`. */
  function Join<T>(parts: seq<seq<T>>, sep: seq<T>): seq<T>
  {
    if parts == [] then []
    else if |parts| == 1 then parts[0]
    else parts[0] + sep + Join(parts[1..], sep)
  }

  /** The parts laid end to end. */
  function Flatten<T>(parts: seq<seq<T>>): seq<T>
  {
    if parts == [] then [] else parts[0] + Flatten(parts[1..])
  }
}
