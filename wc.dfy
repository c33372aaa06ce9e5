/** The command's action: check that a file name was given, run the counters
    the options call for, collect the selected counts in order and build the
    line to print. */
module Wc {
  import opened Common
  import opened Words
  import opened Lines
  import opened Select
  import opened Format

  /** The three counts of readable content: the tokens `ScanLines` yields,
      the fields `strings.Fields` cuts and the counted bytes. */
  function Measure(data: seq<byte>): Counts
  {
    Counts(|Tokens(data)|, |Fields(data)|, ByteSum(Tokens(data)))
  }

  /** The counts through their independent definitions: the lines are the
      '\n' bytes plus an unterminated last line, the words are the bytes that
      begin a word, and the bytes are the content length plus an unterminated
      last line's '\n', less one per dropped '\r'. */
  lemma MeasureCounts(data: seq<byte>)
    ensures Measure(data).lines == multiset(data)[LF] + (if Unterminated(data) then 1 else 0)
    ensures Measure(data).words == WordStarts(data, true)
    ensures Measure(data).bytes + CountCR(Segments(data))
         == |data| + (if Unterminated(data) then 1 else 0)
  {
    LineCount(data);
    FieldsCountWordStarts(data);
    ByteCount(data);
  }

  /** What a run prints or fails with, given the positional arguments, the
      options and the file system (`fs` maps a name to what opening it
      yields). A missing name fails first; a file that cannot be opened or
      read fails; otherwise the selected counts of its content are printed. */
  function Report(args: seq<string>, flags: Flags, fs: string -> File): (r: Result<string>)
    ensures r.Failure? <==> |args| == 0 || !fs(args[0]).Readable?
    ensures |args| == 0 ==> r == Failure(MissingFilename)
    ensures r.Success? ==> |r.value| >= |args[0]| + 2
    ensures r.Success? ==> r.value[|r.value| - |args[0]| - 2..] == " " + args[0] + "\n"
  {
    if |args| == 0 then Failure(MissingFilename)
    else match fs(args[0])
      case Unopenable => Failure(OpenFailed)
      case ReadFails(_) => Failure(ReadFailed)
      case Readable(data) => Success(FormatLine(Selected(flags, Measure(data)), args[0]))
  }

  /** The action: the source's branches and appends, step by step. */
  method Action(args: seq<string>, flags: Flags, fs: string -> File) returns (out: Result<string>)
    ensures out == Report(args, flags, fs)
    ensures |args| == 0 ==> out == Failure(MissingFilename)
    ensures out.Failure? <==> |args| == 0 || !fs(args[0]).Readable?
  {
    var counts: seq<nat> := [];
    var numBytes, numWords, numLines := 0, 0, 0;
    var err: Option<Error>;

    if |args| == 0 {
      return Failure(MissingFilename);
    }
    var fileName := args[0];

    if NoFlags(flags) {
      numBytes, numLines, err := CountLinesAndBytes(fs(fileName));
      match err {
        case Some(e) => return Failure(e);
        case None =>
      }
      var words := CountWords(fs(fileName));
      numWords, err := words.0, words.1;
      match err {
        case Some(e) => return Failure(e);
        case None =>
      }
      counts := counts + [numLines, numWords, numBytes];
    }

    if flags.words {
      var words := CountWords(fs(fileName));
      numWords, err := words.0, words.1;
      match err {
        case Some(e) => return Failure(e);
        case None =>
      }
    }

    if flags.lines || flags.bytes {
      numBytes, numLines, err := CountLinesAndBytes(fs(fileName));
      match err {
        case Some(e) => return Failure(e);
        case None =>
      }
    }

    // Every path so far ran a counter, so the file read in full.
    assert fs(fileName).Readable?;
    ghost var c := Measure(fs(fileName).data);
    ghost var base := counts;
    assert base == if NoFlags(flags) then [c.lines, c.words, c.bytes] else [];

    if flags.lines {
      counts := counts + [numLines];
    }
    ghost var withLines := counts;
    assert withLines == base + if flags.lines then [c.lines] else [];
    if flags.words {
      counts := counts + [numWords];
    }
    ghost var withWords := counts;
    assert withWords == withLines + if flags.words then [c.words] else [];
    if flags.bytes {
      counts := counts + [numBytes];
    }
    assert counts == withWords + if flags.bytes then [c.bytes] else [];

    SelectedInTurn(flags, c);
    if NoFlags(flags) {
      assert counts == [c.lines] + [c.words] + [c.bytes];
    } else {
      assert Wanted(flags, Lines) == flags.lines;
      assert Wanted(flags, Words) == flags.words;
      assert Wanted(flags, Bytes) == flags.bytes;
      assert withLines == if flags.lines then [c.lines] else [];
    }
    assert counts == Selected(flags, c);
    assert Report(args, flags, fs) == Success(FormatLine(Selected(flags, c), fileName));
    var line := FormatResult(counts, fileName);
    return Success(line);
  }

  /** No option reports the same as all three options. */
  lemma DefaultReportsAll(args: seq<string>, fs: string -> File)
    ensures Report(args, Flags(false, false, false), fs) == Report(args, Flags(true, true, true), fs)
  {
    if |args| > 0 && fs(args[0]).Readable? {
      DefaultIsAll(Measure(fs(args[0]).data));
    }
  }

  /** Three words, the first two parted by a space, the last two by a line
      terminator, and a final line terminator. */
  lemma ThreeWords(a: seq<byte>, b: seq<byte>, c: seq<byte>)
    requires a != [] && NoSpace(a) && b != [] && NoSpace(b) && c != [] && NoSpace(c)
    ensures Fields(a + [32] + (b + [LF] + (c + [LF]))) == [a, b, c]
  {
    FieldsSplitAtSpace(a, 32, b + [LF] + (c + [LF]));
    FieldsSplitAtSpace(b, LF, c + [LF]);
    TrailingSpace(c, [LF]);
    OneWord(a);
    OneWord(b);
    OneWord(c);
  }

  /** Two terminated lines without '\r' count two lines and their lengths
      plus two bytes. */
  lemma TwoLines(a: seq<byte>, b: seq<byte>)
    requires LF !in a && LF !in b && CR !in a && CR !in b
    ensures var d := a + [LF] + (b + [LF]);
      |Tokens(d)| == 2 && ByteSum(Tokens(d)) == |a| + |b| + 2
  {
    var d := a + [LF] + (b + [LF]);
    assert multiset(d) == multiset(a) + multiset{LF} + multiset(b) + multiset{LF};
    assert multiset(a)[LF] == 0 && multiset(b)[LF] == 0;
    assert d[|d| - 1] == LF;
    assert CR !in d;
    LineCount(d);
    ByteCountWithoutCR(d);
  }

  /** "hello world\nfoo\n" */
  const Sample: seq<byte> := [104, 101, 108, 108, 111, 32, 119, 111, 114, 108, 100, 10, 102, 111, 111, 10]

  /** The sample's words are "hello", "world" and "foo". */
  lemma SampleWords()
    ensures |Fields(Sample)| == 3
  {
    var hello: seq<byte> := [104, 101, 108, 108, 111];
    var world: seq<byte> := [119, 111, 114, 108, 100];
    var foo: seq<byte> := [102, 111, 111];
    assert NoSpace(hello) && NoSpace(world) && NoSpace(foo);
    assert Sample == hello + [32] + (world + [LF] + (foo + [LF]));
    ThreeWords(hello, world, foo);
  }

  /** The sample's lines are "hello world" and "foo". */
  lemma SampleLines()
    ensures |Tokens(Sample)| == 2 && ByteSum(Tokens(Sample)) == 16
  {
    var first: seq<byte> := [104, 101, 108, 108, 111, 32, 119, 111, 114, 108, 100];
    var foo: seq<byte> := [102, 111, 111];
    assert Sample == first + [LF] + (foo + [LF]);
    assert LF !in first && CR !in first && LF !in foo && CR !in foo;
    TwoLines(first, foo);
  }

  /** The line printed for three counts. */
  lemma FormatThree(a: nat, b: nat, c: nat, name: string)
    ensures FormatLine([a, b, c], name)
         == Decimal(a) + " " + Decimal(b) + " " + Decimal(c) + " " + name + "\n"
  {
    var ds := Decimals([a, b, c]);
    assert ds == [Decimal(a), Decimal(b), Decimal(c)];
    assert ds[1..] == [Decimal(b), Decimal(c)];
    assert ds[1..][1..] == [Decimal(c)];
    assert Join(ds[1..][1..], " ") == Decimal(c);
    assert Join(ds[1..], " ") == Decimal(b) + " " + Decimal(c);
    assert Join(ds, " ") == Decimal(a) + " " + (Decimal(b) + " " + Decimal(c));
  }

  /** The sample counts two lines, three words and sixteen bytes. */
  lemma SampleCounts()
    ensures Measure(Sample) == Counts(2, 3, 16)
  {
    SampleWords();
    SampleLines();
  }

  /** A readable file's report is the formatted selection of its counts. */
  lemma ReportOfReadable(name: string, flags: Flags, fs: string -> File)
    requires fs(name).Readable?
    ensures Report([name], flags, fs) == Success(FormatLine(Selected(flags, Measure(fs(name).data)), name))
  {
  }

  lemma SmallDecimals()
    ensures Decimal(0) == "0" && Decimal(2) == "2" && Decimal(3) == "3" && Decimal(16) == "16"
  {
    assert Decimal(1) == "1";
    assert Decimal(16) == Decimal(1) + [DigitChar(6)];
  }

  lemma DefaultSampleLine(name: string)
    ensures FormatLine([2, 3, 16], name) == "2 3 16 " + name + "\n"
  {
    FormatThree(2, 3, 16, name);
    SmallDecimals();
    assert "2" + " " + "3" + " " + "16" + " " == "2 3 16 ";
  }

  /** With no option, content like the sample prints "2 3 16" and the name. */
  lemma SampleDefault(name: string, fs: string -> File)
    requires fs(name).Readable? && Measure(fs(name).data) == Counts(2, 3, 16)
    ensures Report([name], Flags(false, false, false), fs) == Success("2 3 16 " + name + "\n")
  {
    ReportOfReadable(name, Flags(false, false, false), fs);
    DefaultIsAll(Counts(2, 3, 16));
    DefaultSampleLine(name);
  }

  lemma WordsSampleLine(name: string)
    ensures FormatLine([3], name) == "3 " + name + "\n"
  {
    SmallDecimals();
    assert Decimals([3]) == ["3"];
    assert "3" + " " == "3 ";
  }

  /** With `-w`, content like the sample prints "3" and the name. */
  lemma SampleWordsOnly(name: string, fs: string -> File)
    requires fs(name).Readable? && Measure(fs(name).data) == Counts(2, 3, 16)
    ensures Report([name], Flags(false, true, false), fs) == Success("3 " + name + "\n")
  {
    var f := Flags(false, true, false);
    ReportOfReadable(name, f, fs);
    SelectedInTurn(f, Counts(2, 3, 16));
    assert Selected(f, Counts(2, 3, 16)) == [3];
    WordsSampleLine(name);
  }

  lemma LinesBytesSampleLine(name: string)
    ensures FormatLine([2, 16], name) == "2 16 " + name + "\n"
  {
    SmallDecimals();
    var ds := Decimals([2, 16]);
    assert ds == ["2", "16"];
    assert ds[1..] == ["16"];
    assert Join(ds, " ") == "2 16";
    assert "2 16" + " " == "2 16 ";
  }

  /** With `-l -c`, content like the sample prints "2 16" and the name. */
  lemma SampleLinesAndBytesOnly(name: string, fs: string -> File)
    requires fs(name).Readable? && Measure(fs(name).data) == Counts(2, 3, 16)
    ensures Report([name], Flags(true, false, true), fs) == Success("2 16 " + name + "\n")
  {
    var f := Flags(true, false, true);
    ReportOfReadable(name, f, fs);
    SelectedInTurn(f, Counts(2, 3, 16));
    assert Selected(f, Counts(2, 3, 16)) == [2, 16];
    LinesBytesSampleLine(name);
  }

  lemma ZerosLine(name: string)
    ensures FormatLine([0, 0, 0], name) == "0 0 0 " + name + "\n"
  {
    FormatThree(0, 0, 0, name);
    SmallDecimals();
    assert "0" + " " + "0" + " " + "0" + " " == "0 0 0 ";
  }

  /** An empty file counts zero of everything. */
  lemma EmptyReport(name: string, fs: string -> File)
    requires fs(name) == Readable([])
    ensures Report([name], Flags(false, false, false), fs) == Success("0 0 0 " + name + "\n")
  {
    ReportOfReadable(name, Flags(false, false, false), fs);
    assert Segments([]) == [] && Fields([]) == [];
    assert Measure([]) == Counts(0, 0, 0);
    DefaultIsAll(Counts(0, 0, 0));
    ZerosLine(name);
  }

  /** End to end: a file holding "hello world\nfoo\n" prints "2 3 16" and its
      name with no option. */
  lemma SampleFileDefault(name: string, fs: string -> File)
    requires fs(name) == Readable(Sample)
    ensures Report([name], Flags(false, false, false), fs) == Success("2 3 16 " + name + "\n")
  {
    SampleCounts();
    SampleDefault(name, fs);
  }

  /** End to end: that file prints "3" and its name with `-w`. */
  lemma SampleFileWordsOnly(name: string, fs: string -> File)
    requires fs(name) == Readable(Sample)
    ensures Report([name], Flags(false, true, false), fs) == Success("3 " + name + "\n")
  {
    SampleCounts();
    SampleWordsOnly(name, fs);
  }

  /** End to end: that file prints "2 16" and its name with `-l -c`. */
  lemma SampleFileLinesAndBytesOnly(name: string, fs: string -> File)
    requires fs(name) == Readable(Sample)
    ensures Report([name], Flags(true, false, true), fs) == Success("2 16 " + name + "\n")
  {
    SampleCounts();
    SampleLinesAndBytesOnly(name, fs);
  }
}
