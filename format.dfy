/** Result formatting: each count in decimal (`fmt.Sprint`), the renderings
    joined by single spaces (`strings.Join`), then a space, the file name and
    a newline (`fmt.Printf("%v %v\n", ...)`). */
module Format {
  import opened Common

  predicate IsDigit(c: char)
  {
    '0' <= c <= '9'
  }

  predicate AllDigits(s: string)
  {
    forall i :: 0 <= i < |s| ==> IsDigit(s[i])
  }

  function DigitChar(d: nat): (c: char)
    requires d < 10
    ensures IsDigit(c)
  {
    ('0' as int + d) as char
  }

  function DigitValue(c: char): (d: nat)
    requires IsDigit(c)
    ensures d < 10
  {
    c as int - '0' as int
  }

  /** The decimal rendering of `n`: digits only, never empty, and with no
      leading zero unless it is "0" itself. */
  function Decimal(n: nat): (s: string)
    ensures s != [] && AllDigits(s)
    ensures |s| > 1 ==> s[0] != '0'
    ensures s[0] == '0' ==> n == 0
  {
    if n < 10 then [DigitChar(n)]
    else
      var p := Decimal(n / 10);
      assert p[0] != '0';
      p + [DigitChar(n % 10)]
  }

  /** The number a string of digits denotes. */
  function ParseDecimal(s: string): nat
    requires AllDigits(s)
  {
    if s == [] then 0
    else ParseDecimal(s[..|s| - 1]) * 10 + DigitValue(s[|s| - 1])
  }

  /** Reading a rendering back gives the number. */
  lemma {:induction false} DecimalRoundTrip(n: nat)
    ensures ParseDecimal(Decimal(n)) == n
    decreases n
  {
    if n >= 10 {
      var p := Decimal(n / 10);
      var s := p + [DigitChar(n % 10)];
      assert s[..|s| - 1] == p;
      DecimalRoundTrip(n / 10);
    }
  }

  /** Digits with a non-zero lead denote a positive number. */
  lemma {:induction false} LeadingDigitPositive(s: string)
    requires s != [] && AllDigits(s) && s[0] != '0'
    ensures ParseDecimal(s) > 0
    decreases |s|
  {
    if |s| > 1 {
      LeadingDigitPositive(s[..|s| - 1]);
    }
  }

  /** Conversely, rendering the number a canonical digit string denotes gives
      that string back: the rendering is the only canonical one. */
  lemma {:induction false} CanonicalRoundTrip(s: string)
    requires s != [] && AllDigits(s) && (|s| > 1 ==> s[0] != '0')
    ensures Decimal(ParseDecimal(s)) == s
    decreases |s|
  {
    var n := ParseDecimal(s);
    if |s| > 1 {
      var p := s[..|s| - 1];
      LeadingDigitPositive(p);
      assert n / 10 == ParseDecimal(p) && n % 10 == DigitValue(s[|s| - 1]);
      CanonicalRoundTrip(p);
      assert s == p + [s[|s| - 1]];
    }
  }

  /** The renderings of `counts`, one per count. */
  function Decimals(counts: seq<nat>): (ds: seq<string>)
    ensures |ds| == |counts|
  {
    seq(|counts|, i requires 0 <= i < |counts| => Decimal(counts[i]))
  }

  /** The line printed for `counts` and the file name. */
  function FormatLine(counts: seq<nat>, fileName: string): (line: string)
    ensures |line| >= |fileName| + 2
    ensures line[|line| - |fileName| - 2..] == " " + fileName + "\n"
  {
    var joined := Join(Decimals(counts), " ");
    assert joined + " " + fileName + "\n" == joined + (" " + fileName + "\n");
    joined + " " + fileName + "\n"
  }

  /** With no counts the line is a space, the name and the newline. */
  lemma FormatNoCounts(fileName: string)
    ensures FormatLine([], fileName) == " " + fileName + "\n"
  {
    assert Join(Decimals([]), " ") == [];
  }

  /** Reads `k` fields, each a non-empty run of digits ended by a space, off
      the front of `s`; gives their values and what follows them. */
  function ReadFields(s: string, k: nat): Option<(seq<nat>, string)>
    decreases k
  {
    if k == 0 then Some(([], s))
    else
      var i := IndexOf(s, ' ');
      if i <= 0 || !AllDigits(s[..i]) then None
      else match ReadFields(s[i + 1..], k - 1)
        case None => None
        case Some(r) => Some(([ParseDecimal(s[..i])] + r.0, r.1))
  }

  /** Reads a printed line that holds `k` counts: the counts and the name. */
  function ParseLine(line: string, k: nat): Option<(seq<nat>, string)>
  {
    if line == [] || line[|line| - 1] != '\n' then None
    else
      var body := line[..|line| - 1];
      if k == 0 then
        if body != [] && body[0] == ' ' then Some(([], body[1..])) else None
      else ReadFields(body, k)
  }

  /** One field read off the front: a digit run, the space after it, then
      the fields that follow. */
  lemma ReadFieldsStep(d: string, tail: string, k: nat, ns: seq<nat>, rest: string)
    requires d != [] && AllDigits(d) && k > 0
    requires ReadFields(tail, k - 1) == Some((ns, rest))
    ensures ReadFields(d + " " + tail, k) == Some(([ParseDecimal(d)] + ns, rest))
  {
    var s := d + " " + tail;
    assert ' ' !in d;
    IndexOfAfter(d, ' ', tail);
    assert s[..|d|] == d && s[|d| + 1..] == tail;
  }

  /** What follows the first rendering and its space in the joined
      renderings of `counts` followed by a space and `rest`. */
  function AfterFirst(counts: seq<nat>, rest: string): string
    requires counts != []
  {
    if |counts| == 1 then rest else Join(Decimals(counts[1..]), " ") + " " + rest
  }

  lemma JoinStep(counts: seq<nat>, rest: string)
    requires counts != []
    ensures Join(Decimals(counts), " ") + " " + rest
         == Decimal(counts[0]) + " " + AfterFirst(counts, rest)
  {
    if |counts| > 1 {
      assert Decimals(counts)[1..] == Decimals(counts[1..]);
    }
  }

  /** The counts' renderings, joined, then a space and `rest`, read back. */
  lemma {:induction false} ReadJoined(counts: seq<nat>, rest: string)
    requires counts != []
    ensures ReadFields(Join(Decimals(counts), " ") + " " + rest, |counts|)
         == Some((counts, rest))
    decreases |counts|
  {
    if |counts| > 1 {
      ReadJoined(counts[1..], rest);
    } else {
      assert counts[1..] == [];
    }
    JoinStep(counts, rest);
    DecimalRoundTrip(counts[0]);
    ReadFieldsStep(Decimal(counts[0]), AfterFirst(counts, rest), |counts|, counts[1..], rest);
    HeadTail(counts);
  }

  /** Reading the printed line back, knowing how many counts it holds, gives
      the counts and the file name. */
  lemma FormatRoundTrip(counts: seq<nat>, fileName: string)
    ensures ParseLine(FormatLine(counts, fileName), |counts|) == Some((counts, fileName))
  {
    var line := FormatLine(counts, fileName);
    var body := Join(Decimals(counts), " ") + " " + fileName;
    assert line == body + "\n";
    assert line[..|line| - 1] == body;
    if counts == [] {
      assert Join(Decimals(counts), " ") == [];
      assert body[1..] == fileName;
    } else {
      ReadJoined(counts, fileName);
    }
  }

  /** Renders the counts into a table of strings, as the source's indexed
      loop does, and builds the printed line. */
  method FormatResult(counts: seq<nat>, fileName: string) returns (line: string)
    ensures line == FormatLine(counts, fileName)
  {
    var countsStr := new string[|counts|];
    for i := 0 to |counts|
      invariant forall j :: 0 <= j < i ==> countsStr[j] == Decimal(counts[j])
    {
      countsStr[i] := Decimal(counts[i]);
    }
    assert countsStr[..] == Decimals(counts);
    var result := Join(countsStr[..], " ");
    line := result + " " + fileName + "\n";
  }
}
