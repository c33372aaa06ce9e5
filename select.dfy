/** Metric selection: which counts a run reports, and in which order. With
    no flag every metric is reported; otherwise exactly the flagged ones.
    Either way the order is lines, words, bytes. */
module Select {

  /** The three boolean options `--lines`, `--words` and `--bytes`. */
  datatype Flags = Flags(lines: bool, words: bool, bytes: bool)

  /** No option was given (`NumFlags() == 0`). */
  predicate NoFlags(f: Flags)
  {
    !f.lines && !f.words && !f.bytes
  }

  /** How many of the options are set. */
  function NumSet(f: Flags): nat
  {
    (if f.lines then 1 else 0) + (if f.words then 1 else 0) + (if f.bytes then 1 else 0)
  }

  datatype Metric = Lines | Words | Bytes

  /** The fixed output order. */
  const Order: seq<Metric> := [Lines, Words, Bytes]

  function Rank(m: Metric): nat
  {
    match m
    case Lines => 0
    case Words => 1
    case Bytes => 2
  }

  /** The counts of one file. */
  datatype Counts = Counts(lines: nat, words: nat, bytes: nat)

  function Value(c: Counts, m: Metric): nat
  {
    match m
    case Lines => c.lines
    case Words => c.words
    case Bytes => c.bytes
  }

  /** Metric `m` is reported: every metric when no option is set, otherwise
      exactly the flagged ones. */
  predicate Wanted(f: Flags, m: Metric)
  {
    NoFlags(f) || match m
                  case Lines => f.lines
                  case Words => f.words
                  case Bytes => f.bytes
  }

  /** The wanted metrics among `ms`, keeping their order. */
  function Keep(f: Flags, ms: seq<Metric>): (r: seq<Metric>)
    ensures |r| <= |ms|
    ensures forall m :: m in r <==> m in ms && Wanted(f, m)
  {
    if ms == [] then []
    else (if Wanted(f, ms[0]) then [ms[0]] else []) + Keep(f, ms[1..])
  }

  /** The metrics a run reports, in output order. */
  function Requested(f: Flags): seq<Metric>
  {
    Keep(f, Order)
  }

  /** The values of metrics `ms` in `c`, in the order of `ms`. */
  function Values(c: Counts, ms: seq<Metric>): (vs: seq<nat>)
    ensures |vs| == |ms|
  {
    if ms == [] then [] else [Value(c, ms[0])] + Values(c, ms[1..])
  }

  /** The values a run reports, in output order. */
  function Selected(f: Flags, c: Counts): seq<nat>
  {
    Values(c, Requested(f))
  }

  lemma {:induction false} ValuesAppend(c: Counts, a: seq<Metric>, b: seq<Metric>)
    ensures Values(c, a + b) == Values(c, a) + Values(c, b)
  {
    if a == [] {
      assert a + b == b;
    } else {
      assert (a + b)[1..] == a[1..] + b;
      ValuesAppend(c, a[1..], b);
    }
  }

  lemma ValuesOne(c: Counts, m: Metric)
    ensures Values(c, [m]) == [Value(c, m)]
  {
    assert [m][1..] == [];
  }

  /** Ranks rise strictly along `ms`. */
  predicate Ascending(ms: seq<Metric>)
  {
    forall i, j :: 0 <= i < j < |ms| ==> Rank(ms[i]) < Rank(ms[j])
  }

  lemma AscendingCons(x: Metric, ms: seq<Metric>)
    requires Ascending(ms)
    requires forall m :: m in ms ==> Rank(x) < Rank(m)
    ensures Ascending([x] + ms)
  {
    var r := [x] + ms;
    forall i, j | 0 <= i < j < |r| ensures Rank(r[i]) < Rank(r[j]) {
      assert r[j] == ms[j - 1];
      if i > 0 {
        assert r[i] == ms[i - 1];
      }
    }
  }

  lemma AscendingTail(ms: seq<Metric>)
    requires ms != [] && Ascending(ms)
    ensures Ascending(ms[1..])
    ensures forall m :: m in ms[1..] ==> Rank(ms[0]) < Rank(m)
  {
    forall m | m in ms[1..] ensures Rank(ms[0]) < Rank(m) {
      var k :| 0 <= k < |ms[1..]| && ms[1..][k] == m;
      assert ms[k + 1] == m;
    }
  }

  /** `Keep` preserves order: it picks a subsequence, so ranks still rise. */
  lemma {:induction false} KeepOrdered(f: Flags, ms: seq<Metric>)
    requires Ascending(ms)
    ensures Ascending(Keep(f, ms))
  {
    if ms != [] {
      AscendingTail(ms);
      KeepOrdered(f, ms[1..]);
      var rest := Keep(f, ms[1..]);
      if Wanted(f, ms[0]) {
        AscendingCons(ms[0], rest);
      } else {
        assert Keep(f, ms) == [] + rest == rest;
      }
    }
  }

  lemma EveryMetricInOrder(m: Metric)
    ensures m in Order
  {
    match m
    case Lines => assert Order[0] == Lines;
    case Words => assert Order[1] == Words;
    case Bytes => assert Order[2] == Bytes;
  }

  /** A metric is reported exactly when it is wanted, the reported metrics
      come in the order lines, words, bytes, and none repeats. */
  lemma RequestedExactly(f: Flags)
    ensures forall m :: m in Requested(f) <==> Wanted(f, m)
    ensures forall i, j :: 0 <= i < j < |Requested(f)| ==>
              Rank(Requested(f)[i]) < Rank(Requested(f)[j])
  {
    forall m ensures m in Order {
      EveryMetricInOrder(m);
    }
    KeepOrdered(f, Order);
  }

  /** The reported metrics, spelled out: each of lines, words and bytes in
      turn, when wanted. */
  lemma RequestedInTurn(f: Flags)
    ensures Requested(f) == (if Wanted(f, Lines) then [Lines] else [])
                          + (if Wanted(f, Words) then [Words] else [])
                          + (if Wanted(f, Bytes) then [Bytes] else [])
  {
    var last := Keep(f, [Bytes]);
    assert [Bytes][1..] == [];
    assert last == (if Wanted(f, Bytes) then [Bytes] else []) + [];
    assert [Words, Bytes][1..] == [Bytes];
    assert Keep(f, [Words, Bytes]) == (if Wanted(f, Words) then [Words] else []) + last;
    assert Order[1..] == [Words, Bytes];
  }

  /** The reported values, spelled out: the line, word and byte counts in
      turn, each when wanted. */
  lemma SelectedInTurn(f: Flags, c: Counts)
    ensures Selected(f, c) == (if Wanted(f, Lines) then [c.lines] else [])
                            + (if Wanted(f, Words) then [c.words] else [])
                            + (if Wanted(f, Bytes) then [c.bytes] else [])
  {
    var l := if Wanted(f, Lines) then [Lines] else [];
    var w := if Wanted(f, Words) then [Words] else [];
    var b := if Wanted(f, Bytes) then [Bytes] else [];
    RequestedInTurn(f);
    ValuesAppend(c, l + w, b);
    ValuesAppend(c, l, w);
    ValuesOne(c, Lines);
    ValuesOne(c, Words);
    ValuesOne(c, Bytes);
  }

  /** With no option, the report is the three counts in the order lines,
      words, bytes, the same as with all three options. */
  lemma DefaultIsAll(c: Counts)
    ensures Selected(Flags(false, false, false), c) == [c.lines, c.words, c.bytes]
    ensures Selected(Flags(true, true, true), c) == [c.lines, c.words, c.bytes]
  {
    SelectedInTurn(Flags(false, false, false), c);
    SelectedInTurn(Flags(true, true, true), c);
  }

  /** Three values with no option; otherwise one per option set. */
  lemma SelectedLength(f: Flags, c: Counts)
    ensures |Selected(f, c)| == if NoFlags(f) then 3 else NumSet(f)
  {
    SelectedInTurn(f, c);
  }
}
