/** count_kmer.py: the sequence loader `read_fasta` and the k-mer counter
    `count_kmers`. The file read by `read_fasta` is the sequence of its lines,
    each as Python's line iteration yields it (with its line terminator). */
module CountKmer {
  import opened Text

  // ---------------------------------------------------------------------------
  // read_fasta
  // ---------------------------------------------------------------------------

  /** A stripped line is a header when it starts with `>`; the test comes after
      stripping, so an indented header is a header too. */
  predicate IsHeaderText(stripped: string) {
    StartsWith(stripped, HeaderMarker)
  }

  /** The sequence lines of a file, in file order: every line stripped, and the
      stripped lines that are headers dropped. */
  function SequenceLines(lines: seq<string>): (parts: seq<string>)
    ensures |parts| <= |lines|
  {
    if lines == [] then []
    else
      var t := Strip(lines[0]);
      (if IsHeaderText(t) then [] else [t]) + SequenceLines(lines[1..])
  }

  /** The strings of `parts` joined end to end. */
  function Concat(parts: seq<string>): string {
    if parts == [] then "" else parts[0] + Concat(parts[1..])
  }

  /** `read_fasta` over the lines of the file: the running sequence starts
      empty and each line's stripped text is appended unless it is a header. */
  method ReadFasta(lines: seq<string>) returns (sequence: string)
    ensures sequence == Concat(SequenceLines(lines))
  {
    sequence := "";
    for i := 0 to |lines|
      invariant sequence == Concat(SequenceLines(lines[..i]))
    {
      assert lines[..i + 1] == lines[..i] + [lines[i]];
      LoadAppendLine(lines[..i], lines[i]);
      var line := Strip(lines[i]);
      if !StartsWith(line, HeaderMarker) {
        sequence := sequence + line;
      }
    }
    assert lines[..|lines|] == lines;
  }

  /** No sequence line is a header, and each one is stripped text. */
  lemma {:induction false} SequenceLinesAreStrippedData(lines: seq<string>)
    ensures forall p :: p in SequenceLines(lines) ==> !IsHeaderText(p) && Strip(p) == p
  {
    if lines != [] {
      SequenceLinesAreStrippedData(lines[1..]);
      StripIsIdempotent(lines[0]);
    }
  }

  /** Selecting sequence lines, one line at the front. */
  lemma SequenceLinesCons(line: string, rest: seq<string>)
    ensures SequenceLines([line] + rest) ==
            (if IsHeaderText(Strip(line)) then [] else [Strip(line)]) + SequenceLines(rest)
  {
    assert ([line] + rest)[1..] == rest;
  }

  /** Selecting sequence lines distributes over a concatenation of line lists. */
  lemma {:induction false} SequenceLinesAppend(a: seq<string>, b: seq<string>)
    ensures SequenceLines(a + b) == SequenceLines(a) + SequenceLines(b)
  {
    if a == [] {
      assert a + b == b;
    } else {
      assert (a + b)[0] == a[0];
      assert (a + b)[1..] == a[1..] + b;
      SequenceLinesAppend(a[1..], b);
    }
  }

  /** Joining distributes over a concatenation of part lists. */
  lemma {:induction false} ConcatAppend(xs: seq<string>, ys: seq<string>)
    ensures Concat(xs + ys) == Concat(xs) + Concat(ys)
  {
    if xs == [] {
      assert xs + ys == ys;
    } else {
      assert (xs + ys)[0] == xs[0];
      assert (xs + ys)[1..] == xs[1..] + ys;
      ConcatAppend(xs[1..], ys);
    }
  }

  /** The loaded sequence of a concatenation of files is the concatenation of
      their loaded sequences. */
  lemma LoadAppend(a: seq<string>, b: seq<string>)
    ensures Concat(SequenceLines(a + b)) == Concat(SequenceLines(a)) + Concat(SequenceLines(b))
  {
    SequenceLinesAppend(a, b);
    ConcatAppend(SequenceLines(a), SequenceLines(b));
  }

  /** Reading one more line appends its stripped text, or nothing when the
      stripped text is a header. */
  lemma LoadAppendLine(lines: seq<string>, line: string)
    ensures Concat(SequenceLines(lines + [line])) ==
            Concat(SequenceLines(lines)) + (if IsHeaderText(Strip(line)) then "" else Strip(line))
  {
    var one: seq<string> := [line];
    LoadAppend(lines, one);
    assert one[1..] == [];
    var t := Strip(line);
    if !IsHeaderText(t) {
      assert SequenceLines(one) == [t];
      assert [t][1..] == [];
      assert Concat([t]) == t + "";
    }
  }

  /** A file with no lines, or with only header lines, loads as "". */
  lemma {:induction false} HeadersOnlyLoadEmpty(lines: seq<string>)
    requires forall i :: 0 <= i < |lines| ==> IsHeaderText(Strip(lines[i]))
    ensures SequenceLines(lines) == [] && Concat(SequenceLines(lines)) == ""
  {
    if lines != [] {
      var rest := lines[1..];
      assert IsHeaderText(Strip(lines[0]));
      assert SequenceLines(lines) == SequenceLines(rest);
      forall i | 0 <= i < |rest| ensures IsHeaderText(Strip(rest[i])) {
        assert rest[i] == lines[i + 1];
      }
      HeadersOnlyLoadEmpty(rest);
    }
  }

  /** A header line indented by white space is still skipped, because the line
      is stripped before the test. */
  lemma IndentedHeaderSkipped(ws: string, rest: string)
    requires AllSpace(ws)
    ensures SequenceLines([ws + HeaderMarker + rest]) == []
  {
    var lines: seq<string> := [ws + HeaderMarker + rest];
    IndentedHeaderStripsToHeader(ws, rest);
    assert lines[1..] == [];
  }

  /** Text that a data line carries: non-empty, not starting with the header
      marker, and neither starting nor ending with white space. */
  predicate IsDataText(t: string) {
    t != [] && t[0] != '>' && !IsSpace(t[0]) && !IsSpace(t[|t| - 1])
  }

  /** Data text read with a line terminator strips back to itself. */
  lemma StripDataLine(t: string)
    requires IsDataText(t)
    ensures Strip(t + "\n") == t && !IsHeaderText(t)
  {
    StripIgnoresPadding("", t, "\n");
    assert "" + t + "\n" == t + "\n";
    assert StripLeft(t) == t;
  }

  /** A data line read with its line terminator contributes its bare text. */
  lemma DataLineCons(t: string, rest: seq<string>)
    requires IsDataText(t)
    ensures SequenceLines([t + "\n"] + rest) == [t] + SequenceLines(rest)
  {
    StripDataLine(t);
    SequenceLinesCons(t + "\n", rest);
  }

  /** A header line contributes nothing. */
  lemma HeaderLineCons(name: string, rest: seq<string>)
    ensures SequenceLines([HeaderMarker + name] + rest) == SequenceLines(rest)
  {
    assert IsHeaderText(Strip(HeaderMarker + name)) by {
      IndentedHeaderStripsToHeader("", name);
      assert "" + HeaderMarker + name == HeaderMarker + name;
    }
    SequenceLinesCons(HeaderMarker + name, rest);
  }

  /** The sequence lines of the second record and the line before it. */
  lemma TwoRecordTail(name2: string, b: string, c: string)
    requires IsDataText(b) && IsDataText(c)
    ensures SequenceLines([b + "\n", HeaderMarker + name2, c + "\n"]) == [b, c]
  {
    var l5: seq<string> := [];
    var l4 := [c + "\n"] + l5;
    var l3 := [HeaderMarker + name2] + l4;
    DataLineCons(c, l5);
    HeaderLineCons(name2, l4);
    DataLineCons(b, l3);
    assert [b + "\n"] + l3 == [b + "\n", HeaderMarker + name2, c + "\n"];
  }

  /** The sequence lines of a file of two records, `>name1 / a / b / >name2 / c`. */
  lemma TwoRecordSequenceLines(name1: string, name2: string, a: string, b: string, c: string)
    requires IsDataText(a) && IsDataText(b) && IsDataText(c)
    ensures SequenceLines([HeaderMarker + name1, a + "\n", b + "\n", HeaderMarker + name2, c + "\n"])
            == [a, b, c]
  {
    var l2 := [b + "\n", HeaderMarker + name2, c + "\n"];
    TwoRecordTail(name2, b, c);
    var l1 := [a + "\n"] + l2;
    DataLineCons(a, l2);
    HeaderLineCons(name1, l1);
    assert [HeaderMarker + name1] + l1 ==
           [HeaderMarker + name1, a + "\n", b + "\n", HeaderMarker + name2, c + "\n"];
  }

  /** A file of two records, `>name1 / a / b / >name2 / c` with each line ending
      in a line terminator, loads as `a + b + c`. LoadExample instantiates it. */
  lemma LoadTwoRecords(name1: string, name2: string, a: string, b: string, c: string)
    requires IsDataText(a) && IsDataText(b) && IsDataText(c)
    ensures Concat(SequenceLines([HeaderMarker + name1, a + "\n", b + "\n", HeaderMarker + name2, c + "\n"]))
            == a + b + c
  {
    TwoRecordSequenceLines(name1, name2, a, b, c);
    ConcatAppend([a], [b, c]);
    ConcatAppend([b], [c]);
    assert [a] + [b, c] == [a, b, c];
    assert [b] + [c] == [b, c];
    assert Concat([c]) == c by { assert [c][1..] == []; }
    assert Concat([b]) == b by { assert [b][1..] == []; }
    assert Concat([a]) == a by { assert [a][1..] == []; }
  }

  /** The two-record file `>seq1 / AT / CG / >seq2 / GG` loads as "ATCGGG". */
  lemma LoadExample()
    ensures Concat(SequenceLines([">seq1\n", "AT\n", "CG\n", ">seq2\n", "GG\n"])) == "ATCGGG"
  {
    LoadTwoRecords("seq1\n", "seq2\n", "AT", "CG", "GG");
    assert HeaderMarker + "seq1\n" == ">seq1\n";
    assert HeaderMarker + "seq2\n" == ">seq2\n";
    assert "AT" + "\n" == "AT\n";
    assert "CG" + "\n" == "CG\n";
    assert "GG" + "\n" == "GG\n";
    assert "AT" + "CG" + "GG" == "ATCGGG";
  }

  // ---------------------------------------------------------------------------
  // count_kmers
  // ---------------------------------------------------------------------------

  /** How many windows of width `k` fit in a sequence of length `n`: the length
      of Python's `range(n - k + 1)`, which is empty when `n - k + 1` is not
      positive. */
  function NumWindows(n: nat, k: int): (r: nat)
    ensures r > 0 ==> r - 1 + k == n
    ensures r == 0 ==> k > n
  {
    if n - k + 1 > 0 then n - k + 1 else 0
  }

  /** The window of width `k` at position `i`, `sequence[i:i+k]`. */
  function Window(s: string, k: int, i: int): (w: string)
    requires k >= 1 && 0 <= i < NumWindows(|s|, k)
    ensures |w| == k
  {
    s[i..i + k]
  }

  /** The distinct k-mers among the first `n` windows. */
  function WindowsSeen(s: string, k: int, n: nat): set<string>
    requires k >= 1 && n <= NumWindows(|s|, k)
  {
    set i | 0 <= i < n :: Window(s, k, i)
  }

  /** The positions among the first `n` windows where `w` occurs. */
  function PositionsBelow(s: string, k: int, w: string, n: nat): set<int>
    requires k >= 1 && n <= NumWindows(|s|, k)
  {
    set i | 0 <= i < n && Window(s, k, i) == w
  }

  /** Every position `i` with `0 <= i <= |s| - k` at which `w` occurs in `s`,
      overlapping occurrences included. */
  function Positions(s: string, k: int, w: string): set<int>
    requires k >= 1
  {
    PositionsBelow(s, k, w, NumWindows(|s|, k))
  }

  /** The frequency table after the first `n` windows: each k-mer seen so far
      mapped to the number of its occurrences among them. */
  function PartialCounts(s: string, k: int, n: nat): map<string, nat>
    requires k >= 1 && n <= NumWindows(|s|, k)
  {
    map w | w in WindowsSeen(s, k, n) :: |PositionsBelow(s, k, w, n)|
  }

  /** The frequency table of `s` for width `k`: every k-mer occurring in `s`
      mapped to its number of occurrences. */
  function KmerCounts(s: string, k: int): map<string, nat>
    requires k >= 1
  {
    PartialCounts(s, k, NumWindows(|s|, k))
  }

  /** `kmers.get(kmer, 0)`. */
  function Get(m: map<string, nat>, key: string): (r: nat)
    ensures key in m ==> r == m[key]
    ensures key !in m ==> r == 0
  {
    if key in m then m[key] else 0
  }

  /** `count_kmers`: slide a window of width `k` over the sequence, adding one
      to the table entry of every window and one to the running total. */
  method CountKmers(sequence: string, k: int) returns (kmers: map<string, nat>, total: nat)
    requires k >= 1
    ensures total == if k <= |sequence| then |sequence| - k + 1 else 0
    ensures kmers == KmerCounts(sequence, k)
  {
    kmers := map[];
    total := 0;
    for i := 0 to NumWindows(|sequence|, k)
      invariant kmers == PartialCounts(sequence, k, i)
      invariant total == i
    {
      var kmer := sequence[i..i + k];
      PartialCountsStep(sequence, k, i);
      kmers := kmers[kmer := Get(kmers, kmer) + 1];
      total := total + 1;
    }
  }

  /** One more window adds its k-mer to the k-mers seen. */
  lemma WindowsSeenStep(s: string, k: int, n: nat)
    requires k >= 1 && n < NumWindows(|s|, k)
    ensures WindowsSeen(s, k, n + 1) == WindowsSeen(s, k, n) + {Window(s, k, n)}
  {
  }

  /** One more window adds its position to the positions of its own k-mer only. */
  lemma PositionsBelowStep(s: string, k: int, w: string, n: nat)
    requires k >= 1 && n < NumWindows(|s|, k)
    ensures PositionsBelow(s, k, w, n + 1) ==
            PositionsBelow(s, k, w, n) + (if Window(s, k, n) == w then {n} else {})
    ensures n !in PositionsBelow(s, k, w, n)
  {
  }

  /** A k-mer not seen among the first `n` windows has no position among them. */
  lemma UnseenHasNoPositions(s: string, k: int, w: string, n: nat)
    requires k >= 1 && n <= NumWindows(|s|, k) && w !in WindowsSeen(s, k, n)
    ensures PositionsBelow(s, k, w, n) == {}
  {
    forall j | 0 <= j < n ensures Window(s, k, j) != w {
      assert Window(s, k, j) in WindowsSeen(s, k, n);
    }
  }

  /** One more window adds one to its own entry (creating it at 1) and changes
      no other entry. */
  lemma PartialCountsStep(s: string, k: int, n: nat)
    requires k >= 1 && n < NumWindows(|s|, k)
    ensures PartialCounts(s, k, n + 1) ==
            PartialCounts(s, k, n)[Window(s, k, n) := Get(PartialCounts(s, k, n), Window(s, k, n)) + 1]
  {
    var w := Window(s, k, n);
    var before, after := PartialCounts(s, k, n), PartialCounts(s, k, n + 1);
    var updated := before[w := Get(before, w) + 1];
    WindowsSeenStep(s, k, n);
    assert after.Keys == updated.Keys;
    forall v | v in after ensures after[v] == updated[v] {
      PositionsBelowStep(s, k, v, n);
      if v == w && w !in before {
        UnseenHasNoPositions(s, k, w, n);
      }
    }
  }

  /** `PartialCountsStep` for a table and a window already in hand. */
  lemma StepFrom(s: string, k: int, n: nat, m: map<string, nat>, w: string)
    requires k >= 1 && n < NumWindows(|s|, k)
    requires PartialCounts(s, k, n) == m && Window(s, k, n) == w
    ensures PartialCounts(s, k, n + 1) == m[w := Get(m, w) + 1]
  {
    PartialCountsStep(s, k, n);
  }

  /** `w` occurs in `s` at position `i`: `s[i:i+len(w)] == w`. */
  predicate OccursAt(s: string, w: string, i: int) {
    0 <= i <= |s| - |w| && s[i..i + |w|] == w
  }

  /** The table holds exactly the substrings of `s` of length `k`. */
  lemma KmerCountsKeys(s: string, k: int, w: string)
    requires k >= 1
    ensures w in KmerCounts(s, k) <==> |w| == k && exists i :: OccursAt(s, w, i)
  {
    var n := NumWindows(|s|, k);
    if |w| == k && exists i :: OccursAt(s, w, i) {
      var i :| OccursAt(s, w, i);
      assert Window(s, k, i) == w;
      assert w in WindowsSeen(s, k, n);
    }
    if w in KmerCounts(s, k) {
      var i :| 0 <= i < n && Window(s, k, i) == w;
      assert OccursAt(s, w, i);
    }
  }

  /** Each entry counts the positions where its k-mer occurs, overlapping
      occurrences included, and is therefore at least one. */
  lemma KmerCountsValues(s: string, k: int, w: string)
    requires k >= 1 && w in KmerCounts(s, k)
    ensures KmerCounts(s, k)[w] == |Positions(s, k, w)| >= 1
    ensures forall i :: i in Positions(s, k, w) <==> OccursAt(s, w, i)
  {
    var i :| 0 <= i < NumWindows(|s|, k) && Window(s, k, i) == w;
    assert i in Positions(s, k, w);
  }

  /** A k-mer that does not occur in `s` has no positions and no entry. */
  lemma AbsentKmerHasNoPositions(s: string, k: int, w: string)
    requires k >= 1 && w !in KmerCounts(s, k)
    ensures Positions(s, k, w) == {}
  {
    forall i | 0 <= i < NumWindows(|s|, k) ensures Window(s, k, i) != w {
      assert Window(s, k, i) in WindowsSeen(s, k, NumWindows(|s|, k));
    }
  }

  /** A sequence shorter than `k` has no windows: the table is empty. */
  lemma ShortSequenceNoKmers(s: string, k: int)
    requires k > |s|
    ensures KmerCounts(s, k) == map[]
  {
    assert WindowsSeen(s, k, 0) == {};
  }

  /** The sum of the values of a table. */
  ghost function SumValues(m: map<string, nat>): nat
    decreases |m|
  {
    if m == map[] then 0
    else
      var key :| key in m;
      m[key] + SumValues(m - {key})
  }

  /** The sum can be split at any key, not only at the one `SumValues` picks. */
  lemma {:induction false} SumRemove(m: map<string, nat>, key: string)
    requires key in m
    ensures SumValues(m) == m[key] + SumValues(m - {key})
    decreases |m|
  {
    var y :| y in m && SumValues(m) == m[y] + SumValues(m - {y});
    if y != key {
      SumRemove(m - {y}, key);
      SumRemove(m - {key}, y);
      assert m - {y} - {key} == m - {key} - {y};
    }
  }

  /** Setting one entry changes the sum by the difference of its values. */
  lemma SumUpdate(m: map<string, nat>, key: string, v: nat)
    ensures SumValues(m[key := v]) + Get(m, key) == SumValues(m) + v
  {
    SumRemove(m[key := v], key);
    assert m[key := v] - {key} == m - {key};
    if key in m {
      SumRemove(m, key);
    } else {
      assert m - {key} == m;
    }
  }

  /** A table whose entries are all positive has at most as many keys as its sum. */
  lemma {:induction false} SizeAtMostSum(m: map<string, nat>)
    requires forall w :: w in m ==> m[w] >= 1
    ensures |m| <= SumValues(m)
    decreases |m|
  {
    if m != map[] {
      var key :| key in m;
      SumRemove(m, key);
      SizeAtMostSum(m - {key});
    }
  }

  /** The counts after `n` windows sum to `n`. */
  lemma {:induction false} PartialCountsSum(s: string, k: int, n: nat)
    requires k >= 1 && n <= NumWindows(|s|, k)
    ensures SumValues(PartialCounts(s, k, n)) == n
  {
    if n == 0 {
      assert PartialCounts(s, k, 0) == map[];
    } else {
      var before := PartialCounts(s, k, n - 1);
      var w := Window(s, k, n - 1);
      PartialCountsSum(s, k, n - 1);
      StepFrom(s, k, n - 1, before, w);
      SumUpdate(before, w, Get(before, w) + 1);
    }
  }

  /** The sum of all counts in the table is the number of windows. */
  lemma KmerCountsSum(s: string, k: int)
    requires k >= 1
    ensures SumValues(KmerCounts(s, k)) == NumWindows(|s|, k)
  {
    PartialCountsSum(s, k, NumWindows(|s|, k));
  }

  /** The number of distinct k-mers (`len(kmers)`) is at most the total. */
  lemma DistinctKmersAtMostTotal(s: string, k: int)
    requires k >= 1
    ensures |KmerCounts(s, k)| <= NumWindows(|s|, k)
  {
    forall w | w in KmerCounts(s, k) ensures KmerCounts(s, k)[w] >= 1 {
      KmerCountsValues(s, k, w);
    }
    SizeAtMostSum(KmerCounts(s, k));
    KmerCountsSum(s, k);
  }

  /** Overlapping occurrences all count: a run of four equal characters, such
      as `AAAA`, holds the 2-mer of two of them three times. */
  lemma OverlapExample(c: char)
    ensures KmerCounts([c, c, c, c], 2) == map[[c, c] := 3]
  {
    var s, cc := [c, c, c, c], [c, c];
    var m0: map<string, nat> := map[];
    assert PartialCounts(s, 2, 0) == m0;
    assert Window(s, 2, 0) == cc && Window(s, 2, 1) == cc && Window(s, 2, 2) == cc;
    StepFrom(s, 2, 0, m0, cc);
    StepFrom(s, 2, 1, map[cc := 1], cc);
    StepFrom(s, 2, 2, map[cc := 2], cc);
  }

  /** The eight-character sequence of the worked 3-mer example. */
  const Atcg: string := "ATCGATCG"

  /** The table after the first window of "ATCGATCG". */
  lemma AtcgAfter1()
    ensures PartialCounts(Atcg, 3, 1) == map["ATC" := 1]
  {
    var m0: map<string, nat> := map[];
    assert PartialCounts(Atcg, 3, 0) == m0;
    assert Window(Atcg, 3, 0) == "ATC";
    StepFrom(Atcg, 3, 0, m0, "ATC");
  }

  /** The table after the first two windows of "ATCGATCG". */
  lemma AtcgAfter2()
    ensures PartialCounts(Atcg, 3, 2) == map["ATC" := 1, "TCG" := 1]
  {
    AtcgAfter1();
    assert Window(Atcg, 3, 1) == "TCG";
    StepFrom(Atcg, 3, 1, map["ATC" := 1], "TCG");
  }

  /** The table after the first three windows of "ATCGATCG". */
  lemma AtcgAfter3()
    ensures PartialCounts(Atcg, 3, 3) == map["ATC" := 1, "TCG" := 1, "CGA" := 1]
  {
    AtcgAfter2();
    assert Window(Atcg, 3, 2) == "CGA";
    StepFrom(Atcg, 3, 2, map["ATC" := 1, "TCG" := 1], "CGA");
  }

  /** The table after the first four windows of "ATCGATCG": four distinct 3-mers. */
  lemma AtcgAfter4()
    ensures PartialCounts(Atcg, 3, 4) == map["ATC" := 1, "TCG" := 1, "CGA" := 1, "GAT" := 1]
  {
    AtcgAfter3();
    assert Window(Atcg, 3, 3) == "GAT";
    StepFrom(Atcg, 3, 3, map["ATC" := 1, "TCG" := 1, "CGA" := 1], "GAT");
  }

  /** The fifth window repeats "ATC". */
  lemma AtcgAfter5()
    ensures PartialCounts(Atcg, 3, 5) == map["ATC" := 2, "TCG" := 1, "CGA" := 1, "GAT" := 1]
  {
    AtcgAfter4();
    var m4: map<string, nat> := map["ATC" := 1, "TCG" := 1, "CGA" := 1, "GAT" := 1];
    assert Window(Atcg, 3, 4) == "ATC";
    StepFrom(Atcg, 3, 4, m4, "ATC");
    assert m4["ATC" := Get(m4, "ATC") + 1] == map["ATC" := 2, "TCG" := 1, "CGA" := 1, "GAT" := 1];
  }

  /** "ATCGATCG" with `k = 3` has six windows holding four distinct 3-mers:
      "ATC" and "TCG" twice each, "CGA" and "GAT" once each. */
  lemma AtcgExample()
    ensures KmerCounts(Atcg, 3) == map["ATC" := 2, "TCG" := 2, "CGA" := 1, "GAT" := 1]
    ensures NumWindows(|Atcg|, 3) == 6
  {
    AtcgAfter5();
    var m5: map<string, nat> := map["ATC" := 2, "TCG" := 1, "CGA" := 1, "GAT" := 1];
    assert Window(Atcg, 3, 5) == "TCG";
    StepFrom(Atcg, 3, 5, m5, "TCG");
    assert m5["TCG" := Get(m5, "TCG") + 1] == map["ATC" := 2, "TCG" := 2, "CGA" := 1, "GAT" := 1];
  }

  /** The empty sequence has no 3-mers. */
  lemma EmptySequenceExample()
    ensures KmerCounts("", 3) == map[] && NumWindows(0, 3) == 0
  {
    ShortSequenceNoKmers("", 3);
  }
}
