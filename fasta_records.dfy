/** `count_fasta_records` of dummy2.py: the number of FASTA records in a file,
    taken as the number of lines that begin with the header marker. The file is
    the sequence of its lines, each as Python's line iteration yields it (with
    its line terminator). The line is tested as read, without stripping. */
module FastaRecords {
  import opened Text

  /** The line opens a record: its raw text starts with `>`. */
  predicate IsRecordHeader(line: string) {
    StartsWith(line, HeaderMarker)
  }

  /** The number of record headers among `lines`, counted from the front. */
  function HeaderCount(lines: seq<string>): (n: nat)
    ensures n <= |lines|
    ensures lines == [] ==> n == 0
  {
    if lines == [] then 0
    else (if IsRecordHeader(lines[0]) then 1 else 0) + HeaderCount(lines[1..])
  }

  /** The positions of the record headers in `lines`. */
  function HeaderPositions(lines: seq<string>): set<int> {
    set i | 0 <= i < |lines| && IsRecordHeader(lines[i])
  }

  /** The loop of `count_fasta_records`: one pass over the lines, adding one for
      every header line. */
  method CountFastaRecords(lines: seq<string>) returns (count: nat)
    ensures count == HeaderCount(lines)
  {
    count := 0;
    for i := 0 to |lines|
      invariant count == HeaderCount(lines[..i])
    {
      HeaderCountAppend(lines[..i], [lines[i]]);
      assert lines[..i + 1] == lines[..i] + [lines[i]];
      if StartsWith(lines[i], HeaderMarker) {
        count := count + 1;
      }
    }
    assert lines[..|lines|] == lines;
  }

  /** Counting is additive over a concatenation of line lists. */
  lemma {:induction false} HeaderCountAppend(a: seq<string>, b: seq<string>)
    ensures HeaderCount(a + b) == HeaderCount(a) + HeaderCount(b)
  {
    if a == [] {
      assert a + b == b;
    } else {
      assert (a + b)[0] == a[0];
      assert (a + b)[1..] == a[1..] + b;
      HeaderCountAppend(a[1..], b);
    }
  }

  /** Reading one more line adds exactly one when it is a header and nothing otherwise. */
  lemma HeaderCountAppendLine(lines: seq<string>, line: string)
    ensures IsRecordHeader(line) ==> HeaderCount(lines + [line]) == HeaderCount(lines) + 1
    ensures !IsRecordHeader(line) ==> HeaderCount(lines + [line]) == HeaderCount(lines)
  {
    var one: seq<string> := [line];
    HeaderCountAppend(lines, one);
    assert one[1..] == [];
  }

  /** The count is exactly the number of positions holding a header line. */
  lemma {:induction false} HeaderCountIsPositions(lines: seq<string>)
    ensures HeaderCount(lines) == |HeaderPositions(lines)|
  {
    if lines == [] {
      assert HeaderPositions(lines) == {};
    } else {
      var init, last := lines[..|lines| - 1], lines[|lines| - 1];
      assert lines == init + [last];
      HeaderCountIsPositions(init);
      HeaderCountAppendLine(init, last);
      var before := HeaderPositions(init);
      forall i ensures i in HeaderPositions(lines) <==>
                       i in before + (if IsRecordHeader(last) then {|init|} else {})
      {
        if 0 <= i < |init| { assert lines[i] == init[i]; }
      }
      assert HeaderPositions(lines) == before + (if IsRecordHeader(last) then {|init|} else {});
      assert |init| !in before;
    }
  }

  /** No stripping happens before the test: an indented header is not counted,
      although the sequence loader, which strips first, treats it as a header. */
  lemma IndentedHeaderNotCounted(ws: string, rest: string)
    requires ws != [] && AllSpace(ws)
    ensures HeaderCount([ws + HeaderMarker + rest]) == 0
  {
    var line: string := ws + HeaderMarker + rest;
    var lines: seq<string> := [line];
    assert line[0] == ws[0];
    assert IsSpace(ws[0]);
    assert !IsRecordHeader(line);
    assert lines[1..] == [];
  }

  /** The two-record file `>seq1 / AT / CG / >seq2 / GG` holds two records. */
  lemma RecordCountExample()
    ensures HeaderCount([">seq1\n", "AT\n", "CG\n", ">seq2\n", "GG\n"]) == 2
  {
    var lines := [">seq1\n", "AT\n", "CG\n", ">seq2\n", "GG\n"];
    assert IsRecordHeader(lines[0]) && IsRecordHeader(lines[3]);
    assert lines[1][0] == 'A' && lines[2][0] == 'C' && lines[4][0] == 'G';
    assert !IsRecordHeader(lines[1]) && !IsRecordHeader(lines[2]) && !IsRecordHeader(lines[4]);
    assert lines[1..][1..][1..][1..][1..] == [];
  }
}
