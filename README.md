# FASTA k-mer utilities, modelled in Dafny

The repository holds two small FASTA utilities. This project models their
sequential core and proves what it computes.

- `read_fasta` (count_kmer.py) reads a FASTA file line by line. It strips each
  line, drops it when the stripped text starts with the header marker `>`,
  and concatenates the rest in file order.
- `count_kmers` (count_kmer.py) slides a window of width `k` over the
  sequence. For every window it adds one to that k-mer's entry in a
  frequency table and one to a running total.
- `count_fasta_records` (dummy2.py) counts the lines whose raw text starts
  with `>`. Nothing is stripped before that test.

A file is modelled as the sequence of its lines (`seq<string>`), each line as
Python's line iteration yields it, terminator included. The Python dict is a
`map<string, nat>`. Python integers are unbounded, and so are Dafny's
`int`/`nat`, so no width is modelled.

Files:

- `text.dfy`, module `Text`: the Python string operations used,
  `str.isspace`, `str.strip()`, `str.startswith`. `IsSpace` holds for the
  code points that Python's `str.isspace` accepts: TAB..CR, 0x1C..0x1F,
  SPACE, NEL, NBSP, U+1680, U+2000..U+200A, U+2028, U+2029, U+202F, U+205F
  and U+3000.
- `count_kmer.dfy`, module `CountKmer`:
  - `ReadFasta` is the loop of `read_fasta`. It is proved equal to
    `Concat(SequenceLines(lines))`, a reference definition that strips every
    line, filters out headers and joins what remains.
  - `CountKmers` is the loop of `count_kmers`. It is proved to return the
    table `KmerCounts(s, k)` and the total `max(0, |s| - k + 1)`.
    `KmerCounts` is a closed-form reference: each distinct window maps to the
    size of the set of positions where it occurs.
- `fasta_records.dfy`, module `FastaRecords`: `CountFastaRecords` is the loop
  of `count_fasta_records`. It is proved equal to the recursive `HeaderCount`,
  which in turn equals the number of line positions that hold a header.

The two utilities decide differently what a header line is.

- `read_fasta` strips a line before it tests for `>` (count_kmer.py:11-12), so a
  `>` line indented by white space is still skipped as a header.
- `count_fasta_records` tests the raw line (dummy2.py:7), so the same line is
  not counted.

`CountKmer.IndentedHeaderSkipped` and `FastaRecords.IndentedHeaderNotCounted`
state the two behaviours side by side. `count_kmers` does not check `k`
(count_kmer.py:22); the model requires `k >= 1` (see Left out).

## Model

| member | source | states |
|---|---|---|
| `Text.StartsWith` | count_kmer.py:12 | `line.startswith('>')`, also used at dummy2.py:7: the line is at least as long as the prefix and agrees with it character by character |
| `Text.Strip` | count_kmer.py:11 | `line.strip()` never makes a line longer |
| `Text.StripIsTrimmedSlice` | count_kmer.py:11 | `strip()` returns the slice of the line between its leading and its trailing white space, and the result neither starts nor ends with white space |
| `Text.StripIgnoresPadding` | count_kmer.py:11 | white space before or after the text, such as indentation or the line terminator, does not change the stripped result |
| `Text.StripIsIdempotent` | count_kmer.py:11 | stripping an already stripped line changes nothing |
| `Text.IndentedHeaderStripsToHeader` | count_kmer.py:11-12 | a line made of white space, then `>`, then anything, strips to text that starts with `>` |
| `CountKmer.SequenceLines` | count_kmer.py:10-13 | the loader keeps at most one piece per input line |
| `CountKmer.ReadFasta` | count_kmer.py:6-14 | the loop returns the in-order concatenation of the stripped lines whose stripped text does not start with `>` |
| `CountKmer.SequenceLinesAreStrippedData` | count_kmer.py:11-13 | no piece the loader keeps starts with `>`, and every piece is already stripped |
| `CountKmer.SequenceLinesAppend` | count_kmer.py:10-13 | loading a concatenation of line lists keeps the pieces of the first list, then those of the second |
| `CountKmer.LoadAppend` | count_kmer.py:10-13 | the sequence loaded from a concatenation of two line lists is the concatenation of the two loaded sequences |
| `CountKmer.LoadAppendLine` | count_kmer.py:10-13 | one more line appends its stripped text, or nothing when that text starts with `>` |
| `CountKmer.HeadersOnlyLoadEmpty` | count_kmer.py:8-14 | a file with no lines, or only header lines, loads as "" |
| `CountKmer.IndentedHeaderSkipped` | count_kmer.py:11-12 | a header line indented by white space is still skipped, because the line is stripped before the test |
| `CountKmer.TwoRecordSequenceLines` | count_kmer.py:10-13 | for `>n1 / a / b / >n2 / c`, each line with its terminator, the kept pieces are exactly `a`, `b`, `c` |
| `CountKmer.LoadTwoRecords` | count_kmer.py:6-14 | such a two-record file loads as `a + b + c`, for any data lines `a`, `b`, `c` |
| `CountKmer.LoadExample` | count_kmer.py:6-14 | the file `>seq1 / AT / CG / >seq2 / GG`, each line with its terminator, loads as "ATCGGG" |
| `CountKmer.NumWindows` | count_kmer.py:22 | the length of `range(len(sequence) - k + 1)`: when there are windows, the last one, at position `NumWindows - 1`, ends exactly at the end of the sequence; when there are none, `k` exceeds the length |
| `CountKmer.Get` | count_kmer.py:24 | `kmers.get(kmer, 0)`: the stored count when the key is present, 0 when it is absent |
| `CountKmer.Window` | count_kmer.py:23 | every window `sequence[i:i+k]` has length exactly `k` |
| `CountKmer.CountKmers` | count_kmer.py:16-27 | the loop returns the total `|s| - k + 1` when `k <= |s|` and 0 otherwise, and the table `KmerCounts(s, k)` |
| `CountKmer.PartialCountsStep` | count_kmer.py:23-24 | one more window adds one to its own k-mer's entry, creating it at 1 through `get(kmer, 0)`, and changes no other entry |
| `CountKmer.KmerCountsKeys` | count_kmer.py:22-24 | `w` is a key of the table exactly when `len(w) == k` and `w` occurs in the sequence at some position |
| `CountKmer.KmerCountsValues` | count_kmer.py:22-24 | a key's count is the number of positions where it occurs, overlapping occurrences included, and is at least 1 |
| `CountKmer.AbsentKmerHasNoPositions` | count_kmer.py:22-24 | a string that is not a key occurs at no window position |
| `CountKmer.ShortSequenceNoKmers` | count_kmer.py:22 | when `k` exceeds the sequence length there are no windows and the table is empty |
| `CountKmer.KmerCountsSum` | count_kmer.py:24-25 | the counts in the table sum to the total number of windows |
| `CountKmer.DistinctKmersAtMostTotal` | count_kmer.py:22-25 | the number of distinct k-mers, `len(kmers)`, is at most the total |
| `CountKmer.OverlapExample` | count_kmer.py:22-24 | a run of four equal characters, such as `AAAA`, holds its 2-mer three times |
| `CountKmer.AtcgExample` | count_kmer.py:22-24 | "ATCGATCG" with `k = 3` has six windows, and the table is exactly `{ATC: 2, TCG: 2, CGA: 1, GAT: 1}` |
| `CountKmer.EmptySequenceExample` | count_kmer.py:22 | the empty sequence with `k = 3` gives an empty table and no windows |
| `FastaRecords.HeaderCount` | dummy2.py:4-9 | the count is at most the number of lines, and 0 for a file with no lines |
| `FastaRecords.CountFastaRecords` | dummy2.py:2-9 | the loop returns `HeaderCount(lines)` |
| `FastaRecords.HeaderCountIsPositions` | dummy2.py:6-8 | the count equals the number of line positions whose raw text starts with `>` |
| `FastaRecords.HeaderCountAppend` | dummy2.py:6-8 | the count over a concatenation of line lists is the sum of the two counts |
| `FastaRecords.HeaderCountAppendLine` | dummy2.py:7-8 | one more line adds exactly 1 when it starts with `>` and nothing otherwise |
| `FastaRecords.IndentedHeaderNotCounted` | dummy2.py:7 | a line with white space before `>` is not counted, because nothing is stripped |
| `FastaRecords.RecordCountExample` | dummy2.py:2-9 | the file `>seq1 / AT / CG / >seq2 / GG` holds two records |

## Left out

- `main()` (count_kmer.py:29-67) is not modelled: argument parsing, `int()` conversion, the default `k = 3`, `sys.exit`, printing, the interactive prompt and writing `kmers_k<k>.txt` are command-line and I/O glue.
- The top-10 report (count_kmer.py:53-57) and the sorted output file are not modelled. They only format output, and their tie order depends on dict insertion order and a stable sort. The model's table is an unordered `map`.
- Opening and reading files (count_kmer.py:9, dummy2.py:5) is replaced by the sequence of lines. I/O errors are therefore not modelled.
- The module-level script in dummy2.py (lines 12-13), with its fixed file name `seq.mfa`, is not modelled.
- CountKmer.CountKmers: requires `k >= 1`. The code does not validate `k`. With `k = 0` it would count the empty string `len(sequence) + 1` times, and a negative `k` falls into Python's negative-slice semantics. Neither is modelled.
- Text.IsSpace: follows the white-space code points of Python's `str.isspace` as listed above. It does not track changes to that set across Unicode versions.

