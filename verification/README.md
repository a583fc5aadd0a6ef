# rstools line tools in Dafny

This project models the two line algorithms of `rstools`, a small command-line utility.

- **compare** (module `LineComparer`, `compare.dfy`) walks two files' lines in lockstep and stops at the end of the shorter one. It keeps a 1-based line counter and a bounded FIFO of the most recent matched pairs, each joined as `first + " " + second`. At the first unequal pair it prints a header carrying the line number, then the buffered context (oldest first), then the mismatched pair, and stops.
- **uniques** (module `UniqueFilter`, `uniques.dfy`) streams lines and prints each one the first time it is seen. A set records what has been seen.

The model takes both inputs as already-split `seq<string>`. Standard output is the returned sequence. For `compare`, each output line is an `OutLine`: `Header(n)` stands for "difference found on line n", and `Text(s)` is a plain line.

Each operation is modelled twice:
- as a recursive function that follows the source's loop step by step (`Scan`/`Compare`, `Uniques`);
- as an imperative method with the source's local state: a counter and a buffer for compare, a seen-set for uniques. Each method is proved equal to its function.

Separate lemmas connect these functions to independent descriptions:
- for compare: the closed-form report at the first mismatch, and the empty output when the inputs agree;
- for uniques: first-occurrence order, idempotence, and a characterisation of the output by its properties alone.

The buffer keeps the order of src/main.rs:94-97: push the matched pair, then pop the front if the buffer now holds more than `context_len` entries.

## Model

| member | source | states |
|---|---|---|
| LineComparer.Push | src/main.rs:94-97 | one matched step (push, then pop when over capacity) keeps a buffer within capacity: from at most context_len entries it goes to min(context_len, old length + 1) |
| LineComparer.Window | src/main.rs:94-97 | the window after i matched pairs never exceeds the capacity: it holds min(context_len, i) <= context_len entries |
| LineComparer.PushWindow | src/main.rs:94-97 | pushing the next matched pair onto the window for i pairs and popping when over capacity gives exactly the window for i + 1 pairs |
| LineComparer.Scan | src/main.rs:78-98 | from a buffer within capacity the rest of the loop prints at most context_len + 2 lines: one header, the buffer, one mismatched pair |
| LineComparer.ScanOutcome | src/main.rs:78-92 | from position i the loop prints nothing iff the remaining common pairs agree; otherwise it prints a header naming the first unequal line after i (every pair before it equal) and ends with the unequal pair at that line |
| LineComparer.Compare | src/main.rs:69-99 | output is at most context_len + 2 lines; it is empty iff the inputs agree on every index both have; otherwise it starts with the header for the first unequal line |
| LineComparer.ScanToMismatch | src/main.rs:77-92 | starting from the window for i matched pairs, the loop prints exactly the report for the first mismatch k: header k, the window for k - 1 pairs, the pair at k |
| LineComparer.CompareAgreeing | src/main.rs:78-84 | identical inputs, or one a prefix of the other, give no output |
| LineComparer.CompareFirstMismatch | src/main.rs:77-91 | for first mismatch at 1-based line k the output is Header(k), the min(context_len, k - 1) joined pairs just before line k oldest first, then the joined pair at k, and nothing else |
| LineComparer.CompareNoContext | src/main.rs:84-97 | with context_len = 0 a mismatch prints only the header and the mismatched pair |
| LineComparer.CompareExample | src/main.rs:83-91 | lines a,b,c against a,x,c with context 5 print the header for line 2, "a a", "b x" |
| LineComparer.EmitReport | src/main.rs:85-90 | printing a report yields the header, each buffered entry front to back, then the mismatched pair |
| LineComparer.CompareLines | src/main.rs:69-99 | the loop with counter, FIFO buffer and early break prints exactly what Compare describes |
| UniqueFilter.Uniques | src/main.rs:60-65 | the printed lines have no duplicates, are exactly the lines occurring in the input, and are no more than the input |
| UniqueFilter.UniqueLines | src/main.rs:54-67 | the loop with a seen-set prints exactly Uniques of the input |
| UniqueFilter.UniquesFirstOccurrenceOrder | src/main.rs:60-65 | printed lines appear in strictly increasing order of first occurrence, and those positions select them from the input (the output is a subsequence of it) |
| UniqueFilter.UniquesOfDistinct | src/main.rs:62-64 | an input with no repeated line is printed unchanged |
| UniqueFilter.UniquesIdempotent | src/main.rs:62-64 | running uniques on its own output reproduces that output |
| UniqueFilter.UniquesCharacterised | src/main.rs:60-65 | any duplicate-free sequence holding exactly the input's lines in first-occurrence order is the output |
| UniqueFilter.UniquesExample | src/main.rs:60-65 | x,y,x,z,y prints x,y,z |

## Left out

- `cli()` and `main()` (src/main.rs:21-52, 101-118): argument parsing, help and version text, and subcommand dispatch through the clap library.
- Parsing `--context` with Rust's `str::parse::<usize>` and its default of 5 (src/main.rs:105-110) depends on library behaviour that is not modelled. The context length is a `nat` parameter instead, so the `usize` bound is not modelled either.
- Opening files and splitting and decoding lines with `BufReader::lines()` are I/O and not modelled (src/main.rs:56-61, 71-82). Their error paths are left out with them:
  - an open failure in either command prints a message with `eprintln!` and exits with `process::exit(1)`;
  - a read error in `uniques` goes through `unwrap_or_else` to `eprintln!` and `process::exit(1)` (src/main.rs:61);
  - a read error in `compare` panics in `unwrap` (src/main.rs:81-82).
  Inputs are already-split sequences of lines, so none of these paths occurs in the model.
- LineComparer.CompareLines: the line counter `i` (src/main.rs:77-79) has no type annotation and is only incremented and printed, so Rust gives it the default type `i32`. The model's counter, and the `Header(n)` produced by `Scan` and `Compare`, are unbounded `nat`s. The reported line number therefore matches the source only while the first mismatch is within the first 2^31 - 1 pairs. Past that point a debug build panics on `i += 1`, and a release build wraps and prints a negative number.
- The header's exact text and integer formatting (src/main.rs:85) is abstracted to `Header(n)`.
- The `HashSet` (src/main.rs:55) is a Dafny `set<string>`. Only membership matters.
- Output is streamed line by line in the source and returned as one sequence here. Output already printed before an I/O failure is therefore not modelled.
