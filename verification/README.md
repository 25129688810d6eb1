# FtihoEpitizer text pipeline in Dafny

FtihoEpitizer turns typed or uploaded epitope sequences into a FASTA file.
This project models the part of it that is logic rather than presentation:

- the size gate (`validate_input`);
- the amino-acid validator (`_is_valid_epitope` over `VALID_AMINO_ACIDS`);
- the parser (`parse_epitopes`): whole-input choice of `,` or line break as
  separator, whitespace stripping, dropping of empty pieces, and the
  all-or-nothing rejection with its report of the first five offending tokens;
- the order-preserving deduplicator (`_remove_duplicates`);
- the FASTA write loop (`>seq{i}\n{epitope}\n`, `i` from 1);
- the decision flow of `convert_to_fasta`, as a pure function from the input
  source, the duplicate-removal option and the answers of the outside world
  (file read, save dialog, file write) to the outcome reported to the user.

Modules, one per file:

- `Text` (`text.dfy`): Python's `str.split` with a one-character
  separator, `sep.join`, `str.isspace` and `str.strip`;
- `Alphabet` (`alphabet.dfy`): the 20-letter alphabet, upper-casing,
  epitope validity;
- `Parser` (`parser.dfy`): `parse_epitopes` as a function and as a loop, and
  the invalid-sequence report;
- `Dedupe` (`dedupe.dfy`): `_remove_duplicates` as a function and as a loop;
- `Fasta` (`fasta.dfy`): decimal numerals, record headers, the write loop;
- `Convert` (`convert.dfy`): the outcome of `convert_to_fasta`.

The token loop of `parse_epitopes`, the loop of `_remove_duplicates` and the
FASTA write loop are each modelled twice: as a method that follows the loop,
and as a recursive function that the method is proved to compute. The report
loop (lines 623-624), which emits at most five lines, is modelled by a slice
in `Report` only, and the `all(...)` generator of `_is_valid_epitope` by a
quantifier in `IsValidEpitope`.
Each operation also has an independent characterisation proved against it:
- `Strip` against `IsTrimOf`;
- `Dedup` against no-duplicates, same elements and first-occurrence order
  (`DedupUnique`);
- `Split` against `Join`;
- `ToFasta` against re-reading the written text.

In `FtihoEpitizer.py`, typed text is checked for blankness before the size
gate (lines 640-645), so an oversized typed text of whitespace only gets the
"enter sequences" warning. A file is size-checked first (line 658).
`Convert.SizeGate` and `Convert.BlankTextByMode` state both orders. An empty
path from the save dialog ends the conversion silently, like a cancelled
dialog (line 698).

## Model

| member | source | states |
|---|---|---|
| Text.Split | FtihoEpitizer.py:606-609 | `str.split(sep)` always yields at least one piece, and no piece contains the separator |
| Text.JoinSplit | FtihoEpitizer.py:606-609 | joining the pieces of a split with the separator gives back the text, so splitting loses no character |
| Text.SplitJoin | FtihoEpitizer.py:606-609 | splitting a join of separator-free pieces gives back the pieces: the other half of the split/join inverse pair |
| Text.SplitCons | FtihoEpitizer.py:606-609 | splitting `a + sep + b` with `a` free of the separator yields `a` followed by the pieces of `b` |
| Text.Strip | FtihoEpitizer.py:612 | `str.strip()`: removes leading and trailing `isspace` characters and never lengthens the piece; `StripIsTrim` and `TrimUnique` below pin it to the independent `IsTrimOf` |
| Text.StripEnds | FtihoEpitizer.py:612-613 | a piece strips to nothing exactly when it is all whitespace; otherwise the stripped piece starts and ends with non-whitespace |
| Text.StripSlice | FtihoEpitizer.py:612 | the stripped piece is a contiguous slice of the piece with only whitespace before and after it |
| Text.StripIsTrim | FtihoEpitizer.py:612 | `strip` removes exactly the surrounding whitespace (`IsTrimOf`) |
| Text.TrimUnique | FtihoEpitizer.py:612 | any slice that satisfies `IsTrimOf` equals the strip, so `IsTrimOf` determines `strip` completely |
| Text.TrimAt | FtihoEpitizer.py:612 | a slice with non-whitespace ends and only whitespace around it is the strip |
| Alphabet.IsAminoAcid | FtihoEpitizer.py:584 | `char.upper() in VALID_AMINO_ACIDS` for one character; `AminoAcidChars` lists the accepted characters |
| Alphabet.IsValidEpitope | FtihoEpitizer.py:574-584 | `_is_valid_epitope`: every character is accepted by `IsAminoAcid`, so the empty sequence is valid, as `all` over nothing is true |
| Alphabet.AminoAcidChars | FtihoEpitizer.py:584 | a character passes `char.upper() in VALID_AMINO_ACIDS` exactly when it is one of the 20 letters in upper or lower case, or one of the two non-ASCII letters whose upper case is I or S |
| Alphabet.AminoAcidIsPlain | FtihoEpitizer.py:584 | an accepted character is neither a comma, a line break nor whitespace |
| Alphabet.ValidEpitopeIsPlain | FtihoEpitizer.py:584 | a valid epitope holds no comma, line break or whitespace, so stripping leaves it unchanged |
| Parser.Separator | FtihoEpitizer.py:605-609 | the separator is a comma when the text holds any comma, and a line break otherwise, chosen once for the whole text |
| Parser.RawPieces | FtihoEpitizer.py:605-609 | the text splits into at least one piece, none holding the chosen separator |
| Parser.Tokens | FtihoEpitizer.py:611-613 | stripping and dropping empties keeps at most one token per piece, none of them empty |
| Parser.Accepted | FtihoEpitizer.py:614-617 | the valid tokens, in encounter order; every one of them is valid (`Partition` relates it to `Rejected`) |
| Parser.Rejected | FtihoEpitizer.py:614-615 | the invalid tokens, in encounter order; none of them is valid |
| Parser.Parse | FtihoEpitizer.py:586-630 | a successful parse returns only valid epitopes; a failed parse reports a non-empty list of tokens that are all invalid |
| Parser.ParseAccepts | FtihoEpitizer.py:619-630 | the parse succeeds exactly when every token is valid, and then returns all tokens, non-empty, in encounter order |
| Parser.RejectedEmpty | FtihoEpitizer.py:613-620 | no token is rejected exactly when all tokens are valid, and then all are accepted in order |
| Parser.Partition | FtihoEpitizer.py:611-617 | accepted and rejected together are a permutation of the tokens; a token is accepted exactly when valid and rejected exactly when invalid |
| Parser.SplitAllWhitespace | FtihoEpitizer.py:606-612 | every piece is whitespace exactly when every character of the text is whitespace or the separator |
| Parser.TokensEmpty | FtihoEpitizer.py:611-613 | no token survives exactly when every piece is whitespace only |
| Parser.ParseFindsNothing | FtihoEpitizer.py:605-630 | parsing yields an empty epitope list exactly when the text is made of whitespace and separators only |
| Parser.AllOrNothing | FtihoEpitizer.py:619-628 | one invalid token anywhere makes the whole parse fail, and the failure lists it |
| Parser.CommaModeKeepsLineBreaks | FtihoEpitizer.py:606-609 | when the text holds a comma, a token that still holds a line break fails the parse |
| Parser.MixedSeparators | FtihoEpitizer.py:606-628 | the comma wins for the whole text: valid `a`, `b`, `c` written as `a` line break `b` comma `c` split at the comma only, so `a` line break `b` is one token, and the parse fails listing exactly that token |
| Parser.TokensOfEpitopes | FtihoEpitizer.py:611-617 | pieces that are already valid non-empty epitopes are their own tokens |
| Parser.ParseLines | FtihoEpitizer.py:606-630 | parsing valid epitopes joined by line breaks gives them back, in order and with their case |
| Parser.ParseCommaList | FtihoEpitizer.py:606-630 | parsing valid epitopes joined by commas gives them back, in order and with their case |
| Parser.ParseEmpty | FtihoEpitizer.py:606-630 | joining no epitopes gives the empty text, which parses to no epitopes |
| Parser.LinePieces | FtihoEpitizer.py:606-609 | valid epitopes joined by line breaks hold no comma and are split back at line breaks into themselves |
| Parser.CommaPieces | FtihoEpitizer.py:606-607 | valid epitopes joined by commas are split back at commas into themselves |
| Parser.ParsePieces | FtihoEpitizer.py:611-630 | a text whose pieces are valid non-empty epitopes parses to exactly those pieces |
| Parser.ParseStep | FtihoEpitizer.py:611-617 | one more piece extends exactly one of the two lists, by its stripped form, or neither when it strips to nothing |
| Parser.ParseEpitopes | FtihoEpitizer.py:586-630 | the loop of `parse_epitopes` computes `Parse` |
| Parser.Report | FtihoEpitizer.py:622-626 | the report shows the first `min(5, n)` invalid tokens in order, and an overflow count `n - 5` that is non-zero exactly when `n > 5` |
| Dedupe.Dedup | FtihoEpitizer.py:739-745 | `_remove_duplicates` as a function, never longer than its input; `DedupElements`, `DedupKeepsFirstOccurrences` and `DedupUnique` characterise it |
| Dedupe.DedupElements | FtihoEpitizer.py:739-745 | the result holds exactly the input's elements, each once |
| Dedupe.RemoveDuplicates | FtihoEpitizer.py:739-745 | the `seen`-set loop computes `Dedup` |
| Dedupe.DedupPositions | FtihoEpitizer.py:741-744 | each kept element sits at its first occurrence in the input, at increasing positions |
| Dedupe.DedupIsSubsequence | FtihoEpitizer.py:739-745 | the result is a subsequence of the input |
| Dedupe.DedupKeepsFirstOccurrences | FtihoEpitizer.py:739-745 | the result lists the elements in the order of their first occurrence |
| Dedupe.DedupUnique | FtihoEpitizer.py:739-745 | any duplicate-free list of the input's elements in first-occurrence order is the result, so these properties determine it |
| Dedupe.DedupSnoc | FtihoEpitizer.py:741-744 | one more element is appended exactly when it was not seen before |
| Dedupe.DedupOfDistinct | FtihoEpitizer.py:739-745 | a list without duplicates is left unchanged |
| Dedupe.DedupIdempotent | FtihoEpitizer.py:739-745 | removing duplicates twice is the same as once |
| Dedupe.DedupLength | FtihoEpitizer.py:678-683 | the result has one element per distinct input value, so `original_count - len(result)` counts the repeated occurrences and is zero exactly when the input had no duplicates |
| Dedupe.DedupExample | FtihoEpitizer.py:739-745 | for three distinct epitopes, a, b, a, c, b becomes a, b, c and two are removed |
| Fasta.Record | FtihoEpitizer.py:705 | one record: the header `>seq` and the record number, a line break, the epitope and a line break |
| Fasta.ToFasta | FtihoEpitizer.py:704-705 | the records of the epitopes in order, numbered from 1; `FastaLayout` and `FastaRoundTrip` state what the text holds |
| Fasta.Decimal | FtihoEpitizer.py:705 | the record number is written as decimal digits without leading zeros |
| Fasta.DecimalRoundTrip | FtihoEpitizer.py:705 | reading the written numeral back gives the record number |
| Fasta.HeaderShape | FtihoEpitizer.py:705 | a header is `>seq` followed by the record number and holds no line break |
| Fasta.FastaSnoc | FtihoEpitizer.py:704-705 | writing one more epitope appends its record, numbered one past the previous ones |
| Fasta.WriteFasta | FtihoEpitizer.py:703-705 | the write loop produces `ToFasta` of the epitopes |
| Fasta.SplitFasta | FtihoEpitizer.py:704-705 | the written text splits at line breaks into header, epitope, header, epitope, ..., then one empty piece after the final line break |
| Fasta.FastaLayout | FtihoEpitizer.py:704-705 | the written text has `2n + 1` lines: `>seq1` ... `>seqn` on the even lines, the epitopes in order on the odd lines, nothing after the final line break |
| Fasta.FastaRoundTrip | FtihoEpitizer.py:704-705 | splitting the written text at line breaks and keeping every second line recovers the epitopes in order |
| Fasta.FastaExample | FtihoEpitizer.py:704-705 | two epitopes AC, DE give `>seq1\nAC\n>seq2\nDE\n` |
| Convert.WithinSizeLimit | FtihoEpitizer.py:565-572 | `validate_input`: a text passes exactly when it has at most `MAX_INPUT_SIZE` = 10,000,000 characters |
| Convert.CheckAndParse | FtihoEpitizer.py:658-661 | the size gate stops exactly the texts over the limit; otherwise the parse decides between going on with the epitopes and the invalid-input report |
| Convert.Gather | FtihoEpitizer.py:636-671 | reading the source: typed text is checked for blankness and then size-checked and parsed; no selected file stops with its warning; a failed read stops with its error, or with the unexpected-error outcome for a failure other than the three handled kinds; file contents are size-checked and parsed directly |
| Convert.FinalEpitopes | FtihoEpitizer.py:680-682 | the epitopes written are the parsed ones, deduplicated when removal is asked for |
| Convert.ConvertToFasta | FtihoEpitizer.py:632-727 | the conversion succeeds exactly when the parse found at least one epitope, a non-empty path was chosen and the write succeeded, and then it writes the FASTA text of the final epitopes to that path, reports `count + removed` equal to the parsed count, and removes nothing when deduplication is off; with epitopes found, no chosen path (a cancelled dialog or an empty path) is exactly a silent cancellation, and a failed write is reported with its error; "no valid epitopes" comes exactly from an empty parse; every earlier stop is reported as it was |
| Convert.ReadFailureReported | FtihoEpitizer.py:654-727 | a failed read ends the conversion: a missing file, a refused permission or a decoding error is reported as that error, and any other read failure reaches the catch-all handler as an unexpected error |
| Convert.ManualBlankWarns | FtihoEpitizer.py:638-642 | typed text gives the "enter sequences" warning exactly when it is all whitespace |
| Convert.BlankTextByMode | FtihoEpitizer.py:638-675 | the same blank text is a warning when typed, but a file of it is size-checked and then reported as holding no valid epitopes |
| Convert.SizeGate | FtihoEpitizer.py:565-570 | a file is too large exactly when longer than 10,000,000 characters (a text of exactly the limit passes); typed text only when also not blank |
| Convert.InvalidFileReported | FtihoEpitizer.py:658-661 | within the limit, a file ends as invalid input exactly when the parse fails, and the outcome carries the report of the parse's invalid tokens |
| Convert.ConvertedContents | FtihoEpitizer.py:678-705 | on success the count is the number of written records, every written epitope is non-empty and valid, there are no duplicates when removal was asked for, and re-reading the written text gives the final epitopes |
| Convert.FinalValid | FtihoEpitizer.py:680-683 | duplicate removal keeps the epitopes non-empty, valid and free of line breaks, and removes all repeats |
| Convert.DuplicateScenario | FtihoEpitizer.py:632-720 | a file holding ACD, EFG, ACD on three lines, with removal on and any non-empty path chosen, writes `>seq1\nACD\n>seq2\nEFG\n` and reports two records and one duplicate removed |
| Convert.InvalidScenario | FtihoEpitizer.py:606-628 | the file `ACD, xyz1, EFG` is split at commas, and `xyz1` alone is reported as invalid |

## Left out

- The Tkinter interface (widgets, layout, scrolling, theme colours and their cache, radio toggling) and icon and logo loading: presentation with no behaviour to state.
- File dialogs, file reading and writing, and message boxes. The read result, the save choice and the write result are parameters of `Convert.ConvertToFasta`. The write is modelled as the string it produces.
- The kinds of I/O failure are opaque tags (`ReadError`, `WriteError`); only which outcome each one leads to is modelled.
- The catch-all `except Exception` around the whole conversion (lines 725-727) is modelled only for read failures other than the three handled kinds (`OtherReadError`, outcome `UnexpectedFailure`). Exceptions from the interface or the save dialog that could also reach it are not modelled.
- Message texts, bullet glyphs, the MB figure `MAX_INPUT_SIZE / 1000000` in the size message, and status-bar texts. The outcomes carry the data the messages are made from: the invalid report, the counts and the output path.
- The base name of the output path shown in the success message: the outcome carries the path as chosen.
- The `isinstance` checks (lines 561 and 599): Dafny's types make them vacuous.
- `get_epitope_count`, `get_current_mode` and `__del__`: thin wrappers over interface state.
- Newline translation when a file is opened in text mode (`\r\n` read as `\n`): the model takes the text as Python returns it. Likewise the line break Tk appends to typed text is part of `Manual(typed)`.
- Newline translation on writing (line 703 opens the output in text mode): where `os.linesep` is `\r\n`, each `\n` of `ToFasta(final)` is stored as `\r\n`. `Converted.written` is the text handed to `write`, not the bytes on disk.
- Alphabet.AminoAcidChars: upper-casing is modelled only as far as membership in the alphabet is concerned. Lower-case ASCII letters, dotless `ı` and long `ſ` map into the alphabet. Every other character counts as not in it, since its Python upper case is not a single alphabet letter.
- Text.Strip: whitespace is Python's `str.isspace` as a fixed list of code points, taken from the Unicode tables of Python 3.12.
