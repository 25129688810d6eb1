/**
 The decision flow of `convert_to_fasta`: where the text comes from, the
 blank-input and size checks, parsing, optional duplicate removal, the save
 dialog and the file write, reduced to a pure function from the inputs and
 the answers of the outside world (file read, save dialog, write) to the
 outcome reported to the user.
 */
module Convert {
  import opened Text
  import opened Alphabet
  import opened Parser
  import opened Dedupe
  import opened Fasta

  /** `MAX_INPUT_SIZE`: the largest accepted input, in characters. */
  const MaxInputSize: nat := 10_000_000

  /** `validate_input`: the size gate. */
  predicate WithinSizeLimit(text: string) {
    |text| <= MaxInputSize
  }

  /** Why reading the chosen file failed.  The first three have handlers of
      their own; any other failure of the read (a directory, a device error)
      is caught only by the handler around the whole conversion. */
  datatype ReadError = FileNotFound | ReadPermissionDenied | NotUtf8 | OtherReadError

  /** Why writing the output file failed. */
  datatype WriteError = WritePermissionDenied | OtherWriteError

  /** Where the text comes from.  `Manual` carries what the text area
      returns (Tk appends one line break to the typed text); the file cases
      carry the result of selecting and reading the file as UTF-8. */
  datatype Source =
    | Manual(typed: string)
    | NoFileSelected
    | FileReadFailed(readError: ReadError)
    | FileContents(contents: string)

  /** The answer of the save dialog.  The dialog returns an empty path when
      it is dismissed, so `SaveTo("")` is a cancellation too. */
  datatype SaveChoice = SaveCancelled | SaveTo(path: string)

  /** A path was chosen in the save dialog. */
  predicate Chosen(save: SaveChoice) {
    save.SaveTo? && save.path != []
  }

  /** The answer of the file system to the write. */
  datatype WriteStatus = WriteSucceeded | WriteFailed(writeError: WriteError)

  /** What the user is told. */
  datatype Outcome =
    | EnterSequencesWarning
    | SelectFileWarning
    | ReadFailure(readError: ReadError)
    | UnexpectedFailure
    | InputTooLarge
    | InvalidInput(report: InvalidReport)
    | NoValidEpitopes
    | Cancelled
    | WriteFailure(writeError: WriteError)
    | Converted(count: nat, duplicatesRemoved: nat, path: string, written: string)

  /** The state after reading and parsing: stop with an outcome, or go on
      with the parsed epitopes. */
  datatype Stage = Stop(outcome: Outcome) | Go(epitopes: seq<string>)

  /** The size check followed by `parse_epitopes`. */
  function CheckAndParse(text: string): (st: Stage)
    ensures st == Stop(InputTooLarge) <==> !WithinSizeLimit(text)
    ensures st.Go? ==> Parse(text) == Epitopes(st.epitopes)
    ensures st.Stop? && WithinSizeLimit(text) ==>
      Parse(text).InvalidSequences? && st.outcome == InvalidInput(Report(Parse(text).invalid))
  {
    if !WithinSizeLimit(text) then Stop(InputTooLarge)
    else match Parse(text)
      case InvalidSequences(invalid) => Stop(InvalidInput(Report(invalid)))
      case Epitopes(epitopes) => Go(epitopes)
  }

  /** Reading the chosen source: the manual text is checked for blankness
      before anything else; a file is size-checked and parsed directly. */
  function Gather(source: Source): Stage {
    match source
    case Manual(typed) =>
      if Strip(typed) == [] then Stop(EnterSequencesWarning) else CheckAndParse(typed)
    case NoFileSelected => Stop(SelectFileWarning)
    case FileReadFailed(e) => if e == OtherReadError then Stop(UnexpectedFailure) else Stop(ReadFailure(e))
    case FileContents(contents) => CheckAndParse(contents)
  }

  /** The epitopes that are written: the parsed ones, deduplicated if asked. */
  function FinalEpitopes(epitopes: seq<string>, removeDuplicates: bool): seq<string> {
    if removeDuplicates then Dedup(epitopes) else epitopes
  }

  /** `convert_to_fasta`.  Once parsing has produced at least one epitope,
      the save dialog and the write decide the outcome: no path chosen is a
      silent cancellation, a failed write is reported, and a successful one
      reports the written records and the number of duplicates removed. */
  function ConvertToFasta(source: Source, removeDuplicates: bool, save: SaveChoice, write: WriteStatus): (o: Outcome)
    ensures o.Converted? <==>
      Gather(source).Go? && Gather(source).epitopes != [] && Chosen(save) && write == WriteSucceeded
    ensures o.Converted? ==> o.count >= 1 && o.path == save.path
    ensures o.Converted? ==> o.count + o.duplicatesRemoved == |Gather(source).epitopes|
    ensures o.Converted? ==> o.written == ToFasta(FinalEpitopes(Gather(source).epitopes, removeDuplicates))
    ensures o.Converted? && !removeDuplicates ==> o.duplicatesRemoved == 0
    ensures o == NoValidEpitopes <==> Gather(source) == Go([])
    ensures Gather(source).Stop? ==> o == Gather(source).outcome
    ensures Gather(source).Go? && Gather(source).epitopes != [] ==>
      (o == Cancelled <==> !Chosen(save))
    ensures Gather(source).Go? && Gather(source).epitopes != [] && Chosen(save) && write.WriteFailed? ==>
      o == WriteFailure(write.writeError)
  {
    match Gather(source)
    case Stop(o) => o
    case Go(epitopes) =>
      if epitopes == [] then NoValidEpitopes
      else
        var final := FinalEpitopes(epitopes, removeDuplicates);
        DedupElements(epitopes);
        assert epitopes[0] in final;
        match save
        case SaveCancelled => Cancelled
        case SaveTo(path) =>
          if path == [] then Cancelled
          else match write
          case WriteFailed(e) => WriteFailure(e)
          case WriteSucceeded => Converted(|final|, |epitopes| - |final|, path, ToFasta(final))
  }

  /** A failed read ends the conversion: a missing file, a refused
      permission or a decoding error is reported as such, and any other read
      failure as an unexpected error; nothing is parsed or written. */
  lemma ReadFailureReported(e: ReadError, removeDuplicates: bool, save: SaveChoice, write: WriteStatus)
    ensures ConvertToFasta(FileReadFailed(e), removeDuplicates, save, write).ReadFailure?
      <==> e != OtherReadError
    ensures ConvertToFasta(FileReadFailed(e), removeDuplicates, save, write) == UnexpectedFailure
      <==> e == OtherReadError
    ensures ConvertToFasta(FileReadFailed(e), removeDuplicates, save, write).ReadFailure? ==>
      ConvertToFasta(FileReadFailed(e), removeDuplicates, save, write).readError == e
  {
  }

  /** In manual mode the blank check comes first: a text area holding only
      whitespace gives the "enter sequences" warning, whatever its size, and
      nothing else does. */
  lemma ManualBlankWarns(typed: string, removeDuplicates: bool, save: SaveChoice, write: WriteStatus)
    ensures ConvertToFasta(Manual(typed), removeDuplicates, save, write) == EnterSequencesWarning
      <==> AllWhitespace(typed)
  {
    StripEnds(typed);
  }

  /** The order of the checks depends on the source: the same blank text is
      a warning when typed, but is size-checked and parsed when read from a
      file, ending as "too large" or "no valid epitopes". */
  lemma BlankTextByMode(text: string, removeDuplicates: bool, save: SaveChoice, write: WriteStatus)
    ensures AllWhitespace(text) ==>
      ConvertToFasta(Manual(text), removeDuplicates, save, write) == EnterSequencesWarning
    ensures AllWhitespace(text) ==>
      ConvertToFasta(FileContents(text), removeDuplicates, save, write)
        == if WithinSizeLimit(text) then NoValidEpitopes else InputTooLarge
  {
    StripEnds(text);
    ParseFindsNothing(text);
  }

  /** The size gate rejects exactly the texts longer than the limit; a text
      of exactly `MaxInputSize` characters passes.  Typed text reaches the
      gate only when it is not blank. */
  lemma SizeGate(text: string, removeDuplicates: bool, save: SaveChoice, write: WriteStatus)
    ensures ConvertToFasta(FileContents(text), removeDuplicates, save, write) == InputTooLarge
      <==> |text| > MaxInputSize
    ensures ConvertToFasta(Manual(text), removeDuplicates, save, write) == InputTooLarge
      <==> !AllWhitespace(text) && |text| > MaxInputSize
  {
    FileSizeGate(text, removeDuplicates, save, write);
    ManualSizeGate(text, removeDuplicates, save, write);
  }

  /** A file is too large exactly when it is longer than the limit. */
  lemma FileSizeGate(text: string, removeDuplicates: bool, save: SaveChoice, write: WriteStatus)
    ensures ConvertToFasta(FileContents(text), removeDuplicates, save, write) == InputTooLarge
      <==> |text| > MaxInputSize
  {
    assert Gather(FileContents(text)) == CheckAndParse(text);
  }

  /** Typed text is too large exactly when it is not blank and is longer
      than the limit. */
  lemma ManualSizeGate(text: string, removeDuplicates: bool, save: SaveChoice, write: WriteStatus)
    ensures ConvertToFasta(Manual(text), removeDuplicates, save, write) == InputTooLarge
      <==> !AllWhitespace(text) && |text| > MaxInputSize
  {
    StripEnds(text);
    assert Gather(Manual(text)) == if Strip(text) == [] then Stop(EnterSequencesWarning) else CheckAndParse(text);
  }

  /** Within the size limit, a file is rejected as invalid exactly when
      parsing finds an invalid token, and the report lists the first of the
      offending tokens; nothing is written. */
  lemma InvalidFileReported(text: string, removeDuplicates: bool, save: SaveChoice, write: WriteStatus)
    requires WithinSizeLimit(text)
    ensures ConvertToFasta(FileContents(text), removeDuplicates, save, write).InvalidInput?
      <==> Parse(text).InvalidSequences?
    ensures Parse(text).InvalidSequences? ==>
      ConvertToFasta(FileContents(text), removeDuplicates, save, write)
        == InvalidInput(Report(Parse(text).invalid))
  {
  }

  /** What a successful conversion writes: one record per final epitope,
      each epitope non-empty and made of alphabet letters only; the final
      list is the deduplication of the parsed one when asked for, and
      re-reading the written text gives it back. */
  lemma ConvertedContents(source: Source, removeDuplicates: bool, save: SaveChoice, write: WriteStatus)
    requires ConvertToFasta(source, removeDuplicates, save, write).Converted?
    ensures var final := FinalEpitopes(Gather(source).epitopes, removeDuplicates);
      && ConvertToFasta(source, removeDuplicates, save, write).count == |final|
      && (forall k :: 0 <= k < |final| ==> final[k] != [] && IsValidEpitope(final[k]))
      && (removeDuplicates ==> NoDuplicates(final))
      && SequenceLines(Split(ConvertToFasta(source, removeDuplicates, save, write).written, '\n')) == final
  {
    var text := if source.Manual? then source.typed else source.contents;
    var es := Gather(source).epitopes;
    assert forall k :: 0 <= k < |es| ==> es[k] != [] && IsValidEpitope(es[k]) by {
      ParseAccepts(text);
    }
    var final := FinalEpitopes(es, removeDuplicates);
    FinalValid(es, removeDuplicates);
    FastaRoundTrip(final);
  }

  /** Deduplication keeps only parsed epitopes, so the final ones are still
      non-empty, valid, and free of line breaks. */
  lemma FinalValid(es: seq<string>, removeDuplicates: bool)
    requires forall k :: 0 <= k < |es| ==> es[k] != [] && IsValidEpitope(es[k])
    ensures var final := FinalEpitopes(es, removeDuplicates);
      && (forall k :: 0 <= k < |final| ==> final[k] != [] && IsValidEpitope(final[k]) && '\n' !in final[k])
      && (removeDuplicates ==> NoDuplicates(final))
  {
    var final := FinalEpitopes(es, removeDuplicates);
    DedupElements(es);
    forall k | 0 <= k < |final|
      ensures final[k] != [] && IsValidEpitope(final[k]) && '\n' !in final[k]
    {
      assert final[k] in es;
      var j :| 0 <= j < |es| && es[j] == final[k];
      ValidEpitopeIsPlain(es[j]);
    }
  }

  /** A file holding ACD, EFG, ACD on three lines, with duplicate removal:
      two records are written and one duplicate is reported.  The scenario
      lemmas take their literal text as a parameter fixed by `requires`, so
      that the text is one opaque variable in the proof rather than a
      sequence display the verifier unfolds at every use. */
  lemma DuplicateScenario(text: string, path: string)
    requires text == "ACD\nEFG\nACD"
    requires path != []
    ensures ConvertToFasta(FileContents(text), true, SaveTo(path), WriteSucceeded)
      == Converted(2, 1, path, ">seq1\nACD\n>seq2\nEFG\n")
  {
    ScenarioLines(text, ["ACD", "EFG", "ACD"]);
    ScenarioDedup();
    ScenarioFasta();
    assert |text| == 11;
    assert Gather(FileContents(text)) == Go(["ACD", "EFG", "ACD"]);
  }

  lemma ScenarioLines(text: string, es: seq<string>)
    requires text == "ACD\nEFG\nACD"
    requires es == ["ACD", "EFG", "ACD"]
    ensures Parse(text) == Epitopes(es)
  {
    ScenarioJoin(text, es);
    assert IsValidEpitope("ACD") && IsValidEpitope("EFG");
    ParseLines(es);
  }

  lemma ScenarioJoin(text: string, es: seq<string>)
    requires text == "ACD\nEFG\nACD"
    requires es == ["ACD", "EFG", "ACD"]
    ensures Join(es, '\n') == text
  {
    assert Join(es[2..], '\n') == "ACD";
    assert Join(es[1..], '\n') == "EFG" + ['\n'] + Join(es[2..], '\n');
    assert Join(es, '\n') == "ACD" + ['\n'] + Join(es[1..], '\n');
  }

  lemma ScenarioDedup()
    ensures Dedup(["ACD", "EFG", "ACD"]) == ["ACD", "EFG"]
  {
    var es := ["ACD", "EFG", "ACD"];
    assert "ACD" != "EFG" by { assert "ACD"[0] != "EFG"[0]; }
    assert es[..2] == ["ACD", "EFG"];
    assert ["ACD", "EFG"][..1] == ["ACD"];
    assert ["ACD"][..0] == [];
  }

  lemma ScenarioFasta()
    ensures ToFasta(["ACD", "EFG"]) == ">seq1\nACD\n>seq2\nEFG\n"
  {
    assert Decimal(1) == "1" && Decimal(2) == "2";
    assert ["ACD", "EFG"][1..] == ["EFG"];
    assert ["EFG"][1..] == [];
  }

  /** A comma anywhere switches to comma splitting; `xyz1` is then the only
      invalid token, and the valid ones are discarded with it. */
  lemma InvalidScenario(text: string, removeDuplicates: bool, save: SaveChoice, write: WriteStatus)
    requires text == "ACD, xyz1, EFG"
    ensures ConvertToFasta(FileContents(text), removeDuplicates, save, write)
      == InvalidInput(InvalidReport(["xyz1"], 0))
  {
    ScenarioCommaPieces(text);
    ScenarioTokens();
    ScenarioRejected();
    assert |text| == 14;
    assert Parse(text) == InvalidSequences(["xyz1"]);
  }

  lemma ScenarioCommaPieces(text: string)
    requires text == "ACD, xyz1, EFG"
    ensures RawPieces(text) == ["ACD", " xyz1", " EFG"]
  {
    assert text[3] == ',';
    var b := " xyz1" + [','] + " EFG";
    assert text == "ACD" + [','] + b;
    SplitNone(" EFG", ',');
    SplitCons(" xyz1", ',', " EFG");
    SplitCons("ACD", ',', b);
  }

  lemma ScenarioTokens()
    ensures Tokens(["ACD", " xyz1", " EFG"]) == ["ACD", "xyz1", "EFG"]
  {
    assert Strip("ACD") == "ACD";
    assert Strip(" xyz1") == "xyz1" by {
      assert " xyz1"[1..] == "xyz1";
    }
    assert Strip(" EFG") == "EFG" by {
      assert " EFG"[1..] == "EFG";
    }
    var ps := ["ACD", " xyz1", " EFG"];
    assert ps[..2] == ["ACD", " xyz1"];
    assert ps[..2][..1] == ["ACD"];
    assert ["ACD"][..0] == [];
  }

  lemma ScenarioRejected()
    ensures Rejected(["ACD", "xyz1", "EFG"]) == ["xyz1"]
  {
    var ts := ["ACD", "xyz1", "EFG"];
    assert IsValidEpitope("ACD") && IsValidEpitope("EFG");
    assert !IsValidEpitope("xyz1") by { assert !IsAminoAcid("xyz1"[0]); }
    assert ts[..2] == ["ACD", "xyz1"];
    assert ts[..2][..1] == ["ACD"];
    assert ["ACD"][..0] == [];
  }
}
