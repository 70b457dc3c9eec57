/** Choosing the output formats and the paths save_processed_data writes.
    The prompts' answers are parameters; the writers themselves are file I/O
    and are represented only by the paths they write to. */
module SaveFormats {
  import opened Wrappers
  import opened StrOps

  /** The menu numbers the format prompt accepts and the format names they
      stand for. */
  const FormatMap: map<string, string> := map["1" := "parquet", "2" := "csv", "3" := "hdf"]

  /** The format names save_processed_data has a writer for. */
  predicate HasWriter(fmt: string)
  {
    fmt == "parquet" || fmt == "csv" || fmt == "hdf"
  }

  /** The formats chosen by the tokens of the answer, in order, duplicates
      kept: each token is stripped and looked up, unknown tokens are
      skipped. */
  function Select(tokens: seq<string>): (fmts: seq<string>)
    ensures |fmts| <= |tokens|
    ensures forall i :: 0 <= i < |fmts| ==> HasWriter(fmts[i])
  {
    if tokens == [] then []
    else
      var t := Strip(tokens[0]);
      (if t in FormatMap then [FormatMap[t]] else []) + Select(tokens[1..])
  }

  /** selected_formats for the answer to the format prompt. */
  function SelectedFormats(choice: string): seq<string>
  {
    Select(Split(choice, ','))
  }

  /** The format list save_processed_data iterates over: ['parquet'] when
      none is given. */
  function DefaultFormats(formats: Option<seq<string>>): seq<string>
  {
    if formats.None? then ["parquet"] else formats.value
  }

  /** The path written for one format: the base name under processed_data
      with the format name as extension. */
  function OutputPath(baseFilename: string, fmt: string): string
  {
    "processed_data/" + baseFilename + "." + fmt
  }

  /** The files written, in order: one per format that has a writer. */
  function Writes(baseFilename: string, fmts: seq<string>): seq<string>
  {
    if fmts == [] then []
    else
      var last := fmts[|fmts| - 1];
      Writes(baseFilename, fmts[..|fmts| - 1]) + (if HasWriter(last) then [OutputPath(baseFilename, last)] else [])
  }

  /** ASCII lower-casing of one character. */
  function LowerChar(ch: char): char
  {
    if 'A' <= ch <= 'Z' then (ch as int + 32) as char else ch
  }

  /** str.lower() on ASCII letters; other characters are kept. */
  function Lower(s: string): string
  {
    seq(|s|, i requires 0 <= i < |s| => LowerChar(s[i]))
  }

  /** The answer is yes once lower-cased, compared letter by letter. No character
      other than the ASCII capitals lowers to 'y', 'e' or 's', so the ASCII
      lower-casing is exact here. */
  predicate IsYes(response: string): (yes: bool)
    ensures yes <==> Lower(response) == "yes"
  {
    LowerYes(response);
    |response| == 3 &&
    (response[0] == 'y' || response[0] == 'Y') &&
    (response[1] == 'e' || response[1] == 'E') &&
    (response[2] == 's' || response[2] == 'S')
  }

  lemma LowerYes(response: string)
    ensures Lower(response) == "yes" <==>
      |response| == 3 && LowerChar(response[0]) == 'y' && LowerChar(response[1]) == 'e' && LowerChar(response[2]) == 's'
  {
    if |response| == 3 {
      var l := Lower(response);
      assert l[0] == LowerChar(response[0]) && l[1] == LowerChar(response[1]) && l[2] == LowerChar(response[2]);
      if LowerChar(response[0]) == 'y' && LowerChar(response[1]) == 'e' && LowerChar(response[2]) == 's' {
        assert l == "yes";
      }
    }
  }

  /** The save step at the end of process_transcript_files: the formats
      passed to save_processed_data, or None when the answer was not yes or
      no valid format was selected ("Data not saved"). */
  function SaveChoice(saveResponse: string, formatChoice: string): (r: Option<seq<string>>)
    ensures r.Some? ==> IsYes(saveResponse) && r.value != []
    ensures r.Some? ==> forall i :: 0 <= i < |r.value| ==> HasWriter(r.value[i])
    ensures r.None? ==> !IsYes(saveResponse) || SelectedFormats(formatChoice) == []
  {
    if !IsYes(saveResponse) then None
    else
      var selected := SelectedFormats(formatChoice);
      if selected != [] then Some(selected) else None
  }

  // ---------------------------------------------------------------------------
  // Properties of the selection

  /** Selection distributes over concatenation of token lists: order and
      duplicates are kept. */
  lemma {:induction false} SelectAppend(a: seq<string>, b: seq<string>)
    ensures Select(a + b) == Select(a) + Select(b)
  {
    if a == [] {
      assert a + b == b;
    } else {
      assert (a + b)[0] == a[0];
      assert (a + b)[1..] == a[1..] + b;
      SelectAppend(a[1..], b);
    }
  }

  /** A format is selected exactly when some token names it. */
  lemma {:induction false} SelectMembers(tokens: seq<string>, f: string)
    ensures f in Select(tokens) <==>
      exists i :: 0 <= i < |tokens| && Strip(tokens[i]) in FormatMap && FormatMap[Strip(tokens[i])] == f
  {
    if tokens != [] {
      SelectMembers(tokens[1..], f);
      var t := Strip(tokens[0]);
      assert Select(tokens) == (if t in FormatMap then [FormatMap[t]] else []) + Select(tokens[1..]);
      if exists i :: 0 <= i < |tokens| && Strip(tokens[i]) in FormatMap && FormatMap[Strip(tokens[i])] == f {
        var i :| 0 <= i < |tokens| && Strip(tokens[i]) in FormatMap && FormatMap[Strip(tokens[i])] == f;
        if i > 0 {
          assert tokens[1..][i - 1] == tokens[i];
        }
      }
      if f in Select(tokens[1..]) {
        var j :| 0 <= j < |tokens[1..]| && Strip(tokens[1..][j]) in FormatMap && FormatMap[Strip(tokens[1..][j])] == f;
        assert tokens[j + 1] == tokens[1..][j];
      }
    }
  }

  /** The menu number of a format name. */
  function Code(fmt: string): (code: string)
    requires HasWriter(fmt)
    ensures code in FormatMap && FormatMap[code] == fmt
  {
    if fmt == "parquet" then "1" else if fmt == "csv" then "2" else "3"
  }

  function Codes(fmts: seq<string>): (codes: seq<string>)
    requires forall i :: 0 <= i < |fmts| ==> HasWriter(fmts[i])
    ensures |codes| == |fmts|
    ensures forall i :: 0 <= i < |codes| ==> codes[i] == Code(fmts[i])
  {
    if fmts == [] then [] else [Code(fmts[0])] + Codes(fmts[1..])
  }

  lemma StripCode(fmt: string)
    requires HasWriter(fmt)
    ensures Strip(Code(fmt)) == Code(fmt)
  {
  }

  /** Every list of format names is selected back from its menu numbers
      written comma-separated. */
  lemma {:induction false} SelectCodes(fmts: seq<string>)
    requires forall i :: 0 <= i < |fmts| ==> HasWriter(fmts[i])
    ensures Select(Codes(fmts)) == fmts
  {
    if fmts != [] {
      SelectCodes(fmts[1..]);
      StripCode(fmts[0]);
      var codes := Codes(fmts);
      assert codes[0] == Code(fmts[0]);
      assert codes[1..] == Codes(fmts[1..]);
    }
  }

  lemma CodesNoComma(fmts: seq<string>)
    requires forall i :: 0 <= i < |fmts| ==> HasWriter(fmts[i])
    ensures forall i :: 0 <= i < |Codes(fmts)| ==> ',' !in Codes(fmts)[i]
  {
  }

  /** Writing the menu numbers of some formats comma-separated selects
      exactly those formats again. */
  lemma ChoiceRoundTrip(fmts: seq<string>)
    requires fmts != []
    requires forall i :: 0 <= i < |fmts| ==> HasWriter(fmts[i])
    ensures SelectedFormats(Join(Codes(fmts), ',')) == fmts
  {
    var codes := Codes(fmts);
    CodesNoComma(fmts);
    SplitJoin(codes, ',');
    SelectCodes(fmts);
  }

  /** An empty answer selects nothing. */
  lemma EmptyChoice()
    ensures SelectedFormats("") == []
  {
  }

  // ---------------------------------------------------------------------------
  // Properties of the save step

  /** Saving happens exactly when the answer is yes and at least one format
      was selected; the formats saved are the selected ones, so the default
      of save_processed_data never applies on this path. */
  lemma SaveChoiceSpec(saveResponse: string, formatChoice: string, baseFilename: string)
    ensures SaveChoice(saveResponse, formatChoice).Some? <==>
      IsYes(saveResponse) && SelectedFormats(formatChoice) != []
    ensures SaveChoice(saveResponse, formatChoice).Some? ==>
      var fmts := SaveChoice(saveResponse, formatChoice).value;
      fmts == SelectedFormats(formatChoice) && DefaultFormats(Some(fmts)) == fmts &&
      |Writes(baseFilename, fmts)| == |fmts|
  {
    if SaveChoice(saveResponse, formatChoice).Some? {
      AllWritten(baseFilename, SelectedFormats(formatChoice));
    }
  }

  /** Every format with a writer produces one file. */
  lemma {:induction false} AllWritten(baseFilename: string, fmts: seq<string>)
    requires forall i :: 0 <= i < |fmts| ==> HasWriter(fmts[i])
    ensures |Writes(baseFilename, fmts)| == |fmts|
  {
    if fmts != [] {
      var init := fmts[..|fmts| - 1];
      assert forall i :: 0 <= i < |init| ==> init[i] == fmts[i];
      AllWritten(baseFilename, init);
    }
  }

  /** Without a format list only the Parquet file is written; an empty list
      is not None and writes nothing. */
  lemma DefaultIsParquet(baseFilename: string)
    ensures Writes(baseFilename, DefaultFormats(None)) == [OutputPath(baseFilename, "parquet")]
    ensures Writes(baseFilename, DefaultFormats(Some([]))) == []
  {
  }

  // ---------------------------------------------------------------------------
  // save_processed_data

  /** The loop of save_processed_data. It returns the results dictionary
      (format name to path) and the paths written, in order. */
  method SaveProcessedData(baseFilename: string, formats: Option<seq<string>>)
    returns (results: map<string, string>, written: seq<string>)
    ensures written == Writes(baseFilename, DefaultFormats(formats))
    ensures forall f :: f in results <==> f in DefaultFormats(formats) && HasWriter(f)
    ensures forall f :: f in results ==> results[f] == OutputPath(baseFilename, f)
  {
    var fmts: seq<string>;
    if formats.None? {
      fmts := ["parquet"];
    } else {
      fmts := formats.value;
    }
    results := map[];
    written := [];
    var i := 0;
    while i < |fmts|
      invariant i <= |fmts|
      invariant written == Writes(baseFilename, fmts[..i])
      invariant forall f :: f in results <==> f in fmts[..i] && HasWriter(f)
      invariant forall f :: f in results ==> results[f] == OutputPath(baseFilename, f)
    {
      var fmt := fmts[i];
      var outputPath := "processed_data/" + baseFilename + "." + fmt;
      assert fmts[..i + 1][..i] == fmts[..i];
      if fmt == "parquet" {
        written := written + [outputPath];
        results := results["parquet" := outputPath];
      } else if fmt == "csv" {
        written := written + [outputPath];
        results := results["csv" := outputPath];
      } else if fmt == "hdf" {
        written := written + [outputPath];
        results := results["hdf" := outputPath];
      }
      assert fmts[..i + 1] == fmts[..i] + [fmt];
      i := i + 1;
    }
    assert fmts[..i] == fmts;
  }
}
