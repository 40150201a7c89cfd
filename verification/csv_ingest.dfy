/**
 The CSV ingestion of `parse_csv`: blank-file rejection, the header-row heuristic
 (keyword plus at least two commas, then at least two commas, then line 0), the
 "no data after header" check, and the ordered search over (encoding, delimiter)
 candidates with a final delimiter-sniffing read. The reads themselves are pandas
 calls and are given as parameters.
 */
module CsvIngest {
  import opened Text
  import opened Results

  /** Why ingestion stopped. */
  datatype IngestError =
    | EmptyFile                              // the text is blank
    | NoDataAfterHeader                      // a header below line 0 with only blank lines after it
    | EmptyData                              // a read raised pandas' EmptyDataError
    | Unparseable(lastError: Option<string>) // every read failed; the last raised message, if any

  /** Words whose presence marks a questionnaire header line. */
  const HeaderKeywords: seq<string> := ["section", "question", "answer"]

  /** The lowered, stripped line mentions one of the header keywords. */
  predicate MentionsKeyword(line: string) {
    var lowered := Lower(Strip(line));
    exists k :: 0 <= k < |HeaderKeywords| && Contains(lowered, HeaderKeywords[k])
  }

  /** At least two commas, read as "at least three columns". */
  predicate HasManyColumns(line: string) {
    Count(line, ',') >= 2
  }

  predicate IsHeaderLike(line: string) {
    MentionsKeyword(line) && HasManyColumns(line)
  }

  /** Index of the first line at or after `from` that satisfies `p`. */
  function FirstWhere(lines: seq<string>, p: string -> bool, from: nat): (r: Option<nat>)
    requires from <= |lines|
    ensures r.Some? ==> from <= r.value < |lines| && p(lines[r.value])
    ensures r.Some? ==> forall j :: from <= j < r.value ==> !p(lines[j])
    ensures r.None? ==> forall j :: from <= j < |lines| ==> !p(lines[j])
    decreases |lines| - from
  {
    if from == |lines| then None
    else if p(lines[from]) then Some(from)
    else FirstWhere(lines, p, from + 1)
  }

  /** The header-row heuristic over the lines of the file. */
  function HeaderRowIndex(lines: seq<string>): (h: nat)
    ensures lines != [] ==> h < |lines|
    ensures (exists i :: 0 <= i < |lines| && IsHeaderLike(lines[i])) ==>
              IsHeaderLike(lines[h]) && forall j :: 0 <= j < h ==> !IsHeaderLike(lines[j])
    ensures (forall i :: 0 <= i < |lines| ==> !IsHeaderLike(lines[i])) &&
            (exists i :: 0 <= i < |lines| && HasManyColumns(lines[i])) ==>
              HasManyColumns(lines[h]) && forall j :: 0 <= j < h ==> !HasManyColumns(lines[j])
    ensures (forall i :: 0 <= i < |lines| ==> !HasManyColumns(lines[i])) ==> h == 0
  {
    match FirstWhere(lines, IsHeaderLike, 0)
    case Some(i) => i
    case None =>
      match FirstWhere(lines, HasManyColumns, 0)
      case Some(i) => i
      case None => 0
  }

  /** Some line after index `h` has a non-whitespace character. */
  predicate DataFollows(lines: seq<string>, h: nat) {
    exists j :: h < j < |lines| && !AllSpace(lines[j])
  }

  /** The part of `parse_csv` before any read: the header row, or why the file is rejected. */
  function DetectHeaderRow(content: string): (r: Result<nat, IngestError>)
    ensures r == Failure(EmptyFile) <==> AllSpace(content)
    ensures r.Success? ==> r.value < |Split(content, '\n')|
    ensures !AllSpace(content) ==> r.Success? || r == Failure(NoDataAfterHeader)
    ensures !AllSpace(content) ==>
              var lines := Split(content, '\n');
              var h := HeaderRowIndex(lines);
              (r == Failure(NoDataAfterHeader) <==> h > 0 && !DataFollows(lines, h))
              && (r.Success? ==> r.value == h)
  {
    if Strip(content) == "" then
      StripEmptyIffAllSpace(content);
      Failure(EmptyFile)
    else
      StripEmptyIffAllSpace(content);
      var lines := Split(content, '\n');
      var h := HeaderRowIndex(lines);
      if h > 0 && NonBlankAfter(lines, h) == [] then Failure(NoDataAfterHeader)
      else Success(h)
  }

  /** The lines after the header that are not blank, each stripped, in order. */
  function NonBlankAfter(lines: seq<string>, h: nat): (kept: seq<string>)
    ensures kept == [] <==> !DataFollows(lines, h)
    decreases |lines| - h
  {
    if h + 1 >= |lines| then []
    else
      var line := lines[h + 1];
      StripEmptyIffAllSpace(line);
      var rest := NonBlankAfter(lines, h + 1);
      assert DataFollows(lines, h) <==> !AllSpace(line) || DataFollows(lines, h + 1);
      (if Strip(line) != "" then [Strip(line)] else []) + rest
  }

  /** Metadata lines above a header-like line are skipped: the header is found below them. */
  lemma MetadataThenHeaderDetected(meta: seq<string>, header: string, data: seq<string>)
    requires forall k :: 0 <= k < |meta| ==> !IsHeaderLike(meta[k])
    requires IsHeaderLike(header)
    ensures HeaderRowIndex(meta + [header] + data) == |meta|
  {
    var lines := meta + [header] + data;
    assert lines[|meta|] == header;
    forall j | 0 <= j < |meta| ensures lines[j] == meta[j] {}
  }

  /** The same through the whole text: metadata, a header-like line, then at least one
      non-blank data line, all joined with newlines, is accepted with the header below
      the metadata. */
  lemma {:induction false} MetadataThenHeaderAccepted(meta: seq<string>, header: string, data: seq<string>)
    requires forall k :: 0 <= k < |meta| ==> !IsHeaderLike(meta[k]) && '\n' !in meta[k]
    requires IsHeaderLike(header) && '\n' !in header
    requires forall k :: 0 <= k < |data| ==> '\n' !in data[k]
    requires exists k :: 0 <= k < |data| && !AllSpace(data[k])
    ensures DetectHeaderRow(Join(meta + [header] + data, "\n")) == Success(|meta|)
  {
    var lines := meta + [header] + data;
    var content := Join(lines, "\n");
    forall k | 0 <= k < |lines| ensures '\n' !in lines[k] {
      if k < |meta| { assert lines[k] == meta[k]; }
      else if k > |meta| { assert lines[k] == data[k - |meta| - 1]; }
    }
    SplitJoin(lines, '\n');
    assert Split(content, '\n') == lines;
    MetadataThenHeaderDetected(meta, header, data);
    var k :| 0 <= k < |data| && !AllSpace(data[k]);
    assert lines[|meta| + 1 + k] == data[k];
    assert DataFollows(lines, |meta|);
    if AllSpace(content) {
      var i :| 0 <= i < |header| && !IsSpace(header[i]);
      JoinedLineIsInside(lines, |meta|, i);
    }
  }

  /** A character of one line is a character of the newline-joined text. */
  lemma {:induction false} JoinedLineIsInside(lines: seq<string>, k: nat, i: nat)
    requires k < |lines| && i < |lines[k]|
    ensures exists p :: 0 <= p < |Join(lines, "\n")| && Join(lines, "\n")[p] == lines[k][i]
  {
    if |lines| == 1 {
      assert Join(lines, "\n")[i] == lines[k][i];
    } else if k == 0 {
      assert Join(lines, "\n")[i] == lines[0][i];
    } else {
      JoinedLineIsInside(lines[1..], k - 1, i);
      var p :| 0 <= p < |Join(lines[1..], "\n")| && Join(lines[1..], "\n")[p] == lines[1..][k - 1][i];
      var offset := |lines[0]| + 1;
      assert Join(lines, "\n")[offset + p] == Join(lines[1..], "\n")[p];
    }
  }

  /** Two columns are not enough: when no line has a second comma, as with a two-column
      "Question,Answer" header below a comma-free metadata line, the header is not
      recognised and the file is read from line 0. */
  lemma TwoColumnHeaderAfterMetadataNotDetected(meta: string, question: string, answer: string, data: seq<string>)
    requires ',' !in meta && ',' !in question && ',' !in answer
    requires MentionsKeyword(question)
    requires forall k :: 0 <= k < |data| ==> Count(data[k], ',') <= 1
    ensures HeaderRowIndex([meta, question + "," + answer] + data) == 0
  {
    var lines := [meta, question + "," + answer] + data;
    OneComma(question, answer);
    forall i | 0 <= i < |lines| ensures !HasManyColumns(lines[i]) {
      if i >= 2 { assert lines[i] == data[i - 2]; }
    }
  }

  lemma OneComma(a: string, b: string)
    requires ',' !in a && ',' !in b
    ensures Count(a + [','] + b, ',') == 1
  {
    CountAppend(a + [','], b, ',');
    CountAppend(a, [','], ',');
  }

  /** The text encodings the reader is asked to try. */
  datatype Encoding = Utf8 | Latin1 | Iso8859_1 | Cp1252

  datatype ParseOption = ParseOption(encoding: Encoding, delimiter: char)

  /** The candidates, in the order they are tried. */
  const ParseOptions: seq<ParseOption> := [
    ParseOption(Utf8, ','), ParseOption(Utf8, ';'), ParseOption(Utf8, '\t'), ParseOption(Utf8, '|'),
    ParseOption(Latin1, ','), ParseOption(Latin1, ';'),
    ParseOption(Iso8859_1, ','),
    ParseOption(Cp1252, ',')
  ]

  /** What one read of the file produced. */
  datatype ReadOutcome<T> =
    | Frame(table: T, columns: nat)  // a table with this many columns
    | EmptyDataError                 // pandas found nothing to parse
    | Raised(message: string)        // any other exception

  /** A read that ends the search: a table with columns, or EmptyDataError. */
  predicate Decisive<T>(o: ReadOutcome<T>) {
    (o.Frame? && o.columns > 0) || o.EmptyDataError?
  }

  /** The result when no candidate was decisive: the sniffing read, or the last error seen. */
  function AfterCandidates<T>(sniffed: ReadOutcome<T>, lastError: Option<string>): Result<T, IngestError> {
    if sniffed.Frame? && sniffed.columns > 0 then Success(sniffed.table)
    else Failure(Unparseable(lastError))
  }

  /**
   The candidate loop of `parse_csv` from index `from`: each candidate is read with `skip`
   leading lines skipped; the first table with columns is returned, EmptyDataError stops
   the search, any other exception is remembered and the search goes on, and a table
   without columns is passed over silently.
   */
  function ReadFirst<T>(options: seq<ParseOption>, read: (ParseOption, nat) -> ReadOutcome<T>, skip: nat,
                        from: nat, lastError: Option<string>, sniffed: ReadOutcome<T>): (r: Result<T, IngestError>)
    requires from <= |options|
    ensures r.Failure? ==> r.error == EmptyData || r.error.Unparseable?
    ensures forall k :: from <= k < |options| && Decisive(read(options[k], skip)) &&
                        (forall j :: from <= j < k ==> !Decisive(read(options[j], skip))) ==>
              r == (if read(options[k], skip).Frame? then Success(read(options[k], skip).table) else Failure(EmptyData))
    ensures (forall k :: from <= k < |options| ==> !Decisive(read(options[k], skip))) ==>
              (r.Success? <==> sniffed.Frame? && sniffed.columns > 0)
              && (r.Success? ==> r.value == sniffed.table)
              && (r.Failure? ==> r.error.Unparseable?)
    ensures r.Failure? && r.error.Unparseable? ==>
              (forall k :: from <= k < |options| ==> !Decisive(read(options[k], skip)))
              && ((exists k :: from <= k < |options| && read(options[k], skip).Raised?) ==>
                    r.error.lastError.Some? &&
                    exists k :: from <= k < |options| && read(options[k], skip) == Raised(r.error.lastError.value)
                                && forall j :: k < j < |options| ==> !read(options[j], skip).Raised?)
              && ((forall k :: from <= k < |options| ==> !read(options[k], skip).Raised?) ==>
                    r.error.lastError == lastError)
    decreases |options| - from
  {
    if from == |options| then AfterCandidates(sniffed, lastError)
    else
      match read(options[from], skip)
      case Frame(table, columns) =>
        if columns == 0 then ReadFirst(options, read, skip, from + 1, lastError, sniffed)
        else Success(table)
      case EmptyDataError => Failure(EmptyData)
      case Raised(message) => ReadFirst(options, read, skip, from + 1, Some(message), sniffed)
  }

  /**
   `parse_csv` on decoded text. `read(option, skip)` stands for one `read_csv` call with that
   encoding and delimiter and `skip` leading lines skipped; `sniffed` for the final read with
   automatic delimiter detection.
   */
  function ParseCsv<T>(content: string, read: (ParseOption, nat) -> ReadOutcome<T>,
                       sniffed: ReadOutcome<T>): (r: Result<T, IngestError>)
    ensures r == Failure(EmptyFile) <==> AllSpace(content)
    ensures r == Failure(NoDataAfterHeader) <==> DetectHeaderRow(content) == Failure(NoDataAfterHeader)
    ensures DetectHeaderRow(content).Success? ==>
              r == ReadFirst(ParseOptions, read, DetectHeaderRow(content).value, 0, None, sniffed)
  {
    match DetectHeaderRow(content)
    case Failure(e) => Failure(e)
    case Success(h) => ReadFirst(ParseOptions, read, h, 0, None, sniffed)
  }
}
