/** The upload path: `update_output` hands a non-empty upload to
    `parse_contents`, which splits the data URL, decodes its payload, picks a
    reader from the file name and, only when that reader produces a table,
    replaces the table held by the process-wide `CentralStorage`. The foreign
    decoders (`base64.b64decode`, UTF-8 decoding, `pd.read_csv`,
    `pd.read_excel`) are parameters: partial functions that give a value or fail. */
module Upload {
  import opened Wrappers
  import opened Strings
  import opened Tables

  newtype byte = x: int | 0 <= x < 256
  type Bytes = seq<byte>

  /** The foreign decoders; `None` stands for "raised an exception". */
  datatype Decoders<V> = Decoders(
    b64decode: string -> Option<Bytes>,
    utf8decode: Bytes -> Option<string>,
    readCsv: string -> Option<Table<V>>,
    readExcel: Bytes -> Option<Table<V>>)

  /** What the two pandas readers give back is a well-formed table. */
  ghost predicate YieldsFrames<V>(d: Decoders<V>) {
    (forall text :: d.readCsv(text).Some? ==> WellFormed(d.readCsv(text).value)) &&
    (forall data :: d.readExcel(data).Some? ==> WellFormed(d.readExcel(data).value))
  }

  datatype Format = Csv | Excel | Unrecognized

  /** `'csv' in filename` is tested before `'xls' in filename`. */
  function FormatOf(filename: string): (f: Format)
    ensures f == Csv <==> Contains(filename, "csv")
    ensures f == Excel ==> Contains(filename, "xls")
  {
    if Contains(filename, "csv") then Csv
    else if Contains(filename, "xls") then Excel
    else Unrecognized
  }

  /** The format is chosen by a substring anywhere in the name, csv first. */
  lemma FormatBySubstring(filename: string)
    ensures FormatOf(filename) == Csv <==> exists i: nat :: OccursAt(filename, "csv", i)
    ensures FormatOf(filename) == Excel <==>
              (forall i: nat :: !OccursAt(filename, "csv", i)) &&
              exists i: nat :: OccursAt(filename, "xls", i)
    ensures FormatOf(filename) == Unrecognized <==>
              forall i: nat :: !OccursAt(filename, "csv", i) && !OccursAt(filename, "xls", i)
  {
    ContainsIffOccurs(filename, "csv");
    ContainsIffOccurs(filename, "xls");
  }

  /** The body of the `try`: `None` when it raises. With an unrecognised name
      `df` is never bound, so the assignment to the store raises. */
  function DecodeAs<V>(d: Decoders<V>, format: Format, decoded: Bytes): (r: Option<Table<V>>)
    ensures format == Unrecognized ==> r.None?
    ensures format == Csv && r.Some? ==> d.utf8decode(decoded).Some?
    ensures YieldsFrames(d) && r.Some? ==> WellFormed(r.value)
  {
    match format
    case Csv =>
      (match d.utf8decode(decoded)
       case None => None
       case Some(text) => d.readCsv(text))
    case Excel => d.readExcel(decoded)
    case Unrecognized => None
  }

  /** How `parse_contents` ends: an exception raised before the `try`, the
      `except` path, or a decoded table. */
  datatype Outcome<V> = Raised(e: Exception) | Failed | Decoded(t: Table<V>)

  function Parse<V>(d: Decoders<V>, contents: string, filename: string): (r: Outcome<V>)
    ensures r.Raised? ==> r.e == ValueError || r.e == Base64Error
    ensures !r.Raised? ==> Count(contents, ',') == 1
    ensures r.Decoded? ==> FormatOf(filename) != Unrecognized
  {
    var parts := Split(contents, ',');
    if |parts| != 2 then Raised(ValueError)
    else
      match d.b64decode(parts[1])
      case None => Raised(Base64Error)
      case Some(decoded) =>
        match DecodeAs(d, FormatOf(filename), decoded)
        case None => Failed
        case Some(t) => Decoded(t)
  }

  /** What each outcome of `parse_contents` means: a table is decoded
      exactly when the URL splits in two, the payload is base64, and the
      reader chosen by the name (after UTF-8 decoding for CSV) returns that
      table; the `except` path is taken exactly when the split and base64
      succeed but the chosen step fails or no reader is chosen. */
  lemma ParseCases<V>(d: Decoders<V>, contents: string, filename: string, t: Table<V>)
    ensures Parse(d, contents, filename) == Decoded(t) <==>
              && Count(contents, ',') == 1
              && var payload := d.b64decode(Split(contents, ',')[1]);
              && payload.Some?
              && ((FormatOf(filename) == Csv && d.utf8decode(payload.value).Some? &&
                   d.readCsv(d.utf8decode(payload.value).value) == Some(t)) ||
                  (FormatOf(filename) == Excel && d.readExcel(payload.value) == Some(t)))
    ensures Parse(d, contents, filename) == Failed <==>
              && Count(contents, ',') == 1
              && var payload := d.b64decode(Split(contents, ',')[1]);
              && payload.Some?
              && match FormatOf(filename)
                 case Csv => d.utf8decode(payload.value).None? ||
                             d.readCsv(d.utf8decode(payload.value).value).None?
                 case Excel => d.readExcel(payload.value).None?
                 case Unrecognized => true
    ensures Parse(d, contents, filename) == Raised(Base64Error) <==>
              Count(contents, ',') == 1 && d.b64decode(Split(contents, ',')[1]).None?
  {
  }

  /** The unpacking of `contents.split(',')` raises exactly when the data URL
      does not hold exactly one comma; otherwise the payload is what follows it. */
  lemma ParseNeedsOneComma<V>(d: Decoders<V>, contents: string, filename: string)
    ensures Parse(d, contents, filename) == Raised(ValueError) <==> Count(contents, ',') != 1
    ensures Count(contents, ',') == 1 ==>
              var parts := Split(contents, ',');
              contents == parts[0] + "," + parts[1] && ',' !in parts[1]
  {
    if Count(contents, ',') == 1 {
      var parts := Split(contents, ',');
      JoinSplit(contents, ',');
      assert Join([','], parts) == parts[0] + [','] + Join([','], parts[1..]);
      assert parts[1..] == [parts[1]];
    }
  }

  /** A name containing "csv" takes the CSV path even if it also contains
      "xls": the Excel reader plays no part. */
  lemma CsvBeforeXls<V>(d: Decoders<V>, readExcel: Bytes -> Option<Table<V>>, contents: string, filename: string)
    requires Contains(filename, "csv")
    ensures Parse(d, contents, filename) == Parse(d.(readExcel := readExcel), contents, filename)
  {
  }

  /** "xls" is only tried when the name holds no "csv": the CSV path plays no part. */
  lemma XlsOnlyWithoutCsv<V>(d: Decoders<V>, utf8decode: Bytes -> Option<string>,
                             readCsv: string -> Option<Table<V>>, contents: string, filename: string)
    requires !Contains(filename, "csv") && Contains(filename, "xls")
    ensures Parse(d, contents, filename)
         == Parse(d.(utf8decode := utf8decode, readCsv := readCsv), contents, filename)
  {
  }

  /** A name with neither substring never yields a table, whatever the readers do. */
  lemma UnrecognizedNeverDecodes<V>(d: Decoders<V>, contents: string, filename: string)
    requires !Contains(filename, "csv") && !Contains(filename, "xls")
    ensures !Parse(d, contents, filename).Decoded?
    ensures Count(contents, ',') == 1 && d.b64decode(Split(contents, ',')[1]).Some? ==>
              Parse(d, contents, filename) == Failed
  {
  }

  datatype Message = FileUploaded(filename: string) | ProcessingError | NoFileLoaded

  /** The second output, the dropdown's options: the column names, or (on the
      `except` path) the empty DataFrame the code returns in their place. */
  datatype Options = ColumnNames(names: seq<Name>) | EmptyDataFrame

  datatype Reply = Reply(children: Message, options: Options)

  /** The process-wide store of the uploaded table. */
  class CentralStorage<V> {
    var sourcedf: Table<V>

    ghost predicate Valid()
      reads this
    {
      WellFormed(sourcedf)
    }

    constructor ()
      ensures Valid() && sourcedf == EmptyFrame()
    {
      sourcedf := EmptyFrame();
    }
  }

  /** What one call of `parse_contents` returns and leaves in the store:
      the store changes only when a table was decoded. */
  ghost predicate ParseEffect<V>(outcome: Outcome<V>, filename: string,
                                 before: Table<V>, after: Table<V>, r: Result<Reply, Exception>)
  {
    match outcome
    case Raised(e) => r == Err(e) && after == before
    case Failed => r == Ok(Reply(ProcessingError, EmptyDataFrame)) && after == before
    case Decoded(t) => r == Ok(Reply(FileUploaded(filename), ColumnNames(t.columns))) && after == t
  }

  method ParseContents<V>(central: CentralStorage<V>, d: Decoders<V>,
                          contents: string, filename: string, date: int)
    returns (r: Result<Reply, Exception>)
    requires central.Valid() && YieldsFrames(d)
    modifies central
    ensures central.Valid()
    ensures ParseEffect(Parse(d, contents, filename), filename, old(central.sourcedf), central.sourcedf, r)
  {
    var parts := Split(contents, ',');
    if |parts| != 2 {
      return Err(ValueError);
    }
    var contentString := parts[1];
    var decoded := d.b64decode(contentString);
    if decoded.None? {
      return Err(Base64Error);
    }
    var df: Option<Table<V>> := None;
    if Contains(filename, "csv") {
      var text := d.utf8decode(decoded.value);
      if text.Some? {
        df := d.readCsv(text.value);
      }
    } else if Contains(filename, "xls") {
      df := d.readExcel(decoded.value);
    }
    if df.None? {
      return Ok(Reply(ProcessingError, EmptyDataFrame));
    }
    central.sourcedf := df.value;
    return Ok(Reply(FileUploaded(filename), ColumnNames(df.value.columns)));
  }

  method UpdateOutput<V>(central: CentralStorage<V>, d: Decoders<V>,
                         contents: Option<string>, filename: string, lastModified: int)
    returns (r: Result<Reply, Exception>)
    requires central.Valid() && YieldsFrames(d)
    modifies central
    ensures central.Valid()
    ensures contents.None? ==>
              r == Ok(Reply(NoFileLoaded, ColumnNames([]))) && central.sourcedf == old(central.sourcedf)
    ensures contents.Some? ==>
              ParseEffect(Parse(d, contents.value, filename), filename, old(central.sourcedf), central.sourcedf, r)
  {
    if contents.Some? {
      r := ParseContents(central, d, contents.value, filename, lastModified);
    } else {
      r := Ok(Reply(NoFileLoaded, ColumnNames([])));
    }
  }
}
