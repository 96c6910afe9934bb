/** The row loop of `process_csv_file` in analyze_phone_pii.py: each row that
    `csv.DictReader` yields is decoded, classified and either kept, skipped, or
    the end of the file. Reading and parsing the CSV text are not modelled: the
    loop is given the rows the reader yields, in order. */
module Rows {
  import opened Text
  import Classifier

  /** A cell of a row as `csv.DictReader` yields it: the field's text, or `None`
      for a column that a short line has no field for. */
  datatype Cell = Field(text: string) | Null

  /** A row as the reader yields it: a dict, as its key/value pairs in order. */
  type Row = seq<(string, Cell)>

  /** The keys of a row, in order. */
  function Keys(row: Row): (ks: seq<string>)
    ensures |ks| == |row| && forall k :: 0 <= k < |row| ==> ks[k] == row[k].0
  {
    if row == [] then [] else [row[0].0] + Keys(row[1..])
  }

  /** A dict has every key once. */
  predicate UniqueKeys(row: Row) {
    forall j, k :: 0 <= j < k < |row| ==> row[j].0 != row[k].0
  }

  /** `row.get(key)`: the value stored under `key`, if the row has it. */
  function Lookup(row: Row, key: string): (r: Option<Cell>)
    ensures r.Some? <==> key in Keys(row)
    ensures r.Some? ==> (key, r.value) in row
  {
    if row == [] then None
    else if row[0].0 == key then Some(row[0].1)
    else Lookup(row[1..], key)
  }

  /** `row[key] = value`: the value is replaced where the key stands, or the pair
      is added at the end. */
  function Set(row: Row, key: string, value: Cell): (r: Row)
  {
    if row == [] then [(key, value)]
    else if row[0].0 == key then [(key, value)] + row[1..]
    else [row[0]] + Set(row[1..], key, value)
  }

  /** After `row[key] = value` existing keys keep their place and a new key comes last. */
  lemma {:induction false} SetKeys(row: Row, key: string, value: Cell)
    ensures Keys(Set(row, key, value)) == if key in Keys(row) then Keys(row) else Keys(row) + [key]
  {
    if row != [] {
      assert Keys(row) == [row[0].0] + Keys(row[1..]);
      if row[0].0 != key {
        SetKeys(row[1..], key, value);
        assert Keys(Set(row, key, value)) == [row[0].0] + Keys(Set(row[1..], key, value));
      } else {
        assert Keys(Set(row, key, value)) == [key] + Keys(row[1..]);
      }
    }
  }

  /** After `row[key] = value` the key holds the new value and every other key keeps its value. */
  lemma {:induction false} SetLookup(row: Row, key: string, value: Cell, other: string)
    ensures Lookup(Set(row, key, value), key) == Some(value)
    ensures other != key ==> Lookup(Set(row, key, value), other) == Lookup(row, other)
  {
    if row != [] && row[0].0 != key {
      SetLookup(row[1..], key, value, other);
      assert Set(row, key, value)[1..] == Set(row[1..], key, value);
    } else if row != [] {
      assert Set(row, key, value)[1..] == row[1..];
    }
  }

  /** `row[key] = value` keeps every key of a dict unique. */
  lemma SetUniqueKeys(row: Row, key: string, value: Cell)
    requires UniqueKeys(row)
    ensures UniqueKeys(Set(row, key, value))
  {
    SetKeys(row, key, value);
    var ks := Keys(Set(row, key, value));
    forall j, k | 0 <= j < k < |ks| ensures ks[j] != ks[k] {
      if key !in Keys(row) && k == |ks| - 1 {
        assert ks[j] == Keys(row)[j];
      } else {
        assert ks[j] == Keys(row)[j] && ks[k] == Keys(row)[k];
      }
    }
  }

  /** A JSON value standing under `query`: a string, or any other value together with
      its truthiness (`null`, `false`, `0`, `""`, `[]` and `{}` are falsy). */
  datatype QueryValue = QText(text: string) | QOther(truthy: bool)

  /** What `json.loads` gives for the `additional_properties` text: a decode error, a
      value that is not an object, or an object with or without a `query` key. */
  datatype Decoded = Invalid | NotObject | Object(query: Option<QueryValue>)

  /** What the body of the row loop does with one row. */
  datatype Outcome =
    | Skip                              // `json.JSONDecodeError`: `continue`
    | Checked(pattern: Option<string>)  // the classifier ran and gave this
    | Abort                             // any other exception leaves the loop

  /** The column holding the audit record's JSON. */
  const PropertiesColumn := "additional_properties"

  /** The loop body for one row. A missing column reads as `'{}'`, the empty object,
      whose missing `query` reads as `''`. `json.loads(None)` raises `TypeError`;
      `.get` on a non-object and `.lower()` on a truthy non-string raise
      `AttributeError`: none of these is caught inside the loop. A falsy query
      makes the classifier return `None` before it reads the text. */
  function ExamineRow(row: Row, decode: string -> Decoded): (r: Outcome)
    ensures r.Abort? ==> Lookup(row, PropertiesColumn).Some?
    ensures r.Checked? && r.pattern.Some? ==> |r.pattern.value| > 0
  {
    var decoded: Option<Decoded> := match Lookup(row, PropertiesColumn)
      case None => Some(Object(None))
      case Some(Null) => None
      case Some(Field(t)) => Some(decode(t));
    match decoded
    case None => Abort
    case Some(Invalid) => Skip
    case Some(NotObject) => Abort
    case Some(Object(None)) => Checked(Classifier.FindPhonePattern(""))
    case Some(Object(Some(QText(q)))) => Checked(Classifier.FindPhonePattern(q))
    case Some(Object(Some(QOther(truthy)))) => if truthy then Abort else Checked(None)
  }

  /** The truthiness test `if matched_pattern:`. */
  predicate Truthy(p: Option<string>) {
    p.Some? && |p.value| > 0
  }

  /** The classifier never returns an empty string, so the truthiness test keeps
      exactly the rows it gives a result for. */
  lemma KeptIffClassified(row: Row, decode: string -> Decoded)
    ensures ExamineRow(row, decode).Checked? ==>
      (Truthy(ExamineRow(row, decode).pattern) <==> ExamineRow(row, decode).pattern.Some?)
  {
  }

  /** Invalid JSON skips the row; a missing `additional_properties` column gives no match. */
  lemma SkippedRows(row: Row, decode: string -> Decoded)
    ensures (exists t :: Lookup(row, PropertiesColumn) == Some(Field(t)) && decode(t) == Invalid) ==> ExamineRow(row, decode) == Skip
    ensures Lookup(row, PropertiesColumn).None? ==> ExamineRow(row, decode) == Checked(None)
  {
    EmptyQueryNoMatch();
  }

  /** The outcome of a row whose `additional_properties` cell is present: a decode
      error skips the row; a value that is not an object, or a truthy `query` that
      is not a string, raises an exception the loop does not catch; a missing or
      falsy non-string `query` gives no match; a string `query` is classified. A cell
      with no field (`None`) makes `json.loads` raise, which is not caught either. */
  lemma PresentCellOutcomes(row: Row, decode: string -> Decoded, t: string)
    ensures Lookup(row, PropertiesColumn) == Some(Null) ==> ExamineRow(row, decode) == Abort
    ensures Lookup(row, PropertiesColumn) == Some(Field(t)) ==>
      && (decode(t) == Invalid ==> ExamineRow(row, decode) == Skip)
      && (decode(t) == NotObject ==> ExamineRow(row, decode) == Abort)
      && (decode(t) == Object(None) ==> ExamineRow(row, decode) == Checked(None))
      && (decode(t) == Object(Some(QOther(true))) ==> ExamineRow(row, decode) == Abort)
      && (decode(t) == Object(Some(QOther(false))) ==> ExamineRow(row, decode) == Checked(None))
      && (forall q :: decode(t) == Object(Some(QText(q))) ==> ExamineRow(row, decode) == Checked(Classifier.FindPhonePattern(q)))
  {
    EmptyQueryNoMatch();
  }

  /** An empty query has no match. */
  lemma EmptyQueryNoMatch()
    ensures Classifier.FindPhonePattern("") == None
  {
  }

  /** The matches that the loop collects when `examine` is its body: the rows kept,
      each with its pattern, in row order, up to the first row that aborts the loop. */
  function Matches(rows: seq<Row>, examine: Row -> Outcome): (ms: seq<(Row, string)>)
    ensures |ms| <= |rows|
    decreases |rows|
  {
    if rows == [] then []
    else match examine(rows[0])
      case Abort => []
      case Skip => Matches(rows[1..], examine)
      case Checked(p) => (if Truthy(p) then [(rows[0], p.value)] else []) + Matches(rows[1..], examine)
  }

  /** The body of the row loop, for `additional_properties` texts that `json.loads`
      decodes as `decode` says. */
  function Examiner(decode: string -> Decoded): Row -> Outcome {
    (row: Row) => ExamineRow(row, decode)
  }

  /** The matches of a file. */
  function FileMatches(rows: seq<Row>, decode: string -> Decoded): seq<(Row, string)> {
    Matches(rows, Examiner(decode))
  }

  /** `process_csv_file`: the loop over the rows, leaving it at the first row whose
      handling raises an exception the loop does not catch, and returning the
      matches collected until then. */
  method ProcessCsvFile(rows: seq<Row>, decode: string -> Decoded) returns (matches: seq<(Row, string)>)
    ensures matches == FileMatches(rows, decode)
  {
    matches := CollectMatches(rows, Examiner(decode));
  }

  /** The row loop of `process_csv_file` with `examine` as its body: a kept row is
      appended with its pattern, a skipped or unmatched row is passed over, and an
      abort leaves the loop. */
  method CollectMatches(rows: seq<Row>, examine: Row -> Outcome) returns (matches: seq<(Row, string)>)
    ensures matches == Matches(rows, examine)
  {
    matches := [];
    var i := 0;
    while i < |rows|
      invariant i <= |rows|
      invariant matches + Matches(rows[i..], examine) == Matches(rows, examine)
    {
      var outcome := examine(rows[i]);
      MatchesStep(rows, i, examine);
      match outcome {
        case Abort =>
          assert Matches(rows[i..], examine) == [];
          break;
        case Skip =>
        case Checked(p) =>
          if Truthy(p) {
            matches := matches + [(rows[i], p.value)];
          }
      }
      i := i + 1;
    }
  }

  /** The loop at row `i`: an abort ends it, a skip goes on, a checked row is kept
      when its pattern is truthy. */
  lemma MatchesStep(rows: seq<Row>, i: nat, examine: Row -> Outcome)
    requires i < |rows|
    ensures Matches(rows[i..], examine) ==
      match examine(rows[i])
      case Abort => []
      case Skip => Matches(rows[i + 1..], examine)
      case Checked(p) => (if Truthy(p) then [(rows[i], p.value)] else []) + Matches(rows[i + 1..], examine)
  {
    assert rows[i..][0] == rows[i] && rows[i..][1..] == rows[i + 1..];
  }

  /** A row that is not kept changes nothing: removing it gives the same matches.
      This covers rows with invalid JSON, rows without the column and rows whose
      query is empty or matches nothing. */
  lemma {:induction false} UnkeptRowIsTransparent(rows: seq<Row>, i: nat, examine: Row -> Outcome)
    requires i < |rows|
    requires examine(rows[i]).Skip? || (examine(rows[i]).Checked? && !Truthy(examine(rows[i]).pattern))
    ensures Matches(rows, examine) == Matches(rows[..i] + rows[i + 1..], examine)
  {
    if i > 0 {
      UnkeptRowIsTransparent(rows[1..], i - 1, examine);
      var rest := rows[..i] + rows[i + 1..];
      assert rest[0] == rows[0] && rest[1..] == rows[1..][..i - 1] + rows[1..][i..];
    } else {
      assert rows[..i] + rows[i + 1..] == rows[1..];
    }
  }

  /** A row whose handling raises ends the file: the matches are those of the rows
      before it, and no later row is examined. */
  lemma {:induction false} AbortKeepsEarlierMatches(rows: seq<Row>, i: nat, examine: Row -> Outcome)
    requires i < |rows| && examine(rows[i]) == Abort
    ensures Matches(rows, examine) == Matches(rows[..i], examine)
  {
    if i > 0 {
      AbortKeepsEarlierMatches(rows[1..], i - 1, examine);
      assert rows[..i][0] == rows[0] && rows[..i][1..] == rows[1..][..i - 1];
    }
  }

  /** Matches come in row order: when the first part of the file raises nothing, the
      matches of the whole file are those of the first part followed by those of the rest. */
  lemma {:induction false} MatchesAppend(a: seq<Row>, b: seq<Row>, examine: Row -> Outcome)
    requires forall k :: 0 <= k < |a| ==> examine(a[k]) != Abort
    ensures Matches(a + b, examine) == Matches(a, examine) + Matches(b, examine)
  {
    if a != [] {
      assert (a + b)[0] == a[0] && (a + b)[1..] == a[1..] + b;
      assert examine(a[0]) != Abort;
      MatchesAppend(a[1..], b, examine);
    } else {
      assert a + b == b;
    }
  }

  /** Every match is a row of the file kept with a non-empty pattern that the loop body
      gave it; conversely every row with a result is kept unless an earlier row aborts. */
  lemma {:induction false} MatchesAreKeptRows(rows: seq<Row>, examine: Row -> Outcome)
    ensures forall m <- Matches(rows, examine) :: m.0 in rows && examine(m.0) == Checked(Some(m.1)) && |m.1| > 0
    ensures forall k :: 0 <= k < |rows| && examine(rows[k]).Checked? && Truthy(examine(rows[k]).pattern) ==>
      (forall j :: 0 <= j < k ==> examine(rows[j]) != Abort) ==>
      (rows[k], examine(rows[k]).pattern.value) in Matches(rows, examine)
  {
    if rows != [] {
      MatchesAreKeptRows(rows[1..], examine);
      forall k | 1 <= k < |rows| ensures rows[k] == rows[1..][k - 1] {
      }
    }
  }
}
