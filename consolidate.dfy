/** The consolidation in `main` of analyze_phone_pii.py: the input files are
    visited in order, the matches of each present file are tagged with their
    pattern and appended to one output, the output's columns are fixed by the
    first file with matches, and without any match the header is taken from the
    first readable input file, or else is a fixed line. Which files exist, what
    their rows are and whether their header can be read are given as inputs. */
module Consolidate {
  import opened Text
  import opened Rows

  /** The column `main` adds to every output row. */
  const MatchColumn := "matched_phone_pattern"

  /** The header line written when no input file gives a header. */
  const DefaultHeaderLine := "id,org_id,user_id,action,object_type,object_id,additional_properties,created_at,matched_phone_pattern\n"

  /** An entry of the file list: whether it exists, the rows the reader yields for it
      (up to a read error, if one happens), and its header row when it is opened a
      second time for the fallback header (`None` when that fails or the file is empty). */
  datatype InputFile = InputFile(present: bool, rows: seq<Row>, header: Option<seq<string>>)

  /** The header of the output file: columns written by `DictWriter.writeheader`, or
      the fixed line written as it is. */
  datatype Header = Columns(names: seq<string>) | Literal(line: string)

  /** What `main` writes: the header and the rows. */
  datatype Report = Report(header: Header, rows: seq<Row>)

  /** The copy of a matched row with the new column set to its pattern. */
  function Tag(m: (Row, string)): Row {
    Set(m.0, MatchColumn, Field(m.1))
  }

  /** The tagged copies of a file's matches, in order. */
  function TaggedRows(matches: seq<(Row, string)>): (rows: seq<Row>)
    ensures |rows| == |matches|
  {
    if matches == [] then [] else TaggedRows(matches[..|matches| - 1]) + [Tag(matches[|matches| - 1])]
  }

  /** The `k`-th tagged row is the tagged copy of the `k`-th match. */
  lemma {:induction false} TaggedRowAt(matches: seq<(Row, string)>, k: nat)
    requires k < |matches|
    ensures TaggedRows(matches)[k] == Tag(matches[k])
  {
    if k < |matches| - 1 {
      TaggedRowAt(matches[..|matches| - 1], k);
    }
  }

  /** What one file adds to the output: the tagged copies of its matches, or nothing
      when it does not exist. */
  function FileOutput(f: InputFile, examine: Row -> Outcome): seq<Row> {
    if f.present then TaggedRows(Matches(f.rows, examine)) else []
  }

  /** `all_matching_rows` after the files in `files` have been visited. */
  function AllOutputRows(files: seq<InputFile>, examine: Row -> Outcome): seq<Row> {
    if files == [] then []
    else AllOutputRows(files[..|files| - 1], examine) + FileOutput(files[|files| - 1], examine)
  }

  /** The file has matches. */
  predicate HasMatches(f: InputFile, examine: Row -> Outcome) {
    f.present && Matches(f.rows, examine) != []
  }

  /** `fieldnames` after the files in `files` have been visited: set by the first file
      with matches, from the keys of its first match, with the new column added. */
  function FirstSchema(files: seq<InputFile>, examine: Row -> Outcome): (r: Option<seq<string>>)
    ensures r.Some? ==> |r.value| > 0 && r.value[|r.value| - 1] == MatchColumn
  {
    if files == [] then None
    else
      var earlier := FirstSchema(files[..|files| - 1], examine);
      var f := files[|files| - 1];
      if earlier.None? && HasMatches(f, examine) then Some(Keys(Matches(f.rows, examine)[0].0) + [MatchColumn])
      else earlier
  }

  /** The header the fallback loop finds: that of the first present file whose header
      can be read, with the new column added. */
  function FallbackFieldnames(files: seq<InputFile>): (r: Option<seq<string>>)
    ensures r.Some? ==> |r.value| > 0 && r.value[|r.value| - 1] == MatchColumn
  {
    if files == [] then None
    else if files[0].present && files[0].header.Some? then Some(files[0].header.value + [MatchColumn])
    else FallbackFieldnames(files[1..])
  }

  /** What `main` writes for the given files. */
  function Consolidated(files: seq<InputFile>, examine: Row -> Outcome): (r: Report)
    ensures r.rows == AllOutputRows(files, examine)
    ensures r.rows != [] ==> FirstSchema(files, examine).Some? && r.header == Columns(FirstSchema(files, examine).value)
    ensures r.header.Columns? ==> |r.header.names| > 0 && r.header.names[|r.header.names| - 1] == MatchColumn
  {
    var rows := AllOutputRows(files, examine);
    var fieldnames := FirstSchema(files, examine);
    if rows == [] then
      var names := if fieldnames.None? then FallbackFieldnames(files) else fieldnames;
      Report(if names.Some? then Columns(names.value) else Literal(DefaultHeaderLine), [])
    else
      RowsIffSchema(files, examine);
      Report(Columns(fieldnames.value), rows)
  }

  /** Every output row comes from a file with matches: the `k`-th output row is the
      tagged copy of a match of some file. */
  lemma {:induction false} OutputRowsFromMatches(files: seq<InputFile>, examine: Row -> Outcome, k: nat)
    requires k < |AllOutputRows(files, examine)|
    ensures exists j, m ::
      && 0 <= j < |files| && HasMatches(files[j], examine)
      && m in Matches(files[j].rows, examine) && AllOutputRows(files, examine)[k] == Tag(m)
  {
    var n := |files| - 1;
    var front := AllOutputRows(files[..n], examine);
    if k < |front| {
      OutputRowsFromMatches(files[..n], examine, k);
      var j, m :|
        && 0 <= j < n && HasMatches(files[..n][j], examine)
        && m in Matches(files[..n][j].rows, examine) && front[k] == Tag(m);
      assert files[..n][j] == files[j];
    } else {
      var ms := Matches(files[n].rows, examine);
      TaggedRowAt(ms, k - |front|);
      assert ms[k - |front|] in ms;
    }
  }

  /** There are output rows exactly when `fieldnames` has been set. */
  lemma {:induction false} RowsIffSchema(files: seq<InputFile>, examine: Row -> Outcome)
    ensures AllOutputRows(files, examine) != [] <==> FirstSchema(files, examine).Some?
  {
    if files != [] {
      RowsIffSchema(files[..|files| - 1], examine);
    }
  }

  /** The loop of `main` over the input files, then the choice of the header. */
  method ConsolidateFiles(files: seq<InputFile>, decode: string -> Decoded) returns (report: Report)
    ensures report == Consolidated(files, Examiner(decode))
  {
    ghost var examine := Examiner(decode);
    var all: seq<Row> := [];
    var fieldnames: Option<seq<string>> := None;
    var i := 0;
    while i < |files|
      invariant i <= |files|
      invariant all == AllOutputRows(files[..i], examine)
      invariant fieldnames == FirstSchema(files[..i], examine)
    {
      assert files[..i + 1][..i] == files[..i];
      all, fieldnames := VisitFile(all, fieldnames, files[i], decode);
      i := i + 1;
    }
    assert files[..i] == files;
    if all == [] {
      if fieldnames.None? {
        fieldnames := ReadFallbackHeader(files);
      }
      if fieldnames.Some? {
        report := Report(Columns(fieldnames.value), []);
      } else {
        report := Report(Literal(DefaultHeaderLine), []);
      }
    } else {
      RowsIffSchema(files, examine);
      report := Report(Columns(fieldnames.value), all);
    }
  }

  /** The body of the file loop: a missing file is skipped; otherwise its matches are
      collected, `fieldnames` is set if it is still unset and there are matches, and
      a tagged copy of each match is appended. */
  method VisitFile(all: seq<Row>, fieldnames: Option<seq<string>>, f: InputFile, decode: string -> Decoded)
    returns (all': seq<Row>, fieldnames': Option<seq<string>>)
    ensures all' == all + FileOutput(f, Examiner(decode))
    ensures fieldnames' == if fieldnames.None? && HasMatches(f, Examiner(decode))
      then Some(Keys(FileMatches(f.rows, decode)[0].0) + [MatchColumn]) else fieldnames
  {
    ghost var examine := Examiner(decode);
    all', fieldnames' := all, fieldnames;
    if !f.present {
      return;
    }
    var matches := ProcessCsvFile(f.rows, decode);
    if matches != [] {
      if fieldnames'.None? {
        fieldnames' := Some(Keys(matches[0].0) + [MatchColumn]);
      }
      all' := AppendTagged(all', matches);
    }
  }

  /** The inner loop of the file loop: a tagged copy of each match is appended, in order. */
  method AppendTagged(all: seq<Row>, matches: seq<(Row, string)>) returns (all': seq<Row>)
    ensures all' == all + TaggedRows(matches)
  {
    all' := all;
    var j := 0;
    while j < |matches|
      invariant j <= |matches|
      invariant all' == all + TaggedRows(matches[..j])
    {
      assert matches[..j + 1][..j] == matches[..j];
      var (row, pattern) := matches[j];
      var copy := row;
      copy := Set(copy, MatchColumn, Field(pattern));
      all' := all' + [copy];
      j := j + 1;
    }
    assert matches[..j] == matches;
  }

  /** The fallback loop: the files are tried in order, and the first present one whose
      header can be read gives the columns. */
  method ReadFallbackHeader(files: seq<InputFile>) returns (fieldnames: Option<seq<string>>)
    ensures fieldnames == FallbackFieldnames(files)
  {
    fieldnames := None;
    var i := 0;
    while i < |files|
      invariant i <= |files|
      invariant FallbackFieldnames(files) == FallbackFieldnames(files[i..])
    {
      assert files[i..][1..] == files[i + 1..];
      if files[i].present && files[i].header.Some? {
        fieldnames := Some(files[i].header.value + [MatchColumn]);
        break;
      }
      i := i + 1;
    }
  }

  /** Visiting more files only appends: the output of `a + b` is that of `a` followed by
      that of `b`, so rows come in file order, then in row order within a file. */
  lemma {:induction false} AllOutputRowsAppend(a: seq<InputFile>, b: seq<InputFile>, examine: Row -> Outcome)
    ensures AllOutputRows(a + b, examine) == AllOutputRows(a, examine) + AllOutputRows(b, examine)
    decreases |b|
  {
    if b == [] {
      assert a + b == a;
    } else {
      var n := |b| - 1;
      var last := FileOutput(b[n], examine);
      assert (a + b)[..|a + b| - 1] == a + b[..n] && (a + b)[|a + b| - 1] == b[n];
      var front := AllOutputRows(a, examine);
      var middle := AllOutputRows(b[..n], examine);
      assert AllOutputRows(a + b, examine) == AllOutputRows(a + b[..n], examine) + last;
      AllOutputRowsAppend(a, b[..n], examine);
      assert AllOutputRows(b, examine) == middle + last;
      assert (front + middle) + last == front + (middle + last);
    }
  }

  /** `fieldnames` is assigned once: after `a + b` it is what `a` set, and only when `a`
      left it unset does `b` decide it. */
  lemma {:induction false} FirstSchemaAppend(a: seq<InputFile>, b: seq<InputFile>, examine: Row -> Outcome)
    ensures FirstSchema(a + b, examine) == if FirstSchema(a, examine).Some? then FirstSchema(a, examine) else FirstSchema(b, examine)
    decreases |b|
  {
    if b == [] {
      assert a + b == a;
    } else {
      var n := |b| - 1;
      assert (a + b)[..|a + b| - 1] == a + b[..n] && (a + b)[|a + b| - 1] == b[n];
      FirstSchemaAppend(a, b[..n], examine);
    }
  }

  /** A missing file is skipped: leaving it out of the list changes neither the rows
      nor `fieldnames`. */
  lemma MissingFileSkipped(a: seq<InputFile>, f: InputFile, b: seq<InputFile>, examine: Row -> Outcome)
    requires !f.present
    ensures AllOutputRows(a + [f] + b, examine) == AllOutputRows(a + b, examine)
    ensures FirstSchema(a + [f] + b, examine) == FirstSchema(a + b, examine)
  {
    assert AllOutputRows(a + [f], examine) == AllOutputRows(a, examine) && FirstSchema(a + [f], examine) == FirstSchema(a, examine) by {
      assert (a + [f])[..|a + [f]| - 1] == a;
    }
    AllOutputRowsAppend(a + [f], b, examine);
    AllOutputRowsAppend(a, b, examine);
    FirstSchemaAppend(a + [f], b, examine);
    FirstSchemaAppend(a, b, examine);
  }

  /** `fieldnames` is unset while no file has matches. */
  lemma {:induction false} NoMatchesNoSchema(files: seq<InputFile>, examine: Row -> Outcome)
    requires forall j :: 0 <= j < |files| ==> !HasMatches(files[j], examine)
    ensures FirstSchema(files, examine).None?
  {
    if files != [] {
      NoMatchesNoSchema(files[..|files| - 1], examine);
    }
  }

  /** `fieldnames` comes from the first file with matches: the keys of its first
      matching row, then the new column. */
  lemma {:induction false} SchemaFromFirstMatchingFile(files: seq<InputFile>, i: nat, examine: Row -> Outcome)
    requires i < |files| && HasMatches(files[i], examine)
    requires forall j :: 0 <= j < i ==> !HasMatches(files[j], examine)
    ensures FirstSchema(files, examine) == Some(Keys(Matches(files[i].rows, examine)[0].0) + [MatchColumn])
  {
    var n := |files| - 1;
    if i < n {
      SchemaFromFirstMatchingFile(files[..n], i, examine);
    } else {
      NoMatchesNoSchema(files[..n], examine);
    }
  }

  /** The fallback header is that of the first present file whose header can be read,
      and there is none when no file qualifies. */
  lemma {:induction false} FallbackFromFirstReadable(files: seq<InputFile>, i: nat)
    requires i <= |files|
    requires forall j :: 0 <= j < i ==> !(files[j].present && files[j].header.Some?)
    ensures i < |files| && files[i].present && files[i].header.Some? ==>
      FallbackFieldnames(files) == Some(files[i].header.value + [MatchColumn])
    ensures i == |files| ==> FallbackFieldnames(files) == None
  {
    if i > 0 {
      FallbackFromFirstReadable(files[1..], i - 1);
    }
  }

  /** Each output row is a copy of a matching row in which only `matched_phone_pattern`
      is set, to the pattern: every other column keeps its value and its place. */
  lemma TagSetsOnlyTheColumn(m: (Row, string), other: string)
    requires UniqueKeys(m.0)
    ensures UniqueKeys(Tag(m))
    ensures Lookup(Tag(m), MatchColumn) == Some(Field(m.1))
    ensures other != MatchColumn ==> Lookup(Tag(m), other) == Lookup(m.0, other)
    ensures Keys(Tag(m)) == if MatchColumn in Keys(m.0) then Keys(m.0) else Keys(m.0) + [MatchColumn]
  {
    SetKeys(m.0, MatchColumn, Field(m.1));
    SetLookup(m.0, MatchColumn, Field(m.1), other);
    SetUniqueKeys(m.0, MatchColumn, Field(m.1));
  }

  /** With no match at all, the header is the fallback one: from the first readable
      input file, or the fixed line when there is none. */
  lemma HeaderWithoutMatches(files: seq<InputFile>, examine: Row -> Outcome)
    requires forall j :: 0 <= j < |files| ==> !HasMatches(files[j], examine)
    ensures Consolidated(files, examine).rows == []
    ensures Consolidated(files, examine).header ==
      if FallbackFieldnames(files).Some? then Columns(FallbackFieldnames(files).value) else Literal(DefaultHeaderLine)
  {
    NoMatchesNoSchema(files, examine);
    RowsIffSchema(files, examine);
  }
}
