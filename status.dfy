/**
 * The older status module (`src/status.rs`): its parser keeps every piece
 * of the newline split, so output ending in a newline (as git's always
 * does) and empty output both yield a trailing empty record.  Running git
 * and drawing the screen are not modelled.
 */
module Status {
  import opened Strings

  /** One line of git's status output, without section flags. */
  datatype FileIndex = FileIndex(status: string, name: string)

  /** One line as a record: text before the first tab, text after the last tab. */
  function ParseLine(line: string): (r: FileIndex)
    ensures IsTextBeforeFirst(line, '\t', r.status)
    ensures IsTextAfterLast(line, '\t', r.name)
  {
    FirstPiece(line, '\t');
    LastPiece(line, '\t');
    var statusAndFile := Split(line, '\t');
    FileIndex(statusAndFile[0], statusAndFile[|statusAndFile| - 1])
  }

  /**
   * The record of one line: the status is the text before the first tab and
   * the name the text after the last tab; a line without a tab gives
   * status == name == line.
   */
  lemma ParseLineFields(line: string)
    ensures IsTextBeforeFirst(line, '\t', ParseLine(line).status)
    ensures IsTextAfterLast(line, '\t', ParseLine(line).name)
    ensures '\t' !in line ==> ParseLine(line).status == line == ParseLine(line).name
  {
    FirstPiece(line, '\t');
    LastPiece(line, '\t');
    if '\t' !in line {
      SplitWithoutSeparator(line, '\t');
    }
  }

  /** What `file_indexes_for_output` returns: one record per piece of the newline split. */
  function ParseOutput(output: string): (indexes: seq<FileIndex>)
    ensures |indexes| == CountChar(output, '\n') + 1
  {
    var fileResults := Split(output, '\n');
    seq(|fileResults|, i requires 0 <= i < |fileResults| => ParseLine(fileResults[i]))
  }

  /** `file_indexes_for_output`: split on newlines and parse every piece in order. */
  method FileIndexesForOutput(output: string) returns (fileIndexes: seq<FileIndex>)
    ensures fileIndexes == ParseOutput(output)
  {
    var fileResults := Split(output, '\n');
    fileIndexes := [];
    for i := 0 to |fileResults|
      invariant fileIndexes == seq(i, k requires 0 <= k < i => ParseLine(fileResults[k]))
    {
      var statusAndFile := Split(fileResults[i], '\t');
      var status := statusAndFile[0];
      var fileName := statusAndFile[|statusAndFile| - 1];
      fileIndexes := fileIndexes + [FileIndex(status, fileName)];
    }
  }

  /** `staged_file_indexes`, given the output of `git diff --cached --name-status`. */
  method StagedFileIndexes(output: string) returns (indexes: seq<FileIndex>)
    ensures indexes == ParseOutput(output)
    ensures (output == [] || output[|output| - 1] == '\n') ==>
      indexes[|indexes| - 1] == FileIndex("", "")
  {
    indexes := FileIndexesForOutput(output);
    if output == [] || output[|output| - 1] == '\n' {
      TrailingEmptyRecord(output);
    }
  }

  /** `modified_file_indexes`, given the output of `git diff --name-status`. */
  method ModifiedFileIndexes(output: string) returns (indexes: seq<FileIndex>)
    ensures indexes == ParseOutput(output)
    ensures (output == [] || output[|output| - 1] == '\n') ==>
      indexes[|indexes| - 1] == FileIndex("", "")
  {
    indexes := FileIndexesForOutput(output);
    if output == [] || output[|output| - 1] == '\n' {
      TrailingEmptyRecord(output);
    }
  }

  /**
   * Output that is empty or ends in a newline yields a final record with
   * empty status and empty name.
   */
  lemma TrailingEmptyRecord(output: string)
    requires output == [] || output[|output| - 1] == '\n'
    ensures var indexes := ParseOutput(output);
      indexes[|indexes| - 1] == FileIndex("", "")
  {
    LastPieceEmpty(output, '\n');
    SplitWithoutSeparator([], '\t');
  }

  /**
   * Records follow the lines in order; each status is the text before the
   * first tab and each name the text after the last tab, and a line without
   * a tab gives status == name == line.
   */
  lemma RecordsFollowLines(output: string)
    ensures var pieces := Split(output, '\n');
      && Join(pieces, '\n') == output
      && forall i :: 0 <= i < |pieces| ==>
        && IsTextBeforeFirst(pieces[i], '\t', ParseOutput(output)[i].status)
        && IsTextAfterLast(pieces[i], '\t', ParseOutput(output)[i].name)
        && ('\t' !in pieces[i] ==>
              ParseOutput(output)[i].status == pieces[i] == ParseOutput(output)[i].name)
  {
    var pieces := Split(output, '\n');
    JoinSplit(output, '\n');
    forall i | 0 <= i < |pieces|
      ensures IsTextBeforeFirst(pieces[i], '\t', ParseOutput(output)[i].status)
      ensures IsTextAfterLast(pieces[i], '\t', ParseOutput(output)[i].name)
      ensures '\t' !in pieces[i] ==>
        ParseOutput(output)[i].status == pieces[i] == ParseOutput(output)[i].name
    {
      ParseLineFields(pieces[i]);
    }
  }

  /**
   * A final line without a newline is kept: appending it to complete output
   * replaces the trailing empty record by that line's record.
   */
  lemma UnterminatedLineIsKept(output: string, line: string)
    requires output == [] || output[|output| - 1] == '\n'
    requires '\n' !in line
    ensures var before := ParseOutput(output);
      ParseOutput(output + line) == before[..|before| - 1] + [ParseLine(line)]
  {
    SplitAppend(output, line, '\n');
    SplitWithoutSeparator(line, '\n');
    var p := Split(output, '\n');
    var lhs := ParseOutput(output + line);
    var before := ParseOutput(output);
    var rhs := before[..|before| - 1] + [ParseLine(line)];
    assert |lhs| == |rhs|;
    forall i | 0 <= i < |lhs| ensures lhs[i] == rhs[i] {
      if i < |p| - 1 {
        assert Split(output + line, '\n')[i] == p[i];
      }
    }
  }
}
