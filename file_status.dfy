/**
 * The newer status module (`src/status/file_status.rs`): the parser that
 * turns the output of `git diff [--cached] --name-status` or
 * `git ls-files --others` into file-index records, and the three section
 * queries that fix each section's flags.  Running git is not modelled: the
 * command's standard output is a parameter, assumed to be valid UTF-8.
 */
module FileStatus {
  import opened Strings

  /** One line of git's status output. */
  datatype FileIndex = FileIndex(status: string, name: string, staged: bool, untracked: bool)

  /** `default_file_index`: a record with empty status and name, not staged, untracked. */
  function DefaultFileIndex(): (d: FileIndex)
    ensures d.status == [] && d.name == []
    ensures !d.staged && d.untracked
  {
    FileIndex("", "", false, true)
  }

  /**
   * One line turned into a record: in untracked mode the whole line is the
   * name and the status is `?`; otherwise the status is the text before the
   * first tab and the name the text after the last tab.
   */
  function ParseLine(line: string, staged: bool, untracked: bool): (r: FileIndex)
    ensures r.staged == staged && r.untracked == untracked
    ensures untracked ==> r.status == "?" && r.name == line
    ensures !untracked ==>
      IsTextBeforeFirst(line, '\t', r.status) && IsTextAfterLast(line, '\t', r.name)
  {
    FirstPiece(line, '\t');
    LastPiece(line, '\t');
    if untracked then FileIndex("?", line, staged, untracked)
    else
      var statusAndFile := Split(line, '\t');
      FileIndex(statusAndFile[0], statusAndFile[|statusAndFile| - 1], staged, untracked)
  }

  /**
   * The tracked-mode record of one line: the status is the text before the
   * first tab and the name the text after the last tab; a line without a
   * tab gives status == name == line.
   */
  lemma TrackedLineFields(line: string, staged: bool)
    ensures IsTextBeforeFirst(line, '\t', ParseLine(line, staged, false).status)
    ensures IsTextAfterLast(line, '\t', ParseLine(line, staged, false).name)
    ensures '\t' !in line ==>
      ParseLine(line, staged, false).status == line == ParseLine(line, staged, false).name
  {
    FirstPiece(line, '\t');
    LastPiece(line, '\t');
    if '\t' !in line {
      SplitWithoutSeparator(line, '\t');
    }
  }

  /** Each line parsed on its own, in order. */
  function ParseLines(lines: seq<string>, staged: bool, untracked: bool): (indexes: seq<FileIndex>)
    ensures |indexes| == |lines|
    ensures forall i :: 0 <= i < |lines| ==> indexes[i] == ParseLine(lines[i], staged, untracked)
  {
    seq(|lines|, i requires 0 <= i < |lines| => ParseLine(lines[i], staged, untracked))
  }

  /**
   * What `file_indexes_for_output` returns: one record per piece of the
   * newline split, except the final piece, which is popped.
   */
  function ParseOutput(output: string, staged: bool, untracked: bool): (indexes: seq<FileIndex>)
    ensures |indexes| == CountChar(output, '\n')
    ensures forall e :: e in indexes ==> e.staged == staged && e.untracked == untracked
  {
    var fileResults := Split(output, '\n');
    ParseLines(fileResults[..|fileResults| - 1], staged, untracked)
  }

  /** `file_indexes_for_output`: split, pop the last piece, parse the rest in order. */
  method FileIndexesForOutput(output: string, staged: bool, untracked: bool)
    returns (fileIndexes: seq<FileIndex>)
    ensures fileIndexes == ParseOutput(output, staged, untracked)
  {
    var fileResults := Split(output, '\n');
    fileResults := fileResults[..|fileResults| - 1];
    fileIndexes := [];
    for i := 0 to |fileResults|
      invariant |fileIndexes| == i
      invariant forall k :: 0 <= k < i ==>
        fileIndexes[k] == ParseLine(fileResults[k], staged, untracked)
    {
      var fileResult := fileResults[i];
      var status: string;
      var fileName: string;
      if untracked {
        status := "?";
        fileName := fileResult;
      } else {
        var statusAndFile := Split(fileResult, '\t');
        status := statusAndFile[0];
        fileName := statusAndFile[|statusAndFile| - 1];
      }
      assert FileIndex(status, fileName, staged, untracked) == ParseLine(fileResult, staged, untracked);
      fileIndexes := fileIndexes + [FileIndex(status, fileName, staged, untracked)];
    }
  }

  /** `staged_file_indexes`, given the output of `git diff --cached --name-status`. */
  method StagedFileIndexes(output: string) returns (indexes: seq<FileIndex>)
    ensures indexes == ParseOutput(output, true, false)
    ensures forall e :: e in indexes ==> e.staged && !e.untracked
  {
    indexes := FileIndexesForOutput(output, true, false);
  }

  /** `modified_file_indexes`, given the output of `git diff --name-status`. */
  method ModifiedFileIndexes(output: string) returns (indexes: seq<FileIndex>)
    ensures indexes == ParseOutput(output, false, false)
    ensures forall e :: e in indexes ==> !e.staged && !e.untracked
  {
    indexes := FileIndexesForOutput(output, false, false);
  }

  /** `untracked_file_indexes`, given the output of `git ls-files --others --exclude-standard`. */
  method UntrackedFileIndexes(output: string) returns (indexes: seq<FileIndex>)
    ensures indexes == ParseOutput(output, false, true)
    ensures forall e :: e in indexes ==> !e.staged && e.untracked && e.status == "?"
  {
    indexes := FileIndexesForOutput(output, false, true);
  }

  /**
   * Every newline-terminated line of the output gives one record, in order,
   * and nothing else does: the output is those lines, each followed by a
   * newline, and then the discarded final piece.
   */
  lemma OutputLines(output: string, staged: bool, untracked: bool)
    ensures var pieces := Split(output, '\n');
      && |ParseOutput(output, staged, untracked)| == |pieces| - 1
      && Join(pieces, '\n') == output
      && (forall i :: 0 <= i < |pieces| - 1 ==>
            ParseOutput(output, staged, untracked)[i] == ParseLine(pieces[i], staged, untracked))
  {
    JoinSplit(output, '\n');
  }

  /** Empty output, or output ending in a newline, loses nothing when popping. */
  lemma PoppedPieceEmptyIff(output: string)
    ensures var pieces := Split(output, '\n');
      pieces[|pieces| - 1] == [] <==> (output == [] || output[|output| - 1] == '\n')
  {
    LastPieceEmpty(output, '\n');
  }

  /**
   * Parsing is compositional at line boundaries: output that is empty or
   * ends in a newline, followed by more output, parses to the two results
   * one after the other.
   */
  lemma ParseOutputAppend(a: string, b: string, staged: bool, untracked: bool)
    requires a == [] || a[|a| - 1] == '\n'
    ensures ParseOutput(a + b, staged, untracked)
      == ParseOutput(a, staged, untracked) + ParseOutput(b, staged, untracked)
  {
    var pa := Split(a, '\n');
    var pb := Split(b, '\n');
    var pab := Split(a + b, '\n');
    var la := pa[..|pa| - 1];
    var lb := pb[..|pb| - 1];
    SplitAppend(a, b, '\n');
    DropLastOfAppend(la, pb);
    ParseLinesAppend(la, lb, staged, untracked);
  }

  /** Parsing lines one after another gives the records one after another. */
  lemma ParseLinesAppend(x: seq<string>, y: seq<string>, staged: bool, untracked: bool)
    ensures ParseLines(x + y, staged, untracked)
      == ParseLines(x, staged, untracked) + ParseLines(y, staged, untracked)
  {
    var lhs := ParseLines(x + y, staged, untracked);
    var rhs := ParseLines(x, staged, untracked) + ParseLines(y, staged, untracked);
    forall i | 0 <= i < |lhs| ensures lhs[i] == rhs[i] {
      if i < |x| {
        assert (x + y)[i] == x[i];
      } else {
        assert (x + y)[i] == y[i - |x|];
      }
    }
  }

  /**
   * A last line without a terminating newline is lost: appending it to
   * complete output does not change the result.
   */
  lemma UnterminatedLineIsLost(output: string, line: string, staged: bool, untracked: bool)
    requires output == [] || output[|output| - 1] == '\n'
    requires '\n' !in line
    ensures ParseOutput(output + line, staged, untracked) == ParseOutput(output, staged, untracked)
  {
    ParseOutputAppend(output, line, staged, untracked);
    CountCharZero(line, '\n');
  }

  /** In untracked mode every record has status `?` and the whole line as its name. */
  lemma UntrackedRecords(output: string, staged: bool)
    ensures var pieces := Split(output, '\n');
      forall i :: 0 <= i < |pieces| - 1 ==>
        ParseOutput(output, staged, true)[i] == FileIndex("?", pieces[i], staged, true)
  {
  }

  /**
   * In tracked mode the status is the text before the first tab and the
   * name the text after the last tab; a line without a tab gives
   * status == name == line.
   */
  lemma TrackedRecords(output: string, staged: bool)
    ensures var pieces := Split(output, '\n');
      forall i :: 0 <= i < |pieces| - 1 ==>
        && IsTextBeforeFirst(pieces[i], '\t', ParseOutput(output, staged, false)[i].status)
        && IsTextAfterLast(pieces[i], '\t', ParseOutput(output, staged, false)[i].name)
        && ('\t' !in pieces[i] ==>
              ParseOutput(output, staged, false)[i].status == pieces[i] == ParseOutput(output, staged, false)[i].name)
  {
    var pieces := Split(output, '\n');
    forall i | 0 <= i < |pieces| - 1
      ensures IsTextBeforeFirst(pieces[i], '\t', ParseOutput(output, staged, false)[i].status)
      ensures IsTextAfterLast(pieces[i], '\t', ParseOutput(output, staged, false)[i].name)
      ensures '\t' !in pieces[i] ==>
        ParseOutput(output, staged, false)[i].status == pieces[i] == ParseOutput(output, staged, false)[i].name
    {
      TrackedLineFields(pieces[i], staged);
    }
  }

  /** The default record is never produced by parsing, whatever the flags. */
  lemma DefaultNeverParsed(output: string, staged: bool, untracked: bool)
    ensures DefaultFileIndex() !in ParseOutput(output, staged, untracked)
  {
  }

  /**
   * The three sections carry distinct flag pairs, so no record is both
   * staged and untracked and no record belongs to two sections.
   */
  lemma SectionsDisjoint(stagedOut: string, modifiedOut: string, untrackedOut: string)
    ensures var s := ParseOutput(stagedOut, true, false);
      var m := ParseOutput(modifiedOut, false, false);
      var u := ParseOutput(untrackedOut, false, true);
      && (forall e :: e in s + m + u ==> !(e.staged && e.untracked))
      && (forall e :: e in s ==> e !in m && e !in u)
      && (forall e :: e in m ==> e !in u)
  {
  }
}
