/**
 * How the newer parser of `src/status/file_status.rs` relates to the older
 * one of `src/status.rs`: in tracked mode it returns the older records
 * without the last one, with the section flags added.
 */
module Versions {
  import opened Strings
  import FileStatus
  import Status

  /**
   * The newer parser drops exactly the final record of the older one and
   * agrees with it on every other status and name.
   */
  lemma NewerParserDropsFinalRecord(output: string, staged: bool)
    ensures var newer := FileStatus.ParseOutput(output, staged, false);
      var older := Status.ParseOutput(output);
      && |newer| == |older| - 1
      && forall i :: 0 <= i < |newer| ==>
        newer[i] == FileStatus.FileIndex(older[i].status, older[i].name, staged, false)
  {
  }

  /**
   * On output that is empty or ends in a newline, the older parser's records
   * are the newer parser's records without their flags, followed by one
   * empty record: that empty record is all the newer parser drops.
   */
  lemma DroppedRecordIsEmpty(output: string, staged: bool)
    requires output == [] || output[|output| - 1] == '\n'
    ensures var newer := FileStatus.ParseOutput(output, staged, false);
      var older := Status.ParseOutput(output);
      older == seq(|newer|, i requires 0 <= i < |newer| =>
        Status.FileIndex(newer[i].status, newer[i].name)) + [Status.FileIndex("", "")]
  {
    NewerParserDropsFinalRecord(output, staged);
    Status.TrailingEmptyRecord(output);
  }
}
