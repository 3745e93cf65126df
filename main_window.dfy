/** The renamer window's state: the list of pending files, and the handlers that fill it
    (`add_files`, the paste dialog), empty it (`clear_list`) and consume it (`replace_all` and
    `show_result`). The file system enters as two oracles: the set of paths `os.path.exists`
    accepts, and one success flag per pending file for `os.rename`. */
module MainWindow {
  import opened Pending
  import opened Seqs
  import RenamePass

  /** What `replace_all` ends with: the warning about an empty find text, or the result dialog
      after a pass, with the outcome of every pending file, in order, and the two counters shown. */
  datatype Report =
    | MissingSearchText
    | Finished(outcomes: seq<RenamePass.Outcome>, renamed: nat, skipped: nat)

  class FileRenamer {
    /** `self.files_to_rename`. */
    var filesToRename: seq<string>

    /** The list never holds a path twice. */
    ghost predicate Valid()
      reads this
    {
      NoDuplicates(filesToRename)
    }

    /** The window opens with no pending files. */
    constructor ()
      ensures Valid() && filesToRename == []
    {
      filesToRename := [];
    }

    /** `add_files`: appends each given path that is not pending yet, in the order given. */
    method AddFiles(files: seq<string>)
      requires Valid()
      modifies this
      ensures Valid()
      ensures filesToRename == old(filesToRename) + NewArrivals(old(filesToRename), files)
    {
      PrefixAll(files);
      for i := 0 to |files|
        invariant filesToRename == old(filesToRename) + NewArrivals(old(filesToRename), files[..i])
      {
        var file := files[i];
        NewArrivalsMembers(old(filesToRename), files[..i]);
        PrefixStep(files, i);
        if file !in filesToRename {
          filesToRename := filesToRename + [file];
        }
      }
      AddKeepsListDistinct(old(filesToRename), files);
    }

    /** `clear_list`: forgets every pending file. */
    method ClearList()
      modifies this
      ensures Valid() && filesToRename == []
    {
      filesToRename := [];
    }

    /** The paste dialog's OK handler: the pasted text is stripped, split into lines, blank
        lines dropped and the rest stripped; the paths that exist are then added. */
    method ProcessPastedPaths(text: string, onDisk: set<string>)
      requires Valid()
      modifies this
      ensures Valid()
      ensures filesToRename ==
                old(filesToRename) + NewArrivals(old(filesToRename), KeepExisting(ParsePaths(text), onDisk))
    {
      var validPaths := ParsePaths(text);
      var existingPaths := [];
      PrefixAll(validPaths);
      for i := 0 to |validPaths|
        invariant existingPaths == KeepExisting(validPaths[..i], onDisk)
        invariant filesToRename == old(filesToRename)
      {
        var path := validPaths[i];
        PrefixStep(validPaths, i);
        if path in onDisk {
          existingPaths := existingPaths + [path];
        }
      }
      AddFiles(existingPaths);
    }

    /** `replace_all` with the regular-expression box unchecked. An empty find text only
        raises the warning and leaves the list alone. Otherwise every pending file goes through
        the rename pass, and the result dialog reports the counters and empties the list,
        whether or not any rename failed. */
    method ReplaceAll(searchText: string, replaceText: string, ignoreCase: bool, renameOk: seq<bool>)
      returns (report: Report)
      requires Valid() && |renameOk| == |filesToRename|
      modifies this
      ensures Valid()
      ensures searchText == [] ==> report == MissingSearchText && filesToRename == old(filesToRename)
      ensures searchText != [] ==>
                var opts := RenamePass.Options(searchText, replaceText, ignoreCase);
                var held := old(filesToRename);
                var outcomes := RenamePass.PassOutcomes(held, RenamePass.NewNames(held, opts), renameOk);
                report == Finished(outcomes, RenamePass.CountRenamed(outcomes), RenamePass.CountSkipped(outcomes))
                && report.renamed + report.skipped == |held|
                && filesToRename == []
    {
      if searchText == [] {
        return MissingSearchText;
      }
      var opts := RenamePass.Options(searchText, replaceText, ignoreCase);
      var outcomes, renamed, skipped := RenamePass.RenameFiles(filesToRename, opts, renameOk);
      report := ShowResult(outcomes, renamed, skipped);
    }

    /** `show_result`: reports the counters and empties the pending list. */
    method ShowResult(outcomes: seq<RenamePass.Outcome>, renamed: nat, skipped: nat) returns (report: Report)
      modifies this
      ensures report == Finished(outcomes, renamed, skipped)
      ensures Valid() && filesToRename == []
    {
      report := Finished(outcomes, renamed, skipped);
      ClearList();
    }
  }
}
