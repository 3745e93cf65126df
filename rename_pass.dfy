/** The rename pass of `replace_all` with the regular-expression box unchecked: the new
    basename of one file, what happens to one file, and the loop that counts renamed and
    skipped files. The outcome of `os.rename` is an oracle: one success flag per pending file. */
module RenamePass {
  import opened PyStr
  import PosixPath
  import opened Seqs

  datatype Option<T> = None | Some(value: T)

  /** What the window reads for a pass: the find text, the replace text and the
      case-insensitive check box. */
  datatype Options = Options(search: string, replacement: string, ignoreCase: bool)

  /** What one pending file comes to: a rename that succeeded, a rename the system refused, or
      no match (and then no rename is attempted). */
  datatype Outcome =
    | Renamed(from: string, to: string)
    | RenameFailed(from: string, to: string)
    | NoMatch

  // ---------------------------------------------------------------------------
  // The new basename of one file
  // ---------------------------------------------------------------------------

  /** The text searched for: the find text, lowered when the case is ignored. */
  function Pattern(opts: Options): string
  {
    if opts.ignoreCase then Lower(opts.search) else opts.search
  }

  /** The text searched in: the basename, lowered when the case is ignored. */
  function Target(fileName: string, opts: Options): string
  {
    if opts.ignoreCase then Lower(fileName) else fileName
  }

  /** The new basename of `fileName`, or None when the pattern does not occur in the target. */
  function NewName(fileName: string, opts: Options): Option<string>
    requires opts.search != []
  {
    if !Contains(Target(fileName, opts), Pattern(opts)) then None
    else if opts.ignoreCase then Some(SpliceFirst(fileName, opts.search, opts.replacement))
    else Some(Replace(fileName, opts.search, opts.replacement))
  }

  /** Ignoring case: the replacement spliced into the original-case name at the first
      occurrence of the lowered find text in the lowered name. */
  function SpliceFirst(fileName: string, search: string, replacement: string): string
    requires Contains(Lower(fileName), Lower(search))
  {
    var pos := Find(Lower(fileName), Lower(search));
    fileName[..pos] + replacement + fileName[pos + |Lower(search)|..]
  }

  /** Case-sensitive mode: a file matches exactly when the find text occurs in its basename. */
  lemma CaseSensitiveMatch(fileName: string, opts: Options)
    requires opts.search != [] && !opts.ignoreCase
    ensures NewName(fileName, opts).Some? <==> exists k :: OccursAt(fileName, opts.search, k)
  {
  }

  /** Case-sensitive mode: on a match, the text before the first occurrence is kept, that
      occurrence becomes the replacement, and the rest of the name is rewritten the same way. */
  lemma CaseSensitiveName(fileName: string, opts: Options)
    requires opts.search != [] && !opts.ignoreCase && NewName(fileName, opts).Some?
    ensures var k := Find(fileName, opts.search);
            FirstOccurrence(fileName, opts.search, k)
            && NewName(fileName, opts).value ==
                 fileName[..k] + opts.replacement
                 + ReplaceFrom(fileName, opts.search, opts.replacement, k + |opts.search|)
  {
    ReplaceAtFirst(fileName, opts.search, opts.replacement);
  }

  /** Case-sensitive mode: replacing the find text by itself gives back the same name. */
  lemma CaseSensitiveIdentity(fileName: string, opts: Options)
    requires opts.search != [] && !opts.ignoreCase && opts.replacement == opts.search
    requires NewName(fileName, opts).Some?
    ensures NewName(fileName, opts).value == fileName
  {
    ReplaceIdentity(fileName, opts.search);
  }

  /** `search` occurs at `k` in `name` when the case of both is ignored. */
  predicate OccursIgnoringCase(name: string, search: string, k: int)
  {
    0 <= k && k + |search| <= |name| && Lower(name[k..k + |search|]) == Lower(search)
  }

  /** An occurrence in the lowered name is an occurrence ignoring case, and back. */
  lemma LoweredOccurrence(name: string, search: string)
    ensures forall k :: OccursAt(Lower(name), Lower(search), k) <==> OccursIgnoringCase(name, search, k)
  {
    forall k | 0 <= k && k + |search| <= |name|
      ensures OccursAt(Lower(name), Lower(search), k) <==> OccursIgnoringCase(name, search, k)
    {
      LowerSliceConcat(name, [], k, k + |search|);
    }
  }

  /** Case-insensitive mode: a file matches exactly when the find text occurs in its basename
      with the case of both ignored. */
  lemma IgnoreCaseMatch(fileName: string, opts: Options)
    requires opts.search != [] && opts.ignoreCase
    ensures NewName(fileName, opts).Some? <==> exists k :: OccursIgnoringCase(fileName, opts.search, k)
  {
    LoweredOccurrence(fileName, opts.search);
  }

  /** The splice of the case-insensitive mode, spelled out: the position is a valid index of an
      occurrence of the lowered find text in the lowered name. */
  lemma SpliceFirstAt(fileName: string, search: string, replacement: string)
    requires Contains(Lower(fileName), Lower(search))
    ensures var pos := Find(Lower(fileName), Lower(search));
            0 <= pos && pos + |search| <= |fileName|
            && SpliceFirst(fileName, search, replacement)
               == fileName[..pos] + replacement + fileName[pos + |search|..]
  {
  }

  /** Case-insensitive mode: on a match, only the first occurrence ignoring case is replaced:
      the characters before it and after it keep their original case, and the replacement goes
      in verbatim. */
  lemma IgnoreCaseName(fileName: string, opts: Options)
    requires opts.search != [] && opts.ignoreCase && NewName(fileName, opts).Some?
    ensures var n, pos := NewName(fileName, opts).value, Find(Lower(fileName), Lower(opts.search));
            var s, r := opts.search, opts.replacement;
            OccursIgnoringCase(fileName, s, pos)
            && (forall k :: 0 <= k < pos ==> !OccursIgnoringCase(fileName, s, k))
            && |n| == |fileName| - |s| + |r|
            && n[..pos] == fileName[..pos]
            && n[pos..pos + |r|] == r
            && n[pos + |r|..] == fileName[pos + |s|..]
  {
    LoweredOccurrence(fileName, opts.search);
    SpliceFirstAt(fileName, opts.search, opts.replacement);
    var pos := Find(Lower(fileName), Lower(opts.search));
    var n := NewName(fileName, opts).value;
    var r := opts.replacement;
    assert n == fileName[..pos] + r + fileName[pos + |opts.search|..];
    assert n[..pos] == fileName[..pos];
    assert n[pos..pos + |r|] == r;
    assert n[pos + |r|..] == fileName[pos + |opts.search|..];
  }

  /** Case-insensitive mode: replacing the find text by itself can only change the case of the
      matched span. */
  lemma IgnoreCaseIdentity(fileName: string, opts: Options)
    requires opts.search != [] && opts.ignoreCase && opts.replacement == opts.search
    requires NewName(fileName, opts).Some?
    ensures Lower(NewName(fileName, opts).value) == Lower(fileName)
  {
    var s := opts.search;
    SpliceFirstAt(fileName, s, s);
    var pos := Find(Lower(fileName), Lower(s));
    var n := NewName(fileName, opts).value;
    var before, after := fileName[..pos], fileName[pos + |s|..];
    assert n == before + s + after;
    assert fileName == before + fileName[pos..pos + |s|] + after;
    LowerSliceConcat(fileName, [], pos, pos + |s|);
    assert Lower(fileName[pos..pos + |s|]) == Lower(s);
    LowerSliceConcat(before + s, after, 0, 0);
    LowerSliceConcat(before, s, 0, 0);
    LowerSliceConcat(before + fileName[pos..pos + |s|], after, 0, 0);
    LowerSliceConcat(before, fileName[pos..pos + |s|], 0, 0);
  }

  /** A new name holds no separator when neither the basename nor the replacement does, so a
      rename never moves a file out of its directory unless the replace text holds a '/'. */
  lemma NewNameHasNoSeparator(fileName: string, opts: Options)
    requires opts.search != [] && NewName(fileName, opts).Some?
    requires PosixPath.Sep !in fileName && PosixPath.Sep !in opts.replacement
    ensures PosixPath.Sep !in NewName(fileName, opts).value
  {
    if !opts.ignoreCase {
      ReplaceAvoids(fileName, opts.search, opts.replacement, PosixPath.Sep);
    } else {
      SpliceFirstAt(fileName, opts.search, opts.replacement);
      var pos := Find(Lower(fileName), Lower(opts.search));
      SliceAvoids(fileName, PosixPath.Sep, 0, pos);
      SliceAvoids(fileName, PosixPath.Sep, pos + |opts.search|, |fileName|);
      ConcatAvoids(fileName[..pos], opts.replacement, fileName[pos + |opts.search|..], PosixPath.Sep);
    }
  }

  /** A slice holds no character its sequence does not hold. */
  lemma SliceAvoids(s: string, c: char, i: nat, j: nat)
    requires i <= j <= |s| && c !in s
    ensures c !in s[i..j] && (j == |s| ==> c !in s[i..]) && (i == 0 ==> c !in s[..j])
  {
    assert forall x :: x in s[i..j] ==> x in s;
  }

  /** A concatenation holds only the characters of its parts. */
  lemma ConcatAvoids(a: string, b: string, d: string, c: char)
    requires c !in a && c !in b && c !in d
    ensures c !in a + b + d
  {
  }

  /** Case-sensitive mode rewrites every occurrence. */
  lemma ExampleEveryOccurrence()
    ensures NewName("ab_ab", Options("ab", "X", false)) == Some("X_X")
  {
    var s := "ab_ab";
    assert |s| == 5 && s[0] == 'a' && s[1] == 'b' && s[2] == '_' && s[3] == 'a' && s[4] == 'b';
    assert s[0..2] == "ab" && s[3..5] == "ab" && s[2..4] != "ab";
    assert OccursAt(s, "ab", 0) && !OccursAt(s, "ab", 2) && OccursAt(s, "ab", 3);
    assert s[5..] == [];
    assert ReplaceFrom(s, "ab", "X", 5) == [];
    assert ReplaceFrom(s, "ab", "X", 3) == "X";
    assert ReplaceFrom(s, "ab", "X", 2) == "_X";
    assert Replace(s, "ab", "X") == "X_X";
    assert NewName("ab_ab", Options("ab", "X", false)) == Some(Replace("ab_ab", "ab", "X"));
  }

  /** Case-insensitive mode rewrites only the first occurrence, and the rest of the name keeps
      its case. */
  lemma ExampleFirstOccurrenceIgnoringCase()
    ensures NewName("AB_ab", Options("ab", "X", true)) == Some("X_ab")
  {
    LowerAt("AB_ab");
    assert Lower("AB_ab") == "ab_ab";
    assert Lower("ab") == "ab";
    assert OccursAt("ab_ab", "ab", 0);
    assert "ab_ab"[..2] == "ab" && "AB_ab"[2..] == "_ab";
    assert Find("ab_ab", "ab") == 0;
    assert SpliceFirst("AB_ab", "ab", "X") == "X_ab";
    assert NewName("AB_ab", Options("ab", "X", true)) == Some(SpliceFirst("AB_ab", "ab", "X"));
  }

  // ---------------------------------------------------------------------------
  // One file, and the whole pass
  // ---------------------------------------------------------------------------

  /** The new basename of every pending file, in order. */
  function NewNames(files: seq<string>, opts: Options): (names: seq<Option<string>>)
    requires opts.search != []
    ensures |names| == |files|
  {
    seq(|files|, j requires 0 <= j < |files| => NewName(PosixPath.Basename(files[j]), opts))
  }

  /** What happens to one pending file given its new basename: on a match, a rename to the same
      directory under the new name is attempted, which succeeds as `renameOk` says. */
  function FileOutcome(filePath: string, newName: Option<string>, renameOk: bool): Outcome
  {
    match newName
    case None => NoMatch
    case Some(name) =>
      var newPath := PosixPath.Join(PosixPath.Dirname(filePath), name);
      if renameOk then Renamed(filePath, newPath) else RenameFailed(filePath, newPath)
  }

  /** What happens to every pending file, in order. */
  function PassOutcomes(files: seq<string>, names: seq<Option<string>>, renameOk: seq<bool>): (outcomes: seq<Outcome>)
    requires |names| == |files| && |renameOk| == |files|
    ensures |outcomes| == |files|
    decreases |files|
  {
    if files == [] then []
    else
      var n := |files| - 1;
      PassOutcomes(files[..n], names[..n], renameOk[..n]) + [FileOutcome(files[n], names[n], renameOk[n])]
  }

  /** The pass has one outcome per pending file, and each depends on that file, its new name
      and its own rename result only. */
  lemma {:induction false} PassOutcomesAt(files: seq<string>, names: seq<Option<string>>, renameOk: seq<bool>)
    requires |names| == |files| && |renameOk| == |files|
    ensures forall j {:trigger PassOutcomes(files, names, renameOk)[j]} :: 0 <= j < |files| ==>
              PassOutcomes(files, names, renameOk)[j] == FileOutcome(files[j], names[j], renameOk[j])
    decreases |files|
  {
    if files != [] {
      var n := |files| - 1;
      PassOutcomesAt(files[..n], names[..n], renameOk[..n]);
      forall j | 0 <= j < n
        ensures files[..n][j] == files[j] && names[..n][j] == names[j] && renameOk[..n][j] == renameOk[j]
      {
      }
    }
  }

  /** The `renamed` counter: the outcomes that are successful renames. */
  function CountRenamed(outcomes: seq<Outcome>): nat
  {
    if outcomes == [] then 0
    else CountRenamed(outcomes[..|outcomes| - 1]) + (if outcomes[|outcomes| - 1].Renamed? then 1 else 0)
  }

  /** The `skipped` counter: the outcomes that are not successful renames. */
  function CountSkipped(outcomes: seq<Outcome>): nat
  {
    if outcomes == [] then 0
    else CountSkipped(outcomes[..|outcomes| - 1]) + (if outcomes[|outcomes| - 1].Renamed? then 0 else 1)
  }

  /** Every file lands in exactly one of the two counters. */
  lemma {:induction false} CountsAddUp(outcomes: seq<Outcome>)
    ensures CountRenamed(outcomes) + CountSkipped(outcomes) == |outcomes|
    decreases |outcomes|
  {
    if outcomes != [] {
      CountsAddUp(outcomes[..|outcomes| - 1]);
    }
  }

  /** Changing one outcome changes each counter by at most that outcome's own contribution. */
  lemma {:induction false} CountsUpdate(outcomes: seq<Outcome>, i: nat, o: Outcome)
    requires i < |outcomes|
    ensures CountRenamed(outcomes[i := o]) ==
              CountRenamed(outcomes) - (if outcomes[i].Renamed? then 1 else 0) + (if o.Renamed? then 1 else 0)
    ensures CountSkipped(outcomes[i := o]) ==
              CountSkipped(outcomes) - (if outcomes[i].Renamed? then 0 else 1) + (if o.Renamed? then 0 else 1)
    decreases |outcomes|
  {
    var n := |outcomes|;
    var updated := outcomes[i := o];
    if i == n - 1 {
      assert updated[..n - 1] == outcomes[..n - 1];
    } else {
      CountsUpdate(outcomes[..n - 1], i, o);
      assert updated[..n - 1] == outcomes[..n - 1][i := o];
    }
  }

  /** With no successful rename, nothing is counted as renamed and everything as skipped. */
  lemma {:induction false} NothingRenamed(outcomes: seq<Outcome>)
    requires forall j :: 0 <= j < |outcomes| ==> !outcomes[j].Renamed?
    ensures CountRenamed(outcomes) == 0 && CountSkipped(outcomes) == |outcomes|
    decreases |outcomes|
  {
    if outcomes != [] {
      NothingRenamed(outcomes[..|outcomes| - 1]);
    }
  }

  /** Failure isolation: when the rename of file `i` fails instead, every other file has the
      same outcome, and only that file moves from the renamed to the skipped counter. */
  lemma FailureIsolation(files: seq<string>, names: seq<Option<string>>, renameOk: seq<bool>, i: nat)
    requires |names| == |files| && |renameOk| == |files| && i < |files|
    ensures var before := PassOutcomes(files, names, renameOk);
            var after := PassOutcomes(files, names, renameOk[i := false]);
            var moved := if before[i].Renamed? then 1 else 0;
            (forall j :: 0 <= j < |files| && j != i ==> after[j] == before[j])
            && !after[i].Renamed?
            && CountRenamed(after) == CountRenamed(before) - moved
            && CountSkipped(after) == CountSkipped(before) + moved
  {
    var before := PassOutcomes(files, names, renameOk);
    var after := PassOutcomes(files, names, renameOk[i := false]);
    PassOutcomesAt(files, names, renameOk);
    PassOutcomesAt(files, names, renameOk[i := false]);
    assert after == before[i := after[i]];
    CountsUpdate(before, i, after[i]);
  }

  /** Files without a new name are skipped without any rename attempt; if no file matches, the
      pass renames nothing and skips everything. */
  lemma NoMatchNoRename(files: seq<string>, names: seq<Option<string>>, renameOk: seq<bool>)
    requires |names| == |files| && |renameOk| == |files|
    ensures var outcomes := PassOutcomes(files, names, renameOk);
            forall j :: 0 <= j < |files| ==> (outcomes[j] == NoMatch <==> names[j] == None)
    ensures (forall j :: 0 <= j < |files| ==> names[j] == None) ==>
              var outcomes := PassOutcomes(files, names, renameOk);
              CountRenamed(outcomes) == 0 && CountSkipped(outcomes) == |files|
  {
    PassOutcomesAt(files, names, renameOk);
    if forall j :: 0 <= j < |files| ==> names[j] == None {
      NothingRenamed(PassOutcomes(files, names, renameOk));
    }
  }

  /** A matched file is renamed, or its rename attempted, within its own directory under the
      new name, as long as the replace text holds no separator. */
  lemma RenameStaysInDirectory(filePath: string, opts: Options, renameOk: bool)
    requires opts.search != [] && PosixPath.Sep !in opts.replacement
    requires NewName(PosixPath.Basename(filePath), opts).Some?
    ensures var newName := NewName(PosixPath.Basename(filePath), opts);
            var o := FileOutcome(filePath, newName, renameOk);
            !o.NoMatch? && o.from == filePath && (o.Renamed? <==> renameOk)
            && PosixPath.Dirname(o.to) == PosixPath.Dirname(filePath)
            && PosixPath.Basename(o.to) == newName.value
  {
    NewNameHasNoSeparator(PosixPath.Basename(filePath), opts);
    PosixPath.RenameKeepsDirectory(filePath, NewName(PosixPath.Basename(filePath), opts).value);
  }

  /** No check for an unchanged name: in either mode, a matching file whose new name is its old
      basename still has its rename attempted, onto a path with the same directory name and
      basename, and a successful one is counted as renamed. */
  lemma UnchangedNameStillRenamed(filePath: string, opts: Options)
    requires opts.search != []
    requires NewName(PosixPath.Basename(filePath), opts) == Some(PosixPath.Basename(filePath))
    ensures var o := FileOutcome(filePath, NewName(PosixPath.Basename(filePath), opts), true);
            o.Renamed? && o.from == filePath
            && PosixPath.Dirname(o.to) == PosixPath.Dirname(filePath)
            && PosixPath.Basename(o.to) == PosixPath.Basename(filePath)
  {
    PosixPath.RenameKeepsDirectory(filePath, PosixPath.Basename(filePath));
  }

  /** Case-sensitive mode: replacing the find text by itself rewrites every matching name to
      itself, so every matching file is still renamed in place and counted as renamed. */
  lemma IdentityReplaceStillRenamed(filePath: string, opts: Options)
    requires opts.search != [] && !opts.ignoreCase && opts.replacement == opts.search
    requires Contains(PosixPath.Basename(filePath), opts.search)
    ensures var o := FileOutcome(filePath, NewName(PosixPath.Basename(filePath), opts), true);
            o.Renamed? && o.from == filePath
            && PosixPath.Dirname(o.to) == PosixPath.Dirname(filePath)
            && PosixPath.Basename(o.to) == PosixPath.Basename(filePath)
  {
    CaseSensitiveIdentity(PosixPath.Basename(filePath), opts);
    UnchangedNameStillRenamed(filePath, opts);
  }

  /** Ignoring case, a replace text that differs from the find text can still rewrite a name
      to itself: "aBc" with "b" replaced by "B" stays "aBc". */
  lemma ExampleUnchangedIgnoringCase()
    ensures NewName("aBc", Options("b", "B", true)) == Some("aBc")
  {
    LowerAt("aBc");
    assert Lower("aBc") == "abc";
    assert Lower("b") == "b";
    assert OccursAt("abc", "b", 1) && !OccursAt("abc", "b", 0);
    assert Find("abc", "b") == 1;
    assert "aBc"[..1] == "a" && "aBc"[2..] == "c";
    assert SpliceFirst("aBc", "b", "B") == "aBc";
  }

  /** The loop of `replace_all` over the pending files (a copy of the list): each file either
      matches and has its rename attempted, or is skipped; a failed rename is counted as skipped
      and the loop goes on. Returns the outcomes and the two counters. */
  method RenameFiles(files: seq<string>, opts: Options, renameOk: seq<bool>)
    returns (outcomes: seq<Outcome>, renamed: nat, skipped: nat)
    requires opts.search != [] && |renameOk| == |files|
    ensures outcomes == PassOutcomes(files, NewNames(files, opts), renameOk)
    ensures renamed == CountRenamed(outcomes) && skipped == CountSkipped(outcomes)
    ensures renamed + skipped == |files|
  {
    ghost var names := NewNames(files, opts);
    PrefixAll(files);
    PrefixAll(names);
    PrefixAll(renameOk);
    outcomes, renamed, skipped := [], 0, 0;
    for i := 0 to |files|
      invariant outcomes == PassOutcomes(files[..i], names[..i], renameOk[..i])
      invariant renamed == CountRenamed(outcomes) && skipped == CountSkipped(outcomes)
      invariant renamed + skipped == i
    {
      var filePath := files[i];
      var dirName := PosixPath.Dirname(filePath);
      var fileName := PosixPath.Basename(filePath);
      var outcome: Outcome;
      match NewName(fileName, opts) {
        case None =>
          skipped := skipped + 1;
          outcome := NoMatch;
        case Some(newName) =>
          var newPath := PosixPath.Join(dirName, newName);
          if renameOk[i] {
            renamed := renamed + 1;
            outcome := Renamed(filePath, newPath);
          } else {
            skipped := skipped + 1;
            outcome := RenameFailed(filePath, newPath);
          }
      }
      assert outcome == FileOutcome(filePath, names[i], renameOk[i]);
      PrefixStep(files, i);
      PrefixStep(names, i);
      PrefixStep(renameOk, i);
      outcomes := outcomes + [outcome];
    }
  }
}
