/** The pending-file list of the renamer window as values: what `add_files` appends to it, and
    how a block of pasted text becomes the list of candidate paths. */
module Pending {
  import opened PyStr

  predicate NoDuplicates(s: seq<string>)
  {
    forall i, j :: 0 <= i < j < |s| ==> s[i] != s[j]
  }

  // ---------------------------------------------------------------------------
  // add_files
  // ---------------------------------------------------------------------------

  /** The paths of `incoming` that `add_files` appends to a list that already holds `held`:
      taken in the order given, each only at its first occurrence and only when not held. */
  function NewArrivals(held: seq<string>, incoming: seq<string>): seq<string>
    decreases |incoming|
  {
    if incoming == [] then []
    else
      var earlier := incoming[..|incoming| - 1];
      var x := incoming[|incoming| - 1];
      NewArrivals(held, earlier) + (if x in held || x in earlier then [] else [x])
  }

  /** The new arrivals are exactly the incoming paths that were not held. */
  lemma {:induction false} NewArrivalsMembers(held: seq<string>, incoming: seq<string>)
    ensures forall x :: x in NewArrivals(held, incoming) <==> x in incoming && x !in held
    decreases |incoming|
  {
    if incoming != [] {
      var earlier := incoming[..|incoming| - 1];
      NewArrivalsMembers(held, earlier);
      assert incoming == earlier + [incoming[|incoming| - 1]];
    }
  }

  /** No path arrives twice. */
  lemma {:induction false} NewArrivalsDistinct(held: seq<string>, incoming: seq<string>)
    ensures NoDuplicates(NewArrivals(held, incoming))
    decreases |incoming|
  {
    if incoming != [] {
      var earlier := incoming[..|incoming| - 1];
      NewArrivalsDistinct(held, earlier);
      NewArrivalsMembers(held, earlier);
    }
  }

  /** `add_files` keeps the pending list duplicate-free: the old contents stay an unchanged
      prefix, and every path passed in is held afterwards, whether it was new or not. */
  lemma AddKeepsListDistinct(held: seq<string>, incoming: seq<string>)
    requires NoDuplicates(held)
    ensures var after := held + NewArrivals(held, incoming);
            NoDuplicates(after) && after[..|held|] == held
            && (forall x :: x in incoming ==> x in after)
            && (forall x :: x in after ==> x in held || x in incoming)
  {
    var arrivals := NewArrivals(held, incoming);
    var after := held + arrivals;
    NewArrivalsMembers(held, incoming);
    NewArrivalsDistinct(held, incoming);
    forall i, j | 0 <= i < j < |after| ensures after[i] != after[j] {
      if j >= |held| && i < |held| {
        assert after[j] in arrivals;
      }
    }
    assert forall x :: x in incoming ==> x in after by {
      forall x | x in incoming ensures x in after {
        if x !in held { assert x in arrivals; }
      }
    }
  }

  /** Paths that are all held already bring no new arrivals. */
  lemma {:induction false} NewArrivalsOfHeld(held: seq<string>, incoming: seq<string>)
    requires forall x :: x in incoming ==> x in held
    ensures NewArrivals(held, incoming) == []
    decreases |incoming|
  {
    if incoming != [] {
      var earlier := incoming[..|incoming| - 1];
      assert forall x :: x in earlier ==> x in incoming;
      NewArrivalsOfHeld(held, earlier);
      assert incoming[|incoming| - 1] in incoming;
    }
  }

  /** Adding the same paths a second time changes nothing. */
  lemma AddIsIdempotent(held: seq<string>, incoming: seq<string>)
    ensures NewArrivals(held + NewArrivals(held, incoming), incoming) == []
  {
    var after := held + NewArrivals(held, incoming);
    NewArrivalsMembers(held, incoming);
    NewArrivalsOfHeld(after, incoming);
  }

  /** The index of the first occurrence of `x` in `s`. */
  function FirstIndex(s: seq<string>, x: string): (i: nat)
    requires x in s
    ensures i < |s| && s[i] == x
    ensures forall j :: 0 <= j < i ==> s[j] != x
  {
    if s[0] == x then 0 else FirstIndex(s[1..], x) + 1
  }

  /** The first occurrence of `x` in a sequence does not move when the sequence grows. */
  lemma FirstIndexSnoc(s: seq<string>, y: string, x: string)
    requires x in s
    ensures FirstIndex(s + [y], x) == FirstIndex(s, x)
  {
    var i := FirstIndex(s, x);
    assert forall j :: 0 <= j <= i ==> (s + [y])[j] == s[j];
  }

  /** The elements of `a`, all taken from `s`, appear in the order of their first occurrences
      in `s`. */
  predicate InFirstOccurrenceOrder(a: seq<string>, s: seq<string>)
  {
    (forall x :: x in a ==> x in s)
    && forall i, j :: 0 <= i < j < |a| ==> FirstIndex(s, a[i]) < FirstIndex(s, a[j])
  }

  /** Growing `s` keeps an ordering, and a path that first occurs at the new end may follow. */
  lemma OrderSnoc(a: seq<string>, s: seq<string>, y: string)
    requires InFirstOccurrenceOrder(a, s)
    ensures InFirstOccurrenceOrder(a, s + [y])
    ensures y !in s ==> InFirstOccurrenceOrder(a + [y], s + [y])
  {
    forall x | x in a ensures FirstIndex(s + [y], x) == FirstIndex(s, x) < |s| {
      FirstIndexSnoc(s, y, x);
    }
    if y !in s {
      var k := FirstIndex(s + [y], y);
      assert k == |s|;
      var a' := a + [y];
      forall i, j | 0 <= i < j < |a'|
        ensures FirstIndex(s + [y], a'[i]) < FirstIndex(s + [y], a'[j])
      {
        assert a'[i] == a[i];
        if j < |a| { assert a'[j] == a[j]; }
      }
    }
  }

  /** New arrivals are appended in the order in which they first appear among the paths
      passed in. */
  lemma {:induction false} NewArrivalsInOrder(held: seq<string>, incoming: seq<string>)
    ensures InFirstOccurrenceOrder(NewArrivals(held, incoming), incoming)
    decreases |incoming|
  {
    if incoming != [] {
      var earlier := incoming[..|incoming| - 1];
      var y := incoming[|incoming| - 1];
      assert incoming == earlier + [y];
      NewArrivalsInOrder(held, earlier);
      OrderSnoc(NewArrivals(held, earlier), earlier, y);
    }
  }

  // ---------------------------------------------------------------------------
  // The paste handler
  // ---------------------------------------------------------------------------

  /** `[line.strip() for line in lines if line.strip()]`. */
  function NonBlankStripped(lines: seq<string>): seq<string>
  {
    if lines == [] then []
    else (if Strip(lines[0]) != [] then [Strip(lines[0])] else []) + NonBlankStripped(lines[1..])
  }

  /** The candidate paths of a pasted text block: `text.strip().split('\n')`, then the
      non-blank lines, each stripped. */
  function ParsePaths(text: string): seq<string>
  {
    NonBlankStripped(Split(Strip(text), '\n'))
  }

  lemma {:induction false} NonBlankStrippedConcat(a: seq<string>, b: seq<string>)
    ensures NonBlankStripped(a + b) == NonBlankStripped(a) + NonBlankStripped(b)
    decreases |a|
  {
    if a == [] {
      assert a + b == b;
    } else {
      assert (a + b)[0] == a[0] && (a + b)[1..] == a[1..] + b;
      NonBlankStrippedConcat(a[1..], b);
    }
  }

  /** A blank first line is dropped, and first lines that strip alike parse alike. */
  lemma NonBlankStrippedCons(x: string, y: string, rest: seq<string>)
    requires Strip(x) == Strip(y)
    ensures NonBlankStripped([x] + rest) == NonBlankStripped([y] + rest)
    ensures NonBlankStripped([[]] + rest) == NonBlankStripped(rest)
  {
    assert ([x] + rest)[1..] == rest && ([y] + rest)[1..] == rest && ([[]] + rest)[1..] == rest;
    assert Strip([]) == [];
  }

  /** Leading whitespace of the text never reaches a parsed path. */
  lemma {:induction false} ParseIgnoresLeadingSpace(s: string)
    ensures NonBlankStripped(Split(TrimLeft(s), '\n')) == NonBlankStripped(Split(s, '\n'))
    decreases |s|
  {
    if s != [] && IsSpace(s[0]) {
      assert TrimLeft(s) == TrimLeft(s[1..]);
      ParseIgnoresLeadingSpace(s[1..]);
      var rest := Split(s[1..], '\n');
      if s[0] == '\n' {
        assert Split(s, '\n') == [[]] + rest;
        NonBlankStrippedCons([], [], rest);
      } else {
        assert Split(s, '\n') == [[s[0]] + rest[0]] + rest[1..];
        StripSpaceCons(s[0], rest[0]);
        NonBlankStrippedCons([s[0]] + rest[0], rest[0], rest[1..]);
        assert rest == [rest[0]] + rest[1..];
      }
    }
  }

  /** Trailing whitespace of the text never reaches a parsed path. */
  lemma {:induction false} ParseIgnoresTrailingSpace(s: string)
    ensures NonBlankStripped(Split(TrimRight(s), '\n')) == NonBlankStripped(Split(s, '\n'))
    decreases |s|
  {
    if s != [] && IsSpace(s[|s| - 1]) {
      var s' := s[..|s| - 1];
      assert TrimRight(s) == TrimRight(s');
      ParseIgnoresTrailingSpace(s');
      assert s == s' + [s[|s| - 1]];
      ParseIgnoresSpaceAppended(s', s[|s| - 1]);
    }
  }

  /** One whitespace character appended to the text leaves the parsed paths as they were: a
      line break adds a blank line, any other one extends the last line by trailing space. */
  lemma ParseIgnoresSpaceAppended(s: string, c: char)
    requires IsSpace(c)
    ensures NonBlankStripped(Split(s + [c], '\n')) == NonBlankStripped(Split(s, '\n'))
  {
    SplitSnoc(s, c, '\n');
    var parts := Split(s, '\n');
    var init := parts[..|parts| - 1];
    var last := parts[|parts| - 1];
    if c == '\n' {
      NonBlankStrippedConcat(parts, [[]]);
    } else {
      assert parts == init + [last];
      NonBlankStrippedConcat(init, [last]);
      NonBlankStrippedConcat(init, [last + [c]]);
      StripSpaceSnoc(last, c);
    }
  }

  /** Stripping the whole text first (as the paste handler does) makes no difference: the
      parsed paths are the non-blank lines of the text exactly as pasted, each stripped, in
      the order they were pasted. */
  lemma ParseIsNonBlankLines(text: string)
    ensures ParsePaths(text) == NonBlankStripped(Split(text, '\n'))
  {
    ParseIgnoresTrailingSpace(TrimLeft(text));
    ParseIgnoresLeadingSpace(text);
  }

  /** A line is kept exactly when it is not blank, and then stripped. */
  lemma {:induction false} NonBlankStrippedMembers(lines: seq<string>)
    ensures forall x :: x in NonBlankStripped(lines) <==>
              exists k :: 0 <= k < |lines| && !AllSpace(lines[k]) && x == Strip(lines[k])
    decreases |lines|
  {
    if lines != [] {
      NonBlankStrippedMembers(lines[1..]);
      StripSpec(lines[0]);
      forall x | x in NonBlankStripped(lines)
        ensures exists k :: 0 <= k < |lines| && !AllSpace(lines[k]) && x == Strip(lines[k])
      {
        if x !in NonBlankStripped(lines[1..]) {
          assert !AllSpace(lines[0]) && x == Strip(lines[0]);
        } else {
          var k :| 0 <= k < |lines[1..]| && !AllSpace(lines[1..][k]) && x == Strip(lines[1..][k]);
          assert lines[k + 1] == lines[1..][k];
        }
      }
      forall x, k | 0 <= k < |lines| && !AllSpace(lines[k]) && x == Strip(lines[k])
        ensures x in NonBlankStripped(lines)
      {
        if k > 0 {
          assert lines[1..][k - 1] == lines[k];
        }
      }
    }
  }

  /** A path as the paste handler produces it: non-empty, on one line, and neither starting
      nor ending with whitespace. */
  predicate IsStrippedPath(x: string)
  {
    x != [] && '\n' !in x && !IsSpace(x[0]) && !IsSpace(x[|x| - 1])
  }

  /** Stripping a non-blank line that holds no newline gives a stripped path. */
  lemma StrippedLineShape(line: string)
    requires '\n' !in line && !AllSpace(line)
    ensures IsStrippedPath(Strip(line))
  {
    StripSpec(line);
    var t := Strip(line);
    var i := |line| - |TrimLeft(line)|;
    assert forall k :: 0 <= k < |t| ==> t[k] == line[i + k];
  }

  /** Every line kept from lines without newlines is a stripped path. */
  lemma {:induction false} NonBlankStrippedSpec(lines: seq<string>)
    requires forall i :: 0 <= i < |lines| ==> '\n' !in lines[i]
    ensures forall x :: x in NonBlankStripped(lines) ==> IsStrippedPath(x)
    decreases |lines|
  {
    if lines != [] {
      NonBlankStrippedSpec(lines[1..]);
      StripSpec(lines[0]);
      if !AllSpace(lines[0]) {
        StrippedLineShape(lines[0]);
      }
    }
  }

  /** The parsed paths of a pasted text, stated on the text as pasted. */
  lemma ParsedPathsShape(text: string)
    ensures forall x :: x in ParsePaths(text) ==> IsStrippedPath(x)
    ensures var lines := Split(text, '\n');
            forall x :: x in ParsePaths(text) <==>
              exists k :: 0 <= k < |lines| && !AllSpace(lines[k]) && x == Strip(lines[k])
  {
    ParseIsNonBlankLines(text);
    NonBlankStrippedSpec(Split(text, '\n'));
    NonBlankStrippedMembers(Split(text, '\n'));
  }

  /** The paths of `paths` that exist on disk (`os.path.exists`), in their order. */
  function KeepExisting(paths: seq<string>, onDisk: set<string>): seq<string>
    decreases |paths|
  {
    if paths == [] then []
    else
      var last := paths[|paths| - 1];
      KeepExisting(paths[..|paths| - 1], onDisk) + (if last in onDisk then [last] else [])
  }

  /** The existence filter keeps exactly the paths that exist. */
  lemma {:induction false} KeepExistingMembers(paths: seq<string>, onDisk: set<string>)
    ensures forall x :: x in KeepExisting(paths, onDisk) <==> x in paths && x in onDisk
    decreases |paths|
  {
    if paths != [] {
      KeepExistingMembers(paths[..|paths| - 1], onDisk);
      assert paths == paths[..|paths| - 1] + [paths[|paths| - 1]];
    }
  }

  /** The paste handler hands `add_files` exactly the stripped non-blank lines of the pasted
      text that exist on disk. */
  lemma PastedPathsMembers(text: string, onDisk: set<string>)
    ensures var lines := Split(text, '\n');
            forall x :: x in KeepExisting(ParsePaths(text), onDisk) <==>
              x in onDisk && exists k :: 0 <= k < |lines| && !AllSpace(lines[k]) && x == Strip(lines[k])
  {
    ParseIsNonBlankLines(text);
    NonBlankStrippedMembers(Split(text, '\n'));
    KeepExistingMembers(ParsePaths(text), onDisk);
  }
}
