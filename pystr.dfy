/** Models of the Python `str` operations that the renamer relies on:
    `p in s`, `s.find(p)`, `s.replace(p, r)`, `s.lower()`, `s.strip()` and `s.split(sep)`. */
module PyStr {

  // ---------------------------------------------------------------------------
  // Substring search: `p in s` and `s.find(p)`
  // ---------------------------------------------------------------------------

  /** `p` occurs in `s` starting at index `k`. */
  predicate OccursAt(s: string, p: string, k: int)
  {
    0 <= k && k + |p| <= |s| && s[k..k + |p|] == p
  }

  /** Python's `p in s`. */
  predicate Contains(s: string, p: string)
  {
    exists k | 0 <= k <= |s| - |p| :: OccursAt(s, p, k)
  }

  /** An occurrence at `k + 1` in `s` is an occurrence at `k` in `s[1..]`. */
  lemma OccursAtTail(s: string, p: string)
    requires |s| > 0
    ensures forall k :: 0 <= k ==> (OccursAt(s, p, k + 1) <==> OccursAt(s[1..], p, k))
  {
    forall k | 0 <= k
      ensures OccursAt(s, p, k + 1) <==> OccursAt(s[1..], p, k)
    {
      if k + 1 + |p| <= |s| {
        assert s[1..][k..k + |p|] == s[k + 1..k + 1 + |p|];
      }
    }
  }

  /** The first occurrence of `p` in `s` is at `k`. */
  predicate FirstOccurrence(s: string, p: string, k: int)
  {
    OccursAt(s, p, k) && forall j :: 0 <= j < k ==> !OccursAt(s, p, j)
  }

  /** When `p` does not start `s`, the occurrences of `p` in `s` are those in `s[1..]`, one
      index further on. */
  lemma ShiftOccurrences(s: string, p: string)
    requires |s| >= |p| && s[..|p|] != p
    ensures Contains(s, p) <==> Contains(s[1..], p)
    ensures forall k :: FirstOccurrence(s[1..], p, k) ==> FirstOccurrence(s, p, k + 1)
  {
    OccursAtTail(s, p);
    assert !OccursAt(s, p, 0);
    if Contains(s, p) {
      var k :| 0 <= k <= |s| - |p| && OccursAt(s, p, k);
      assert OccursAt(s[1..], p, k - 1);
    }
    forall k | FirstOccurrence(s[1..], p, k) ensures FirstOccurrence(s, p, k + 1) {
      forall j | 0 < j < k + 1 ensures !OccursAt(s, p, j) {
        assert !OccursAt(s[1..], p, j - 1);
      }
    }
  }

  /** Python's `s.find(p)`: the lowest index at which `p` occurs in `s`, or -1 when it does not occur. */
  function Find(s: string, p: string): (r: int)
    ensures r == -1 <==> !Contains(s, p)
    ensures r != -1 ==> FirstOccurrence(s, p, r)
    decreases |s|
  {
    if |s| < |p| then -1
    else if s[..|p|] == p then
      assert OccursAt(s, p, 0);
      0
    else
      var t := Find(s[1..], p);
      ShiftOccurrences(s, p);
      if t == -1 then -1 else t + 1
  }

  // ---------------------------------------------------------------------------
  // Substitution: `s.replace(p, r)`
  // ---------------------------------------------------------------------------

  /** The scan of `s.replace(p, r)` from index `i` on: an occurrence of `p` at the scan position
      is replaced by `r` and the scan jumps past it; any other character is kept and the scan
      moves one character on. */
  function ReplaceFrom(s: string, p: string, r: string, i: nat): string
    requires |p| > 0 && i <= |s|
    decreases |s| - i
  {
    if |s| - i < |p| then s[i..]
    else if OccursAt(s, p, i) then r + ReplaceFrom(s, p, r, i + |p|)
    else [s[i]] + ReplaceFrom(s, p, r, i + 1)
  }

  /** Python's `s.replace(p, r)` for a non-empty `p`: every occurrence of `p`, found scanning left
      to right and never overlapping a previous one, is replaced by `r`. */
  function Replace(s: string, p: string, r: string): string
    requires |p| > 0
  {
    ReplaceFrom(s, p, r, 0)
  }

  /** A suffix split in two at `j`. */
  lemma SliceSplit(s: string, i: nat, j: nat)
    requires i <= j <= |s|
    ensures s[i..] == s[i..j] + s[j..] && (j == i + 1 ==> s[i..j] == [s[i]])
  {
  }

  /** A scan that meets no occurrence keeps the rest of `s` as it is. */
  lemma {:induction false} ReplaceFromNoMatch(s: string, p: string, r: string, i: nat)
    requires |p| > 0 && i <= |s|
    requires forall k :: i <= k ==> !OccursAt(s, p, k)
    ensures ReplaceFrom(s, p, r, i) == s[i..]
    decreases |s| - i
  {
    if |s| - i >= |p| {
      ReplaceFromNoMatch(s, p, r, i + 1);
      assert s[i..] == [s[i]] + s[i + 1..];
    }
  }

  /** Without an occurrence of `p`, `s.replace(p, r)` returns `s` unchanged. */
  lemma ReplaceNoMatch(s: string, p: string, r: string)
    requires |p| > 0 && !Contains(s, p)
    ensures Replace(s, p, r) == s
  {
    ReplaceFromNoMatch(s, p, r, 0);
  }

  /** A scan from `i` that meets its next occurrence at `k` keeps `s[i..k]`, puts `r` in place
      of that occurrence and resumes right after it. */
  lemma {:induction false} ReplaceFromAt(s: string, p: string, r: string, i: nat, k: nat)
    requires |p| > 0 && i <= k && OccursAt(s, p, k)
    requires forall j :: i <= j < k ==> !OccursAt(s, p, j)
    ensures ReplaceFrom(s, p, r, i) == s[i..k] + r + ReplaceFrom(s, p, r, k + |p|)
    decreases k - i
  {
    if i < k {
      ReplaceFromAt(s, p, r, i + 1, k);
      assert s[i..k] == [s[i]] + s[i + 1..k];
    }
  }

  /** The first occurrence `k`: everything before it is kept, it becomes `r`, and the scan
      resumes right after it. */
  lemma ReplaceAt(s: string, p: string, r: string, k: nat)
    requires |p| > 0 && FirstOccurrence(s, p, k)
    ensures Replace(s, p, r) == s[..k] + r + ReplaceFrom(s, p, r, k + |p|)
  {
    ReplaceFromAt(s, p, r, 0, k);
  }

  /** `ReplaceAt` at the index `s.find(p)` reports. Together with `ReplaceNoMatch` this
      determines `s.replace(p, r)` from `s.find(p)`. */
  lemma ReplaceAtFirst(s: string, p: string, r: string)
    requires |p| > 0 && Contains(s, p)
    ensures var k := Find(s, p);
            0 <= k && k + |p| <= |s| && Replace(s, p, r) == s[..k] + r + ReplaceFrom(s, p, r, k + |p|)
  {
    ReplaceAt(s, p, r, Find(s, p));
  }

  /** A scan replacing `p` by itself gives back the rest of `s`. */
  lemma {:induction false} ReplaceFromIdentity(s: string, p: string, i: nat)
    requires |p| > 0 && i <= |s|
    ensures ReplaceFrom(s, p, p, i) == s[i..]
    decreases |s| - i
  {
    if |s| - i >= |p| {
      if OccursAt(s, p, i) {
        ReplaceFromIdentity(s, p, i + |p|);
        SliceSplit(s, i, i + |p|);
      } else {
        ReplaceFromIdentity(s, p, i + 1);
        SliceSplit(s, i, i + 1);
      }
    }
  }

  /** Replacing `p` by itself changes nothing. */
  lemma ReplaceIdentity(s: string, p: string)
    requires |p| > 0
    ensures Replace(s, p, p) == s
  {
    ReplaceFromIdentity(s, p, 0);
  }

  /** A scan introduces no character that is in neither `s` nor `r`. */
  lemma {:induction false} ReplaceFromAvoids(s: string, p: string, r: string, c: char, i: nat)
    requires |p| > 0 && i <= |s| && c !in s && c !in r
    ensures c !in ReplaceFrom(s, p, r, i)
    decreases |s| - i
  {
    if |s| - i < |p| {
      assert forall x :: x in s[i..] ==> x in s;
    } else if OccursAt(s, p, i) {
      ReplaceFromAvoids(s, p, r, c, i + |p|);
    } else {
      ReplaceFromAvoids(s, p, r, c, i + 1);
    }
  }

  /** `s.replace(p, r)` introduces no character that is in neither `s` nor `r`. */
  lemma ReplaceAvoids(s: string, p: string, r: string, c: char)
    requires |p| > 0 && c !in s && c !in r
    ensures c !in Replace(s, p, r)
  {
    ReplaceFromAvoids(s, p, r, c, 0);
  }

  // ---------------------------------------------------------------------------
  // Lowering: `s.lower()`
  // ---------------------------------------------------------------------------

  /** Lower-cases one character; only the ASCII letters A-Z change. */
  function LowerChar(c: char): char
  {
    if 'A' <= c <= 'Z' then (c as int + 32) as char else c
  }

  /** `s.lower()`, character by character, so the length never changes. */
  function Lower(s: string): (t: string)
    ensures |t| == |s|
  {
    if s == [] then [] else [LowerChar(s[0])] + Lower(s[1..])
  }

  /** `s.lower()` lowers each character in place. */
  lemma {:induction false} LowerAt(s: string)
    ensures forall i :: 0 <= i < |s| ==> Lower(s)[i] == LowerChar(s[i])
    decreases |s|
  {
    if s != [] {
      LowerAt(s[1..]);
    }
  }

  /** Lowering commutes with taking a slice and with concatenation. */
  lemma LowerSliceConcat(a: string, b: string, i: nat, j: nat)
    requires i <= j <= |a|
    ensures Lower(a[i..j]) == Lower(a)[i..j]
    ensures Lower(a + b) == Lower(a) + Lower(b)
  {
    LowerAt(a);
    LowerAt(b);
    LowerAt(a[i..j]);
    LowerAt(a + b);
    assert Lower(a[i..j]) == Lower(a)[i..j] by {
      assert forall k :: 0 <= k < j - i ==> Lower(a[i..j])[k] == LowerChar(a[i + k]);
    }
    assert forall k :: 0 <= k < |a + b| ==> Lower(a + b)[k] == (Lower(a) + Lower(b))[k];
  }

  // ---------------------------------------------------------------------------
  // Whitespace trimming: `s.strip()`
  // ---------------------------------------------------------------------------

  /** Python's `c.isspace()`: the code points that `str.strip()` with no argument removes. */
  predicate IsSpace(c: char)
  {
    var n := c as int;
    (9 <= n <= 13) || (28 <= n <= 32) || n == 0x85 || n == 0xA0 || n == 0x1680
    || (0x2000 <= n <= 0x200A) || n == 0x2028 || n == 0x2029 || n == 0x202F
    || n == 0x205F || n == 0x3000
  }

  predicate AllSpace(s: string)
  {
    forall i :: 0 <= i < |s| ==> IsSpace(s[i])
  }

  /** `s.lstrip()`: the suffix of `s` left after dropping its leading whitespace. */
  function TrimLeft(s: string): string
  {
    if s != [] && IsSpace(s[0]) then TrimLeft(s[1..]) else s
  }

  /** `s.lstrip()` removes a whitespace prefix and stops at the first non-whitespace character. */
  lemma {:induction false} TrimLeftSpec(s: string)
    ensures var t := TrimLeft(s);
            |t| <= |s| && t == s[|s| - |t|..] && AllSpace(s[..|s| - |t|])
            && (t == [] || !IsSpace(t[0]))
    decreases |s|
  {
    if s != [] && IsSpace(s[0]) {
      TrimLeftSpec(s[1..]);
      var t := TrimLeft(s);
      assert s[..|s| - |t|] == [s[0]] + s[1..][..|s| - 1 - |t|];
    } else {
      assert s[..0] == [];
    }
  }

  /** `s.rstrip()`: the prefix of `s` left after dropping its trailing whitespace. */
  function TrimRight(s: string): string
  {
    if s != [] && IsSpace(s[|s| - 1]) then TrimRight(s[..|s| - 1]) else s
  }

  /** `s.rstrip()` removes a whitespace suffix and stops at the last non-whitespace character. */
  lemma {:induction false} TrimRightSpec(s: string)
    ensures var t := TrimRight(s);
            |t| <= |s| && t == s[..|t|] && AllSpace(s[|t|..])
            && (t == [] || !IsSpace(t[|t| - 1]))
    decreases |s|
  {
    if s != [] && IsSpace(s[|s| - 1]) {
      var s' := s[..|s| - 1];
      TrimRightSpec(s');
      var t := TrimRight(s);
      assert s[|t|..] == s'[|t|..] + [s[|s| - 1]];
      assert s'[..|t|] == s[..|t|];
    } else {
      assert s[|s|..] == [];
    }
  }

  /** `s.strip()`: `s` without its leading and trailing whitespace. */
  function Strip(s: string): string
  {
    TrimRight(TrimLeft(s))
  }

  /** `s.strip()` keeps a contiguous middle part of `s`, drops only whitespace around it, and
      what it keeps neither starts nor ends with whitespace; it is empty exactly for blank text. */
  lemma StripSpec(s: string)
    ensures var t, i := Strip(s), |s| - |TrimLeft(s)|;
            0 <= i <= i + |t| <= |s| && t == s[i..i + |t|]
            && AllSpace(s[..i]) && AllSpace(s[i + |t|..])
    ensures Strip(s) == [] || (!IsSpace(Strip(s)[0]) && !IsSpace(Strip(s)[|Strip(s)| - 1]))
    ensures Strip(s) == [] <==> AllSpace(s)
  {
    var l := TrimLeft(s);
    var t := TrimRight(l);
    TrimLeftSpec(s);
    TrimRightSpec(l);
    var i := |s| - |l|;
    assert s[i..i + |t|] == t;
    assert s[i + |t|..] == l[|t|..];
    assert AllSpace(s[i + |t|..]);
    if t == [] {
      assert l[|t|..] == l;
      assert s[..i] == s;
    } else {
      assert !AllSpace(s) by { assert s[i] == t[0]; }
    }
  }

  /** Leading whitespace makes no difference to `strip()`. */
  lemma StripSpaceCons(c: char, s: string)
    requires IsSpace(c)
    ensures Strip([c] + s) == Strip(s)
  {
    assert ([c] + s)[1..] == s;
  }

  lemma {:induction false} TrimLeftSnoc(s: string, c: char)
    requires IsSpace(c)
    ensures TrimLeft(s + [c]) == if AllSpace(s) then [] else TrimLeft(s) + [c]
    decreases |s|
  {
    if s == [] {
      assert TrimLeft([c]) == TrimLeft([]);
    } else {
      assert (s + [c])[1..] == s[1..] + [c];
      if IsSpace(s[0]) {
        TrimLeftSnoc(s[1..], c);
        assert AllSpace(s) <==> AllSpace(s[1..]) by {
          assert forall k :: 1 <= k < |s| ==> s[k] == s[1..][k - 1];
        }
      }
    }
  }

  /** Trailing whitespace makes no difference to `strip()`. */
  lemma StripSpaceSnoc(s: string, c: char)
    requires IsSpace(c)
    ensures Strip(s + [c]) == Strip(s)
  {
    TrimLeftSnoc(s, c);
    if AllSpace(s) {
      StripSpec(s);
    } else {
      var l := TrimLeft(s);
      assert (l + [c])[..|l + [c]| - 1] == l;
    }
  }

  // ---------------------------------------------------------------------------
  // Splitting: `s.split(sep)` and its inverse `sep.join(parts)`
  // ---------------------------------------------------------------------------

  /** Python's `s.split(sep)` for a one-character separator: the maximal separator-free pieces,
      so always at least one (the empty text gives one empty piece). */
  function Split(s: string, sep: char): (parts: seq<string>)
    ensures |parts| >= 1
    ensures forall i :: 0 <= i < |parts| ==> sep !in parts[i]
  {
    if s == [] then [[]]
    else
      var rest := Split(s[1..], sep);
      if s[0] == sep then [[]] + rest else [[s[0]] + rest[0]] + rest[1..]
  }

  /** Python's `sep.join(parts)`. */
  function JoinWith(parts: seq<string>, sep: char): string
    requires |parts| >= 1
  {
    if |parts| == 1 then parts[0] else parts[0] + [sep] + JoinWith(parts[1..], sep)
  }

  /** Joining the pieces back with the separator gives the text again. */
  lemma {:induction false} SplitJoin(s: string, sep: char)
    ensures JoinWith(Split(s, sep), sep) == s
    decreases |s|
  {
    if s != [] {
      var rest := Split(s[1..], sep);
      SplitJoin(s[1..], sep);
      if s[0] == sep {
        assert ([[]] + rest)[1..] == rest;
      } else {
        var parts := [[s[0]] + rest[0]] + rest[1..];
        if |rest| > 1 {
          assert parts[1..] == rest[1..];
        }
      }
    }
  }

  /** Splitting pieces that hold no separator, after joining them, gives the pieces back. */
  lemma {:induction false} JoinSplit(parts: seq<string>, sep: char)
    requires |parts| >= 1
    requires forall i :: 0 <= i < |parts| ==> sep !in parts[i]
    ensures Split(JoinWith(parts, sep), sep) == parts
    decreases |parts|, |parts[0]|
  {
    var p := parts[0];
    if p == [] {
      if |parts| > 1 {
        JoinSplit(parts[1..], sep);
        assert JoinWith(parts, sep) == [sep] + JoinWith(parts[1..], sep);
        assert ([sep] + JoinWith(parts[1..], sep))[1..] == JoinWith(parts[1..], sep);
        assert [[]] + parts[1..] == parts;
      }
    } else {
      var shorter := [p[1..]] + parts[1..];
      assert forall i :: 0 <= i < |shorter| ==> sep !in shorter[i] by {
        assert forall i :: 1 <= i < |shorter| ==> shorter[i] == parts[i];
      }
      JoinSplit(shorter, sep);
      assert shorter[1..] == parts[1..];
      var s := JoinWith(parts, sep);
      assert s == [p[0]] + JoinWith(shorter, sep);
      assert s[1..] == JoinWith(shorter, sep);
      assert p[0] != sep by { assert p[0] in p; }
      assert p == [p[0]] + p[1..];
      assert [[p[0]] + p[1..]] + parts[1..] == parts;
    }
  }

  /** What one more character does to the pieces of a split: a separator starts a new empty
      piece, any other character lengthens the last piece. */
  function SplitStep(parts: seq<string>, c: char, sep: char): seq<string>
    requires |parts| >= 1
  {
    if c == sep then parts + [[]] else parts[..|parts| - 1] + [parts[|parts| - 1] + [c]]
  }

  /** `SplitStep` acts on the last piece only, so it commutes with a new first piece... */
  lemma PrependStep(q: seq<string>, c: char, sep: char)
    requires |q| >= 1
    ensures [[]] + SplitStep(q, c, sep) == SplitStep([[]] + q, c, sep)
  {
    if c != sep {
      assert ([[]] + q)[..|q|] == [[]] + q[..|q| - 1];
    }
  }

  /** ... and with lengthening the first piece at its front. */
  lemma ExtendFirstStep(q: seq<string>, c: char, sep: char, x: char)
    requires |q| >= 1
    ensures var t := SplitStep(q, c, sep);
            [[x] + t[0]] + t[1..] == SplitStep([[x] + q[0]] + q[1..], c, sep)
  {
    var n := |q|;
    var t := SplitStep(q, c, sep);
    var parts := [[x] + q[0]] + q[1..];
    if c == sep {
      assert t[0] == q[0];
      assert t[1..] == q[1..] + [[]];
    } else if n == 1 {
      assert t == [q[0] + [c]];
      assert [x] + (q[0] + [c]) == ([x] + q[0]) + [c];
    } else {
      assert t[0] == q[0];
      assert t[1..] == q[1..n - 1] + [q[n - 1] + [c]];
      assert parts[..|parts| - 1] == [[x] + q[0]] + q[1..n - 1];
    }
  }

  /** Splitting a text extended by one character extends its pieces by `SplitStep`. */
  lemma {:induction false} SplitSnoc(s: string, c: char, sep: char)
    ensures Split(s + [c], sep) == SplitStep(Split(s, sep), c, sep)
    decreases |s|
  {
    var s' := s + [c];
    if s == [] {
      assert s' == [c] && s'[1..] == [];
      assert Split([], sep) == [[]];
      assert [c] + [] == [c];
      assert Split(s', sep) == if c == sep then [[], []] else [[c]];
    } else {
      var x := s[0];
      assert s'[0] == x && s'[1..] == s[1..] + [c];
      SplitSnoc(s[1..], c, sep);
      var q := Split(s[1..], sep);
      var rest := Split(s[1..] + [c], sep);
      if x == sep {
        PrependStep(q, c, sep);
      } else {
        ExtendFirstStep(q, c, sep, x);
      }
    }
  }
}
