/**
 * The lock-file diff scanner: from a git-format multi-file diff, the
 * added and removed lines of the block whose `diff --git` header names
 * the lock file.
 */
module DiffScanner {
  import opened Text

  /** The text that starts each file's block in a git diff. */
  const DiffHeader := "diff --git"

  predicate IsHeader(line: string) {
    StartsWith(line, DiffHeader)
  }

  /** An added or removed line, `+++`/`---` file-identity lines included. */
  predicate IsChange(line: string) {
    StartsWith(line, "+") || StartsWith(line, "-")
  }

  /** A header line naming the lock file (a substring match). */
  predicate OpensLockBlock(line: string, lockFile: string) {
    IsHeader(line) && Contains(line, lockFile)
  }

  /** The scanner's variables between two lines: the `inLockFile` flag and the lines collected. */
  datatype ScanState = ScanState(inLockFile: bool, changes: seq<string>)

  const Start := ScanState(false, [])

  /**
   * One turn of the scanning loop. A header naming the lock file opens the
   * block and is not kept; any other header closes it; any other line is
   * kept exactly when the block is open and it is a change line.
   */
  function Step(st: ScanState, line: string, lockFile: string): (r: ScanState)
    ensures OpensLockBlock(line, lockFile) ==> r == ScanState(true, st.changes)
    ensures IsHeader(line) && !Contains(line, lockFile) ==> r == ScanState(false, st.changes)
    ensures !IsHeader(line) ==>
      r.inLockFile == st.inLockFile &&
      r.changes == (if st.inLockFile && IsChange(line) then st.changes + [line] else st.changes)
  {
    if OpensLockBlock(line, lockFile) then
      st.(inLockFile := true)
    else
      var inLock := if st.inLockFile && IsHeader(line) then false else st.inLockFile;
      ScanState(inLock, if inLock && IsChange(line) then st.changes + [line] else st.changes)
  }

  /**
   * The state after scanning `lines` from `st`: the lines already collected
   * stay in front, and at most one line is added per line scanned.
   */
  function ScanFrom(st: ScanState, lines: seq<string>, lockFile: string): (r: ScanState)
    ensures |st.changes| <= |r.changes| <= |st.changes| + |lines|
    ensures r.changes[..|st.changes|] == st.changes
  {
    if lines == [] then st
    else Step(ScanFrom(st, lines[..|lines| - 1], lockFile), lines[|lines| - 1], lockFile)
  }

  /** The state after scanning `lines` from the start: at most one kept line per line. */
  function Scan(lines: seq<string>, lockFile: string): (r: ScanState)
    ensures |r.changes| <= |lines|
  {
    ScanFrom(Start, lines, lockFile)
  }

  /** What the scanner returns for a whole diff: never more lines than the diff has. */
  function LockFileChanges(diff: string, lockFile: string): (changes: seq<string>)
    ensures |changes| <= |Split(diff, '\n')|
  {
    Scan(Split(diff, '\n'), lockFile).changes
  }

  /**
   * The scanner as the action runs it: split the diff into lines and walk
   * them once with the `inLockFile` flag, collecting change lines.
   */
  method ExtractPackageLockChanges(diff: string, lockFile: string) returns (changes: seq<string>)
    ensures changes == LockFileChanges(diff, lockFile)
    ensures forall k :: 0 <= k < |changes| ==>
      IsChange(changes[k]) && !IsHeader(changes[k]) && '\n' !in changes[k]
  {
    var lines := Split(diff, '\n');
    changes := [];
    var inLockFile := false;
    for i := 0 to |lines|
      invariant ScanState(inLockFile, changes) == Scan(lines[..i], lockFile)
    {
      var line := lines[i];
      assert lines[..i + 1][..i] == lines[..i];
      if IsHeader(line) && Contains(line, lockFile) {
        inLockFile := true;
        continue;
      } else if inLockFile && IsHeader(line) {
        inLockFile := false;
      }
      if inLockFile && IsChange(line) {
        changes := changes + [line];
      }
    }
    assert lines[..|lines|] == lines;
    var idx := ChangesCharacterized(lines, lockFile);
    forall k | 0 <= k < |changes|
      ensures IsChange(changes[k]) && !IsHeader(changes[k]) && '\n' !in changes[k]
    {
      assert idx[k] in idx;
    }
  }

  /**
   * Line `i` lies in the lock file's block: the most recent header line
   * before it names the lock file.
   */
  ghost predicate InLockBlock(lines: seq<string>, i: int, lockFile: string)
    requires 0 <= i <= |lines|
  {
    exists j :: 0 <= j < i && OpensLockBlock(lines[j], lockFile) &&
      forall k :: j < k < i ==> !IsHeader(lines[k])
  }

  /** The lines the scanner keeps: change lines inside the lock file's block. */
  ghost predicate Picked(lines: seq<string>, i: int, lockFile: string)
    requires 0 <= i < |lines|
  {
    IsChange(lines[i]) && InLockBlock(lines, i, lockFile)
  }

  /** A change line cannot be a header line. */
  lemma ChangeIsNotHeader(line: string)
    requires IsChange(line)
    ensures !IsHeader(line)
  {
    assert line[..1][0] == line[0];
    assert DiffHeader[0] == 'd';
  }

  /** After a prefix of the lines, the flag is set exactly inside the lock file's block. */
  lemma {:induction false} FlagTracksLastHeader(lines: seq<string>, n: nat, lockFile: string)
    requires n <= |lines|
    ensures Scan(lines[..n], lockFile).inLockFile <==> InLockBlock(lines, n, lockFile)
  {
    if n > 0 {
      FlagTracksLastHeader(lines, n - 1, lockFile);
      assert lines[..n][..n - 1] == lines[..n - 1];
      var line := lines[n - 1];
      if OpensLockBlock(line, lockFile) {
        assert InLockBlock(lines, n, lockFile);
      } else if IsHeader(line) {
        assert !InLockBlock(lines, n, lockFile);
      } else {
        if InLockBlock(lines, n, lockFile) {
          var j :| 0 <= j < n && OpensLockBlock(lines[j], lockFile) &&
            forall k :: j < k < n ==> !IsHeader(lines[k]);
          assert j < n - 1;
          assert InLockBlock(lines, n - 1, lockFile);
        }
        if InLockBlock(lines, n - 1, lockFile) {
          var j :| 0 <= j < n - 1 && OpensLockBlock(lines[j], lockFile) &&
            forall k :: j < k < n - 1 ==> !IsHeader(lines[k]);
          assert forall k :: j < k < n ==> !IsHeader(lines[k]);
          assert InLockBlock(lines, n, lockFile);
        }
      }
    }
  }

  /** The characterisation of `Scan(lines[..n]).changes`, built line by line. */
  lemma {:induction false} PickedPrefix(lines: seq<string>, n: nat, lockFile: string) returns (idx: seq<nat>)
    requires n <= |lines|
    ensures |idx| == |Scan(lines[..n], lockFile).changes|
    ensures forall k :: 0 <= k < |idx| ==>
      idx[k] < n && Scan(lines[..n], lockFile).changes[k] == lines[idx[k]]
    ensures forall k, m :: 0 <= k < m < |idx| ==> idx[k] < idx[m]
    ensures forall i :: 0 <= i < n ==> (i in idx <==> Picked(lines, i, lockFile))
  {
    if n == 0 {
      idx := [];
    } else {
      var before := PickedPrefix(lines, n - 1, lockFile);
      FlagTracksLastHeader(lines, n - 1, lockFile);
      assert lines[..n][..n - 1] == lines[..n - 1];
      var prev := Scan(lines[..n - 1], lockFile);
      var line := lines[n - 1];
      assert Scan(lines[..n], lockFile) == Step(prev, line, lockFile);
      if IsChange(line) {
        ChangeIsNotHeader(line);
      }
      if Picked(lines, n - 1, lockFile) {
        idx := before + [n - 1];
        assert Scan(lines[..n], lockFile).changes == prev.changes + [line];
      } else {
        idx := before;
        assert n - 1 !in idx;
      }
    }
  }

  /**
   * The scanner's result, exactly: the lines it returns are the lines at
   * indices `idx`, in increasing order, and an index is among them iff
   * its line is a change line in the lock file's block. No header line is
   * ever returned.
   */
  lemma ChangesCharacterized(lines: seq<string>, lockFile: string) returns (idx: seq<nat>)
    ensures |idx| == |Scan(lines, lockFile).changes|
    ensures forall k :: 0 <= k < |idx| ==>
      idx[k] < |lines| && Scan(lines, lockFile).changes[k] == lines[idx[k]]
    ensures forall k, m :: 0 <= k < m < |idx| ==> idx[k] < idx[m]
    ensures forall i :: 0 <= i < |lines| ==> (i in idx <==> Picked(lines, i, lockFile))
    ensures forall k :: 0 <= k < |idx| ==> IsChange(lines[idx[k]]) && !IsHeader(lines[idx[k]])
  {
    idx := PickedPrefix(lines, |lines|, lockFile);
    assert lines[..|lines|] == lines;
    forall k | 0 <= k < |idx|
      ensures IsChange(lines[idx[k]]) && !IsHeader(lines[idx[k]])
    {
      assert idx[k] in idx;
      ChangeIsNotHeader(lines[idx[k]]);
    }
  }

  /** Scanning two pieces one after the other is scanning their concatenation. */
  lemma {:induction false} ScanFromAppend(st: ScanState, a: seq<string>, b: seq<string>, lockFile: string)
    ensures ScanFrom(st, a + b, lockFile) == ScanFrom(ScanFrom(st, a, lockFile), b, lockFile)
  {
    if b == [] {
      assert a + b == a;
    } else {
      ScanFromAppend(st, a, b[..|b| - 1], lockFile);
      assert (a + b)[..|a + b| - 1] == a + b[..|b| - 1];
    }
  }

  /** Outside the lock file's block, lines with no header naming the lock file change nothing. */
  lemma {:induction false} OutsideStaysOutside(st: ScanState, lines: seq<string>, lockFile: string)
    requires !st.inLockFile
    requires forall k :: 0 <= k < |lines| ==> !OpensLockBlock(lines[k], lockFile)
    ensures ScanFrom(st, lines, lockFile) == st
  {
    if lines != [] {
      OutsideStaysOutside(st, lines[..|lines| - 1], lockFile);
    }
  }

  /** Without a header line naming the lock file (or without any header at all), nothing is returned. */
  lemma NoLockHeaderNoChanges(lines: seq<string>, lockFile: string)
    requires forall k :: 0 <= k < |lines| ==> !OpensLockBlock(lines[k], lockFile)
    ensures Scan(lines, lockFile).changes == []
  {
    OutsideStaysOutside(Start, lines, lockFile);
  }

  /**
   * A block ends at the next header that does not name the lock file:
   * nothing after it is returned until a header names the lock file again.
   */
  lemma BlockEndsAtOtherHeader(before: seq<string>, header: string, after: seq<string>, lockFile: string)
    requires IsHeader(header) && !Contains(header, lockFile)
    requires forall k :: 0 <= k < |after| ==> !OpensLockBlock(after[k], lockFile)
    ensures Scan(before + [header] + after, lockFile).changes == Scan(before, lockFile).changes
  {
    ScanFromAppend(Start, before + [header], after, lockFile);
    ScanFromAppend(Start, before, [header], lockFile);
    var closed := ScanFrom(Start, before + [header], lockFile);
    assert [header][..0] == [];
    assert !closed.inLockFile;
    OutsideStaysOutside(closed, after, lockFile);
  }

  /**
   * Inside the block every `+`/`-` line is returned, the `+++`/`---`
   * file-identity lines included, and the header itself is not, wherever
   * the block stands in the diff.
   */
  lemma IdentityLinesCounted(before: seq<string>, header: string, body: seq<string>, lockFile: string)
    requires OpensLockBlock(header, lockFile)
    requires forall k :: 0 <= k < |body| ==> !IsHeader(body[k])
    ensures Scan(before + [header] + body, lockFile).changes == Scan(before, lockFile).changes + KeptChanges(body)
  {
    ScanFromAppend(Start, before + [header], body, lockFile);
    ScanFromAppend(Start, before, [header], lockFile);
    assert [header][..0] == [];
    InsideKeepsChanges(ScanFrom(Start, before + [header], lockFile), body, lockFile);
  }

  /** The change lines of `lines`, in order. */
  function KeptChanges(lines: seq<string>): seq<string> {
    if lines == [] then []
    else
      var last := lines[|lines| - 1];
      KeptChanges(lines[..|lines| - 1]) + (if IsChange(last) then [last] else [])
  }

  /** A block made only of change lines is kept whole. */
  lemma {:induction false} AllChangesKept(lines: seq<string>)
    requires forall k :: 0 <= k < |lines| ==> IsChange(lines[k])
    ensures KeptChanges(lines) == lines
  {
    if lines != [] {
      AllChangesKept(lines[..|lines| - 1]);
    }
  }

  lemma {:induction false} InsideKeepsChanges(st: ScanState, lines: seq<string>, lockFile: string)
    requires st.inLockFile
    requires forall k :: 0 <= k < |lines| ==> !IsHeader(lines[k])
    ensures ScanFrom(st, lines, lockFile) == ScanState(true, st.changes + KeptChanges(lines))
  {
    if lines == [] {
      assert st.changes + [] == st.changes;
    } else {
      InsideKeepsChanges(st, lines[..|lines| - 1], lockFile);
    }
  }
}
