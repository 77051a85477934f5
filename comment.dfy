/**
 * What the action writes: the review comment posted when the threshold is
 * exceeded, and the two log messages.
 */
module Comment {
  import opened Wrappers
  import opened Text

  /**
   * `lockFile.split('/').pop() || lockFile`: the text after the last `/`,
   * falling back to the whole path when that text is empty.
   */
  function FileName(lockFile: string): (name: string)
    ensures '/' !in lockFile ==> name == lockFile
    ensures |lockFile| > 0 && lockFile[|lockFile| - 1] == '/' ==> name == lockFile
    ensures |lockFile| > 0 && '/' in lockFile && lockFile[|lockFile| - 1] != '/' ==>
      0 < |name| < |lockFile| && '/' !in name &&
      lockFile[|lockFile| - |name| - 1] == '/' && lockFile[|lockFile| - |name|..] == name
  {
    var parts := Split(lockFile, '/');
    var last := parts[|parts| - 1];
    LastPiece(lockFile, '/');
    if last == "" then lockFile else last
  }

  /**
   * `${n}` for the threshold, which is NaN when the input did not parse:
   * `NaN` is never the text of a number, and a number's text reads back as
   * that number.
   */
  function NumberText(n: Option<int>): (s: string)
    ensures s == "NaN" <==> n.None?
    ensures n.Some? && n.value >= 0 ==>
      (forall k :: 0 <= k < |s| ==> IsDigit(s[k])) && ParseDecimal(s) == n.value
    ensures n.Some? && n.value < 0 ==>
      |s| >= 2 && s[0] == '-' && (forall k :: 1 <= k < |s| ==> IsDigit(s[k])) &&
      ParseDecimal(s[1..]) == -n.value
  {
    match n
    case None => "NaN"
    case Some(i) =>
      var t := IntToString(i);
      assert t[0] == '-' || IsDigit(t[0]);
      DecimalRoundTrip(if i < 0 then -i else i);
      t
  }

  /** `**N lines**` */
  function CountText(count: nat): string {
    Concat(["**", NatToString(count) + " lines", "**"])
  }

  /** `threshold of T lines` */
  function ThresholdText(threshold: int): string {
    Concat(["threshold of ", IntToString(threshold) + " lines"])
  }

  function Heading(name: string): string {
    "## ⚠️ Large `" + name + "` Changes Detected"
  }

  const CommonCauses :=
    "### 🔍 Common Causes:\n" +
    "- Running install without the existing lock file\n" +
    "- Different package manager versions between local and CI\n" +
    "- Switching package managers without migrating the lock file"

  const IfUnintentional :=
    "### 💡 If This Was Unintentional:\n" +
    "1. Restore the original lock file\n" +
    "2. Use the same package manager version as in the project\n" +
    "3. Only run install with an existing lock file"

  const IfIntentional :=
    "### 🟢 If This Was Intentional:\n" +
    "Please explain in the PR description why the lock file needed to be regenerated"

  const Intro := "\n\nThis PR contains "
  const OfChangesTo := " of changes to `"
  const WhichExceeds := "`, which exceeds the "
  const RegenerationIntro := ".\n\n### ⚠️ Possible Accidental Lock File Regeneration\nLarge changes to `"
  const RegenerationRest :=
    "` often indicate that the lock file was regenerated from scratch, which might be unintentional.\n\n"
  const Blank := "\n\n"

  /** The pieces of the explanatory comment, in order. */
  function CommentParts(changesCount: nat, threshold: int, lockFile: string): seq<string> {
    var name := FileName(lockFile);
    [ Heading(name), Intro, CountText(changesCount), OfChangesTo + name + WhichExceeds,
      ThresholdText(threshold), RegenerationIntro + name + RegenerationRest,
      CommonCauses, Blank, IfUnintentional, Blank, IfIntentional ]
  }

  /** The explanatory comment posted on the pull request. */
  function GenerateComment(changesCount: nat, threshold: int, lockFile: string): string {
    Concat(CommentParts(changesCount, threshold, lockFile))
  }

  /**
   * The comment opens with a heading naming the file, states the count as
   * `**N lines**` and the threshold as `threshold of T lines`, and carries
   * the causes and both remediation paths.
   */
  lemma CommentContents(changesCount: nat, threshold: int, lockFile: string)
    ensures var body := GenerateComment(changesCount, threshold, lockFile);
      StartsWith(body, Heading(FileName(lockFile))) &&
      Contains(body, CountText(changesCount)) &&
      Contains(body, NatToString(changesCount) + " lines") &&
      Contains(body, ThresholdText(threshold)) &&
      Contains(body, IntToString(threshold) + " lines") &&
      Contains(body, CommonCauses) &&
      Contains(body, IfUnintentional) &&
      Contains(body, IfIntentional)
  {
    var parts := CommentParts(changesCount, threshold, lockFile);
    ConcatContains(parts, 2);
    ConcatContains(parts, 4);
    ConcatContains(parts, 6);
    ConcatContains(parts, 8);
    ConcatContains(parts, 10);
    var body := Concat(parts);
    ConcatContains(["**", NatToString(changesCount) + " lines", "**"], 1);
    ContainsTransitive(body, CountText(changesCount), NatToString(changesCount) + " lines");
    ConcatContains(["threshold of ", IntToString(threshold) + " lines"], 1);
    ContainsTransitive(body, ThresholdText(threshold), IntToString(threshold) + " lines");
  }

  function ExceededParts(lockFile: string, count: nat, threshold: int): seq<string> {
    [lockFile + " changes ", "(" + NatToString(count) + " lines)", " exceed " + ThresholdText(threshold)]
  }

  /** The message of the warning or failure when the threshold is exceeded (the full path, not the file name). */
  function ExceededMessage(lockFile: string, count: nat, threshold: int): string {
    Concat(ExceededParts(lockFile, count, threshold))
  }

  function WithinParts(lockFile: string, count: nat, threshold: Option<int>): seq<string> {
    [lockFile + " changes ", "(" + NatToString(count) + " lines)",
     " are within threshold of " + NumberText(threshold) + " lines"]
  }

  /** The info message when the changes are within the threshold. */
  function WithinMessage(lockFile: string, count: nat, threshold: Option<int>): string {
    Concat(WithinParts(lockFile, count, threshold))
  }

  /**
   * Both messages begin with the full lock-file path, give the count as
   * `(N lines)` and name the threshold; a NaN threshold reads `NaN`.
   */
  lemma MessageContents(lockFile: string, count: nat, threshold: Option<int>)
    ensures var within := WithinMessage(lockFile, count, threshold);
      StartsWith(within, lockFile + " changes ") &&
      Contains(within, "(" + NatToString(count) + " lines)") &&
      Contains(within, " are within threshold of " + NumberText(threshold) + " lines")
    ensures threshold.Some? ==>
      var exceeded := ExceededMessage(lockFile, count, threshold.value);
      StartsWith(exceeded, lockFile + " changes ") &&
      Contains(exceeded, "(" + NatToString(count) + " lines)") &&
      Contains(exceeded, " exceed " + ThresholdText(threshold.value))
  {
    ConcatContains(WithinParts(lockFile, count, threshold), 1);
    ConcatContains(WithinParts(lockFile, count, threshold), 2);
    if threshold.Some? {
      ConcatContains(ExceededParts(lockFile, count, threshold.value), 1);
      ConcatContains(ExceededParts(lockFile, count, threshold.value), 2);
    }
  }
}
