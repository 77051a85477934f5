/**
 * One run of the action on a pull request, as the sequence of effects it
 * has on the platform: fetching the diff, publishing the `changes-size`
 * output, posting the comment, and the info, warning or failure it
 * reports. Platform calls are not made; the environment supplies their
 * answers.
 */
module Action {
  import opened Wrappers
  import opened Text
  import opened DiffScanner
  import opened Policy
  import opened Comment

  /** The configured inputs; `sizeThreshold` is `parseInt(…, 10)`, `None` standing for NaN. */
  datatype Inputs = Inputs(
    sizeThreshold: Option<int>,
    lockfilePath: string,
    commentEnabled: string,
    failIfExceeded: string)

  /**
   * What the platform answers: the pull request number (`None` when the
   * event is not a pull request), the fetched diff or the message of the
   * error the fetch threw, and the message of the error posting a comment
   * would throw, if any.
   */
  datatype Environment = Environment(
    pullRequest: Option<int>,
    diff: Result<string, string>,
    commentError: Option<string>)

  datatype Effect =
    | FetchDiff(pullNumber: int)
    | SetOutput(name: string, value: nat)
    | PostComment(issueNumber: int, body: string)
    | Info(message: string)
    | Warning(message: string)
    | Failed(message: string)

  const NotPullRequestMessage := "This action only works on pull requests"
  const ChangesSize := "changes-size"

  /** The warning or failure reported when the threshold is exceeded. */
  function Verdict(failRun: bool, message: string): Effect {
    if failRun then Failed(message) else Warning(message)
  }

  /** One run of the action. */
  function Run(inputs: Inputs, env: Environment): (effects: seq<Effect>)
    // not a pull request: one info message, and no fetch, output or comment
    ensures env.pullRequest.None? ==> effects == [Info(NotPullRequestMessage)]
    // a pull request: the diff is fetched first
    ensures env.pullRequest.Some? ==> |effects| >= 2 && effects[0] == FetchDiff(env.pullRequest.value)
    // a failed fetch fails the run with the error's message and does nothing more
    ensures env.pullRequest.Some? && env.diff.Failure? ==>
      effects == [FetchDiff(env.pullRequest.value), Failed(env.diff.error)]
    ensures env.pullRequest.Some? && env.diff.Success? ==>
      var pullNumber := env.pullRequest.value;
      var count := |LockFileChanges(env.diff.value, inputs.lockfilePath)|;
      // `changes-size` is published right after the fetch, whatever follows
      effects[1] == SetOutput(ChangesSize, count) &&
      // a count equal to the threshold, or a NaN threshold, is within bounds: only the info message
      (!(inputs.sizeThreshold.Some? && count > inputs.sizeThreshold.value) ==>
        effects == [FetchDiff(pullNumber), SetOutput(ChangesSize, count),
                    Info(WithinMessage(inputs.lockfilePath, count, inputs.sizeThreshold))])
    ensures env.pullRequest.Some? && env.diff.Success? &&
            inputs.sizeThreshold.Some? &&
            |LockFileChanges(env.diff.value, inputs.lockfilePath)| > inputs.sizeThreshold.value ==>
      var pullNumber := env.pullRequest.value;
      var count := |LockFileChanges(env.diff.value, inputs.lockfilePath)|;
      var threshold := inputs.sizeThreshold.value;
      var message := ExceededMessage(inputs.lockfilePath, count, threshold);
      var comment := GenerateComment(count, threshold, inputs.lockfilePath);
      var commented := IsTrue(inputs.commentEnabled);
      // exceeded: the comment when comment-enabled is "true", then exactly one
      // of failure and warning, chosen by fail-if-exceeded; a comment that
      // could not be posted fails the run with its error instead
      effects == [FetchDiff(pullNumber), SetOutput(ChangesSize, count)] +
        (if commented then [PostComment(pullNumber, comment)] else []) +
        [if commented && env.commentError.Some? then Failed(env.commentError.value)
         else if IsTrue(inputs.failIfExceeded) then Failed(message)
         else Warning(message)]
  {
    match env.pullRequest
    case None => [Info(NotPullRequestMessage)]
    case Some(pullNumber) =>
      match env.diff
      case Failure(error) => [FetchDiff(pullNumber), Failed(error)]
      case Success(diff) =>
        var count := |LockFileChanges(diff, inputs.lockfilePath)|;
        match Decide(count, inputs.sizeThreshold, inputs.commentEnabled, inputs.failIfExceeded)
        case WithinThreshold =>
          [FetchDiff(pullNumber), SetOutput(ChangesSize, count),
           Info(WithinMessage(inputs.lockfilePath, count, inputs.sizeThreshold))]
        case Exceeded(postComment, failRun) =>
          var threshold := inputs.sizeThreshold.value;
          var message := ExceededMessage(inputs.lockfilePath, count, threshold);
          [FetchDiff(pullNumber), SetOutput(ChangesSize, count)] +
          (if postComment then [PostComment(pullNumber, GenerateComment(count, threshold, inputs.lockfilePath))] else []) +
          [if postComment && env.commentError.Some? then Failed(env.commentError.value) else Verdict(failRun, message)]
  }

  /**
   * A diff whose lock-file block holds 35 change lines (say 25 added and 10
   * removed) makes the scanner count 35: the header is skipped and every
   * line of the block is kept.
   */
  lemma ThirtyFiveChanges(diff: string, header: string, body: seq<string>, lockFile: string)
    requires diff == Join([header] + body, '\n')
    requires OpensLockBlock(header, lockFile) && '\n' !in header
    requires |body| == 35
    requires forall k :: 0 <= k < |body| ==> IsChange(body[k]) && '\n' !in body[k]
    ensures |LockFileChanges(diff, lockFile)| == 35
  {
    forall k | 0 <= k < |body| ensures !IsHeader(body[k]) {
      ChangeIsNotHeader(body[k]);
    }
    var lines := [header] + body;
    SplitJoin(lines, '\n');
    assert [] + [header] + body == lines;
    IdentityLinesCounted([], header, body, lockFile);
    AllChangesKept(body);
  }

  /**
   * Exceeded, with comments on, failing off and the comment posted: fetch,
   * output, comment, warning.
   */
  lemma ExceededCommentsAndWarns(inputs: Inputs, env: Environment)
    requires env.pullRequest.Some? && env.diff.Success? && env.commentError.None?
    requires inputs.sizeThreshold.Some?
    requires |LockFileChanges(env.diff.value, inputs.lockfilePath)| > inputs.sizeThreshold.value
    requires IsTrue(inputs.commentEnabled) && !IsTrue(inputs.failIfExceeded)
    ensures var count := |LockFileChanges(env.diff.value, inputs.lockfilePath)|;
      Run(inputs, env)
      == [FetchDiff(env.pullRequest.value), SetOutput(ChangesSize, count),
          PostComment(env.pullRequest.value, GenerateComment(count, inputs.sizeThreshold.value, inputs.lockfilePath)),
          Warning(ExceededMessage(inputs.lockfilePath, count, inputs.sizeThreshold.value))]
  {
    var pullNumber := env.pullRequest.value;
    var count := |LockFileChanges(env.diff.value, inputs.lockfilePath)|;
    var threshold := inputs.sizeThreshold.value;
    var head := [FetchDiff(pullNumber), SetOutput(ChangesSize, count)];
    var comment := PostComment(pullNumber, GenerateComment(count, threshold, inputs.lockfilePath));
    var warning := Warning(ExceededMessage(inputs.lockfilePath, count, threshold));
    assert Run(inputs, env) == head + [comment] + [warning];
  }

  /** Within the threshold: fetch, output, info message, whatever the flags and the comment error. */
  lemma WithinOnlyInforms(inputs: Inputs, env: Environment)
    requires env.pullRequest.Some? && env.diff.Success?
    requires inputs.sizeThreshold.Some?
    requires |LockFileChanges(env.diff.value, inputs.lockfilePath)| <= inputs.sizeThreshold.value
    ensures var count := |LockFileChanges(env.diff.value, inputs.lockfilePath)|;
      Run(inputs, env)
      == [FetchDiff(env.pullRequest.value), SetOutput(ChangesSize, count),
          Info(WithinMessage(inputs.lockfilePath, count, inputs.sizeThreshold))]
  {
  }

  /** The flag words the scenarios use: `"true"` is on and `"false"` is off. */
  lemma FlagWords()
    ensures IsTrue("true") && !IsTrue("false")
  {
  }

  /**
   * That diff against a threshold of 20, with comments on and failing off:
   * the count is published, the comment is posted, and the run ends with a
   * warning, not a failure.
   */
  lemma LargeChangeCommentsAndWarns(diff: string, header: string, body: seq<string>, lockFile: string, pullNumber: int)
    requires diff == Join([header] + body, '\n')
    requires OpensLockBlock(header, lockFile) && '\n' !in header
    requires |body| == 35
    requires forall k :: 0 <= k < |body| ==> IsChange(body[k]) && '\n' !in body[k]
    ensures Run(Inputs(Some(20), lockFile, "true", "false"),
                Environment(Some(pullNumber), Success(diff), None))
         == [FetchDiff(pullNumber), SetOutput(ChangesSize, 35),
             PostComment(pullNumber, GenerateComment(35, 20, lockFile)),
             Warning(ExceededMessage(lockFile, 35, 20))]
  {
    ThirtyFiveChanges(diff, header, body, lockFile);
    ThirtyFiveAgainstTwenty(diff, lockFile, pullNumber);
  }

  lemma ThirtyFiveAgainstTwenty(diff: string, lockFile: string, pullNumber: int)
    requires |LockFileChanges(diff, lockFile)| == 35
    ensures Run(Inputs(Some(20), lockFile, "true", "false"),
                Environment(Some(pullNumber), Success(diff), None))
         == [FetchDiff(pullNumber), SetOutput(ChangesSize, 35),
             PostComment(pullNumber, GenerateComment(35, 20, lockFile)),
             Warning(ExceededMessage(lockFile, 35, 20))]
  {
    FlagWords();
    ExceededCommentsAndWarns(Inputs(Some(20), lockFile, "true", "false"),
                             Environment(Some(pullNumber), Success(diff), None));
  }

  /** The same diff against a threshold of 50: only the info message, no comment, no warning, no failure. */
  lemma SmallChangeOnlyInforms(diff: string, header: string, body: seq<string>, lockFile: string, pullNumber: int, commentError: Option<string>)
    requires diff == Join([header] + body, '\n')
    requires OpensLockBlock(header, lockFile) && '\n' !in header
    requires |body| == 35
    requires forall k :: 0 <= k < |body| ==> IsChange(body[k]) && '\n' !in body[k]
    ensures Run(Inputs(Some(50), lockFile, "true", "false"),
                Environment(Some(pullNumber), Success(diff), commentError))
         == [FetchDiff(pullNumber), SetOutput(ChangesSize, 35),
             Info(WithinMessage(lockFile, 35, Some(50)))]
  {
    ThirtyFiveChanges(diff, header, body, lockFile);
    ThirtyFiveAgainstFifty(diff, lockFile, pullNumber, commentError);
  }

  lemma ThirtyFiveAgainstFifty(diff: string, lockFile: string, pullNumber: int, commentError: Option<string>)
    requires |LockFileChanges(diff, lockFile)| == 35
    ensures Run(Inputs(Some(50), lockFile, "true", "false"),
                Environment(Some(pullNumber), Success(diff), commentError))
         == [FetchDiff(pullNumber), SetOutput(ChangesSize, 35),
             Info(WithinMessage(lockFile, 35, Some(50)))]
  {
    WithinOnlyInforms(Inputs(Some(50), lockFile, "true", "false"),
                      Environment(Some(pullNumber), Success(diff), commentError));
  }
}
