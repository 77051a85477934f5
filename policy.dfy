/**
 * The threshold decision of the action's run: whether the lock-file
 * changes exceed the configured size, and if so whether to post a comment
 * and whether to fail the run or only warn.
 */
module Policy {
  import opened Wrappers
  import opened Text

  /**
   * An input flag `input.toLowerCase() === 'true'`: the word "true" in any
   * mix of upper- and lower-case letters.
   */
  predicate IsTrue(flag: string)
    ensures IsTrue(flag) <==>
      |flag| == 4 && flag[0] in "tT" && flag[1] in "rR" && flag[2] in "uU" && flag[3] in "eE"
  {
    TrueLetters(flag);
    ToLower(flag) == "true"
  }

  lemma TrueLetters(flag: string)
    ensures ToLower(flag) == "true" <==>
      |flag| == 4 && flag[0] in "tT" && flag[1] in "rR" && flag[2] in "uU" && flag[3] in "eE"
  {
    if |flag| == 4 {
      var lower := ToLower(flag);
      LowerCharIs(flag[0], 't');
      LowerCharIs(flag[1], 'r');
      LowerCharIs(flag[2], 'u');
      LowerCharIs(flag[3], 'e');
      assert lower == "true" <==> lower[0] == 't' && lower[1] == 'r' && lower[2] == 'u' && lower[3] == 'e';
    }
  }

  /**
   * JavaScript's `count > threshold`, where a threshold that failed to
   * parse is NaN (`None`) and every comparison with NaN is false.
   */
  predicate GreaterThan(count: int, threshold: Option<int>) {
    match threshold
    case None => false
    case Some(t) => count > t
  }

  datatype Decision =
    | WithinThreshold
    | Exceeded(postComment: bool, failRun: bool)

  /** The decision taken once the changes have been counted. */
  function Decide(count: nat, sizeThreshold: Option<int>, commentEnabled: string, failIfExceeded: string): (d: Decision)
    ensures d.Exceeded? <==> sizeThreshold.Some? && count > sizeThreshold.value
    ensures sizeThreshold == Some(count) ==> d == WithinThreshold
    ensures sizeThreshold == None ==> d == WithinThreshold
    ensures d.Exceeded? ==> (d.postComment <==> IsTrue(commentEnabled))
    ensures d.Exceeded? ==> (d.failRun <==> IsTrue(failIfExceeded))
  {
    if GreaterThan(count, sizeThreshold) then
      Exceeded(IsTrue(commentEnabled), IsTrue(failIfExceeded))
    else
      WithinThreshold
  }

  /** More changes never turn an exceeded decision back into a within-threshold one. */
  lemma ExceededIsMonotone(count: nat, more: nat, sizeThreshold: Option<int>, commentEnabled: string, failIfExceeded: string)
    requires count <= more
    requires Decide(count, sizeThreshold, commentEnabled, failIfExceeded).Exceeded?
    ensures Decide(more, sizeThreshold, commentEnabled, failIfExceeded)
         == Decide(count, sizeThreshold, commentEnabled, failIfExceeded)
  {
  }
}
