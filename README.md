# fat-lock-action, modelled in Dafny

`fat-lock-action` is a GitHub Action that runs on pull requests. It
fetches the pull request as a git-format diff and keeps the added and
removed lines of the block whose `diff --git` header names the configured
lock file. It publishes how many lines that is as the `changes-size`
output. When the count is greater than `size-threshold`, it can post an
explanatory comment and then either warns or fails the run.

This project models that logic, from `src/main.ts`:

- `wrappers.dfy` (`Wrappers`): `Option` and `Result`.
- `text.dfy` (`Text`): the JavaScript string operations the action uses.
  These are `startsWith`, `includes`, `split` on a single character,
  `toLowerCase` and the `${n}` rendering of integers. Three of them come
  with lemmas that tie them to an independent definition: an occurrence at
  some position for `includes`; `Join` for `split`, in both directions; a
  decimal parser for the rendering. `toLowerCase` is modelled for ASCII
  letters only, described letter by letter and shown to be idempotent.
  `startsWith` is the prefix test itself, with no separate partner.
- `scanner.dfy` (`DiffScanner`): `extractPackageLockChanges`. It is a
  method with the source's loop and its `inLockFile` flag. It is proved
  equal to `Scan`, a specification function defined by recursion on the
  lines seen so far. Lemmas about `Scan` state exactly which lines are
  returned.
- `policy.dfy` (`Policy`): the flag inputs compared to `'true'` after
  lower-casing, and the threshold decision.
- `comment.dfy` (`Comment`): the file display name, the comment template
  and the two log messages.
- `action.dfy` (`Action`): one run, as the sequence of effects it has on
  the platform.

A threshold that `parseInt` cannot read is NaN in the source. Here it is
`None`: it never counts as exceeded, and the info message renders it as
`NaN`. The platform's answers (is this a pull request, the diff or the
error fetching it, the error posting a comment) are inputs of `Run`.

The model keeps these details of the code's behaviour:

- A non-numeric `size-threshold` is not rejected with a configuration
  error. It becomes NaN, the changes are always within it, and the run
  ends with the info message.
- A negative threshold is accepted, so the threshold is an `int` and not
  a `nat`.
- The display name falls back to the whole path when the path has no `/`,
  and also when it ends in `/`.
- If posting the comment throws, the run fails with that error's message.
  The exceeded warning or failure is then never reported.

## Model

| member | source | states |
|---|---|---|
| `Text.StartsWith` | src/main.ts:79-86 | `line.startsWith(prefix)`: the prefix is no longer than the line and equals its first characters |
| `Text.StartsWithIff` | src/main.ts:79-86 | the prefix test read character by character: the prefix fits and each of its characters equals the line's character at the same position |
| `Text.Contains` | src/main.ts:79 | `line.includes(lockFile)`: the path starts at the first character or somewhere after it; see `Text.ContainsIff` |
| `Text.ContainsIff` | src/main.ts:79 | `includes` holds exactly when the searched text occurs at some position (so the empty path is included in every header) |
| `Text.Split` | src/main.ts:74 | `split` on one character yields at least one piece, and no piece contains the separator |
| `Text.JoinSplit` | src/main.ts:74 | joining the pieces of `split('\n')` with the separator gives back the diff text |
| `Text.SplitJoin` | src/main.ts:74 | splitting a join of separator-free pieces gives back the same pieces, so the pieces are exactly the diff's lines |
| `Text.LastPiece` | src/main.ts:99 | the last piece of `split('/')` is the whole path when it has no `/`, and otherwise the text after its last `/` |
| `Text.ToLower` | src/main.ts:37-39 | an ASCII-only stand-in for `toLowerCase()`: it keeps the length, turns each ASCII upper-case letter into its lower-case letter, keeps every other character, and leaves no upper-case letter |
| `Text.ToLowerIdempotent` | src/main.ts:37-39 | lower-casing twice is lower-casing once |
| `Text.NatToString` | src/main.ts:102 | a count renders as at least one decimal digit, with no leading zero unless the count is 0 |
| `Text.DecimalRoundTrip` | src/main.ts:102 | reading the rendered digits back gives the number |
| `Text.NatToStringInjective` | src/main.ts:56 | different counts render as different texts |
| `Text.IntToString` | src/main.ts:102 | a threshold renders with a leading `-` exactly when it is negative, followed by its magnitude's digits |
| `DiffScanner.IsHeader` | src/main.ts:79-82 | `line.startsWith('diff --git')`, the test that a line starts a file's block |
| `DiffScanner.IsChange` | src/main.ts:86 | the line starts with `+` or with `-`: an added or removed line, the `+++`/`---` file-identity lines included |
| `DiffScanner.ChangeIsNotHeader` | src/main.ts:79-86 | a line that starts with `+` or `-` never starts with `diff --git` |
| `DiffScanner.OpensLockBlock` | src/main.ts:79 | a header line that contains the lock-file path, which opens the lock file's block |
| `DiffScanner.Step` | src/main.ts:78-89 | one turn of the loop: a header containing the path opens the block and is not kept; any other header closes it; any other line is kept exactly when the block is open and it starts with `+` or `-` |
| `DiffScanner.ScanFrom` | src/main.ts:78-89 | the loop from a given state: lines already collected stay in front, and each line scanned adds at most one |
| `DiffScanner.Scan` | src/main.ts:75-89 | the loop from `inLockFile = false` and no changes: never more lines kept than scanned |
| `DiffScanner.LockFileChanges` | src/main.ts:73-91 | the scanner's result for a whole diff: never more lines than the diff has; characterised exactly by `DiffScanner.ChangesCharacterized` |
| `DiffScanner.ExtractPackageLockChanges` | src/main.ts:73-92 | the loop over the diff's lines returns `LockFileChanges(diff, lockFile)`; every returned line starts with `+` or `-`, is not a `diff --git` line and holds no newline |
| `DiffScanner.FlagTracksLastHeader` | src/main.ts:76-85 | before line `n` the `inLockFile` flag is set exactly when the most recent `diff --git` line before `n` contains the lock-file path |
| `DiffScanner.ChangesCharacterized` | src/main.ts:78-91 | the returned lines are the diff's lines at increasing indices `idx`; an index is in `idx` exactly when its line starts with `+`/`-` and the most recent preceding `diff --git` line contains the path; no header line is returned |
| `DiffScanner.NoLockHeaderNoChanges` | src/main.ts:76-80 | with no `diff --git` line containing the path, or no header line at all, nothing is returned |
| `DiffScanner.BlockEndsAtOtherHeader` | src/main.ts:82-87 | a `diff --git` line without the path ends the block: nothing after it is returned until a header names the path again |
| `DiffScanner.IdentityLinesCounted` | src/main.ts:79-88 | wherever the block stands in the diff, every `+`/`-` line inside it is added to what came before, in order, the `+++`/`---` file-identity lines included; the opening header is skipped |
| `DiffScanner.AllChangesKept` | src/main.ts:86-88 | a block made only of change lines is kept whole |
| `Policy.IsTrue` | src/main.ts:36-39 | a flag input is on exactly when it is `true` in any mix of upper and lower case |
| `Policy.GreaterThan` | src/main.ts:35 | `count > sizeThreshold`, false when the threshold is NaN; its consequences are stated by `Policy.Decide` |
| `Policy.Decide` | src/main.ts:35-63 | exceeded exactly when the threshold is a number and the count is strictly greater; a count equal to the threshold and a NaN threshold are within bounds; when exceeded, comment and fail follow the two flags |
| `Policy.ExceededIsMonotone` | src/main.ts:35 | a larger count never turns an exceeded decision back into a within-threshold one |
| `Comment.FileName` | src/main.ts:99 | the display name is the path when it has no `/` or ends in `/`; otherwise it is the non-empty, `/`-free text after the path's last `/` |
| `Comment.NumberText` | src/main.ts:64-66 | the threshold in the info message is `NaN` exactly when it did not parse; a number's text is its decimal digits, after a `-` when negative, and reads back as that number |
| `Comment.GenerateComment` | src/main.ts:94-119 | the comment template, filled with the display name, the count and the threshold; its contents are stated by `Comment.CommentContents` |
| `Comment.CommentContents` | src/main.ts:100-118 | the comment opens with the heading naming the display name; it contains `**N lines**`, `N lines`, `threshold of T lines`, the common causes and both remediation paths |
| `Comment.ExceededMessage` | src/main.ts:56 | the warning or failure message; its contents are stated by `Comment.MessageContents` |
| `Comment.WithinMessage` | src/main.ts:64-66 | the info message; its contents are stated by `Comment.MessageContents` |
| `Comment.MessageContents` | src/main.ts:56-66 | both messages begin with the full lock-file path and contain `(N lines)`; the warning or failure message says `exceed threshold of T lines`, the info message `are within threshold of T lines` |
| `Action.Verdict` | src/main.ts:58-62 | `core.setFailed(message)` when `fail-if-exceeded` is on, `core.warning(message)` otherwise |
| `Action.Run` | src/main.ts:4-71 | a non-pull-request event gives only the info message, with no fetch, output or comment; a failed fetch fails the run with the error's message; otherwise `changes-size` is published right after the fetch; within the threshold only the info message follows; when exceeded the comment is posted iff `comment-enabled` is true, then exactly one of failure and warning, chosen by `fail-if-exceeded`, unless the comment post threw, which fails the run with its message |
| `Action.ExceededCommentsAndWarns` | src/main.ts:35-62 | exceeded with `comment-enabled` on, `fail-if-exceeded` off and the comment posted: fetch, `changes-size`, the comment, then a warning |
| `Action.WithinOnlyInforms` | src/main.ts:33-66 | a count no greater than the threshold gives fetch, `changes-size` and the info message, whatever the flags |
| `Action.ThirtyFiveChanges` | src/main.ts:73-91 | a diff made of a header naming the lock file and 35 `+`/`-` lines (say 25 added and 10 removed) counts 35 |
| `Action.LargeChangeCommentsAndWarns` | src/main.ts:31-62 | that diff against a threshold of 20, comments on and failing off: fetch, `changes-size` 35, the comment, then a warning and no failure |
| `Action.SmallChangeOnlyInforms` | src/main.ts:31-66 | the same diff against a threshold of 50: fetch, `changes-size` 35, then only the info message |

## Left out

- `core.getInput`: not a call in the model. Its answers are the fields of `Inputs`, as strings after `getInput`'s trimming of surrounding whitespace. The threshold is already converted by `parseInt`.
- `core.setOutput`, `core.info`, `core.warning`, `core.setFailed`: the model returns them as `Effect` values in order instead of making them.
- The Octokit calls `pulls.get` and `issues.createComment`, and `github.context`: they are network and platform I/O. `Run` takes the pull request number, the fetched diff text or the fetch error, and the comment-post error as inputs. The owner and repository names are not modelled.
- The `github-token` input and `github.getOctokit`: the model assumes a non-empty token. `getOctokit` runs at src/main.ts:9, before the pull-request test, and the client library throws when the token is empty. With an empty token the source fails the run there, even on an event that is not a pull request, whereas `Run` gives the info message.
- `async`/`await`: the run is modelled as one sequential step.
- Thrown values that are not `Error` instances, which the `catch` ignores: every upstream failure is modelled as an error message.
- `parseInt` itself (whitespace, signs, digit prefixes such as `12abc`): the threshold is given as `Option<int>`, with `None` for NaN.
- `Text.ToLower`: lower-cases only the ASCII letters A–Z. JavaScript's `toLowerCase` also folds non-ASCII letters, and can lengthen a string (`İ` becomes `i` followed by a combining dot). The model does not capture this. `IsTrue` is still exact for every input: under the Unicode default case mappings, only `İ` (U+0130) and the Kelvin sign (U+212A) lower-case into ASCII, to `i` plus U+0307 and to `k`. So no other character lower-cases into `t`, `r`, `u` or `e`, and only the four letters of `true`, in any case, lower-case to `"true"`.
- `NatToString`: does not model that JavaScript writes numbers of 10^21 and above in exponent notation and loses precision above 2^53.
- Strings: characters are Unicode scalar values, not the UTF-16 code units of JavaScript strings. This makes no difference to the line and `/` splitting or to the substring test.
