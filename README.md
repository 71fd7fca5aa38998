# yt-dislikes: a verified model of the updater's decision logic

`yt-dislikes.py` keeps a comment under each of a channel's videos that shows
the video's dislike count and the date it was last refreshed. This project
models the decision-making of that script in Dafny and proves what it
promises:

- **Comment reconciliation** (`comments.dfy`, module `Comments`). It finds
  the owner's first comment and scans its lines: the last `Dislikes:` line
  wins, and `Dislikes:` / `Updated (YY-MM-DD):` lines are dropped. It then
  decides one of three actions: write nothing, rewrite the comment, or
  create a new one. The line scan and the comment search are loops, each
  proved against a specification function. The lemmas cover:
  - the lines of the rewritten and the created text;
  - that only the first owner-written comment matters;
  - idempotence: once a rewrite or a create has happened, a second run with
    the same count writes nothing.
- **Catalog builder** (`catalog.dfy`, module `Catalog`). This is the full
  scan, the one-item probe and the delta scan of `get_videos`. They are
  written as page loops over a paged stream of search results, proved
  against `Refreshed`. The lemmas cover:
  - the full scan lists exactly the eligible videos;
  - a probe hit keeps the cache unchanged;
  - the delta path prepends at most the requested number of uncached,
    eligible videos from before the first cached one;
  - ids stay distinct.
- **Processing loop** (`orchestrator.dfy`, module `Orchestrator`). The
  files kept between runs are the fields of the class `Updater`: the cache,
  the progress file and the removal file. The pass over the catalog is a
  loop proved against the specification function `PassUpTo`, and the
  reverse-index `pop` loop is proved against `Prune`. The lemmas cover:
  - which positions are processed: all of them, those after the cursor's
    first occurrence, or none when the cursor is stale;
  - which positions are marked;
  - what the progress file holds afterwards (the last checkpoint, or removed
    after the last position);
  - that a saved checkpoint is resumed right after it;
  - that pruning keeps exactly the unmarked videos, in order.
- **Error policy** (`error_policy.dfy`, module `ErrorPolicy`):
  - `handle_http_error`'s classification: a 403 with `quotaExceeded` stops,
    any other 403 propagates, and every other status goes to a prompt;
  - its prompt loop over the operator's answers, compared after strip and
    lower-casing;
  - the retry-on-error pattern shared by the remote calls, as a
    fuel-bounded function `Call`.
- **Progress file** (`progress.dfy`, module `Progress`): `load_progress`'s
  rules for a missing, blank, invalid or valid file; the text
  `save_progress` writes, with `json.dump`'s string escapes; and the round
  trip between the two.
- **Python string operations** (`text.dfy`, module `Text`):
  - `split("\n")`, `"\n".join`, `rstrip`, `strip`, ASCII `lower`, `str(int)`
    and `in`, with Python's semantics;
  - the round trips between split and join;
  - `rstrip("\n")` on joined lines.

Remote calls, operator input, the date and the files are inputs of the
model or fields of `Updater`:
- search results are a stream of `Item`s, newest first;
- the comment list is a sequence of `Comment`s;
- per-video results are one `Outcome` per catalog position, derived by
  `VideoOutcome` from two `CallResult`s;
- operator answers are a sequence of strings;
- the date is an already formatted string;
- JSON parsing is a function parameter.

Two consequences of the code are proved and worth knowing:

- **A removal marks only 403 errors.** A video is marked for removal only
  when its comment step raised a 403 (`MarkedOnlyAfterForbidden`). A
  `videoNotFound` error with any other status goes to the operator prompt
  instead.
- **A pruned cursor stalls later runs.** Suppose the last video's count is
  skipped. Then the cursor stays on the previous checkpoint. If that video
  was marked for removal, the completed run prunes it. Every later run over
  that catalog then processes nothing (`PrunedCursorStalls`,
  `StaleCursorProcessesNothing`).

In two places the program's own comments and dead code promise more than
the code does. The model follows the code:

- **An operator exit saves nothing extra.** `main`'s `'exit'` branch
  (`yt-dislikes.py:496-499`) prints "Saving progress..." and checkpoints
  the current video. It is never reached: `handle_http_error` exits by
  itself on that answer (`yt-dislikes.py:200-202`) and never returns
  `'exit'`.
- **A quota stop skips the end of the run.** The comment at
  `yt-dislikes.py:188` says the quota exit relies on `main()` to save
  progress. But `sys.exit(0)` raises `SystemExit`, and neither of `main`'s
  handlers (`except HttpError`, `except Exception`) catches it. So the run
  stops right there. The progress file keeps the last checkpoint already
  written. The end-of-run prune, the cache write and the removal-file write
  are all skipped. `Updater.Run` states this: on `Stopped` the cache is the
  catalog as fetched and the removal file is unchanged.

## Model

| member | source | states |
|---|---|---|
| Text.Contains | yt-dislikes.py:186 | Python's `needle in s`, as also at lines 456 and 460; stated by `ContainsAt` |
| Text.ContainsAt | yt-dislikes.py:186 | `needle in s` holds exactly when `needle` stands in `s` at some offset |
| Text.Split | yt-dislikes.py:240 | `str.split("\n")`: never empty, no piece holds a newline; `JoinSplit` and `SplitJoin` state it is the inverse of `Join` |
| Text.Join | yt-dislikes.py:259 | `"\n".join`; stated by `JoinSplit`, `SplitJoin` and `RStripJoin` |
| Text.JoinSplit | yt-dislikes.py:240 | joining the pieces of `split("\n")` with `"\n"` gives the text back |
| Text.SplitJoin | yt-dislikes.py:259-260 | splitting the join of at least one newline-free line gives the lines back |
| Text.RStripCharsSpec | yt-dislikes.py:260 | `rstrip` yields a prefix that does not end in a stripped character, and every character it removed is one of them |
| Text.RStripJoin | yt-dislikes.py:259-260 | `rstrip("\n")` of joined newline-free lines is the join of the lines without their trailing empty lines |
| Text.LStripCharsSpec | yt-dislikes.py:58 | `lstrip` yields a suffix that does not start with a stripped character, and every character it removed is one of them |
| Text.Strip | yt-dislikes.py:58 | `strip()` over ASCII whitespace, as also at line 195; stated by `LStripCharsSpec`, `RStripCharsSpec`, `StripUnchanged`, `StripBlank` and `StripPadded` |
| Text.StripUnchanged | yt-dislikes.py:58 | a text that neither starts nor ends with whitespace is its own `strip()` |
| Text.StripBlank | yt-dislikes.py:58-60 | a text of whitespace only strips to the empty text |
| Text.StripPadded | yt-dislikes.py:197 | `strip()` removes the whitespace around a text that neither starts nor ends with whitespace, and nothing else |
| Text.LowerAscii | yt-dislikes.py:195 | `lower()` over ASCII letters: same length, each character lower-cased; `NormalizePadded` uses it |
| Text.NatToString | yt-dislikes.py:210 | `str(n)` of a non-negative `n` is digits whose value is `n`, with no leading zero |
| Text.IntToString | yt-dislikes.py:210 | `str(n)` starts with a minus sign exactly when `n < 0`, otherwise with a digit, and every later character is a digit; it holds no newline; its value is stated by `IntToStringValue` |
| Text.IntToStringValue | yt-dislikes.py:210 | the digits of `str(n)` have the value `n`, or `-n` after the minus sign when `n < 0` |
| Text.IntToStringInjective | yt-dislikes.py:210 | different integers are written differently |
| ErrorPolicy.Classify | yt-dislikes.py:185-190 | quota-exhausted exactly for 403 with `quotaExceeded` in the text, fatal exactly for other 403s, recoverable exactly for every other status |
| ErrorPolicy.Normalize | yt-dislikes.py:195 | the answer as compared, `strip().lower()`; stated by `ChoiceMenu` and `NormalizePadded` |
| ErrorPolicy.Choice | yt-dislikes.py:197-204 | a valid answer chooses retry, skip or exit |
| ErrorPolicy.ChoiceMenu | yt-dislikes.py:198-204 | `r`/`retry` chooses retry, `s`/`skip` skip, `e`/`exit` exit, after strip and lower-casing; every other answer is invalid |
| ErrorPolicy.NormalizePadded | yt-dislikes.py:197 | an answer padded with whitespace or typed in capitals is compared as its lower-case core, and makes that core's choice |
| ErrorPolicy.Ask | yt-dislikes.py:192-204 | the `while True` prompt over the answers' choices: never reads past the input; stated by `AskFirstValid` |
| ErrorPolicy.AskFirstValid | yt-dislikes.py:192-204 | the prompt ends at the first valid answer, all answers before it being invalid; input runs out exactly when no answer is valid |
| ErrorPolicy.Handle | yt-dislikes.py:183-204 | quota stop exactly for quota errors, re-raise exactly for other 403s, never reads more answers than given |
| ErrorPolicy.Prompt | yt-dislikes.py:192-204 | the `while True` loop returns the choice of the first valid answer and how many answers it read; no valid answer means all were read and all were invalid |
| ErrorPolicy.HandleHttpError | yt-dislikes.py:183-204 | agrees with `Handle`; 403 cases read no answer; a recoverable error yields exactly the first valid answer's choice |
| ErrorPolicy.Call | yt-dislikes.py:125-132 | a retried call: the first attempt that succeeds returns, a failure goes to the error policy, retry tries again, skip yields nothing; its properties are stated by `OnlyForbiddenEscapes` and `ReturnedAfterRecoverable` |
| ErrorPolicy.OnlyForbiddenEscapes | yt-dislikes.py:125-132 | an error escapes a retried call only if it is a 403 without `quotaExceeded` and is one of the attempts' errors |
| ErrorPolicy.ReturnedAfterRecoverable | yt-dislikes.py:125-132 | a retried call returns a value only when some attempt produced it and every earlier attempt failed with a recoverable error |
| ErrorPolicy.QuotaErrorExits | yt-dislikes.py:185-188 | a quota error ends the process at the first attempt, whatever follows |
| Comments.DislikeLine | yt-dislikes.py:210 | the intended `Dislikes:` line; stated by `IntendedLines` and `DislikeLineInjective` |
| Comments.DateLine | yt-dislikes.py:211 | the intended `Updated (YY-MM-DD):` line; stated by `IntendedLines` |
| Comments.IntendedLines | yt-dislikes.py:210-211 | the intended dislike line is a dislike line and not a date line, the date line the reverse, and neither holds a newline, so the line scan recognises both |
| Comments.Kept | yt-dislikes.py:244-248 | the lines the scan keeps; stated by `KeptMembers` and `KeptAppend` |
| Comments.LastDislikes | yt-dislikes.py:244-246 | the dislike line the scan finds; stated by `LastDislikesIsLast` |
| Comments.ScanLines | yt-dislikes.py:240-248 | the line loop keeps exactly `Kept(lines)` and finds exactly `LastDislikes(lines)` |
| Comments.FirstOwned | yt-dislikes.py:232-235 | the comment found is written by the owner and no earlier listed comment is; none is found exactly when no listed comment is the owner's |
| Comments.Decide | yt-dislikes.py:232-266 | a create of `CreateText` exactly when no listed comment is the owner's; otherwise a no-write or an update of the first owner-written comment's id (`DecideOwned` says which) |
| Comments.UpdateText | yt-dislikes.py:259-260 | the rewritten text; its lines are stated by `UpdateTextLines` |
| Comments.CreateText | yt-dislikes.py:265 | the new comment's text; its lines are stated by `CreateTextLines` |
| Comments.FindOrCreate | yt-dislikes.py:206-266 | the comment loop returns at the first owner-written comment and decides as `Decide` |
| Comments.KeptAppend | yt-dislikes.py:244-248 | the kept lines of a concatenation are the kept lines of each part, in order |
| Comments.KeptMembers | yt-dislikes.py:244-248 | a line is kept exactly when it is in the comment and starts with neither `Dislikes:` nor `Updated (YY-MM-DD):` |
| Comments.LastDislikesIsLast | yt-dislikes.py:244-246 | the dislike line found is the last line starting with `Dislikes:`, and none is found exactly when there is none |
| Comments.LastDislikesCurrent | yt-dislikes.py:250-253 | the no-write test holds exactly when some line is the intended dislike line and no dislike line follows it |
| Comments.CreateTextLines | yt-dislikes.py:265 | a created comment's lines are exactly the dislike line and the date line |
| Comments.UpdateTextLines | yt-dislikes.py:259-260 | a rewritten comment's lines are the dislike line, the date line, then the kept lines in order without trailing empty ones |
| Comments.DecideCreates | yt-dislikes.py:264-266 | with no owner-written comment a comment of exactly the two intended lines is created |
| Comments.DecideOwned | yt-dislikes.py:236-262 | for the first owner-written comment: no write with its id when its last dislike line is the intended one, otherwise an update of that id whose lines are the intended ones followed by the kept ones |
| Comments.DislikeLineInjective | yt-dislikes.py:210 | different counts give different dislike lines |
| Comments.ChangedCountUpdates | yt-dislikes.py:250-262 | when the owner's comment shows another count as its last dislike line, the decision is an update of that comment with the rewritten text |
| Comments.OnlyFirstOwnedCounts | yt-dislikes.py:232-235 | comments listed after the first owner-written one never change the decision |
| Comments.UpdateIsIdempotent | yt-dislikes.py:250-262 | after a rewrite, reconciling again with the same count writes nothing, on any later date |
| Comments.CreateIsIdempotent | yt-dislikes.py:264-266 | with no owner comment a create is decided; once created, reconciling again with the same count writes nothing, wherever it is listed |
| Catalog.FirstCachedFrom | yt-dislikes.py:353-357 | the position where the delta scan meets its first cached id: every item before it from the start position is uncached, and it is a cached id or the end of the stream |
| Catalog.Eligible | yt-dislikes.py:338-342 | public or unlisted with comments not disabled, the filter of both scans; `EligibleMembers` states what it admits |
| Catalog.EligibleVideos | yt-dislikes.py:392-397 | the eligible items of a scan as videos, in order, no more than the items; stated by `EligibleMembers` and `FullScanListsEligible` |
| Catalog.Refreshed | yt-dislikes.py:293-368 | the catalog of a run; it is missing exactly when the cache is not empty and the probe finds no video |
| Catalog.Page | yt-dislikes.py:318-326 | a page is the run of at most `max` items at the offset, short only at the end of the stream |
| Catalog.FullScan | yt-dislikes.py:373-406 | the page loop of 50 lists exactly the eligible items of the stream, in order |
| Catalog.ScanPage | yt-dislikes.py:329-357 | a page keeps its eligible uncached items in order and counts each off; a cached id stops it with the count zeroed |
| Catalog.DeltaScan | yt-dislikes.py:315-361 | the delta loop yields the first `count` eligible items from before the first cached id |
| Catalog.GetVideos | yt-dislikes.py:277-414 | the catalog is the full scan, the cache, or the new videos before the cache, as `Refreshed` says; an empty probe fails |
| Catalog.EligibleMembers | yt-dislikes.py:392-397 | a video is listed exactly when an eligible item of the stream carries it |
| Catalog.FullScanListsEligible | yt-dislikes.py:370-406 | with an empty cache the catalog is exactly the eligible videos of the stream |
| Catalog.ProbeHitKeepsCache | yt-dislikes.py:366-368 | when the newest video is cached the catalog is the cache, whatever the count |
| Catalog.DeltaPrependsNew | yt-dislikes.py:309-364 | on a probe miss the catalog is new videos then the whole cache; at most `count` new, none cached, each eligible and before the first cached id; the newest comes first when eligible |
| Catalog.RefreshedKeepsIdsDistinct | yt-dislikes.py:307-364 | the catalog repeats no id when the cache and the stream repeat none |
| Progress.LoadProgress | yt-dislikes.py:54-75 | missing file: no cursor; blank or invalid content: no cursor and the file removed; content that parses gives exactly the cursor it holds |
| Progress.SaveText | yt-dislikes.py:77-80 | the saved text is `{"last_video_id": "…"}` around the escaped id: braces first and last, printable ASCII only |
| Progress.EscapeChar | yt-dislikes.py:80 | `json.dump` writes a character as itself exactly when it is printable ASCII other than `"` and `\`, and writes only printable ASCII |
| Progress.Escape | yt-dislikes.py:80 | the escaped string is at least as long as the original and printable ASCII only |
| Progress.EscapePlain | yt-dislikes.py:80 | a string of characters that need no escape is written as it is |
| Progress.SavedVideoId | yt-dislikes.py:77-80 | for an id of YouTube's id alphabet the saved text holds the id verbatim between the quotes |
| Progress.SaveThenLoad | yt-dislikes.py:54-80 | a saved cursor loads back and the file is kept |
| Progress.BlankFileIsNoProgress | yt-dislikes.py:58-65 | a whitespace-only file gives no cursor and is removed, whatever the parser does |
| Orchestrator.VideoOutcome | yt-dislikes.py:446-464 | a skipped count skips the video; a returned comment step checkpoints; a raised `commentsDisabled`/`videoNotFound` error marks it; anything else ends the run |
| Orchestrator.MarkedOnlyAfterForbidden | yt-dislikes.py:455-462 | a video is marked only after a 403 error from one of the comment step's attempts |
| Orchestrator.FirstIndexOf | yt-dislikes.py:439-442 | the position found holds the id and no earlier one does; none is found exactly when no position holds it |
| Orchestrator.Checkpoint | yt-dislikes.py:466-473 | the progress file after a checkpoint at `i`: the saved id, or removed at the last position; stated by `FileAfter` and `CompletePassClearsProgress` |
| Orchestrator.Start | yt-dislikes.py:427-442 | the first position processed: 0 without a cursor, after the cursor's first occurrence, or past the end for an unknown cursor; stated by `StartAfterCursor`, `NoCursorVisitsAll` and `StaleCursorProcessesNothing` |
| Orchestrator.StartAfterCursor | yt-dislikes.py:439-442 | a cursor first found at position `k` starts the pass at `k + 1` |
| Orchestrator.Step | yt-dislikes.py:435-473 | one iteration of the `enumerate` loop; what the steps add up to is stated by `PassShape`, `MarkedExactly` and `FileAfter` |
| Orchestrator.PassUpTo | yt-dislikes.py:427-473 | the loop's state after `i` positions, from the loaded cursor; stated by `PassShape`, `PassVisits`, `MarkedExactly` and `FileAfter` |
| Orchestrator.PassShape | yt-dislikes.py:427-473 | after `i` positions the pass has started exactly when the position after the cursor's first occurrence is reached, has halted exactly when the first halt from there is among them, and has processed exactly the positions from the start up to the first halt, in order |
| Orchestrator.PassVisits | yt-dislikes.py:435-473 | the whole pass processes a position exactly when it is at or after the start and no earlier processed position halted |
| Orchestrator.NoCursorVisitsAll | yt-dislikes.py:427-442 | without a cursor and without a halt every position is processed, in order |
| Orchestrator.CursorVisitsAfter | yt-dislikes.py:439-442 | with a cursor first at position `k` and no halt, exactly the positions after `k` are processed |
| Orchestrator.StaleCursorProcessesNothing | yt-dislikes.py:439-442 | a cursor naming no catalog video processes nothing, marks nothing and leaves the progress file |
| Orchestrator.MarkedExactly | yt-dislikes.py:455-462 | the marked positions are exactly the processed ones whose comment step hit a removal error |
| Orchestrator.LastCheckpoint | yt-dislikes.py:466-467 | the position found was processed and wrote a checkpoint, and no later processed position wrote one; none exactly when no processed position wrote one |
| Orchestrator.FileAfter | yt-dislikes.py:466-473 | the progress file is untouched without a checkpoint, otherwise it is the last checkpoint's, removed when that was the last position |
| Orchestrator.CompletePassClearsProgress | yt-dislikes.py:469-473 | a pass from no cursor without a halt, whose last video checkpoints, removes the progress file |
| Orchestrator.ResumeAfterCheckpoint | yt-dislikes.py:425-442 | a checkpoint at a non-last position is loaded back and the next pass starts right after it |
| Orchestrator.HaltAbsorbs | yt-dislikes.py:455-464 | once the pass has halted, later positions change nothing |
| Orchestrator.KeptFrom | yt-dislikes.py:476-478 | the videos at the unmarked positions from `i` on; stated by `KeptFromMembers` and `KeptFromPositions` |
| Orchestrator.Prune | yt-dislikes.py:475-478 | the catalog with the marked positions removed; stated by `PruneMembers` and `PruneKeepsOrder` |
| Orchestrator.KeptFromPositions | yt-dislikes.py:476-478 | the k-th survivor from `i` on is the video at the k-th unmarked position, positions increasing, every unmarked position used |
| Orchestrator.PruneKeepsOrder | yt-dislikes.py:475-478 | the pruned catalog is the videos at the unmarked positions, in increasing order of position, duplicates included |
| Orchestrator.KeptFromMembers | yt-dislikes.py:476-478 | a video survives exactly when it stands at an unmarked position, and as many go as marked positions are in range |
| Orchestrator.PruneMembers | yt-dislikes.py:475-478 | the pruned catalog holds exactly the videos at unmarked positions, shorter by the number of marked positions |
| Orchestrator.PrunedCursorStalls | yt-dislikes.py:448-478 | a marked video followed by a skipped last count leaves the cursor on a pruned video, and the next pass processes nothing |
| Orchestrator.Updater.FetchVideos | yt-dislikes.py:422 | the run's catalog and the cache become `Refreshed`; a failed probe changes nothing |
| Orchestrator.Updater.LoadCursor | yt-dislikes.py:425-426 | the cursor is what `LoadProgress` finds, and the file is removed when it says so |
| Orchestrator.Updater.ProcessVideos | yt-dislikes.py:435-473 | the loop leaves the progress file, the marks and the halt flag exactly as `PassUpTo` over the whole catalog |
| Orchestrator.Updater.RemoveMarked | yt-dislikes.py:475-478 | the reverse `pop` loop leaves exactly `Prune` of the catalog |
| Orchestrator.Updater.Run | yt-dislikes.py:416-488 | `main`: a failed probe changes no file; otherwise the progress file is the pass's, a halted pass leaves the cache as fetched and the removal file as it was, and a completed one writes the pruned catalog and the marks |

## Left out

- Authentication (`authenticate`, `yt-dislikes.py:82-113`) is left out: it is OAuth, pickle and token-refresh plumbing in foreign libraries.
- Every request to the video service is left out. Its responses are inputs: the search stream with each item's status, the comment list, the per-attempt results of a call, and the per-video outcomes.
- The cache, progress and removal files are fields of `Updater`. The whole-file writes made during the catalog scan are not modelled one by one; the cache holds the finished catalog.
- The owner id (`load_channel_owner_id`, its duplicate definitions, and the prompt at `yt-dislikes.py:213-221`) is a parameter. So are the operator's new-video count and today's formatted date.
- The removal file is written at the end of a completed run, but its loaded value is never used (`yt-dislikes.py:430-433`), so the model does not load it.
- `get_dislike_count`'s response parsing is left out. That includes the default count of 0 and the crash on an empty `items` list; such results enter only through `Outcome`.
- Comment listing is left out: it covers only the first 100 comments the service returns, and the comment list models that page.
- The catalog scan's error path is left out. An `HttpError` raised while building the catalog goes to `main`'s own handler (`yt-dislikes.py:490-499`): a retry answer re-runs `main`, a skip answer makes it return quietly, and any other exception ends the process (`yt-dislikes.py:500-502`). The model's stream always answers; the only failure it has is an empty probe.
- `main`'s `'exit'` branch (`yt-dislikes.py:496-499`) is left out because it is unreachable.
- ErrorPolicy.Call: retries are bounded by the attempts supplied. The source retries without limit, and running out of attempts is the model's own `OutOfAttempts` result.
- The nested retry inside `update_comment` and `create_comment` is left out. The comment step of a video enters `VideoOutcome` as one `CallResult`.
- Progress.SaveText: the text is the one `json.dump` writes, escapes included, but reading it back is the JSON parser's job, which is a parameter; no `\u` decoding is modelled. For video ids no escape arises (`SavedVideoId`).
- Progress.LoadProgress: JSON parsing is a parameter. JSON that is valid but is not an object, or whose `last_video_id` is not a string, is not modelled.
- Text.Strip uses only ASCII whitespace and Text.LowerAscii only ASCII letters. Python's full Unicode `strip()` and `lower()` are not modelled.
- `print` output is left out.
