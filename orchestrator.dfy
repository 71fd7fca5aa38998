/**
 * The processing loop (`main`): build the catalog, load the cursor, work
 * through the videos after it, checkpoint each one, and at the end drop
 * the videos marked for removal and write the cache back.
 *
 * The files the updater keeps between runs are the fields of `Updater`.
 * What happens to each video (its dislike count fetched or skipped, its
 * comment reconciled, the error that ended it) is an input: one `Outcome`
 * per catalog position, which `VideoOutcome` derives from the results of
 * the two remote calls.
 */
module Orchestrator {
  import opened Text
  import opened ErrorPolicy
  import opened Catalog
  import opened Progress

  /** What processing one video leads to. */
  datatype Outcome =
    | CountSkipped      // the dislike count was skipped: no checkpoint
    | Processed         // the comment step returned: checkpoint
    | MarkedForRemoval  // comments disabled or video not found: mark, then checkpoint
    | Halted            // the process ends: quota, operator exit, or an error nobody handles

  /**
   * The outcome of one video from the result of fetching its dislike count
   * and the result of reconciling its comment.
   */
  function VideoOutcome<T, U>(count: CallResult<T>, comment: CallResult<U>): (o: Outcome)
    ensures o == CountSkipped <==> count.Skipped?
    ensures o == Processed <==> count.Returned? && (comment.Returned? || comment.Skipped?)
    ensures o == MarkedForRemoval <==>
      count.Returned? && comment.Raised?
      && (Contains(comment.error.text, "commentsDisabled") || Contains(comment.error.text, "videoNotFound"))
  {
    match count
    case Skipped => CountSkipped
    case Returned(_) =>
      (match comment
       case Returned(_) => Processed
       case Skipped => Processed
       case Raised(e) =>
         if Contains(e.text, "commentsDisabled") || Contains(e.text, "videoNotFound") then MarkedForRemoval
         else Halted
       case _ => Halted)
    case _ => Halted
  }

  /**
   * A video is marked for removal only after a 403 error: a missing video
   * reported with any other status goes to the operator prompt instead.
   */
  lemma MarkedOnlyAfterForbidden<T, U>(count: CallResult<T>, attempts: seq<Attempt<U>>, answers: seq<string>)
    requires VideoOutcome(count, Call(attempts, answers)) == MarkedForRemoval
    ensures var e := Call(attempts, answers).error;
      e.status == 403 && exists k :: 0 <= k < |attempts| && attempts[k] == Failed(e)
  {
    OnlyForbiddenEscapes(attempts, answers);
  }

  // ---------------------------------------------------------------------
  // The pass over the catalog, as a function of the inputs

  /** The state of the pass: started, the progress file, the marks, the positions processed, halted. */
  datatype Pass = Pass(started: bool, file: ProgressFile, marked: set<nat>, visited: seq<nat>, halted: bool)

  /** The progress file after checkpointing position `i`: the last position clears it. */
  function Checkpoint(videos: seq<Video>, i: nat): ProgressFile {
    if i + 1 < |videos| then Present(SaveText(videos[i].id)) else Missing
  }

  predicate Checkpoints(o: Outcome) { o == Processed || o == MarkedForRemoval }

  /**
   * One iteration of the loop at position `i`. Before the start the only
   * change is starting once the cursor's video is passed; after a halt
   * nothing changes; otherwise the position is processed: a checkpoint
   * after a processed or marked video, a mark after a removal error, a halt
   * after a halting error.
   */
  function Step(p: Pass, videos: seq<Video>, last: Option<string>, outcomes: seq<Outcome>, i: nat): Pass
    requires i < |videos| && |outcomes| == |videos|
  {
    var running := p.started && !p.halted;
    Pass(
      started := p.started || (!p.halted && last == Some(videos[i].id)),
      file := if running && Checkpoints(outcomes[i]) then Checkpoint(videos, i) else p.file,
      marked := if running && outcomes[i] == MarkedForRemoval then p.marked + {i} else p.marked,
      visited := if running then p.visited + [i] else p.visited,
      halted := p.halted || (running && outcomes[i] == Halted))
  }

  /** The pass over the first `i` positions, from the loaded cursor and progress file. */
  function PassUpTo(videos: seq<Video>, last: Option<string>, file: ProgressFile,
                    outcomes: seq<Outcome>, i: nat): Pass
    requires i <= |videos| && |outcomes| == |videos|
    decreases i
  {
    if i == 0 then Pass(last.None?, file, {}, [], false)
    else Step(PassUpTo(videos, last, file, outcomes, i - 1), videos, last, outcomes, i - 1)
  }

  // ---------------------------------------------------------------------
  // Where the pass starts and stops, stated independently

  /** The first position holding `id`. */
  function FirstIndexOf(videos: seq<Video>, id: string): (k: Option<nat>)
    ensures k.Some? ==>
      && k.value < |videos| && videos[k.value].id == id
      && forall j :: 0 <= j < k.value ==> videos[j].id != id
    ensures k.None? ==> forall j :: 0 <= j < |videos| ==> videos[j].id != id
    decreases |videos|
  {
    if |videos| == 0 then None
    else if videos[0].id == id then Some(0)
    else match FirstIndexOf(videos[1..], id)
      case None => None
      case Some(k) => Some(k + 1)
  }

  /**
   * The first position processed: 0 without a cursor, the one after the
   * cursor's first occurrence, or past the end when the cursor is absent.
   */
  function Start(videos: seq<Video>, last: Option<string>): (s: nat)
    ensures s <= |videos| + 1
  {
    match last
    case None => 0
    case Some(id) =>
      match FirstIndexOf(videos, id)
      case Some(k) => k + 1
      case None => |videos| + 1
  }

  /** The first halting position at or after `s`, or `s` itself past the end. */
  function FirstHalt(outcomes: seq<Outcome>, s: nat): (h: nat)
    ensures h >= s
    ensures forall j :: s <= j < h && j < |outcomes| ==> outcomes[j] != Halted
    ensures h < |outcomes| ==> outcomes[h] == Halted
    ensures s <= |outcomes| ==> h <= |outcomes|
    ensures s > |outcomes| ==> h == s
    decreases |outcomes| - s
  {
    if s >= |outcomes| || outcomes[s] == Halted then s else FirstHalt(outcomes, s + 1)
  }

  /** The positions from `a` up to but not including `b`. */
  function Range(a: nat, b: nat): (r: seq<nat>)
    ensures |r| == if b <= a then 0 else b - a
    ensures forall j :: 0 <= j < |r| ==> r[j] == a + j
    decreases b
  {
    if b <= a then [] else Range(a, b - 1) + [b - 1]
  }

  function Min(a: nat, b: nat): nat { if a < b then a else b }

  /**
   * The state after `i` positions, given the start `s` and the first halt
   * `h`: started once `s` is reached, halted once `h` is passed, and the
   * positions from `s` up to the first halt processed, in order.
   */
  predicate Shape(p: Pass, s: nat, h: nat, i: nat) {
    && (p.started <==> s <= i)
    && (p.halted <==> h < i)
    && p.visited == Range(s, Min(i, h + 1))
  }

  /** Before the start is reached, the pass starts at `i - 1` exactly when that video holds the cursor. */
  lemma StartStep(videos: seq<Video>, last: Option<string>, i: nat)
    requires 0 < i <= |videos|
    requires i - 1 < Start(videos, last)
    ensures last == Some(videos[i - 1].id) <==> Start(videos, last) <= i
  {
    if last == Some(videos[i - 1].id) {
      assert FirstIndexOf(videos, last.value) == Some(i - 1);
    }
  }

  /** One step keeps the shape of the pass. */
  lemma ShapeStep(q: Pass, videos: seq<Video>, last: Option<string>, outcomes: seq<Outcome>, i: nat)
    requires 0 < i <= |videos| && |outcomes| == |videos|
    requires Shape(q, Start(videos, last), FirstHalt(outcomes, Start(videos, last)), i - 1)
    ensures Shape(Step(q, videos, last, outcomes, i - 1), Start(videos, last), FirstHalt(outcomes, Start(videos, last)), i)
  {
    var s := Start(videos, last);
    var h := FirstHalt(outcomes, s);
    if !q.started {
      StartStep(videos, last, i);
      ShapeBeforeStart(q, videos, last, outcomes, s, h, i);
    } else if q.halted {
      ShapeAfterHalt(q, videos, last, outcomes, s, h, i);
    } else {
      RunningStep(outcomes, s, i);
      ShapeRunning(q, videos, last, outcomes, s, h, i);
    }
  }

  /** A step before the start: the pass starts here exactly when `i` reaches the start. */
  lemma ShapeBeforeStart(q: Pass, videos: seq<Video>, last: Option<string>, outcomes: seq<Outcome>, s: nat, h: nat, i: nat)
    requires 0 < i <= |videos| && |outcomes| == |videos| && s <= h
    requires Shape(q, s, h, i - 1) && !q.started
    requires last == Some(videos[i - 1].id) <==> s <= i
    ensures Shape(Step(q, videos, last, outcomes, i - 1), s, h, i)
  {
    RangeStays(s, h, i);
  }

  /** A step after a halt changes nothing. */
  lemma ShapeAfterHalt(q: Pass, videos: seq<Video>, last: Option<string>, outcomes: seq<Outcome>, s: nat, h: nat, i: nat)
    requires 0 < i <= |videos| && |outcomes| == |videos| && s <= h
    requires Shape(q, s, h, i - 1) && q.halted
    ensures Shape(Step(q, videos, last, outcomes, i - 1), s, h, i)
  {
    RangeStays(s, h, i);
  }

  /** A running step processes position `i - 1`, halting exactly at the first halt. */
  lemma ShapeRunning(q: Pass, videos: seq<Video>, last: Option<string>, outcomes: seq<Outcome>, s: nat, h: nat, i: nat)
    requires 0 < i <= |videos| && |outcomes| == |videos| && s <= h
    requires Shape(q, s, h, i - 1) && q.started && !q.halted
    requires outcomes[i - 1] == Halted <==> h == i - 1
    ensures Shape(Step(q, videos, last, outcomes, i - 1), s, h, i)
  {
    RangeGrows(s, h, i);
  }

  /** While running at `i - 1`, that position halts exactly when it is the first halt. */
  lemma RunningStep(outcomes: seq<Outcome>, s: nat, i: nat)
    requires 0 < i <= |outcomes| && s <= i - 1 && i - 1 <= FirstHalt(outcomes, s)
    ensures outcomes[i - 1] == Halted <==> FirstHalt(outcomes, s) == i - 1
  {
  }

  /** The shape of the pass after `i` positions, by induction on `i`. */
  lemma {:induction false} ShapeWhen(videos: seq<Video>, last: Option<string>, file: ProgressFile,
                                     outcomes: seq<Outcome>, i: nat)
    requires i <= |videos| && |outcomes| == |videos|
    ensures Shape(PassUpTo(videos, last, file, outcomes, i), Start(videos, last),
                  FirstHalt(outcomes, Start(videos, last)), i)
    decreases i
  {
    if i > 0 {
      ShapeWhen(videos, last, file, outcomes, i - 1);
      ShapeStep(PassUpTo(videos, last, file, outcomes, i - 1), videos, last, outcomes, i);
    }
  }

  /**
   * After `i` positions the pass has started exactly when the position
   * after the cursor is reached, has halted exactly when the first halt
   * from there is passed, and has processed exactly the positions from the
   * start up to the first halt.
   */
  lemma PassShape(videos: seq<Video>, last: Option<string>, file: ProgressFile,
                  outcomes: seq<Outcome>, i: nat)
    requires i <= |videos| && |outcomes| == |videos|
    ensures var p := PassUpTo(videos, last, file, outcomes, i);
      var s := Start(videos, last);
      var h := FirstHalt(outcomes, s);
      && (p.started <==> s <= i)
      && (p.halted <==> h < i)
      && p.visited == Range(s, Min(i, h + 1))
  {
    ShapeWhen(videos, last, file, outcomes, i);
  }

  /** While running, the processed range grows by the current position. */
  lemma RangeGrows(s: nat, h: nat, i: nat)
    requires s < i && i - 1 <= h
    ensures Range(s, Min(i, h + 1)) == Range(s, Min(i - 1, h + 1)) + [i - 1]
  {
    assert Min(i, h + 1) == i && Min(i - 1, h + 1) == i - 1;
  }

  /** Before the start or after the first halt, the processed range stays as it was. */
  lemma RangeStays(s: nat, h: nat, i: nat)
    requires 0 < i && s <= h
    requires !(s <= i - 1 && i - 1 <= h)
    ensures Range(s, Min(i, h + 1)) == Range(s, Min(i - 1, h + 1))
  {
    if h < i - 1 {
      assert Min(i, h + 1) == Min(i - 1, h + 1);
    } else {
      assert Range(s, Min(i, h + 1)) == [] == Range(s, Min(i - 1, h + 1));
    }
  }

  /** The whole pass processes the positions from the start up to the first halt, and no others. */
  lemma PassVisits(videos: seq<Video>, last: Option<string>, file: ProgressFile, outcomes: seq<Outcome>)
    requires |outcomes| == |videos|
    ensures var p := PassUpTo(videos, last, file, outcomes, |videos|);
      var s := Start(videos, last);
      && (p.halted <==> exists j :: s <= j < |videos| && outcomes[j] == Halted)
      && (forall j :: j in p.visited <==> s <= j < |videos| && forall k :: s <= k < j ==> outcomes[k] != Halted)
  {
    PassShape(videos, last, file, outcomes, |videos|);
    var p := PassUpTo(videos, last, file, outcomes, |videos|);
    var s := Start(videos, last);
    var h := FirstHalt(outcomes, s);
    forall j ensures j in p.visited <==> s <= j < |videos| && forall k :: s <= k < j ==> outcomes[k] != Halted {
      if j in p.visited {
        var t :| 0 <= t < |p.visited| && p.visited[t] == j;
      }
      if s <= j < |videos| && forall k :: s <= k < j ==> outcomes[k] != Halted {
        assert h >= j;
        assert p.visited[j - s] == j;
      }
    }
  }

  /** Without a halt from the start on, every position from the start is processed, in order. */
  lemma NoHaltVisitsRest(videos: seq<Video>, last: Option<string>, file: ProgressFile, outcomes: seq<Outcome>)
    requires |outcomes| == |videos| && Start(videos, last) <= |videos|
    requires forall j :: Start(videos, last) <= j < |videos| ==> outcomes[j] != Halted
    ensures PassUpTo(videos, last, file, outcomes, |videos|).visited == Range(Start(videos, last), |videos|)
    ensures !PassUpTo(videos, last, file, outcomes, |videos|).halted
  {
    var n := |videos|;
    NoHaltFrom(outcomes, Start(videos, last));
    assert Min(n, n + 1) == n;
    ShapeWhen(videos, last, file, outcomes, n);
  }

  /** Without a cursor and without a halt, every position is processed, in order. */
  lemma NoCursorVisitsAll(videos: seq<Video>, file: ProgressFile, outcomes: seq<Outcome>)
    requires |outcomes| == |videos|
    requires forall j :: 0 <= j < |videos| ==> outcomes[j] != Halted
    ensures PassUpTo(videos, None, file, outcomes, |videos|).visited == Range(0, |videos|)
    ensures !PassUpTo(videos, None, file, outcomes, |videos|).halted
  {
    NoHaltVisitsRest(videos, None, file, outcomes);
  }

  /** A cursor first found at position `k` starts the pass at `k + 1`. */
  lemma StartAfterCursor(videos: seq<Video>, k: nat)
    requires k < |videos|
    requires forall j :: 0 <= j < k ==> videos[j].id != videos[k].id
    ensures Start(videos, Some(videos[k].id)) == k + 1
  {
    assert FirstIndexOf(videos, videos[k].id) == Some(k);
  }

  /**
   * With a cursor whose first occurrence is at position `k` and without a
   * halt, exactly the positions after `k` are processed, in order.
   */
  lemma CursorVisitsAfter(videos: seq<Video>, k: nat, file: ProgressFile, outcomes: seq<Outcome>)
    requires |outcomes| == |videos| && k < |videos|
    requires forall j :: 0 <= j < k ==> videos[j].id != videos[k].id
    requires forall j :: k < j < |videos| ==> outcomes[j] != Halted
    ensures PassUpTo(videos, Some(videos[k].id), file, outcomes, |videos|).visited == Range(k + 1, |videos|)
    ensures !PassUpTo(videos, Some(videos[k].id), file, outcomes, |videos|).halted
  {
    StartAfterCursor(videos, k);
    NoHaltVisitsRest(videos, Some(videos[k].id), file, outcomes);
  }

  /** Without a halting position from `s` on, the first halt is the end. */
  lemma NoHaltFrom(outcomes: seq<Outcome>, s: nat)
    requires s <= |outcomes|
    requires forall j :: s <= j < |outcomes| ==> outcomes[j] != Halted
    ensures FirstHalt(outcomes, s) == |outcomes|
  {
  }

  /** The positions marked are exactly the processed ones whose comment step met a removal error. */
  lemma MarkedExactly(videos: seq<Video>, last: Option<string>, file: ProgressFile,
                      outcomes: seq<Outcome>, i: nat)
    requires i <= |videos| && |outcomes| == |videos|
    ensures var p := PassUpTo(videos, last, file, outcomes, i);
      forall j :: j in p.marked <==> j in p.visited && j < |outcomes| && outcomes[j] == MarkedForRemoval
  {
    MarksWhen(videos, last, file, outcomes, i);
  }

  /** The marks are the processed positions whose outcome is a removal. */
  ghost predicate MarksMatch(p: Pass, outcomes: seq<Outcome>) {
    forall j :: j in p.marked <==> j in p.visited && j < |outcomes| && outcomes[j] == MarkedForRemoval
  }

  /** The marks after `i` positions, by induction on `i`. */
  lemma {:induction false} MarksWhen(videos: seq<Video>, last: Option<string>, file: ProgressFile,
                                     outcomes: seq<Outcome>, i: nat)
    requires i <= |videos| && |outcomes| == |videos|
    ensures MarksMatch(PassUpTo(videos, last, file, outcomes, i), outcomes)
    decreases i
  {
    if i > 0 {
      MarksWhen(videos, last, file, outcomes, i - 1);
      MarkedStep(PassUpTo(videos, last, file, outcomes, i - 1), videos, last, outcomes, i - 1);
    }
  }

  /** Processing position `j` marks it exactly when its outcome is a removal. */
  lemma MarkedStep(q: Pass, videos: seq<Video>, last: Option<string>, outcomes: seq<Outcome>, j: nat)
    requires j < |videos| && |outcomes| == |videos|
    requires MarksMatch(q, outcomes)
    ensures MarksMatch(Step(q, videos, last, outcomes, j), outcomes)
  {
  }

  /** Position `j` was given an outcome that writes a checkpoint. */
  predicate WroteCheckpoint(j: nat, outcomes: seq<Outcome>) {
    j < |outcomes| && Checkpoints(outcomes[j])
  }

  /**
   * The last processed position that wrote a checkpoint: none exactly when
   * no processed position wrote one, and otherwise one that no later
   * processed position follows with a checkpoint.
   */
  function LastCheckpoint(visited: seq<nat>, outcomes: seq<Outcome>): (r: Option<nat>)
    ensures r.None? <==> forall t :: 0 <= t < |visited| ==> !WroteCheckpoint(visited[t], outcomes)
    ensures r.Some? ==>
      && WroteCheckpoint(r.value, outcomes)
      && exists t :: 0 <= t < |visited| && visited[t] == r.value
           && forall u :: t < u < |visited| ==> !WroteCheckpoint(visited[u], outcomes)
    decreases |visited|
  {
    if |visited| == 0 then None
    else
      var j := visited[|visited| - 1];
      if j < |outcomes| && Checkpoints(outcomes[j]) then Some(j)
      else LastCheckpoint(visited[..|visited| - 1], outcomes)
  }

  /** The progress file the checkpoint at `c` leaves, `file` when there was none. */
  function FileOf(videos: seq<Video>, file: ProgressFile, c: Option<nat>): ProgressFile {
    match c
    case None => file
    case Some(j) => Checkpoint(videos, j)
  }

  /** The progress file is the one the last checkpoint among the processed positions left. */
  predicate FileMatches(p: Pass, videos: seq<Video>, file: ProgressFile, outcomes: seq<Outcome>) {
    p.file == FileOf(videos, file, LastCheckpoint(p.visited, outcomes))
  }

  /** Processing position `j` keeps the progress file equal to the last checkpoint's. */
  lemma FileStep(q: Pass, videos: seq<Video>, last: Option<string>, file: ProgressFile, outcomes: seq<Outcome>, j: nat)
    requires j < |videos| && |outcomes| == |videos|
    requires FileMatches(q, videos, file, outcomes)
    ensures FileMatches(Step(q, videos, last, outcomes, j), videos, file, outcomes)
  {
    if q.started && !q.halted {
      var after := q.visited + [j];
      assert after[..|after| - 1] == q.visited;
    }
  }

  /** The progress file after `i` positions, by induction on `i`. */
  lemma {:induction false} FilesWhen(videos: seq<Video>, last: Option<string>, file: ProgressFile,
                                     outcomes: seq<Outcome>, i: nat)
    requires i <= |videos| && |outcomes| == |videos|
    ensures FileMatches(PassUpTo(videos, last, file, outcomes, i), videos, file, outcomes)
    decreases i
  {
    if i > 0 {
      FilesWhen(videos, last, file, outcomes, i - 1);
      FileStep(PassUpTo(videos, last, file, outcomes, i - 1), videos, last, file, outcomes, i - 1);
    }
  }

  /**
   * The progress file after the pass: untouched when no checkpoint was
   * written, otherwise the checkpoint of the last position that wrote one,
   * which clears the file when that position is the last one.
   */
  lemma FileAfter(videos: seq<Video>, last: Option<string>, file: ProgressFile,
                  outcomes: seq<Outcome>, i: nat)
    requires i <= |videos| && |outcomes| == |videos|
    ensures var p := PassUpTo(videos, last, file, outcomes, i);
      p.file == match LastCheckpoint(p.visited, outcomes)
        case None => file
        case Some(j) => Checkpoint(videos, j)
  {
    FilesWhen(videos, last, file, outcomes, i);
  }

  /**
   * A cursor that names no video in the catalog processes nothing and
   * leaves the progress file as it was, so every later run over the same
   * catalog processes nothing either.
   */
  lemma StaleCursorProcessesNothing(videos: seq<Video>, id: string, file: ProgressFile, outcomes: seq<Outcome>)
    requires |outcomes| == |videos|
    requires forall j :: 0 <= j < |videos| ==> videos[j].id != id
    ensures PassUpTo(videos, Some(id), file, outcomes, |videos|) == Pass(false, file, {}, [], false)
  {
    var n := |videos|;
    var p := PassUpTo(videos, Some(id), file, outcomes, n);
    assert Start(videos, Some(id)) == n + 1;
    ShapeWhen(videos, Some(id), file, outcomes, n);
    assert p.visited == [] && !p.started && !p.halted;
    MarksWhen(videos, Some(id), file, outcomes, n);
    assert p.marked == {};
    FilesWhen(videos, Some(id), file, outcomes, n);
  }

  /**
   * A pass that starts from no cursor and never halts, and whose last video
   * writes a checkpoint, ends with the progress file removed.
   */
  lemma CompletePassClearsProgress(videos: seq<Video>, file: ProgressFile, outcomes: seq<Outcome>)
    requires |outcomes| == |videos| && |videos| > 0
    requires forall j :: 0 <= j < |videos| ==> outcomes[j] != Halted
    requires Checkpoints(outcomes[|videos| - 1])
    ensures PassUpTo(videos, None, file, outcomes, |videos|).file == Missing
  {
    var n := |videos|;
    PassShape(videos, None, file, outcomes, n);
    FileAfter(videos, None, file, outcomes, n);
    var p := PassUpTo(videos, None, file, outcomes, n);
    assert FirstHalt(outcomes, 0) == n;
    assert p.visited[|p.visited| - 1] == n - 1;
  }

  /**
   * After a checkpoint at position `j` that is not the last, the next run
   * over the same catalog starts right after `j`, provided ids do not
   * repeat and the parser reads back what was saved.
   */
  lemma ResumeAfterCheckpoint(videos: seq<Video>, j: nat, parse: string -> Option<Option<string>>)
    requires j + 1 < |videos|
    requires forall a, b :: 0 <= a < b < |videos| ==> videos[a].id != videos[b].id
    requires parse(SaveText(videos[j].id)) == Some(Some(videos[j].id))
    ensures var l := LoadProgress(Checkpoint(videos, j), parse);
      !l.removeFile && Start(videos, l.lastVideoId) == j + 1
  {
    SaveThenLoad(videos[j].id, parse);
    var k := FirstIndexOf(videos, videos[j].id);
    assert k.Some?;
  }

  // ---------------------------------------------------------------------
  // Removing the marked positions

  /** The elements at positions `i` and after that are not marked, in order. */
  function KeptFrom(s: seq<Video>, marked: set<nat>, i: nat): seq<Video>
    requires i <= |s|
    decreases |s| - i
  {
    if i == |s| then []
    else (if i in marked then [] else [s[i]]) + KeptFrom(s, marked, i + 1)
  }

  /** The list with the marked positions removed. */
  function Prune(s: seq<Video>, marked: set<nat>): seq<Video> {
    KeptFrom(s, marked, 0)
  }

  /**
   * An element survives exactly when it stands at an unmarked position, and
   * as many elements go as there are marked positions in range.
   */
  lemma {:induction false} KeptFromMembers(s: seq<Video>, marked: set<nat>, i: nat)
    requires i <= |s|
    ensures forall v :: v in KeptFrom(s, marked, i) <==> exists j :: i <= j < |s| && j !in marked && s[j] == v
    ensures |KeptFrom(s, marked, i)| + |set j | i <= j < |s| && j in marked| == |s| - i
    decreases |s| - i
  {
    if i < |s| {
      KeptFromMembers(s, marked, i + 1);
      var rest := set j | i + 1 <= j < |s| && j in marked;
      var here := set j | i <= j < |s| && j in marked;
      if i in marked {
        assert here == rest + {i};
      } else {
        assert here == rest;
      }
    } else {
      var here := set j | i <= j < |s| && j in marked;
      assert here == {};
    }
  }

  /** Popping position `index` when it is marked extends the kept suffix by one position. */
  lemma DropAt(orig: seq<Video>, marked: set<nat>, index: nat, v: seq<Video>)
    requires index < |orig| && v == orig[..index + 1] + KeptFrom(orig, marked, index + 1)
    ensures |v| > index
    ensures (if index in marked then v[..index] + v[index + 1..] else v) == orig[..index] + KeptFrom(orig, marked, index)
  {
    var before, rest := orig[..index], KeptFrom(orig, marked, index + 1);
    assert orig[..index + 1] == before + [orig[index]];
    if index in marked {
      DropMarked(before, orig[index], rest, v);
    } else {
      assert v == before + ([orig[index]] + rest);
    }
  }

  /** Removing the element between `before` and `rest` leaves `before + rest`. */
  lemma DropMarked(before: seq<Video>, x: Video, rest: seq<Video>, v: seq<Video>)
    requires v == before + [x] + rest
    ensures v[..|before|] + v[|before| + 1..] == before + rest
  {
    assert v[..|before|] == before;
    assert v[|before| + 1..] == rest;
  }

  lemma PruneMembers(s: seq<Video>, marked: set<nat>)
    ensures forall v :: v in Prune(s, marked) <==> exists j :: 0 <= j < |s| && j !in marked && s[j] == v
    ensures |Prune(s, marked)| == |s| - |set j | 0 <= j < |s| && j in marked|
  {
    KeptFromMembers(s, marked, 0);
  }

  /**
   * The positions `pos` pick the survivors out of `s` in order: the k-th
   * survivor is the element at the k-th unmarked position from `i` on.
   */
  ghost predicate PicksUnmarked(s: seq<Video>, marked: set<nat>, i: nat, r: seq<Video>, pos: seq<nat>) {
    && |pos| == |r|
    && (forall k :: 0 <= k < |pos| ==> i <= pos[k] < |s| && pos[k] !in marked && r[k] == s[pos[k]])
    && (forall k, l :: 0 <= k < l < |pos| ==> pos[k] < pos[l])
    && (forall j :: i <= j < |s| && j !in marked ==> j in pos)
  }

  /** The survivors from `i` on are the elements at the unmarked positions, in increasing order. */
  lemma {:induction false} KeptFromPositions(s: seq<Video>, marked: set<nat>, i: nat)
    requires i <= |s|
    ensures exists pos :: PicksUnmarked(s, marked, i, KeptFrom(s, marked, i), pos)
    decreases |s| - i
  {
    if i == |s| {
      PickNone(s, marked);
    } else {
      KeptFromPositions(s, marked, i + 1);
      var rest := KeptFrom(s, marked, i + 1);
      var pos :| PicksUnmarked(s, marked, i + 1, rest, pos);
      if i in marked {
        assert KeptFrom(s, marked, i) == rest;
        SkipFirst(s, marked, i, rest, pos);
      } else {
        assert KeptFrom(s, marked, i) == [s[i]] + rest;
        KeepFirst(s, marked, i, rest, pos);
      }
    }
  }

  /** Past the end nothing survives, at no position. */
  lemma PickNone(s: seq<Video>, marked: set<nat>)
    ensures KeptFrom(s, marked, |s|) == []
    ensures PicksUnmarked(s, marked, |s|, [], [])
  {
  }

  /** Skipping the marked position `i` leaves the later positions. */
  lemma SkipFirst(s: seq<Video>, marked: set<nat>, i: nat, rest: seq<Video>, pos: seq<nat>)
    requires i < |s| && i in marked
    requires PicksUnmarked(s, marked, i + 1, rest, pos)
    ensures PicksUnmarked(s, marked, i, rest, pos)
  {
  }

  /** Keeping the unmarked position `i` puts it in front of the later positions. */
  lemma KeepFirst(s: seq<Video>, marked: set<nat>, i: nat, rest: seq<Video>, pos: seq<nat>)
    requires i < |s| && i !in marked
    requires PicksUnmarked(s, marked, i + 1, rest, pos)
    ensures PicksUnmarked(s, marked, i, [s[i]] + rest, [i] + pos)
  {
    var pos', r' := [i] + pos, [s[i]] + rest;
    forall k | 0 <= k < |pos'| ensures i <= pos'[k] < |s| && pos'[k] !in marked && r'[k] == s[pos'[k]] {
      if k > 0 {
        assert pos'[k] == pos[k - 1] && r'[k] == rest[k - 1];
      }
    }
    forall k, l | 0 <= k < l < |pos'| ensures pos'[k] < pos'[l] {
      assert pos'[l] == pos[l - 1];
      if k > 0 {
        assert pos'[k] == pos[k - 1];
      }
    }
    forall j | i <= j < |s| && j !in marked ensures j in pos' {
      if j > i {
        assert j in pos;
      } else {
        assert pos'[0] == j;
      }
    }
  }

  /** Pruning keeps the unmarked videos in their order, duplicates included. */
  lemma PruneKeepsOrder(s: seq<Video>, marked: set<nat>)
    ensures exists pos :: PicksUnmarked(s, marked, 0, Prune(s, marked), pos)
  {
    KeptFromPositions(s, marked, 0);
    var pos :| PicksUnmarked(s, marked, 0, KeptFrom(s, marked, 0), pos);
    assert PicksUnmarked(s, marked, 0, Prune(s, marked), pos);
  }

  /**
   * A position marked for removal, followed by a last video whose count was
   * skipped: the cursor is left on the marked video, which the completed run
   * then prunes from the catalog, so the next run over the pruned catalog
   * processes nothing and leaves that cursor in place.
   */
  lemma PrunedCursorStalls(a: Video, b: Video, file: ProgressFile, next: Outcome)
    requires a.id != b.id
    ensures var p := PassUpTo([a, b], None, file, [MarkedForRemoval, CountSkipped], 2);
      && !p.halted
      && p.file == Present(SaveText(a.id))
      && Prune([a, b], p.marked) == [b]
      && PassUpTo([b], Some(a.id), p.file, [next], 1) == Pass(false, p.file, {}, [], false)
  {
    var p := PassUpTo([a, b], None, file, [MarkedForRemoval, CountSkipped], 2);
    assert p.marked == {0};
    assert KeptFrom([a, b], {0}, 2) == [];
    assert KeptFrom([a, b], {0}, 1) == [b];
    StaleCursorProcessesNothing([b], a.id, p.file, [next]);
  }

  // ---------------------------------------------------------------------
  // The updater and its files

  /** How a run of the updater ends. */
  datatype RunEnd =
    | ProbeFailed  // the probe found no video: the run ends with an error
    | Stopped      // the loop halted: nothing after it happens
    | Completed    // the loop finished: the cache and the removal file are written

  class Updater {
    /** `videos_cache.json` */
    var cache: seq<Video>
    /** `progress.json` */
    var progress: ProgressFile
    /** `videos_to_remove.json`: the positions marked in the last completed run */
    var removal: set<nat>
    /** The catalog the current run works on. */
    var videos: seq<Video>

    constructor(cache: seq<Video>, progress: ProgressFile, removal: set<nat>)
      ensures this.cache == cache && this.progress == progress && this.removal == removal
      ensures videos == []
    {
      this.cache := cache;
      this.progress := progress;
      this.removal := removal;
      videos := [];
    }

    /** `get_videos`: the catalog for this run, which is also what the cache then holds. */
    method FetchVideos(stream: seq<Item>, count: int) returns (ok: bool)
      modifies this
      ensures var r := Refreshed(old(cache), stream, count);
        && ok == r.Some?
        && (ok ==> videos == r.value && cache == r.value)
        && (!ok ==> videos == old(videos) && cache == old(cache))
      ensures progress == old(progress) && removal == old(removal)
    {
      var r := GetVideos(cache, stream, count);
      if r.None? {
        return false;
      }
      videos, cache := r.value, r.value;
      return true;
    }

    /** `load_progress` and `progress.get("last_video_id")`. */
    method LoadCursor(parse: string -> Option<Option<string>>) returns (last: Option<string>)
      modifies this
      ensures var l := LoadProgress(old(progress), parse);
        last == l.lastVideoId && progress == (if l.removeFile then Missing else old(progress))
      ensures cache == old(cache) && removal == old(removal) && videos == old(videos)
    {
      var l := LoadProgress(progress, parse);
      if l.removeFile {
        progress := Missing;
      }
      return l.lastVideoId;
    }

    /** The `for index, video in enumerate(videos)` loop. */
    method ProcessVideos(last: Option<string>, outcomes: seq<Outcome>)
      returns (marked: set<nat>, halted: bool, ghost visited: seq<nat>)
      requires |outcomes| == |videos|
      modifies this
      ensures cache == old(cache) && removal == old(removal) && videos == old(videos)
      ensures var p := PassUpTo(videos, last, old(progress), outcomes, |videos|);
        progress == p.file && marked == p.marked && halted == p.halted && visited == p.visited
    {
      ghost var file := progress;
      var vs := videos;
      var started := last.None?;
      marked, halted, visited := {}, false, [];
      var index := 0;
      while index < |vs|
        invariant cache == old(cache) && removal == old(removal) && videos == old(videos) == vs
        invariant index <= |vs|
        invariant PassUpTo(vs, last, file, outcomes, index) == Pass(started, progress, marked, visited, halted)
        invariant !halted
        decreases |vs| - index
      {
        ghost var q := PassUpTo(vs, last, file, outcomes, index);
        assert PassUpTo(vs, last, file, outcomes, index + 1) == Step(q, vs, last, outcomes, index);
        if !started {
          if last == Some(vs[index].id) {
            started := true;
          }
          index := index + 1;
          continue;
        }
        RunningStepIs(q, vs, last, outcomes, index);
        visited := visited + [index];
        match outcomes[index] {
          case CountSkipped =>
          case Halted =>
            halted := true;
            HaltAbsorbs(vs, last, file, outcomes, index + 1, |vs|);
            return;
          case Processed =>
            progress := Checkpoint(vs, index);
          case MarkedForRemoval =>
            marked := marked + {index};
            progress := Checkpoint(vs, index);
        }
        index := index + 1;
      }
    }

    /** The reverse loop that pops every marked position. */
    method RemoveMarked(marked: set<nat>)
      modifies this
      ensures videos == Prune(old(videos), marked)
      ensures cache == old(cache) && progress == old(progress) && removal == old(removal)
    {
      ghost var orig := videos;
      var index := |videos|;
      while index > 0
        invariant 0 <= index <= |orig|
        invariant videos == orig[..index] + KeptFrom(orig, marked, index)
        invariant cache == old(cache) && progress == old(progress) && removal == old(removal)
      {
        index := index - 1;
        DropAt(orig, marked, index, videos);
        if index in marked {
          videos := videos[..index] + videos[index + 1..];
        }
      }
    }

    /**
     * `main`: build the catalog, load the cursor, process the videos, and on
     * completion prune the catalog into the cache and save the marks.
     */
    method Run(stream: seq<Item>, count: int, parse: string -> Option<Option<string>>, outcomes: seq<Outcome>)
      returns (end: RunEnd)
      requires Refreshed(cache, stream, count).Some? ==> |outcomes| == |Refreshed(cache, stream, count).value|
      modifies this
      ensures var r := Refreshed(old(cache), stream, count);
        (r.None? <==> end == ProbeFailed)
        && (end == ProbeFailed ==> cache == old(cache) && progress == old(progress) && removal == old(removal))
        && (r.Some? ==>
              var l := LoadProgress(old(progress), parse);
              var start := if l.removeFile then Missing else old(progress);
              var p := PassUpTo(r.value, l.lastVideoId, start, outcomes, |r.value|);
              && progress == p.file
              && (end == Stopped <==> p.halted)
              && (end == Stopped ==> cache == r.value && removal == old(removal))
              && (end == Completed ==> cache == Prune(r.value, p.marked) && removal == p.marked))
    {
      var ok := FetchVideos(stream, count);
      if !ok {
        return ProbeFailed;
      }
      var last := LoadCursor(parse);
      var marked, halted, visited := ProcessVideos(last, outcomes);
      if halted {
        return Stopped;
      }
      RemoveMarked(marked);
      cache := videos;
      removal := marked;
      return Completed;
    }
  }

  /** A step while running processes position `i`, as the loop body does. */
  lemma RunningStepIs(q: Pass, videos: seq<Video>, last: Option<string>, outcomes: seq<Outcome>, i: nat)
    requires i < |videos| && |outcomes| == |videos|
    requires q.started && !q.halted
    ensures Step(q, videos, last, outcomes, i) == Pass(
      true,
      if Checkpoints(outcomes[i]) then Checkpoint(videos, i) else q.file,
      if outcomes[i] == MarkedForRemoval then q.marked + {i} else q.marked,
      q.visited + [i],
      outcomes[i] == Halted)
  {
  }

  /** Once the pass has halted, later positions change nothing. */
  lemma {:induction false} HaltAbsorbs(videos: seq<Video>, last: Option<string>, file: ProgressFile,
                                       outcomes: seq<Outcome>, i: nat, k: nat)
    requires i <= k <= |videos| && |outcomes| == |videos|
    requires PassUpTo(videos, last, file, outcomes, i).halted
    ensures PassUpTo(videos, last, file, outcomes, k) == PassUpTo(videos, last, file, outcomes, i)
    decreases k - i
  {
    if i < k {
      HaltAbsorbs(videos, last, file, outcomes, i, k - 1);
    }
  }
}
