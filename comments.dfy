/**
 * The comment reconciler (`find_or_create_comment`): locate the channel
 * owner's comment among a video's top-level comments, read its text line by
 * line, and decide whether to leave it alone, rewrite it, or create a new
 * one.
 *
 * The owner id, the listed comments and today's formatted date are inputs;
 * the decision is returned as an `Action` instead of being sent to the
 * service.
 */
module Comments {
  import opened Text

  /** A top-level comment as listed: its id, its author's channel id, its text. */
  datatype Comment = Comment(id: string, authorId: string, text: string)

  /** What reconciling one video's comments leads to. */
  datatype Action =
    | NoWrite(commentId: string)               // the count is already right
    | Update(commentId: string, text: string)  // rewrite the owner's comment
    | Create(text: string)                     // post a new top-level comment

  const DislikesPrefix := "Dislikes:"
  const DatePrefix := "Updated (YY-MM-DD):"

  /** The intended dislike line, `f"Dislikes: {dislike_count}"`. */
  function DislikeLine(count: int): string {
    "Dislikes: " + IntToString(count)
  }

  /** The intended date line; `date` is already formatted as `%Y-%m-%d`. */
  function DateLine(date: string): string {
    "Updated (YY-MM-DD): " + date
  }

  predicate IsDislikesLine(line: string) { StartsWith(line, DislikesPrefix) }
  predicate IsDateLine(line: string) { StartsWith(line, DatePrefix) }

  /** A line the reconciler leaves to the owner. */
  predicate Passthrough(line: string) { !IsDislikesLine(line) && !IsDateLine(line) }

  /** The lines kept by the scan, in their original order. */
  function Kept(lines: seq<string>): seq<string>
    decreases |lines|
  {
    if |lines| == 0 then []
    else
      var last := lines[|lines| - 1];
      Kept(lines[..|lines| - 1]) + (if Passthrough(last) then [last] else [])
  }

  /** The last `Dislikes:` line, if there is one. */
  function LastDislikes(lines: seq<string>): Option<string>
    decreases |lines|
  {
    if |lines| == 0 then None
    else if IsDislikesLine(lines[|lines| - 1]) then Some(lines[|lines| - 1])
    else LastDislikes(lines[..|lines| - 1])
  }

  /** The line scan over the owner's comment. */
  method ScanLines(lines: seq<string>) returns (kept: seq<string>, existing: Option<string>)
    ensures kept == Kept(lines)
    ensures existing == LastDislikes(lines)
  {
    kept, existing := [], None;
    for i := 0 to |lines|
      invariant kept == Kept(lines[..i])
      invariant existing == LastDislikes(lines[..i])
    {
      assert lines[..i + 1][..i] == lines[..i];
      if IsDislikesLine(lines[i]) {
        existing := Some(lines[i]);
      } else if !IsDateLine(lines[i]) {
        kept := kept + [lines[i]];
      }
    }
    assert lines[..|lines|] == lines;
  }

  /** The text of a rewritten comment: intended lines, then the kept lines, trailing newlines stripped. */
  function UpdateText(count: int, date: string, kept: seq<string>): string {
    RStripChars(DislikeLine(count) + "\n" + DateLine(date) + "\n" + Join(kept), {'\n'})
  }

  /** The text of a new comment. */
  function CreateText(count: int, date: string): string {
    DislikeLine(count) + "\n" + DateLine(date)
  }

  /** The comment at position `k` is the owner's, and no earlier one is. */
  predicate OwnedFirstAt(comments: seq<Comment>, owner: string, k: nat) {
    k < |comments| && comments[k].authorId == owner
    && forall j :: 0 <= j < k ==> comments[j].authorId != owner
  }

  /** The first listed comment written by `owner`, if any. */
  function FirstOwned(comments: seq<Comment>, owner: string): (r: Option<Comment>)
    ensures r.Some? ==> exists k :: 0 <= k < |comments| && comments[k] == r.value && OwnedFirstAt(comments, owner, k)
    ensures r.None? <==> forall k :: 0 <= k < |comments| ==> comments[k].authorId != owner
    decreases |comments|
  {
    if |comments| == 0 then None
    else if comments[0].authorId == owner then Some(comments[0])
    else
      var r := FirstOwned(comments[1..], owner);
      assert r.Some? ==> exists k :: 0 <= k < |comments| && comments[k] == r.value && OwnedFirstAt(comments, owner, k) by {
        if r.Some? {
          var k :| 0 <= k < |comments[1..]| && comments[1..][k] == r.value && OwnedFirstAt(comments[1..], owner, k);
          assert comments[k + 1] == r.value;
          forall j | 0 <= j < k + 1 ensures comments[j].authorId != owner {
            if j > 0 {
              assert comments[j] == comments[1..][j - 1];
            }
          }
        }
      }
      r
  }

  /**
   * The reconciliation decision for the listed comments: a create exactly
   * when no listed comment is the owner's, and otherwise a no-write or an
   * update of the first owner-written comment.
   */
  function Decide(owner: string, comments: seq<Comment>, count: int, date: string): (a: Action)
    ensures a.Create? <==> FirstOwned(comments, owner).None?
    ensures a.Create? ==> a.text == CreateText(count, date)
    ensures !a.Create? ==> a.commentId == FirstOwned(comments, owner).value.id
  {
    match FirstOwned(comments, owner)
    case None => Create(CreateText(count, date))
    case Some(c) =>
      var lines := Split(c.text);
      if LastDislikes(lines) == Some(DislikeLine(count)) then NoWrite(c.id)
      else Update(c.id, UpdateText(count, date, Kept(lines)))
  }

  /** The search over the listed comments, returning at the first owner-written one. */
  method FindOrCreate(owner: string, comments: seq<Comment>, count: int, date: string)
    returns (a: Action)
    ensures a == Decide(owner, comments, count, date)
  {
    var i := 0;
    while i < |comments|
      invariant 0 <= i <= |comments|
      invariant FirstOwned(comments, owner) == FirstOwned(comments[i..], owner)
    {
      var c := comments[i];
      if c.authorId == owner {
        var kept, existing := ScanLines(Split(c.text));
        if existing == Some(DislikeLine(count)) {
          return NoWrite(c.id);
        }
        return Update(c.id, UpdateText(count, date, kept));
      }
      assert comments[i..][1..] == comments[i + 1..];
      i := i + 1;
    }
    return Create(CreateText(count, date));
  }

  // ---------------------------------------------------------------------
  // What the scan keeps and finds

  /** Keeping lines distributes over concatenation: it keeps order and drops nothing else. */
  lemma {:induction false} KeptAppend(a: seq<string>, b: seq<string>)
    ensures Kept(a + b) == Kept(a) + Kept(b)
    decreases |b|
  {
    if |b| == 0 {
      assert a + b == a;
    } else {
      var b' := b[..|b| - 1];
      assert (a + b)[..|a + b| - 1] == a + b';
      KeptAppend(a, b');
    }
  }

  /** A line is kept exactly when it is in the comment and is neither a dislike nor a date line. */
  lemma {:induction false} KeptMembers(lines: seq<string>)
    ensures forall l :: l in Kept(lines) <==> l in lines && Passthrough(l)
    decreases |lines|
  {
    if |lines| > 0 {
      var init := lines[..|lines| - 1];
      KeptMembers(init);
      assert lines == init + [lines[|lines| - 1]];
    }
  }

  /** The scan finds the LAST dislike line, and finds none only when there is none. */
  lemma {:induction false} LastDislikesIsLast(lines: seq<string>)
    ensures LastDislikes(lines).None? <==> forall i :: 0 <= i < |lines| ==> !IsDislikesLine(lines[i])
    ensures LastDislikes(lines).Some? ==>
      exists i :: 0 <= i < |lines| && lines[i] == LastDislikes(lines).value
        && IsDislikesLine(lines[i])
        && forall j :: i < j < |lines| ==> !IsDislikesLine(lines[j])
    decreases |lines|
  {
    if |lines| > 0 {
      var n := |lines|;
      var init := lines[..n - 1];
      LastDislikesIsLast(init);
      if !IsDislikesLine(lines[n - 1]) {
        if LastDislikes(init).Some? {
          var i :| 0 <= i < |init| && init[i] == LastDislikes(init).value
            && IsDislikesLine(init[i]) && forall j :: i < j < |init| ==> !IsDislikesLine(init[j]);
          assert lines[i] == init[i];
          forall j | i < j < n ensures !IsDislikesLine(lines[j]) {
            if j < n - 1 {
              assert lines[j] == init[j];
            }
          }
        } else {
          forall i | 0 <= i < n ensures !IsDislikesLine(lines[i]) {
            if i < n - 1 {
              assert lines[i] == init[i];
            }
          }
        }
      }
    }
  }

  lemma {:induction false} LastDislikesIgnoresPassthrough(a: seq<string>, b: seq<string>)
    requires forall i :: 0 <= i < |b| ==> Passthrough(b[i])
    ensures LastDislikes(a + b) == LastDislikes(a)
    decreases |b|
  {
    if |b| == 0 {
      assert a + b == a;
    } else {
      var b' := b[..|b| - 1];
      assert (a + b)[..|a + b| - 1] == a + b';
      assert (a + b)[|a + b| - 1] == b[|b| - 1];
      LastDislikesIgnoresPassthrough(a, b');
    }
  }

  // ---------------------------------------------------------------------
  // The composed texts, line by line

  lemma IntendedLines(count: int, date: string)
    requires '\n' !in date
    ensures IsDislikesLine(DislikeLine(count)) && !IsDateLine(DislikeLine(count))
    ensures IsDateLine(DateLine(date)) && !IsDislikesLine(DateLine(date))
    ensures '\n' !in DislikeLine(count) && '\n' !in DateLine(date)
  {
    assert DislikeLine(count)[..|DislikesPrefix|] == DislikesPrefix;
    assert DateLine(date)[..|DatePrefix|] == DatePrefix;
    assert DateLine(date)[0] == 'U';
    assert DislikeLine(count)[0] == 'D';
  }

  /** A new comment has exactly two lines: the dislike line and the date line. */
  lemma CreateTextLines(count: int, date: string)
    requires '\n' !in date
    ensures Split(CreateText(count, date)) == [DislikeLine(count), DateLine(date)]
  {
    IntendedLines(count, date);
    SplitJoin([DislikeLine(count), DateLine(date)]);
    JoinCons(DislikeLine(count), [DateLine(date)]);
  }

  /**
   * A rewritten comment consists of the dislike line, the date line and then
   * the kept lines in their order, with only trailing empty lines dropped.
   */
  lemma UpdateTextLines(count: int, date: string, kept: seq<string>)
    requires '\n' !in date && NoNewlines(kept)
    ensures Split(UpdateText(count, date, kept)) == [DislikeLine(count), DateLine(date)] + TrimEmpty(kept)
  {
    IntendedLines(count, date);
    var head := [DislikeLine(count), DateLine(date)];
    var body := if kept == [] then [""] else kept;
    var all := head + body;
    UpdateTextJoins(count, date, kept, body);
    RStripJoin(all);
    var trimmed := TrimEmpty(all);
    assert TrimEmpty(kept) == TrimEmpty(body);
    TrimEmptyAfter(head, body);
    NoNewlinesPrefix(trimmed, all);
    SplitJoin(trimmed);
  }

  /**
   * The text before `rstrip` joins the two header lines and the kept lines,
   * an empty body standing for one empty line.
   */
  lemma UpdateTextJoins(count: int, date: string, kept: seq<string>, body: seq<string>)
    requires '\n' !in date && NoNewlines(kept)
    requires body == if kept == [] then [""] else kept
    ensures NoNewlines([DislikeLine(count), DateLine(date)] + body)
    ensures UpdateText(count, date, kept) == RStripChars(Join([DislikeLine(count), DateLine(date)] + body), {'\n'})
  {
    IntendedLines(count, date);
    var d, u := DislikeLine(count), DateLine(date);
    assert NoNewlines(body);
    NoNewlinesAppend([d, u], body);
    JoinHeader(d, u, body);
    assert Join(body) == Join(kept);
  }

  /** Concatenating newline-free lines gives newline-free lines. */
  lemma NoNewlinesAppend(a: seq<string>, b: seq<string>)
    requires NoNewlines(a) && NoNewlines(b)
    ensures NoNewlines(a + b)
  {
    forall i | 0 <= i < |a + b| ensures '\n' !in (a + b)[i] {
      if i < |a| {
        assert (a + b)[i] == a[i];
      } else {
        assert (a + b)[i] == b[i - |a|];
      }
    }
  }

  /** Joining two header lines before a non-empty body. */
  lemma JoinHeader(d: string, u: string, body: seq<string>)
    requires |body| >= 1
    ensures Join([d, u] + body) == d + "\n" + u + "\n" + Join(body)
  {
    var all, tail := [d, u] + body, [u] + body;
    assert all[0] == d && all[1..] == tail;
    assert Join(all) == d + "\n" + Join(tail);
    assert tail[0] == u && tail[1..] == body;
    assert Join(tail) == u + "\n" + Join(body);
    AppendAssoc3(d + "\n", u, "\n", Join(body));
  }

  /** A prefix of newline-free lines is newline-free. */
  lemma NoNewlinesPrefix(a: seq<string>, b: seq<string>)
    requires a <= b && NoNewlines(b)
    ensures NoNewlines(a)
  {
    forall i | 0 <= i < |a| ensures '\n' !in a[i] {
      assert a[i] == b[i];
    }
  }

  lemma {:induction false} TrimEmptyAfter(head: seq<string>, body: seq<string>)
    requires |head| >= 1 && head[|head| - 1] != ""
    ensures TrimEmpty(head + body) == head + TrimEmpty(body)
    decreases |body|
  {
    if |body| == 0 {
      assert head + body == head;
    } else if body[|body| - 1] == "" {
      var b' := body[..|body| - 1];
      assert (head + body)[..|head + body| - 1] == head + b';
      TrimEmptyAfter(head, b');
    }
  }

  /** Some line is the intended dislike line, and no dislike line follows it. */
  predicate CountIsCurrent(lines: seq<string>, count: int) {
    exists i :: 0 <= i < |lines| && lines[i] == DislikeLine(count)
      && forall j :: i < j < |lines| ==> !IsDislikesLine(lines[j])
  }

  /** The scan's comparison is the same as asking whether the last dislike line is the intended one. */
  lemma LastDislikesCurrent(lines: seq<string>, count: int)
    ensures LastDislikes(lines) == Some(DislikeLine(count)) <==> CountIsCurrent(lines, count)
  {
    LastDislikesIsLast(lines);
    IntendedLines(count, "");
    if CountIsCurrent(lines, count) {
      var i :| 0 <= i < |lines| && lines[i] == DislikeLine(count)
               && forall j :: i < j < |lines| ==> !IsDislikesLine(lines[j]);
      var i' :| 0 <= i' < |lines| && lines[i'] == LastDislikes(lines).value
                && IsDislikesLine(lines[i'])
                && forall j :: i' < j < |lines| ==> !IsDislikesLine(lines[j]);
      assert i == i';
    }
  }

  /** With no owner-written comment, a comment of the two intended lines is created. */
  lemma DecideCreates(owner: string, comments: seq<Comment>, count: int, date: string)
    requires '\n' !in date
    requires forall k :: 0 <= k < |comments| ==> comments[k].authorId != owner
    ensures Decide(owner, comments, count, date).Create?
    ensures Split(Decide(owner, comments, count, date).text) == [DislikeLine(count), DateLine(date)]
  {
    CreateTextLines(count, date);
  }

  /**
   * For the first owner-written comment: when its last dislike line is the
   * intended one nothing is written; otherwise it is rewritten to the
   * intended lines followed by its other lines, in order, without trailing
   * empty lines.
   */
  lemma DecideOwned(owner: string, comments: seq<Comment>, k: nat, count: int, date: string)
    requires '\n' !in date
    requires k < |comments| && comments[k].authorId == owner
    requires forall j :: 0 <= j < k ==> comments[j].authorId != owner
    ensures var lines := Split(comments[k].text);
      CountIsCurrent(lines, count) ==> Decide(owner, comments, count, date) == NoWrite(comments[k].id)
    ensures var lines := Split(comments[k].text);
      !CountIsCurrent(lines, count) ==>
        && Decide(owner, comments, count, date).Update?
        && Decide(owner, comments, count, date).commentId == comments[k].id
        && Split(Decide(owner, comments, count, date).text)
             == [DislikeLine(count), DateLine(date)] + TrimEmpty(Kept(lines))
  {
    var c := comments[k];
    assert comments == comments[..k] + [c] + comments[k + 1..];
    FirstOwnedSkips(owner, comments[..k], c, comments[k + 1..]);
    var lines := Split(c.text);
    LastDislikesCurrent(lines, count);
    if !CountIsCurrent(lines, count) {
      var kept := Kept(lines);
      KeptMembers(lines);
      assert NoNewlines(kept) by {
        forall i | 0 <= i < |kept| ensures '\n' !in kept[i] {
          assert kept[i] in kept;
        }
      }
      UpdateTextLines(count, date, kept);
    }
  }

  /** Different counts give different dislike lines. */
  lemma DislikeLineInjective(a: int, b: int)
    requires DislikeLine(a) == DislikeLine(b)
    ensures a == b
  {
    assert DislikeLine(a)[10..] == IntToString(a);
    assert DislikeLine(b)[10..] == IntToString(b);
    IntToStringInjective(a, b);
  }

  /**
   * When the owner's comment shows another count as its last dislike line,
   * it is rewritten: a count that changed from 100 to 150 gives one update.
   */
  lemma ChangedCountUpdates(owner: string, comments: seq<Comment>, k: nat, shown: int, count: int, date: string)
    requires k < |comments| && comments[k].authorId == owner
    requires forall j :: 0 <= j < k ==> comments[j].authorId != owner
    requires LastDislikes(Split(comments[k].text)) == Some(DislikeLine(shown))
    requires shown != count
    ensures Decide(owner, comments, count, date)
      == Update(comments[k].id, UpdateText(count, date, Kept(Split(comments[k].text))))
  {
    var c := comments[k];
    assert comments == comments[..k] + [c] + comments[k + 1..];
    FirstOwnedSkips(owner, comments[..k], c, comments[k + 1..]);
    if DislikeLine(shown) == DislikeLine(count) {
      DislikeLineInjective(shown, count);
    }
  }

  // ---------------------------------------------------------------------
  // Which comment is looked at, and idempotence

  /** Only the first owner-written comment matters: what follows it is never looked at. */
  lemma {:induction false} OnlyFirstOwnedCounts(owner: string, before: seq<Comment>, c: Comment,
                                                after: seq<Comment>, count: int, date: string)
    requires forall k :: 0 <= k < |before| ==> before[k].authorId != owner
    requires c.authorId == owner
    ensures Decide(owner, before + [c] + after, count, date) == Decide(owner, [c], count, date)
    decreases |before|
  {
    FirstOwnedSkips(owner, before, c, after);
  }

  lemma {:induction false} FirstOwnedSkips(owner: string, before: seq<Comment>, c: Comment, after: seq<Comment>)
    requires forall k :: 0 <= k < |before| ==> before[k].authorId != owner
    requires c.authorId == owner
    ensures FirstOwned(before + [c] + after, owner) == Some(c)
    decreases |before|
  {
    if |before| == 0 {
      assert (before + [c] + after)[0] == c;
    } else {
      assert (before + [c] + after)[1..] == before[1..] + [c] + after;
      FirstOwnedSkips(owner, before[1..], c, after);
    }
  }

  /**
   * After a rewrite, reconciling again with the same count writes nothing,
   * whatever the date is then.
   */
  lemma UpdateIsIdempotent(owner: string, before: seq<Comment>, c: Comment, after: seq<Comment>,
                           count: int, date: string, later: string)
    requires forall k :: 0 <= k < |before| ==> before[k].authorId != owner
    requires c.authorId == owner
    requires '\n' !in date
    requires Decide(owner, before + [c] + after, count, date).Update?
    ensures var text := Decide(owner, before + [c] + after, count, date).text;
      Decide(owner, before + [c.(text := text)] + after, count, later) == NoWrite(c.id)
  {
    FirstOwnedSkips(owner, before, c, after);
    var kept := Kept(Split(c.text));
    var text := UpdateText(count, date, kept);
    KeptMembers(Split(c.text));
    assert NoNewlines(kept) by {
      forall i | 0 <= i < |kept| ensures '\n' !in kept[i] {
        assert kept[i] in kept;
      }
    }
    UpdateTextLines(count, date, kept);
    var trimmed := TrimEmpty(kept);
    assert forall i :: 0 <= i < |trimmed| ==> Passthrough(trimmed[i]) by {
      forall i | 0 <= i < |trimmed| ensures Passthrough(trimmed[i]) {
        assert trimmed[i] == kept[i];
        assert kept[i] in kept;
      }
    }
    var head := [DislikeLine(count), DateLine(date)];
    LastDislikesIgnoresPassthrough(head, trimmed);
    IntendedLines(count, date);
    assert head[..1] == [DislikeLine(count)];
    FirstOwnedSkips(owner, before, c.(text := text), after);
  }

  /**
   * A newly created comment is found again on the next run, wherever the
   * service lists it, and reconciling with the same count writes nothing.
   */
  lemma CreateIsIdempotent(owner: string, before: seq<Comment>, after: seq<Comment>, newId: string,
                           count: int, date: string, later: string)
    requires forall k :: 0 <= k < |before| ==> before[k].authorId != owner
    requires forall k :: 0 <= k < |after| ==> after[k].authorId != owner
    requires '\n' !in date
    ensures Decide(owner, before + after, count, date) == Create(CreateText(count, date))
    ensures Decide(owner, before + [Comment(newId, owner, CreateText(count, date))] + after, count, later)
      == NoWrite(newId)
  {
    assert FirstOwned(before + after, owner).None? by {
      forall k | 0 <= k < |before + after| ensures (before + after)[k].authorId != owner {
        if k >= |before| {
          assert (before + after)[k] == after[k - |before|];
        }
      }
    }
    var c := Comment(newId, owner, CreateText(count, date));
    FirstOwnedSkips(owner, before, c, after);
    CreateTextLines(count, date);
    IntendedLines(count, date);
    var lines := [DislikeLine(count), DateLine(date)];
    assert lines[..1] == [DislikeLine(count)];
    assert LastDislikes(lines) == LastDislikes(lines[..1]) == Some(DislikeLine(count));
    assert Split(c.text) == lines;
  }
}
