/**
 * The catalog builder (`get_videos`): the list of the channel's videos that
 * the updater works through, newest first, kept in a cache between runs.
 *
 * The channel's uploads are one stream of items, newest first, each with the
 * status its per-video lookup reports. The search endpoint serves that
 * stream in pages: a request for at most `m` items at offset `o` yields
 * `stream[o..min(o + m, |stream|)]` and carries a next-page token exactly
 * when items remain after it. The one-item probe is the stream's head.
 */
module Catalog {
  import opened Text

  /** A search result together with the status its lookup reports. */
  datatype Item = Item(id: string, title: string, privacyStatus: Option<string>, commentStatus: Option<string>)

  /** A catalog entry. */
  datatype Video = Video(id: string, title: string)

  /** The search endpoint's largest page. */
  const PageSize: nat := 50

  /** Public or unlisted, with comments not disabled. */
  predicate Eligible(it: Item) {
    (it.privacyStatus == Some("public") || it.privacyStatus == Some("unlisted"))
    && it.commentStatus != Some("disabled")
  }

  function ToVideo(it: Item): Video { Video(it.id, it.title) }

  function Ids(videos: seq<Video>): set<string> {
    set v | v in videos :: v.id
  }

  /** The eligible items of a run of the stream, as catalog entries, in stream order. */
  function EligibleVideos(items: seq<Item>): (vs: seq<Video>)
    ensures |vs| <= |items|
    decreases |items|
  {
    if |items| == 0 then []
    else
      var last := items[|items| - 1];
      EligibleVideos(items[..|items| - 1]) + (if Eligible(last) then [ToVideo(last)] else [])
  }

  /** The position of the first item from `i` on whose id is cached, or the stream's end. */
  function FirstCachedFrom(stream: seq<Item>, cached: set<string>, i: nat): (k: nat)
    requires i <= |stream|
    ensures i <= k <= |stream|
    ensures forall j :: i <= j < k ==> stream[j].id !in cached
    ensures k < |stream| ==> stream[k].id in cached
    decreases |stream| - i
  {
    if i == |stream| || stream[i].id in cached then i else FirstCachedFrom(stream, cached, i + 1)
  }

  /** The position of the first cached id in the stream, or its end. */
  function FirstCached(stream: seq<Item>, cached: set<string>): nat {
    FirstCachedFrom(stream, cached, 0)
  }

  /** The first `n` elements, all of them when there are fewer, none when `n <= 0`. */
  function Take<T>(s: seq<T>, n: int): (r: seq<T>)
    ensures r <= s
    ensures |r| == if n <= 0 then 0 else if n < |s| then n else |s|
  {
    if n <= 0 then [] else if n < |s| then s[..n] else s
  }

  /**
   * The catalog a run works on. With an empty cache, every eligible video;
   * when the probe's video is cached, the cache as it is; otherwise up to
   * `count` new eligible videos from before the first cached one, followed
   * by the cache. `count` is the operator's answer to "how many new videos".
   * An empty stream makes the probe fail (`None`).
   */
  function Refreshed(cache: seq<Video>, stream: seq<Item>, count: int): (r: Option<seq<Video>>)
    ensures r.None? <==> |cache| > 0 && |stream| == 0
  {
    if |cache| == 0 then Some(EligibleVideos(stream))
    else if |stream| == 0 then None
    else if stream[0].id in Ids(cache) then Some(cache)
    else Some(Take(EligibleVideos(stream[..FirstCached(stream, Ids(cache))]), count) + cache)
  }

  /** The page the search endpoint serves for at most `max` items at `offset`. */
  function Page(stream: seq<Item>, offset: nat, max: nat): (page: seq<Item>)
    requires offset <= |stream|
    ensures offset + |page| <= |stream| && page == stream[offset..offset + |page|]
    ensures |page| == max || offset + |page| == |stream|
    ensures |page| <= max
  {
    stream[offset..if offset + max < |stream| then offset + max else |stream|]
  }

  /** The scan with no cache: every page of 50, keeping the eligible items. */
  method FullScan(stream: seq<Item>) returns (videos: seq<Video>)
    ensures videos == EligibleVideos(stream)
  {
    videos := [];
    var offset := 0;
    while true
      invariant offset <= |stream|
      invariant videos == EligibleVideos(stream[..offset])
      decreases |stream| - offset
    {
      var page := Page(stream, offset, PageSize);
      for k := 0 to |page|
        invariant videos == EligibleVideos(stream[..offset + k])
      {
        assert stream[..offset + k + 1][..offset + k] == stream[..offset + k];
        assert stream[offset + k] == page[k];
        if Eligible(page[k]) {
          videos := videos + [ToVideo(page[k])];
        }
      }
      if offset + PageSize >= |stream| {
        assert stream[..|stream|] == stream;
        return;
      }
      offset := offset + PageSize;
    }
  }

  /**
   * One page of the scan for new videos: keep each eligible uncached item
   * and count it off, and stop at the first cached id, which ends the scan.
   */
  method ScanPage(page: seq<Item>, cached: set<string>, remaining: int)
    returns (kept: seq<Video>, left: int, hitCached: bool)
    ensures hitCached ==>
      && left == 0
      && exists k :: 0 <= k < |page| && page[k].id in cached && kept == EligibleVideos(page[..k])
           && forall i :: 0 <= i < k ==> page[i].id !in cached
    ensures !hitCached ==>
      && (forall i :: 0 <= i < |page| ==> page[i].id !in cached)
      && kept == EligibleVideos(page)
      && left == remaining - |kept|
  {
    kept, left, hitCached := [], remaining, false;
    for j := 0 to |page|
      invariant forall i :: 0 <= i < j ==> page[i].id !in cached
      invariant kept == EligibleVideos(page[..j])
      invariant left == remaining - |kept|
    {
      assert page[..j + 1][..j] == page[..j];
      var it := page[j];
      if Eligible(it) && it.id !in cached {
        kept := kept + [ToVideo(it)];
        left := left - 1;
      } else if it.id in cached {
        return kept, 0, true;
      }
    }
    assert page[..|page|] == page;
  }

  /**
   * The scan for new videos: pages of at most the number still wanted,
   * keeping eligible uncached items until enough were kept, a cached id is
   * reached, or the pages run out.
   */
  method DeltaScan(stream: seq<Item>, cached: set<string>, count: int) returns (newer: seq<Video>)
    ensures newer == Take(EligibleVideos(stream[..FirstCached(stream, cached)]), count)
  {
    ghost var stop := FirstCached(stream, cached);
    newer := [];
    var remaining := count;
    var offset := 0;
    while remaining > 0
      invariant offset <= stop
      invariant remaining > 0 ==> newer == EligibleVideos(stream[..offset]) && remaining == count - |newer|
      invariant remaining <= 0 ==> newer == Take(EligibleVideos(stream[..stop]), count)
      decreases |stream| - offset
    {
      var max := if remaining < PageSize then remaining else PageSize;
      var page := Page(stream, offset, max);
      var kept, left, hitCached := ScanPage(page, cached, remaining);
      var next := offset + |page|;
      if hitCached {
        ghost var k :| 0 <= k < |page| && page[k].id in cached && kept == EligibleVideos(page[..k])
          && forall i :: 0 <= i < k ==> page[i].id !in cached;
        DeltaHit(stream, cached, offset, page, next, k, count);
        newer, remaining := newer + kept, left;
        break;
      }
      DeltaStep(stream, cached, count, offset, page, next, max, newer, kept, remaining, left);
      newer, remaining := newer + kept, left;
      if offset + max >= |stream| {
        break;
      }
      offset := next;
    }
  }

  /** Keeping eligible items of a run splits at any point inside it. */
  lemma EligibleSplit(stream: seq<Item>, a: nat, b: nat)
    requires a <= b <= |stream|
    ensures EligibleVideos(stream[..b]) == EligibleVideos(stream[..a]) + EligibleVideos(stream[a..b])
  {
    assert stream[..b] == stream[..a] + stream[a..b];
    EligibleAppend(stream[..a], stream[a..b]);
  }

  /** A run of uncached items from the start ends no later than the first cached id. */
  lemma UncachedCovers(stream: seq<Item>, cached: set<string>, k: nat)
    requires k <= |stream|
    requires forall i :: 0 <= i < k ==> stream[i].id !in cached
    ensures k <= FirstCached(stream, cached)
  {
  }

  /** A page scanned without meeting a cached id extends the uncached run. */
  lemma DeltaAdvance(stream: seq<Item>, cached: set<string>, offset: nat, page: seq<Item>, next: nat)
    requires next == offset + |page|
    requires offset <= FirstCached(stream, cached)
    requires next <= |stream| && page == stream[offset..next]
    requires forall i :: 0 <= i < |page| ==> page[i].id !in cached
    ensures next <= FirstCached(stream, cached)
    ensures EligibleVideos(stream[..next]) == EligibleVideos(stream[..offset]) + EligibleVideos(page)
  {
    PageStaysUncached(stream, cached, offset, page, next);
    EligibleSplit(stream, offset, next);
  }

  /** A page with no cached id, taken inside the uncached run, stays inside it. */
  lemma PageStaysUncached(stream: seq<Item>, cached: set<string>, offset: nat, page: seq<Item>, next: nat)
    requires next == offset + |page|
    requires offset <= FirstCached(stream, cached)
    requires next <= |stream| && page == stream[offset..next]
    requires forall i :: 0 <= i < |page| ==> page[i].id !in cached
    ensures next <= FirstCached(stream, cached)
  {
    forall i | 0 <= i < next ensures stream[i].id !in cached {
      if i >= offset {
        assert stream[i] == page[i - offset];
      }
    }
    UncachedCovers(stream, cached, next);
  }

  /** Meeting a cached id at `page[k]` ends the uncached run there. */
  lemma DeltaHit(stream: seq<Item>, cached: set<string>, offset: nat, page: seq<Item>, next: nat, k: nat, count: int)
    requires next == offset + |page|
    requires offset <= FirstCached(stream, cached)
    requires next <= |stream| && page == stream[offset..next]
    requires k < |page| && page[k].id in cached
    requires forall i :: 0 <= i < k ==> page[i].id !in cached
    requires |EligibleVideos(stream[..offset])| + |page| <= count
    ensures EligibleVideos(stream[..offset]) + EligibleVideos(page[..k])
      == Take(EligibleVideos(stream[..FirstCached(stream, cached)]), count)
  {
    var hit := offset + k;
    var before := page[..k];
    assert before == stream[offset..hit];
    DeltaAdvance(stream, cached, offset, before, hit);
    assert stream[hit] == page[k];
    HitIsFirstCached(stream, cached, hit);
  }

  /** An uncached run that reaches a cached id ends exactly there. */
  lemma HitIsFirstCached(stream: seq<Item>, cached: set<string>, hit: nat)
    requires hit < |stream| && stream[hit].id in cached
    requires hit <= FirstCached(stream, cached)
    ensures FirstCached(stream, cached) == hit
  {
  }

  /**
   * One page of the scan for new videos that met no cached id: the kept
   * items extend the uncached run, and the scan stops with the first
   * `count` of it once enough were kept or the pages run out.
   */
  lemma DeltaStep(stream: seq<Item>, cached: set<string>, count: int, offset: nat, page: seq<Item>, next: nat,
                  max: nat, newer: seq<Video>, kept: seq<Video>, remaining: int, left: int)
    requires offset <= FirstCached(stream, cached)
    requires newer == EligibleVideos(stream[..offset]) && remaining == count - |newer| && remaining > 0
    requires max <= remaining && (max == remaining || max == PageSize)
    requires next == offset + |page| && next <= |stream| && page == stream[offset..next]
    requires |page| == max || next == |stream|
    requires |page| <= max
    requires forall i :: 0 <= i < |page| ==> page[i].id !in cached
    requires kept == EligibleVideos(page) && left == remaining - |kept|
    ensures next <= FirstCached(stream, cached)
    ensures offset + max < |stream| ==> offset < next
    ensures left > 0 ==> newer + kept == EligibleVideos(stream[..next]) && left == count - |newer + kept|
    ensures left <= 0 || offset + max >= |stream| ==>
      newer + kept == Take(EligibleVideos(stream[..FirstCached(stream, cached)]), count)
  {
    DeltaAdvance(stream, cached, offset, page, next);
    var stop := FirstCached(stream, cached);
    if left <= 0 {
      EligiblePrefixTakes(stream, next, stop, count);
    } else if offset + max >= |stream| {
      assert next == |stream| == stop;
      assert stream[..next] == stream[..stop];
    }
  }

  /** Stopping once `count` were kept gives the first `count` of the whole run. */
  lemma EligiblePrefixTakes(stream: seq<Item>, k: nat, stop: nat, count: int)
    requires k <= stop <= |stream|
    requires |EligibleVideos(stream[..k])| == count
    ensures EligibleVideos(stream[..k]) == Take(EligibleVideos(stream[..stop]), count)
  {
    EligibleSplit(stream, k, stop);
  }

  /** `get_videos`: the full scan, the probe, or the delta scan, as the cache decides. */
  method GetVideos(cache: seq<Video>, stream: seq<Item>, count: int) returns (r: Option<seq<Video>>)
    ensures r == Refreshed(cache, stream, count)
  {
    if |cache| == 0 {
      var all := FullScan(stream);
      return Some(all);
    }
    if |stream| == 0 {
      return None;
    }
    var cached := Ids(cache);
    if stream[0].id in cached {
      return Some(cache);
    }
    var newer := DeltaScan(stream, cached, count);
    return Some(newer + cache);
  }

  // ---------------------------------------------------------------------
  // Properties of the catalog

  /** Keeping eligible items distributes over concatenation. */
  lemma {:induction false} EligibleAppend(a: seq<Item>, b: seq<Item>)
    ensures EligibleVideos(a + b) == EligibleVideos(a) + EligibleVideos(b)
    decreases |b|
  {
    if |b| == 0 {
      assert a + b == a;
    } else {
      var b' := b[..|b| - 1];
      assert (a + b)[..|a + b| - 1] == a + b';
      EligibleAppend(a, b');
    }
  }

  /** A video is listed exactly when an eligible item of the stream carries it. */
  lemma {:induction false} EligibleMembers(items: seq<Item>)
    ensures forall v :: v in EligibleVideos(items) <==>
      exists i :: 0 <= i < |items| && Eligible(items[i]) && ToVideo(items[i]) == v
    decreases |items|
  {
    if |items| > 0 {
      var init := items[..|items| - 1];
      EligibleMembers(init);
      forall v | v in EligibleVideos(items)
        ensures exists i :: 0 <= i < |items| && Eligible(items[i]) && ToVideo(items[i]) == v
      {
        if v in EligibleVideos(init) {
          var i :| 0 <= i < |init| && Eligible(init[i]) && ToVideo(init[i]) == v;
          assert items[i] == init[i];
        }
      }
      forall v, i | 0 <= i < |items| && Eligible(items[i]) && ToVideo(items[i]) == v
        ensures v in EligibleVideos(items)
      {
        if i < |items| - 1 {
          assert items[i] == init[i];
        }
      }
    }
  }

  /** With an empty cache the catalog holds exactly the eligible videos of the stream. */
  lemma FullScanListsEligible(stream: seq<Item>)
    ensures Refreshed([], stream, 0).Some?
    ensures forall v :: v in Refreshed([], stream, 0).value <==>
      exists i :: 0 <= i < |stream| && Eligible(stream[i]) && ToVideo(stream[i]) == v
  {
    EligibleMembers(stream);
  }

  /** When the newest video is already cached, the catalog is the cache, whatever the count. */
  lemma ProbeHitKeepsCache(cache: seq<Video>, stream: seq<Item>, count: int)
    requires |cache| > 0 && |stream| > 0 && stream[0].id in Ids(cache)
    ensures Refreshed(cache, stream, count) == Some(cache)
  {
  }

  /**
   * On a probe miss the catalog is some new videos followed by the whole
   * cache: no more than asked for, none already cached, each an eligible
   * item from before the first cached one, and the newest video is the first
   * new one when it is eligible and at least one was asked for.
   */
  lemma {:induction false} DeltaPrependsNew(cache: seq<Video>, stream: seq<Item>, count: int)
    requires |cache| > 0 && |stream| > 0 && stream[0].id !in Ids(cache)
    ensures var r := Refreshed(cache, stream, count);
      && r.Some?
      && |r.value| >= |cache|
      && var newer := r.value[..|r.value| - |cache|];
      && r.value == newer + cache
      && |newer| <= (if count < 0 then 0 else count)
      && (forall v :: v in newer ==> v.id !in Ids(cache))
      && (forall v :: v in newer ==>
            exists i :: 0 <= i < |stream| && Eligible(stream[i]) && ToVideo(stream[i]) == v
              && forall j :: 0 <= j <= i ==> stream[j].id !in Ids(cache))
      && (count > 0 && Eligible(stream[0]) ==> |newer| > 0 && newer[0] == ToVideo(stream[0]))
  {
    var cached := Ids(cache);
    var prefix := stream[..FirstCached(stream, cached)];
    var all := EligibleVideos(prefix);
    var newer := Take(all, count);
    var r := newer + cache;
    assert r[..|r| - |cache|] == newer;
    EligibleMembers(prefix);
    forall v | v in newer
      ensures v.id !in cached
      ensures exists i :: 0 <= i < |stream| && Eligible(stream[i]) && ToVideo(stream[i]) == v
                && forall j :: 0 <= j <= i ==> stream[j].id !in cached
    {
      assert v in all;
      var i :| 0 <= i < |prefix| && Eligible(prefix[i]) && ToVideo(prefix[i]) == v;
      assert prefix[i] == stream[i];
      forall j | 0 <= j <= i ensures stream[j].id !in cached {
        assert stream[j] == prefix[j];
      }
    }
    if count > 0 && Eligible(stream[0]) {
      assert prefix[0] == stream[0];
      EligibleAppend(prefix[..1], prefix[1..]);
      assert prefix[..1] + prefix[1..] == prefix;
      assert EligibleVideos(prefix[..1]) == [ToVideo(stream[0])] by {
        assert prefix[..1][..0] == [];
      }
    }
  }

  /** No two entries share an id. */
  predicate DistinctIds(vs: seq<Video>) {
    forall i, j :: 0 <= i < j < |vs| ==> vs[i].id != vs[j].id
  }

  /** No two items of the stream share an id. */
  predicate DistinctItems(items: seq<Item>) {
    forall i, j :: 0 <= i < j < |items| ==> items[i].id != items[j].id
  }

  lemma DistinctConcat(a: seq<Video>, b: seq<Video>)
    requires DistinctIds(a) && DistinctIds(b)
    requires forall v :: v in a ==> v.id !in Ids(b)
    ensures DistinctIds(a + b)
  {
    var ab := a + b;
    forall i, j | 0 <= i < j < |ab| ensures ab[i].id != ab[j].id {
      if j < |a| {
        assert ab[i] == a[i] && ab[j] == a[j];
      } else if i < |a| {
        assert ab[i] == a[i] && a[i] in a;
        assert ab[j] == b[j - |a|] && b[j - |a|] in b;
      } else {
        assert ab[i] == b[i - |a|] && ab[j] == b[j - |a|];
      }
    }
  }

  lemma {:induction false} EligibleDistinct(items: seq<Item>)
    requires DistinctItems(items)
    ensures DistinctIds(EligibleVideos(items))
    decreases |items|
  {
    if |items| > 0 {
      var n := |items|;
      var init := items[..n - 1];
      var last := items[n - 1];
      assert DistinctItems(init) by {
        forall i, j | 0 <= i < j < |init| ensures init[i].id != init[j].id {
          assert init[i] == items[i] && init[j] == items[j];
        }
      }
      EligibleDistinct(init);
      if Eligible(last) {
        EligibleMembers(init);
        var ws := EligibleVideos(init);
        forall v | v in ws ensures v.id !in Ids([ToVideo(last)]) {
          var k :| 0 <= k < |init| && Eligible(init[k]) && ToVideo(init[k]) == v;
          assert init[k] == items[k];
        }
        DistinctConcat(ws, [ToVideo(last)]);
      }
    }
  }

  /** The catalog repeats no id when the cache and the stream each repeat none. */
  lemma RefreshedKeepsIdsDistinct(cache: seq<Video>, stream: seq<Item>, count: int)
    requires DistinctIds(cache) && DistinctItems(stream)
    requires Refreshed(cache, stream, count).Some?
    ensures DistinctIds(Refreshed(cache, stream, count).value)
  {
    if |cache| == 0 {
      EligibleDistinct(stream);
    } else if stream[0].id !in Ids(cache) {
      var prefix := stream[..FirstCached(stream, Ids(cache))];
      assert DistinctItems(prefix) by {
        forall i, j | 0 <= i < j < |prefix| ensures prefix[i].id != prefix[j].id {
          assert prefix[i] == stream[i] && prefix[j] == stream[j];
        }
      }
      EligibleDistinct(prefix);
      var all := EligibleVideos(prefix);
      var newer := Take(all, count);
      assert DistinctIds(newer) by {
        forall i, j | 0 <= i < j < |newer| ensures newer[i].id != newer[j].id {
          assert newer[i] == all[i] && newer[j] == all[j];
        }
      }
      DeltaPrependsNew(cache, stream, count);
      var r := Refreshed(cache, stream, count).value;
      assert r == newer + cache;
      assert r[..|r| - |cache|] == newer;
      DistinctConcat(newer, cache);
    }
  }
}
