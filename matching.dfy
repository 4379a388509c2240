/**
 * Matching stored meetups to YouTube videos (GetYoutubeVideos): for every
 * meetup without a video, the videos whose title similarity reaches the
 * threshold are collected in provider order, and the first one with the
 * highest score wins.
 *
 * The similarity measure is a parameter `sim`: its definition is not part
 * of this model, and only comparisons of its values matter here.
 */
module Matching {
  import opened Wrappers
  import opened Domain

  /** Scores below this are ignored. */
  const Threshold: real := 0.85

  const WatchPrefix: string := "https://youtube.com/watch?v="

  /** The canonical watch URL of a video. */
  function WatchUrl(videoId: string): (url: string)
    ensures WatchPrefix <= url
    ensures url[|WatchPrefix|..] == videoId
  {
    WatchPrefix + videoId
  }

  /** Distinct video ids give distinct watch URLs. */
  lemma WatchUrlInjective(a: string, b: string)
    ensures WatchUrl(a) == WatchUrl(b) ==> a == b
  {
  }

  /**
   * One entry of the per-meetup similarity dictionary. Its key is the video
   * item object; `item` stands for it by the item's position in the response.
   */
  datatype Entry = Entry(item: nat, score: real)

  /** Each entry of `d` is a video of `videos` with its score, which reaches the threshold. */
  predicate ScoredEntries(title: string, videos: seq<Video>, sim: (string, string) -> real, d: seq<Entry>)
  {
    forall k :: 0 <= k < |d| ==>
      d[k].item < |videos| && d[k].score == sim(title, videos[d[k].item].title) && d[k].score >= Threshold
  }

  /** The entries of `d` follow provider order. */
  predicate InProviderOrder(d: seq<Entry>)
  {
    forall k, l :: 0 <= k < l < |d| ==> d[k].item < d[l].item
  }

  /** Every video of `videos` that reaches the threshold has an entry in `d`. */
  predicate CoversQualifying(title: string, videos: seq<Video>, sim: (string, string) -> real, d: seq<Entry>)
  {
    forall j :: 0 <= j < |videos| && sim(title, videos[j].title) >= Threshold ==>
      exists k :: 0 <= k < |d| && d[k].item == j
  }

  /**
   * `d` holds, in provider order, an entry for each video whose similarity
   * to `title` reaches the threshold, and no other entry.
   */
  predicate IsDictionary(title: string, videos: seq<Video>, sim: (string, string) -> real, d: seq<Entry>)
  {
    ScoredEntries(title, videos, sim, d) && InProviderOrder(d) && CoversQualifying(title, videos, sim, d)
  }

  /**
   * The similarity dictionary of one meetup title, filled in provider order
   * with the videos that reach the threshold.
   */
  function Qualifying(title: string, videos: seq<Video>, sim: (string, string) -> real): (d: seq<Entry>)
    ensures IsDictionary(title, videos, sim, d)
    decreases |videos|
  {
    if videos == [] then []
    else
      var n := |videos| - 1;
      var d := Qualifying(title, videos[..n], sim);
      QualifyingExtend(title, videos, sim, d);
      if sim(title, videos[n].title) >= Threshold then d + [Entry(n, sim(title, videos[n].title))] else d
  }

  /** Looking at one more video adds its entry when it reaches the threshold. */
  lemma QualifyingExtend(title: string, videos: seq<Video>, sim: (string, string) -> real, d: seq<Entry>)
    requires |videos| > 0 && IsDictionary(title, videos[..|videos| - 1], sim, d)
    ensures var n := |videos| - 1;
      var s := sim(title, videos[n].title);
      IsDictionary(title, videos, sim, if s >= Threshold then d + [Entry(n, s)] else d)
  {
    var n := |videos| - 1;
    var s := sim(title, videos[n].title);
    var r := if s >= Threshold then d + [Entry(n, s)] else d;
    ExtendScored(title, videos, sim, d);
    if s >= Threshold {
      ExtendOrder(d, n, s, r);
    }
    ExtendCovers(title, videos, sim, d);
  }

  /** The entries stay scored when one more video is looked at. */
  lemma ExtendScored(title: string, videos: seq<Video>, sim: (string, string) -> real, d: seq<Entry>)
    requires |videos| > 0 && ScoredEntries(title, videos[..|videos| - 1], sim, d)
    ensures var n := |videos| - 1;
      var s := sim(title, videos[n].title);
      ScoredEntries(title, videos, sim, if s >= Threshold then d + [Entry(n, s)] else d)
  {
    var n := |videos| - 1;
    var s := sim(title, videos[n].title);
    var r := if s >= Threshold then d + [Entry(n, s)] else d;
    forall k | 0 <= k < |r|
      ensures r[k].item < |videos| && r[k].score == sim(title, videos[r[k].item].title) && r[k].score >= Threshold
    {
      if k < |d| {
        assert r[k] == d[k];
        assert videos[..n][d[k].item] == videos[d[k].item];
      }
    }
  }

  /** An entry for a later video keeps provider order. */
  lemma ExtendOrder(d: seq<Entry>, n: nat, s: real, r: seq<Entry>)
    requires InProviderOrder(d) && forall k :: 0 <= k < |d| ==> d[k].item < n
    requires r == d + [Entry(n, s)]
    ensures InProviderOrder(r)
  {
    forall k, l | 0 <= k < l < |r|
      ensures r[k].item < r[l].item
    {
      assert r[k] == d[k];
      if l < |d| {
        assert r[l] == d[l];
      }
    }
  }

  /** The entries still cover every qualifying video when one more video is looked at. */
  lemma ExtendCovers(title: string, videos: seq<Video>, sim: (string, string) -> real, d: seq<Entry>)
    requires |videos| > 0 && CoversQualifying(title, videos[..|videos| - 1], sim, d)
    ensures var n := |videos| - 1;
      var s := sim(title, videos[n].title);
      CoversQualifying(title, videos, sim, if s >= Threshold then d + [Entry(n, s)] else d)
  {
    var n := |videos| - 1;
    var s := sim(title, videos[n].title);
    var r := if s >= Threshold then d + [Entry(n, s)] else d;
    forall j | 0 <= j < |videos| && sim(title, videos[j].title) >= Threshold
      ensures exists k :: 0 <= k < |r| && r[k].item == j
    {
      if j < n {
        assert videos[..n][j] == videos[j];
        var k :| 0 <= k < |d| && d[k].item == j;
        assert r[k] == d[k];
      } else {
        assert r[|d|].item == j;
      }
    }
  }

  /** `Values.Max()` of a non-empty dictionary. */
  function MaxScore(d: seq<Entry>): (m: real)
    requires |d| > 0
    ensures forall k :: 0 <= k < |d| ==> d[k].score <= m
    ensures exists k :: 0 <= k < |d| && d[k].score == m
  {
    if |d| == 1 then d[0].score
    else
      var rest := MaxScore(d[1..]);
      assert forall k :: 1 <= k < |d| ==> d[k] == d[1..][k - 1];
      if d[0].score >= rest then d[0].score else rest
  }

  /** The first entry, in dictionary order, whose score is `m`. */
  function FirstWithScore(d: seq<Entry>, m: real): (k: nat)
    requires exists k :: 0 <= k < |d| && d[k].score == m
    ensures k < |d| && d[k].score == m
    ensures forall j :: 0 <= j < k ==> d[j].score != m
  {
    if d[0].score == m then 0
    else
      assert exists k :: 0 <= k < |d[1..]| && d[1..][k].score == m by {
        var k :| 0 <= k < |d| && d[k].score == m;
        assert d[1..][k - 1] == d[k];
      }
      1 + FirstWithScore(d[1..], m)
  }

  /**
   * `FirstOrDefault(x => x.Value == Values.Max())` over a non-empty
   * dictionary: the first entry with the highest score.
   */
  function BestEntry(d: seq<Entry>): (k: nat)
    requires |d| > 0
    ensures k < |d|
    ensures forall j :: 0 <= j < |d| ==> d[j].score <= d[k].score
    ensures forall j :: 0 <= j < k ==> d[j].score < d[k].score
  {
    FirstWithScore(d, MaxScore(d))
  }

  /**
   * The position of the video chosen for a meetup title, or None when the
   * similarity dictionary stays empty.
   */
  function BestVideo(title: string, videos: seq<Video>, sim: (string, string) -> real): (r: Option<nat>)
    ensures r.Some? ==> r.value < |videos|
  {
    var d := Qualifying(title, videos, sim);
    if |d| == 0 then None else Some(d[BestEntry(d)].item)
  }

  /**
   * A meetup title gets a video exactly when some video reaches the
   * threshold (a score of exactly 0.85 counts), and the video chosen is
   * the first one, in provider order, whose score is the highest of all.
   */
  lemma BestVideoIsFirstMaximum(title: string, videos: seq<Video>, sim: (string, string) -> real)
    ensures var r := BestVideo(title, videos, sim);
      (r.None? <==> forall j :: 0 <= j < |videos| ==> sim(title, videos[j].title) < Threshold) &&
      (r.Some? ==>
        sim(title, videos[r.value].title) >= Threshold &&
        (forall j :: 0 <= j < |videos| ==> sim(title, videos[j].title) <= sim(title, videos[r.value].title)) &&
        (forall j :: 0 <= j < r.value ==> sim(title, videos[j].title) < sim(title, videos[r.value].title)))
  {
    var d := Qualifying(title, videos, sim);
    if |d| > 0 {
      BestEntryIsFirstMaximum(title, videos, sim, d, BestEntry(d));
    }
  }

  /** The best dictionary entry is the first video with the highest score. */
  lemma BestEntryIsFirstMaximum(title: string, videos: seq<Video>, sim: (string, string) -> real, d: seq<Entry>, k: nat)
    requires IsDictionary(title, videos, sim, d)
    requires k < |d|
    requires forall j :: 0 <= j < |d| ==> d[j].score <= d[k].score
    requires forall j :: 0 <= j < k ==> d[j].score < d[k].score
    ensures forall j :: 0 <= j < |videos| ==> sim(title, videos[j].title) <= d[k].score
    ensures forall j :: 0 <= j < d[k].item ==> sim(title, videos[j].title) < d[k].score
  {
    forall j | 0 <= j < |videos|
      ensures sim(title, videos[j].title) <= d[k].score
      ensures j < d[k].item ==> sim(title, videos[j].title) < d[k].score
    {
      if sim(title, videos[j].title) >= Threshold {
        var l :| 0 <= l < |d| && d[l].item == j;
        assert d[l].score == sim(title, videos[j].title);
        if j < d[k].item {
          assert l < k;
        }
      } else {
        assert d[k].score >= Threshold;
      }
    }
  }

  /**
   * A meetup after matching: one that already has a URL is left as it is;
   * one without gets the watch URL of its best video, if there is one.
   */
  function MatchOne(m: Meetup, videos: seq<Video>, sim: (string, string) -> real): (m': Meetup)
    ensures m.youtubeUrl.Some? ==> m' == m
    ensures m' == m.(youtubeUrl := m'.youtubeUrl)
  {
    if m.youtubeUrl.Some? then m
    else
      match BestVideo(m.title, videos, sim)
      case None => m
      case Some(i) => m.(youtubeUrl := Some(WatchUrl(videos[i].videoId)))
  }

  /**
   * A meetup without a video gets one exactly when some video reaches the
   * threshold, and then it is the watch URL of the best video; if none
   * reaches it, the meetup is left as it is.
   */
  lemma MatchOneGetsBestVideo(m: Meetup, videos: seq<Video>, sim: (string, string) -> real)
    requires m.youtubeUrl.None?
    ensures var m' := MatchOne(m, videos, sim);
      (m'.youtubeUrl.Some? <==> exists j :: 0 <= j < |videos| && sim(m.title, videos[j].title) >= Threshold) &&
      (m'.youtubeUrl.None? ==> m' == m) &&
      (m'.youtubeUrl.Some? ==>
        BestVideo(m.title, videos, sim).Some? &&
        m'.youtubeUrl.value == WatchUrl(videos[BestVideo(m.title, videos, sim).value].videoId))
  {
    BestVideoIsFirstMaximum(m.title, videos, sim);
  }

  /** The whole store after matching, position by position. */
  function Matched(ms: seq<Meetup>, videos: seq<Video>, sim: (string, string) -> real): seq<Meetup>
  {
    seq(|ms|, p requires 0 <= p < |ms| => MatchOne(ms[p], videos, sim))
  }

  /**
   * The order the store hands out meetups by StartDate; meetups that start
   * at the same time keep their store order.
   */
  predicate Precedes(ms: seq<Meetup>, p: nat, q: nat)
    requires p < |ms| && q < |ms|
  {
    ms[p].startDate < ms[q].startDate || (ms[p].startDate == ms[q].startDate && p < q)
  }

  predicate StrictlyOrdered(ms: seq<Meetup>, s: seq<nat>)
  {
    (forall k :: 0 <= k < |s| ==> s[k] < |ms|) &&
    (forall k, l :: 0 <= k < l < |s| ==> Precedes(ms, s[k], s[l]))
  }

  /** Puts position `p` into its place in an ordered list of positions. */
  function InsertByStart(ms: seq<Meetup>, p: nat, s: seq<nat>): (r: seq<nat>)
    requires p < |ms| && p !in s && StrictlyOrdered(ms, s)
    ensures StrictlyOrdered(ms, r)
    ensures forall x :: x in r <==> x == p || x in s
    ensures |r| == |s| + 1
  {
    if s == [] then [p]
    else if Precedes(ms, p, s[0]) then [p] + s
    else
      var rest := InsertByStart(ms, p, s[1..]);
      assert forall x :: x in s[1..] ==> Precedes(ms, s[0], x);
      [s[0]] + rest
  }

  /** The positions below `n` whose meetup has no video, in StartDate order. */
  function UnmatchedBelow(ms: seq<Meetup>, n: nat): (r: seq<nat>)
    requires n <= |ms|
    ensures StrictlyOrdered(ms, r)
    ensures forall x: nat :: x in r <==> x < n && ms[x].youtubeUrl.None?
  {
    if n == 0 then []
    else
      var s := UnmatchedBelow(ms, n - 1);
      if ms[n - 1].youtubeUrl.None? then InsertByStart(ms, n - 1, s) else s
  }

  /**
   * `Get(x => x.YoutubeUrl == null, x => x.StartDate)`: the positions of
   * all meetups without a video, each once, ordered by start date.
   */
  function UnmatchedByStartDate(ms: seq<Meetup>): (order: seq<nat>)
    ensures forall k :: 0 <= k < |order| ==> order[k] < |ms|
    ensures forall x: nat :: x in order <==> x < |ms| && ms[x].youtubeUrl.None?
    ensures forall k, l :: 0 <= k < l < |order| ==>
      ms[order[k]].startDate <= ms[order[l]].startDate && order[k] != order[l]
  {
    UnmatchedBelow(ms, |ms|)
  }

  /**
   * The positions of the meetups that lack a video and for which some
   * video reaches the threshold.
   */
  function Matchable(ms: seq<Meetup>, videos: seq<Video>, sim: (string, string) -> real): set<nat>
  {
    set p: nat | p < |ms| && ms[p].youtubeUrl.None? && BestVideo(ms[p].title, videos, sim).Some?
  }

  /** The positions of `order` that are in `hits`, in the order visited. */
  function Keep(order: seq<nat>, hits: set<nat>): (u: seq<nat>)
    ensures |u| <= |order|
  {
    if order == [] then []
    else
      var n := |order| - 1;
      assert order == order[..n] + [order[n]];
      Keep(order[..n], hits) + (if order[n] in hits then [order[n]] else [])
  }

  /** Visiting one more position keeps it when it is a hit. */
  lemma KeepStep(order: seq<nat>, p: nat, hits: set<nat>)
    ensures Keep(order + [p], hits) == Keep(order, hits) + (if p in hits then [p] else [])
  {
    assert (order + [p])[..|order|] == order;
  }

  /** Keeping the hits of a list of distinct positions counts a set. */
  lemma {:induction false} KeepCount(order: seq<nat>, hits: set<nat>)
    requires forall k, l :: 0 <= k < l < |order| ==> order[k] != order[l]
    ensures |Keep(order, hits)| == |set x: nat | x in order && x in hits|
  {
    if order != [] {
      var n := |order| - 1;
      var last := order[n];
      var front := order[..n];
      KeepCount(front, hits);
      var before := set x: nat | x in front && x in hits;
      var after := set x: nat | x in order && x in hits;
      assert order == front + [last];
      assert last !in front;
      if last in hits {
        assert after == before + {last};
      } else {
        assert after == before;
      }
    }
  }

  /** The positions, in visiting order, for which an Update is issued. */
  function UpdatesFor(ms: seq<Meetup>, order: seq<nat>, videos: seq<Video>, sim: (string, string) -> real): seq<nat>
    requires forall k :: 0 <= k < |order| ==> order[k] < |ms|
  {
    if order == [] then []
    else
      var n := |order| - 1;
      UpdatesFor(ms, order[..n], videos, sim) + (if BestVideo(ms[order[n]].title, videos, sim).Some? then [order[n]] else [])
  }

  /** Visiting one more position issues one more Update when it has a best video. */
  lemma UpdatesForStep(ms: seq<Meetup>, order: seq<nat>, p: nat, videos: seq<Video>, sim: (string, string) -> real)
    requires forall k :: 0 <= k < |order| ==> order[k] < |ms|
    requires p < |ms|
    ensures UpdatesFor(ms, order + [p], videos, sim) ==
      UpdatesFor(ms, order, videos, sim) + (if BestVideo(ms[p].title, videos, sim).Some? then [p] else [])
  {
    assert (order + [p])[..|order|] == order;
  }

  /**
   * The Updates issued for meetups without a video are those of the
   * matchable positions, in visiting order.
   */
  lemma {:induction false} UpdatesForKeepsMatchable(ms: seq<Meetup>, order: seq<nat>, videos: seq<Video>, sim: (string, string) -> real)
    requires forall k :: 0 <= k < |order| ==> order[k] < |ms| && ms[order[k]].youtubeUrl.None?
    ensures UpdatesFor(ms, order, videos, sim) == Keep(order, Matchable(ms, videos, sim))
  {
    if order != [] {
      var n := |order| - 1;
      var front, last := order[..n], order[n];
      UpdatesForKeepsMatchable(ms, front, videos, sim);
      assert order == front + [last];
      KeepStep(front, last, Matchable(ms, videos, sim));
      UpdatesForStep(ms, front, last, videos, sim);
      assert last in Matchable(ms, videos, sim) <==> BestVideo(ms[last].title, videos, sim).Some?;
    }
  }

  /** The store after matching the positions of `order` one after another. */
  function MatchInSequence(ms: seq<Meetup>, order: seq<nat>, videos: seq<Video>, sim: (string, string) -> real): (r: seq<Meetup>)
    requires forall k :: 0 <= k < |order| ==> order[k] < |ms|
    ensures |r| == |ms|
  {
    if order == [] then ms
    else
      var n := |order| - 1;
      var before := MatchInSequence(ms, order[..n], videos, sim);
      before[order[n] := MatchOne(before[order[n]], videos, sim)]
  }

  /** One turn of matching `order`: its next position, still untouched, is matched. */
  lemma MatchInOrderStep(ms: seq<Meetup>, order: seq<nat>, k: nat, videos: seq<Video>, sim: (string, string) -> real)
    requires forall i :: 0 <= i < |order| ==> order[i] < |ms|
    requires forall i, j :: 0 <= i < j < |order| ==> order[i] != order[j]
    requires k < |order|
    ensures var before := MatchInSequence(ms, order[..k], videos, sim);
      var p := order[k];
      before[p] == ms[p] &&
      MatchInSequence(ms, order[..k + 1], videos, sim) == before[p := MatchOne(ms[p], videos, sim)] &&
      UpdatesFor(ms, order[..k + 1], videos, sim) ==
        UpdatesFor(ms, order[..k], videos, sim) + (if BestVideo(ms[p].title, videos, sim).Some? then [p] else [])
  {
    var p := order[k];
    assert order[..k + 1] == order[..k] + [p];
    assert p !in order[..k];
    MatchInSequenceAt(ms, order[..k], videos, sim, p);
    MatchInSequenceStep(ms, order[..k], p, videos, sim);
    UpdatesForStep(ms, order[..k], p, videos, sim);
  }

  /** Matching one more position is one more single-meetup match. */
  lemma MatchInSequenceStep(ms: seq<Meetup>, order: seq<nat>, p: nat, videos: seq<Video>, sim: (string, string) -> real)
    requires forall k :: 0 <= k < |order| ==> order[k] < |ms|
    requires p < |ms|
    ensures var before := MatchInSequence(ms, order, videos, sim);
      MatchInSequence(ms, order + [p], videos, sim) == before[p := MatchOne(before[p], videos, sim)]
  {
    assert (order + [p])[..|order|] == order;
  }

  /**
   * Matching distinct positions one after another touches each of them
   * once and nothing else, whatever the order.
   */
  lemma {:induction false} MatchInSequenceAt(ms: seq<Meetup>, order: seq<nat>, videos: seq<Video>, sim: (string, string) -> real, p: nat)
    requires forall k :: 0 <= k < |order| ==> order[k] < |ms|
    requires forall k, l :: 0 <= k < l < |order| ==> order[k] != order[l]
    requires p < |ms|
    ensures MatchInSequence(ms, order, videos, sim)[p] == if p in order then MatchOne(ms[p], videos, sim) else ms[p]
  {
    if order != [] {
      var n := |order| - 1;
      var front := order[..n];
      assert order == front + [order[n]];
      MatchInSequenceAt(ms, front, videos, sim, p);
      if p == order[n] {
        assert p !in front;
      }
    }
  }

  /**
   * Matching the meetups without a video one after another, in StartDate
   * order, gives the position-by-position result.
   */
  lemma MatchInSequenceIsMatched(ms: seq<Meetup>, videos: seq<Video>, sim: (string, string) -> real)
    ensures MatchInSequence(ms, UnmatchedByStartDate(ms), videos, sim) == Matched(ms, videos, sim)
  {
    var order := UnmatchedByStartDate(ms);
    var r := MatchInSequence(ms, order, videos, sim);
    var m := Matched(ms, videos, sim);
    forall p | 0 <= p < |ms|
      ensures r[p] == m[p]
    {
      MatchInSequenceAt(ms, order, videos, sim, p);
    }
  }

  /** What one run of the matching step does to a store. */
  datatype MatchRun = MatchRun(
    meetups: seq<Meetup>,           // the store afterwards
    updates: seq<nat>,              // Update calls issued, in order
    fetched: bool,                  // whether the video feed was called
    result: Result<nat, Error>)     // the count of videos found, or the error raised

  /**
   * GetYoutubeVideos as a function of the store and of what the video feed
   * would answer: no meetup without a video means no call and 0; a failed
   * call leaves the store as it is; otherwise every unmatched meetup is
   * matched in StartDate order.
   */
  function MatchVideos(ms: seq<Meetup>, feed: Result<seq<Video>, string>, sim: (string, string) -> real): (run: MatchRun)
    ensures |run.meetups| == |ms|
    ensures run.result.Failure? ==> run.fetched && feed.Failure? && run.meetups == ms && run.updates == []
    ensures run.result.Success? ==> run.result.value == |run.updates|
  {
    var order := UnmatchedByStartDate(ms);
    if order == [] then MatchRun(ms, [], false, Success(0))
    else match feed
      case Failure(msg) => MatchRun(ms, [], true, Failure(FetchError(msg)))
      case Success(videos) =>
        var u := UpdatesFor(ms, order, videos, sim);
        MatchRun(Matched(ms, videos, sim), u, true, Success(|u|))
  }

  /** The positions whose meetup matching changes. */
  ghost function Changed(ms: seq<Meetup>, ms': seq<Meetup>): set<nat>
  {
    set p: nat | p < |ms| && p < |ms'| && ms'[p] != ms[p]
  }

  /**
   * A successful run leaves exactly the matched store, and its count is the
   * number of meetups that received a video, which is the number of
   * updates issued.
   */
  lemma MatchVideosCount(ms: seq<Meetup>, feed: Result<seq<Video>, string>, sim: (string, string) -> real)
    ensures var run := MatchVideos(ms, feed, sim);
      run.result.Success? ==>
        run.result.value == |run.updates| &&
        run.result.value == |Changed(ms, run.meetups)|
  {
    if UnmatchedByStartDate(ms) != [] && feed.Success? {
      UpdatesForCount(ms, feed.value, sim);
      MatchableIsChanged(ms, feed.value, sim);
    }
  }

  /** One Update is issued per matchable meetup. */
  lemma UpdatesForCount(ms: seq<Meetup>, videos: seq<Video>, sim: (string, string) -> real)
    ensures |UpdatesFor(ms, UnmatchedByStartDate(ms), videos, sim)| == |Matchable(ms, videos, sim)|
  {
    var order := UnmatchedByStartDate(ms);
    var hits := Matchable(ms, videos, sim);
    UpdatesForKeepsMatchable(ms, order, videos, sim);
    forall x | x in hits
      ensures x in order
    {
      assert x < |ms| && ms[x].youtubeUrl.None?;
    }
    KeepAll(order, hits);
  }

  /** Keeping every hit of a list that holds them all keeps one per hit. */
  lemma KeepAll(order: seq<nat>, hits: set<nat>)
    requires forall k, l :: 0 <= k < l < |order| ==> order[k] != order[l]
    requires forall x :: x in hits ==> x in order
    ensures |Keep(order, hits)| == |hits|
  {
    KeepCount(order, hits);
    assert (set x: nat | x in order && x in hits) == hits;
  }

  /** The matchable meetups are exactly the ones matching changes. */
  lemma MatchableIsChanged(ms: seq<Meetup>, videos: seq<Video>, sim: (string, string) -> real)
    ensures Matchable(ms, videos, sim) == Changed(ms, Matched(ms, videos, sim))
  {
    var after := Matched(ms, videos, sim);
    forall x: nat | x < |ms|
      ensures x in Matchable(ms, videos, sim) <==> after[x] != ms[x]
    {
      assert after[x] == MatchOne(ms[x], videos, sim);
    }
  }

  /**
   * The video feed is called exactly when some meetup lacks a video; when
   * none does, the run reports 0 and changes nothing.
   */
  lemma MatchVideosFetchesOnlyWhenNeeded(ms: seq<Meetup>, feed: Result<seq<Video>, string>, sim: (string, string) -> real)
    ensures var run := MatchVideos(ms, feed, sim);
      (run.fetched <==> exists p :: 0 <= p < |ms| && ms[p].youtubeUrl.None?) &&
      (!run.fetched ==> run == MatchRun(ms, [], false, Success(0)))
  {
    var order := UnmatchedByStartDate(ms);
    if order == [] {
      forall p: nat | p < |ms|
        ensures ms[p].youtubeUrl.Some?
      {
        assert p !in order;
      }
    } else {
      assert order[0] in order;
    }
  }

  /**
   * Matching never overwrites: a meetup that had a video keeps it, and one
   * whose URL changed had none and now holds the watch URL of its best video.
   */
  lemma MatchVideosNeverOverwrites(ms: seq<Meetup>, feed: Result<seq<Video>, string>, sim: (string, string) -> real)
    ensures var run := MatchVideos(ms, feed, sim);
      |run.meetups| == |ms| &&
      forall p :: 0 <= p < |ms| ==>
        (ms[p].youtubeUrl.Some? ==> run.meetups[p] == ms[p]) &&
        (run.meetups[p] != ms[p] ==>
          feed.Success? && run.meetups[p] == ms[p].(youtubeUrl := run.meetups[p].youtubeUrl) &&
          exists i :: 0 <= i < |feed.value| && BestVideo(ms[p].title, feed.value, sim) == Some(i) &&
            run.meetups[p].youtubeUrl == Some(WatchUrl(feed.value[i].videoId)))
  {
    var run := MatchVideos(ms, feed, sim);
    forall p | 0 <= p < |ms| && run.meetups[p] != ms[p]
      ensures feed.Success?
      ensures exists i :: 0 <= i < |feed.value| && BestVideo(ms[p].title, feed.value, sim) == Some(i) &&
                          run.meetups[p].youtubeUrl == Some(WatchUrl(feed.value[i].videoId))
    {
      assert run.meetups[p] == MatchOne(ms[p], feed.value, sim);
      MatchOneGetsBestVideo(ms[p], feed.value, sim);
      var i := BestVideo(ms[p].title, feed.value, sim).value;
    }
  }

  /**
   * Matching again against the same videos changes nothing more: the
   * meetups that found a video keep it and the rest still find none.
   */
  lemma {:induction false} MatchedIdempotent(ms: seq<Meetup>, videos: seq<Video>, sim: (string, string) -> real)
    ensures Matched(Matched(ms, videos, sim), videos, sim) == Matched(ms, videos, sim)
  {
    var once := Matched(ms, videos, sim);
    var twice := Matched(once, videos, sim);
    forall p | 0 <= p < |ms|
      ensures twice[p] == once[p]
    {
      assert once[p] == MatchOne(ms[p], videos, sim);
      assert once[p].title == ms[p].title;
    }
  }
}
