/**
 * MeetupService and the meetup repository it writes to.
 *
 * The network answers (the Sympla event feed, the YouTube search) are
 * method parameters: what the provider would answer if called. The cover
 * upload, DateTime.Parse and the similarity measure are collaborators
 * fixed when the service is built.
 */
module Service {
  import opened Wrappers
  import opened Domain
  import opened Matching
  import opened Ingestion
  import opened Report

  /**
   * The meetup repository: its rows in insertion order (a row's position
   * is its key) and the positions passed to Update, in call order.
   */
  class MeetupStore {
    var meetups: seq<Meetup>
    var updated: seq<nat>

    constructor (initial: seq<Meetup>)
      ensures meetups == initial && updated == []
    {
      meetups := initial;
      updated := [];
    }

    /** Insert: a new row at the end. */
    method Insert(m: Meetup)
      modifies this
      ensures meetups == old(meetups) + [m]
      ensures updated == old(updated)
    {
      meetups := meetups + [m];
    }

    /** Update: row `p` takes the new value, and the call is recorded. */
    method Update(p: nat, m: Meetup)
      requires p < |meetups|
      modifies this
      ensures meetups == old(meetups)[p := m]
      ensures updated == old(updated) + [p]
    {
      meetups := meetups[p := m];
      updated := updated + [p];
    }
  }

  /** Appending to the log after some entries is appending to those entries. */
  lemma AppendToLog(log: seq<nat>, done: seq<nat>, more: seq<nat>)
    ensures (log + done) + more == log + (done + more)
  {
  }

  class MeetupService {
    const isActive: bool
    const store: MeetupStore
    const upload: (string, string) -> Result<string, string>
    const parse: string -> Option<DateTime>
    const similarity: (string, string) -> real

    constructor (isActive: bool, store: MeetupStore,
                 upload: (string, string) -> Result<string, string>,
                 parse: string -> Option<DateTime>,
                 similarity: (string, string) -> real)
      ensures this.isActive == isActive && this.store == store
      ensures this.upload == upload && this.parse == parse && this.similarity == similarity
    {
      this.isActive := isActive;
      this.store := store;
      this.upload := upload;
      this.parse := parse;
      this.similarity := similarity;
    }

    /**
     * GetYoutubeVideos: matches every meetup without a video, in StartDate
     * order, and counts the videos found. `feed` is what the YouTube search
     * answers; `fetched` tells whether it was called.
     */
    method GetYoutubeVideos(feed: Result<seq<Video>, string>) returns (r: Result<nat, Error>, fetched: bool)
      modifies store
      ensures var run := MatchVideos(old(store.meetups), feed, similarity);
        store.meetups == run.meetups &&
        store.updated == old(store.updated) + run.updates &&
        fetched == run.fetched && r == run.result
    {
      var ms := store.meetups;
      var order := UnmatchedByStartDate(ms);
      if |order| == 0 {
        return Success(0), false;
      }
      fetched := true;
      if feed.Failure? {
        return Failure(FetchError(feed.error)), fetched;
      }
      var videos := feed.value;
      var videosFound := MatchInOrder(ms, order, videos);
      MatchInSequenceIsMatched(ms, videos, similarity);
      r := Success(videosFound);
    }

    /**
     * The loop of GetYoutubeVideos over the meetups to match, visited in
     * `order`: each gets its best video, if any, through an Update.
     */
    method MatchInOrder(ghost ms: seq<Meetup>, order: seq<nat>, videos: seq<Video>) returns (videosFound: nat)
      requires store.meetups == ms
      requires forall k :: 0 <= k < |order| ==> order[k] < |ms| && ms[order[k]].youtubeUrl.None?
      requires forall k, l :: 0 <= k < l < |order| ==> order[k] != order[l]
      modifies store
      ensures store.meetups == MatchInSequence(ms, order, videos, similarity)
      ensures store.updated == old(store.updated) + UpdatesFor(ms, order, videos, similarity)
      ensures videosFound == |UpdatesFor(ms, order, videos, similarity)|
    {
      ghost var log := store.updated;
      videosFound := 0;
      var k := 0;
      while k < |order|
        invariant 0 <= k <= |order|
        invariant store.meetups == MatchInSequence(ms, order[..k], videos, similarity)
        invariant store.updated == log + UpdatesFor(ms, order[..k], videos, similarity)
        invariant |store.updated| == |log| + videosFound
      {
        var found := MatchNext(ms, order, k, videos, log);
        if found {
          videosFound := videosFound + 1;
        }
        k := k + 1;
      }
      assert order[..k] == order;
      assert store.updated == log + UpdatesFor(ms, order, videos, similarity);
      assert videosFound == |UpdatesFor(ms, order, videos, similarity)|;
    }

    /** The turn of MatchInOrder that visits `order[k]`; `log` is the Update log before the first turn. */
    method MatchNext(ghost ms: seq<Meetup>, order: seq<nat>, k: nat, videos: seq<Video>, ghost log: seq<nat>) returns (found: bool)
      requires forall i :: 0 <= i < |order| ==> order[i] < |ms| && ms[order[i]].youtubeUrl.None?
      requires forall i, j :: 0 <= i < j < |order| ==> order[i] != order[j]
      requires k < |order| && store.meetups == MatchInSequence(ms, order[..k], videos, similarity)
      requires store.updated == log + UpdatesFor(ms, order[..k], videos, similarity)
      modifies store
      ensures store.meetups == MatchInSequence(ms, order[..k + 1], videos, similarity)
      ensures store.updated == log + UpdatesFor(ms, order[..k + 1], videos, similarity)
      ensures |store.updated| == |old(store.updated)| + if found then 1 else 0
    {
      var p := order[k];
      ghost var before := store.meetups;
      ghost var done := UpdatesFor(ms, order[..k], videos, similarity);
      MatchInOrderStep(ms, order, k, videos, similarity);
      found := MatchAt(p, videos);
      assert found == BestVideo(ms[p].title, videos, similarity).Some?;
      AppendToLog(log, done, if found then [p] else []);
    }

    /**
     * One turn of the loop of GetYoutubeVideos: the meetup at `p` gets the
     * watch URL of its best video through an Update, if it has a best video.
     */
    method MatchAt(p: nat, videos: seq<Video>) returns (found: bool)
      requires p < |store.meetups| && store.meetups[p].youtubeUrl.None?
      modifies store
      ensures found == BestVideo(old(store.meetups)[p].title, videos, similarity).Some?
      ensures store.meetups == old(store.meetups)[p := MatchOne(old(store.meetups)[p], videos, similarity)]
      ensures store.updated == old(store.updated) + (if found then [p] else [])
    {
      var meetup := store.meetups[p];
      var best := FindBestVideo(meetup.title, videos);
      found := best.Some?;
      if found {
        store.Update(p, meetup.(youtubeUrl := Some(WatchUrl(videos[best.value].videoId))));
      }
    }

    /**
     * The body of the loop over one meetup: fills the similarity dictionary
     * in provider order, then picks its first entry with the highest score.
     */
    method FindBestVideo(title: string, videos: seq<Video>) returns (best: Option<nat>)
      ensures best == BestVideo(title, videos, similarity)
    {
      var dictionary: seq<Entry> := [];
      var j := 0;
      while j < |videos|
        invariant 0 <= j <= |videos|
        invariant dictionary == Qualifying(title, videos[..j], similarity)
      {
        var score := similarity(title, videos[j].title);
        assert videos[..j + 1][..j] == videos[..j];
        if score >= Threshold {
          dictionary := dictionary + [Entry(j, score)];
        }
        j := j + 1;
      }
      assert videos[..j] == videos;
      if |dictionary| > 0 {
        best := Some(dictionary[BestEntry(dictionary)].item);
      } else {
        best := None;
      }
    }

    /**
     * GetMeetupsFromSympla: inserts every event of the feed whose id is not
     * stored yet, in feed order, and counts the inserts. A failed cover
     * upload or date parse ends the batch. `now` is the creation time given
     * to the new meetups.
     */
    method GetMeetupsFromSympla(feed: Result<seq<SymplaEvent>, string>, now: DateTime) returns (r: Result<nat, Error>)
      modifies store
      ensures var run := Ingest(old(store.meetups), feed, upload, parse, now);
        store.meetups == run.meetups &&
        store.updated == old(store.updated) &&
        r == (if run.failure.Some? then Failure(run.failure.value) else Success(run.added))
    {
      if feed.Failure? {
        return Failure(FetchError(feed.error));
      }
      var events := feed.value;
      var eventsAdded := 0;
      var i := 0;
      while i < |events|
        invariant 0 <= i <= |events|
        invariant IngestFrom(store.meetups, events[i..], eventsAdded, upload, parse, now)
               == IngestFrom(old(store.meetups), events, 0, upload, parse, now)
        invariant store.updated == old(store.updated)
      {
        var e := events[i];
        assert events[i..][0] == e && events[i..][1..] == events[i + 1..];
        if !HasEventId(store.meetups, e.id) {
          var cover := upload(e.image, e.name);
          if cover.Failure? {
            return Failure(CoverError(cover.error));
          }
          var start := parse(e.startDate);
          if start.None? {
            return Failure(MalformedDate(e.startDate));
          }
          store.Insert(NewMeetup(e, cover.value, start.value, now));
          eventsAdded := eventsAdded + 1;
        }
        i := i + 1;
      }
      r := Success(eventsAdded);
    }

    /**
     * FetchMeetups: refuses to run while the service is disabled; otherwise
     * ingests the event feed, then, if that succeeded, matches videos, and
     * reports both counts.
     */
    method FetchMeetups(events: Result<seq<SymplaEvent>, string>, videos: Result<seq<Video>, string>, now: DateTime)
      returns (r: Result<string, Error>, eventsFetched: bool, videosFetched: bool)
      modifies store
      ensures !isActive ==>
        r == Failure(ServiceDisabled) && !eventsFetched && !videosFetched &&
        store.meetups == old(store.meetups) && store.updated == old(store.updated)
      ensures isActive ==> eventsFetched
      ensures var ingested := Ingest(old(store.meetups), events, upload, parse, now);
        isActive && ingested.failure.Some? ==>
          r == Failure(ingested.failure.value) && !videosFetched &&
          store.meetups == ingested.meetups && store.updated == old(store.updated)
      ensures var ingested := Ingest(old(store.meetups), events, upload, parse, now);
        var matched := MatchVideos(ingested.meetups, videos, similarity);
        isActive && ingested.failure.None? ==>
          store.meetups == matched.meetups &&
          store.updated == old(store.updated) + matched.updates &&
          videosFetched == matched.fetched &&
          r == match matched.result
               case Failure(e) => Failure(e)
               case Success(found) => Success(Summary(ingested.added, found))
    {
      if !isActive {
        return Failure(ServiceDisabled), false, false;
      }
      eventsFetched := true;
      var newMeetups := GetMeetupsFromSympla(events, now);
      if newMeetups.Failure? {
        return Failure(newMeetups.error), eventsFetched, false;
      }
      var newVideos;
      newVideos, videosFetched := GetYoutubeVideos(videos);
      if newVideos.Failure? {
        return Failure(newVideos.error), eventsFetched, videosFetched;
      }
      r := Success(Summary(newMeetups.value, newVideos.value));
    }
  }
}
