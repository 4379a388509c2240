/**
 * Ingesting the Sympla event feed (GetMeetupsFromSympla): events are taken
 * in feed order, and an event whose id is not yet in the store gets its
 * cover uploaded, its start date parsed and a new meetup inserted.
 *
 * The cover upload, the date parser and the creation clock are parameters.
 * A failing upload or parse ends the whole batch: the meetups inserted
 * before it stay in the store.
 */
module Ingestion {
  import opened Wrappers
  import opened Domain

  /** `Any(s => s.SymplaEventId == id)` over the stored meetups. */
  function HasEventId(ms: seq<Meetup>, id: int): (b: bool)
    ensures b <==> exists p :: 0 <= p < |ms| && ms[p].symplaEventId == id
  {
    if ms == [] then false
    else
      var n := |ms| - 1;
      assert forall p :: 0 <= p < n ==> ms[..n][p] == ms[p];
      HasEventId(ms[..n], id) || ms[n].symplaEventId == id
  }

  /** The meetup inserted for an event, once its cover and date are known. */
  function NewMeetup(e: SymplaEvent, cover: string, start: DateTime, now: DateTime): (m: Meetup)
    ensures m.symplaEventId == e.id && m.symplaEventUrl == e.url
    ensures m.title == e.name && m.description == e.detail
    ensures m.cover == cover && m.startDate == start
    ensures m.youtubeUrl == None && m.creationDate == now
  {
    Meetup(e.id, e.url, e.name, cover, e.detail, start, None, now)
  }

  /** The store after (part of) a batch, the inserts counted, and the error that ended it. */
  datatype Run = Run(meetups: seq<Meetup>, added: nat, failure: Option<Error>)

  /**
   * The rest of a batch: `events` still to visit, `ms` the store so far
   * and `added` the inserts so far.
   */
  function IngestFrom(ms: seq<Meetup>, events: seq<SymplaEvent>, added: nat,
                      upload: (string, string) -> Result<string, string>,
                      parse: string -> Option<DateTime>, now: DateTime): (r: Run)
    ensures r.added >= added && ms <= r.meetups && |r.meetups| == |ms| + (r.added - added)
    decreases |events|
  {
    if events == [] then Run(ms, added, None)
    else
      var e := events[0];
      if HasEventId(ms, e.id) then IngestFrom(ms, events[1..], added, upload, parse, now)
      else
        match upload(e.image, e.name)
        case Failure(msg) => Run(ms, added, Some(CoverError(msg)))
        case Success(cover) =>
          match parse(e.startDate)
          case None => Run(ms, added, Some(MalformedDate(e.startDate)))
          case Some(start) =>
            IngestFrom(ms + [NewMeetup(e, cover, start, now)], events[1..], added + 1, upload, parse, now)
  }

  /** A whole batch, from what the event feed answers. */
  function Ingest(ms: seq<Meetup>, feed: Result<seq<SymplaEvent>, string>,
                  upload: (string, string) -> Result<string, string>,
                  parse: string -> Option<DateTime>, now: DateTime): (r: Run)
    ensures ms <= r.meetups && |r.meetups| == |ms| + r.added
    ensures feed.Failure? ==> r == Run(ms, 0, Some(FetchError(feed.error)))
  {
    match feed
    case Failure(msg) => Run(ms, 0, Some(FetchError(msg)))
    case Success(events) => IngestFrom(ms, events, 0, upload, parse, now)
  }

  /** No two stored meetups share a Sympla event id. */
  predicate UniqueEventIds(ms: seq<Meetup>)
  {
    forall p, q :: 0 <= p < q < |ms| ==> ms[p].symplaEventId != ms[q].symplaEventId
  }

  /** Meetup `q` of `ms` was inserted for an event of `events`, with that event's fields. */
  predicate InsertedFrom(m: Meetup, events: seq<SymplaEvent>,
                         upload: (string, string) -> Result<string, string>,
                         parse: string -> Option<DateTime>, now: DateTime)
  {
    exists i :: 0 <= i < |events| &&
      upload(events[i].image, events[i].name).Success? &&
      parse(events[i].startDate).Some? &&
      m == NewMeetup(events[i], upload(events[i].image, events[i].name).value,
                     parse(events[i].startDate).value, now)
  }

  /**
   * A batch only appends: the old store is left as it was, the count is
   * the number of meetups appended, each appended meetup copies the
   * fields of an event of the feed, and its id was not in the store
   * before it.
   */
  lemma {:induction false} IngestAppends(ms: seq<Meetup>, events: seq<SymplaEvent>, added: nat,
                                         upload: (string, string) -> Result<string, string>,
                                         parse: string -> Option<DateTime>, now: DateTime)
    ensures var r := IngestFrom(ms, events, added, upload, parse, now);
      ms <= r.meetups &&
      |r.meetups| == |ms| + r.added - added &&
      forall q :: |ms| <= q < |r.meetups| ==>
        !HasEventId(r.meetups[..q], r.meetups[q].symplaEventId) &&
        InsertedFrom(r.meetups[q], events, upload, parse, now)
    decreases |events|
  {
    if events != [] {
      var e := events[0];
      var rest := events[1..];
      if HasEventId(ms, e.id) {
        IngestAppends(ms, rest, added, upload, parse, now);
        InsertedFromTail(events, upload, parse, now);
      } else if upload(e.image, e.name).Success? && parse(e.startDate).Some? {
        var m := NewMeetup(e, upload(e.image, e.name).value, parse(e.startDate).value, now);
        var ms' := ms + [m];
        IngestAppends(ms', rest, added + 1, upload, parse, now);
        InsertedFromTail(events, upload, parse, now);
        var r := IngestFrom(ms', rest, added + 1, upload, parse, now);
        assert r == IngestFrom(ms, events, added, upload, parse, now);
        assert r.meetups[..|ms|] == ms && r.meetups[|ms|] == m by {
          assert ms' <= r.meetups;
        }
        assert InsertedFrom(m, events, upload, parse, now) by {
          assert events[0] == e;
        }
        forall q | |ms| <= q < |r.meetups|
          ensures !HasEventId(r.meetups[..q], r.meetups[q].symplaEventId)
          ensures InsertedFrom(r.meetups[q], events, upload, parse, now)
        {
          if q == |ms| {
            assert r.meetups[..q] == ms;
          }
        }
      }
    }
  }

  /** A meetup inserted from the tail of a feed was inserted from the feed. */
  lemma InsertedFromTail(events: seq<SymplaEvent>,
                         upload: (string, string) -> Result<string, string>,
                         parse: string -> Option<DateTime>, now: DateTime)
    requires events != []
    ensures forall m :: InsertedFrom(m, events[1..], upload, parse, now) ==> InsertedFrom(m, events, upload, parse, now)
  {
    forall m | InsertedFrom(m, events[1..], upload, parse, now)
      ensures InsertedFrom(m, events, upload, parse, now)
    {
      var i :| 0 <= i < |events[1..]| &&
        upload(events[1..][i].image, events[1..][i].name).Success? &&
        parse(events[1..][i].startDate).Some? &&
        m == NewMeetup(events[1..][i], upload(events[1..][i].image, events[1..][i].name).value,
                       parse(events[1..][i].startDate).value, now);
      assert events[1..][i] == events[i + 1];
    }
  }

  /** Why event `e` ends a batch, if it does. */
  predicate StopsBatch(e: SymplaEvent, failure: Error,
                       upload: (string, string) -> Result<string, string>,
                       parse: string -> Option<DateTime>)
  {
    match upload(e.image, e.name)
    case Failure(msg) => failure == CoverError(msg)
    case Success(_) => parse(e.startDate).None? && failure == MalformedDate(e.startDate)
  }

  /**
   * A batch that fails stops at a new event whose cover upload or date
   * parse failed: that event is not stored, and the store and count are
   * those of a clean run over the events before it.
   */
  lemma {:induction false} IngestStopsAtFailure(ms: seq<Meetup>, events: seq<SymplaEvent>, added: nat,
                                                upload: (string, string) -> Result<string, string>,
                                                parse: string -> Option<DateTime>, now: DateTime)
    ensures var r := IngestFrom(ms, events, added, upload, parse, now);
      r.failure.Some? ==>
        exists i :: (0 <= i < |events| &&
          !HasEventId(r.meetups, events[i].id) &&
          StopsBatch(events[i], r.failure.value, upload, parse) &&
          IngestFrom(ms, events[..i], added, upload, parse, now) == Run(r.meetups, r.added, None))
    decreases |events|
  {
    var r := IngestFrom(ms, events, added, upload, parse, now);
    if events != [] && r.failure.Some? {
      var e := events[0];
      var rest := events[1..];
      if !HasEventId(ms, e.id) && (upload(e.image, e.name).Failure? || parse(e.startDate).None?) {
        assert events[..0] == [];
        assert r.meetups == ms && r.added == added;
        assert StopsBatch(events[0], r.failure.value, upload, parse);
        assert IngestFrom(ms, events[..0], added, upload, parse, now) == Run(r.meetups, r.added, None);
        assert !HasEventId(r.meetups, events[0].id);
      } else {
        var ms' := if HasEventId(ms, e.id) then ms
                   else ms + [NewMeetup(e, upload(e.image, e.name).value, parse(e.startDate).value, now)];
        var added' := if HasEventId(ms, e.id) then added else added + 1;
        assert r == IngestFrom(ms', rest, added', upload, parse, now);
        IngestStopsAtFailure(ms', rest, added', upload, parse, now);
        var j :| 0 <= j < |rest| &&
          !HasEventId(r.meetups, rest[j].id) &&
          StopsBatch(rest[j], r.failure.value, upload, parse) &&
          IngestFrom(ms', rest[..j], added', upload, parse, now) == Run(r.meetups, r.added, None);
        IngestPrefixStep(ms, events, j + 1, added, ms', added', upload, parse, now);
        var i := j + 1;
        assert events[i] == rest[j];
        assert 0 <= i < |events| &&
          !HasEventId(r.meetups, events[i].id) &&
          StopsBatch(events[i], r.failure.value, upload, parse) &&
          IngestFrom(ms, events[..i], added, upload, parse, now) == Run(r.meetups, r.added, None);
        assert StopsBatch(events[j + 1], r.failure.value, upload, parse);
      }
    }
  }

  /**
   * A first event that does not end the batch is handled the same way
   * whether the batch is the whole feed or its first `n` events.
   */
  lemma IngestPrefixStep(ms: seq<Meetup>, events: seq<SymplaEvent>, n: nat, added: nat,
                         ms': seq<Meetup>, added': nat,
                         upload: (string, string) -> Result<string, string>,
                         parse: string -> Option<DateTime>, now: DateTime)
    requires 0 < n <= |events|
    requires var e := events[0];
      if HasEventId(ms, e.id) then ms' == ms && added' == added
      else
        upload(e.image, e.name).Success? && parse(e.startDate).Some? &&
        ms' == ms + [NewMeetup(e, upload(e.image, e.name).value, parse(e.startDate).value, now)] &&
        added' == added + 1
    ensures IngestFrom(ms, events[..n], added, upload, parse, now) == IngestFrom(ms', events[1..][..n - 1], added', upload, parse, now)
  {
    var prefix := events[..n];
    assert prefix[0] == events[0] && prefix[1..] == events[1..][..n - 1];
  }

  /** A store without duplicate Sympla ids keeps none after a batch. */
  lemma IngestKeepsEventIdsUnique(ms: seq<Meetup>, events: seq<SymplaEvent>, added: nat,
                                  upload: (string, string) -> Result<string, string>,
                                  parse: string -> Option<DateTime>, now: DateTime)
    requires UniqueEventIds(ms)
    ensures UniqueEventIds(IngestFrom(ms, events, added, upload, parse, now).meetups)
  {
    var r := IngestFrom(ms, events, added, upload, parse, now).meetups;
    IngestAppends(ms, events, added, upload, parse, now);
    forall p, q | 0 <= p < q < |r|
      ensures r[p].symplaEventId != r[q].symplaEventId
    {
      if q < |ms| {
        assert r[p] == ms[p] && r[q] == ms[q];
      } else {
        assert r[..q][p] == r[p];
      }
    }
  }

  /** After a batch that ran to its end, every event of the feed is in the store. */
  lemma {:induction false} IngestCoversFeed(ms: seq<Meetup>, events: seq<SymplaEvent>, added: nat,
                                            upload: (string, string) -> Result<string, string>,
                                            parse: string -> Option<DateTime>, now: DateTime)
    ensures var r := IngestFrom(ms, events, added, upload, parse, now);
      r.failure.None? ==> forall i :: 0 <= i < |events| ==> HasEventId(r.meetups, events[i].id)
    decreases |events|
  {
    var r := IngestFrom(ms, events, added, upload, parse, now);
    if events != [] && r.failure.None? {
      var e := events[0];
      var rest := events[1..];
      var ms' := if HasEventId(ms, e.id) then ms
                 else ms + [NewMeetup(e, upload(e.image, e.name).value, parse(e.startDate).value, now)];
      var added' := if HasEventId(ms, e.id) then added else added + 1;
      assert r == IngestFrom(ms', rest, added', upload, parse, now);
      IngestCoversFeed(ms', rest, added', upload, parse, now);
      IngestAppends(ms', rest, added', upload, parse, now);
      assert HasEventId(ms', e.id) by {
        if !HasEventId(ms, e.id) {
          assert ms'[|ms|].symplaEventId == e.id;
        }
      }
      assert HasEventId(r.meetups, e.id) by {
        var p :| 0 <= p < |ms'| && ms'[p].symplaEventId == e.id;
        assert r.meetups[p] == ms'[p];
      }
      forall i | 0 <= i < |events|
        ensures HasEventId(r.meetups, events[i].id)
      {
        if i > 0 {
          assert events[i] == rest[i - 1];
        }
      }
    }
  }

  /** A batch whose events are all stored already inserts nothing and calls nothing. */
  lemma {:induction false} IngestKnownEvents(ms: seq<Meetup>, events: seq<SymplaEvent>, added: nat,
                                             upload: (string, string) -> Result<string, string>,
                                             parse: string -> Option<DateTime>, now: DateTime)
    requires forall i :: 0 <= i < |events| ==> HasEventId(ms, events[i].id)
    ensures IngestFrom(ms, events, added, upload, parse, now) == Run(ms, added, None)
    decreases |events|
  {
    if events != [] {
      assert forall i :: 0 <= i < |events[1..]| ==> events[1..][i] == events[i + 1];
      IngestKnownEvents(ms, events[1..], added, upload, parse, now);
    }
  }

  /**
   * Ingestion is idempotent: running it again on the same feed after a
   * batch that ran to its end inserts nothing.
   */
  lemma IngestIdempotent(ms: seq<Meetup>, feed: Result<seq<SymplaEvent>, string>,
                         upload: (string, string) -> Result<string, string>,
                         parse: string -> Option<DateTime>, now: DateTime, later: DateTime)
    ensures var r := Ingest(ms, feed, upload, parse, now);
      r.failure.None? ==> Ingest(r.meetups, feed, upload, parse, later) == Run(r.meetups, 0, None)
  {
    var r := Ingest(ms, feed, upload, parse, now);
    if r.failure.None? {
      IngestCoversFeed(ms, feed.value, 0, upload, parse, now);
      IngestKnownEvents(r.meetups, feed.value, 0, upload, parse, later);
    }
  }
}
