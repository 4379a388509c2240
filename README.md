# ShareBook meetup job, modelled in Dafny

ShareBook's `MeetupService` runs a job that keeps the meetup list of the site
up to date, and serves a search over that list:

- **FetchMeetups** refuses to run while the service is disabled. Otherwise it
  ingests the Sympla event feed, then matches YouTube videos, and returns the
  sentence "Foram encontradas *n* novas meetups e *m* novos vídeos
  relacionados".
- **GetMeetupsFromSympla** walks the events of the feed in feed order. It
  stores a new meetup for each event whose Sympla id is not stored yet, with an
  uploaded cover and the parsed start date. It counts the inserts.
- **GetYoutubeVideos** takes the stored meetups that have no YouTube URL, in
  StartDate order. If there are none, it returns 0 without calling YouTube.
  Otherwise it fetches the channel's videos. For each meetup it collects the
  videos whose title similarity reaches 0.85, and picks the first one with the
  highest score. It then writes that video's watch URL through a repository
  Update and counts it.
- **Search** returns the meetups whose upper-cased title or description
  contains the upper-cased criteria, newest first.

The project has these modules:

- `Wrappers` (wrappers.dfy): `Option` and `Result`.
- `Domain` (domain.dfy): the meetup record, the feed items, and the errors
  the job raises.
- `Matching` (matching.dfy): the pure side of GetYoutubeVideos:
  - the similarity dictionary and the first-maximum choice;
  - the StartDate order of the meetups to match;
  - the whole matching step as a function of the store and the video feed
    (`MatchVideos`).
- `Ingestion` (ingestion.dfy): the pure side of GetMeetupsFromSympla. The
  batch is a function of the store and the event feed (`Ingest`).
- `MeetupSearch` (search.dfy): Search.
- `Report` (report.dfy): the summary sentence, and the proof that it
  determines both counts.
- `Service` (service.dfy):
  - The repository is a class `MeetupStore`. Its fields are the stored
    meetups and the log of Update calls. A meetup's position in the store
    is its key.
  - The service is a class `MeetupService`. Its methods are the loops of
    the source, each proved against the functions above.

The collaborators are parameters. The cover upload, `DateTime.Parse`,
`StringHelper.CalculateSimilarity` and `ToUpper` are function values. The
answers of the two HTTP feeds are `Result` values, and the creation time
given to new meetups is a `DateTime` parameter.

Choices where the source leaves the behaviour open:

- **Insert visibility.** The repository is not part of this model. An
  Insert is taken to be visible to the `Any` check of a later event in the
  same batch. So a feed that lists one event twice stores it once.
- **Ties in StartDate.** They are broken by store position. The SQL
  ordering does not fix an order for ties.
- **Dictionary keys.** The key of the similarity dictionary is the video
  item object. It is modelled by the item's position in the YouTube
  response.
- **Errors end the batch.** A failed cover upload (the exception of
  `GetCoverImageBytesAsync`) or a failed `DateTime.Parse` is not caught by
  the `catch (FlurlHttpException)` of GetMeetupsFromSympla. So it ends the
  whole batch: later events are not attempted, and the meetups inserted
  before it stay. FetchMeetups then never reaches GetYoutubeVideos. No step
  isolates a failing event: the batch stops at it.

## Model

| member | source | states |
|---|---|---|
| Matching.WatchUrl | ShareBook/ShareBook.Service/Meetup/MeetupService.cs:96 | the URL is the watch prefix followed by exactly the video id |
| Matching.WatchUrlInjective | ShareBook/ShareBook.Service/Meetup/MeetupService.cs:96 | two videos get the same watch URL only when their ids are equal |
| Matching.Qualifying | ShareBook/ShareBook.Service/Meetup/MeetupService.cs:81-90 | the similarity dictionary holds each video whose score reaches 0.85, with that score, once and in provider order, and no other video |
| Matching.MaxScore | ShareBook/ShareBook.Service/Meetup/MeetupService.cs:94 | `Values.Max()` bounds every score of the dictionary and is the score of one of its entries |
| Matching.FirstWithScore | ShareBook/ShareBook.Service/Meetup/MeetupService.cs:94 | the result is the first entry, in dictionary order, whose score is the one asked for |
| Matching.BestEntry | ShareBook/ShareBook.Service/Meetup/MeetupService.cs:94 | `FirstOrDefault(x => x.Value == Max)` picks an entry whose score is at least every other, and strictly above every earlier one |
| Matching.BestVideo | ShareBook/ShareBook.Service/Meetup/MeetupService.cs:81-94 | the video chosen for a title, if any, is one of the fetched videos; `BestVideoIsFirstMaximum` states which one |
| Matching.BestVideoIsFirstMaximum | ShareBook/ShareBook.Service/Meetup/MeetupService.cs:77-94 | no video is chosen exactly when every score is below 0.85; otherwise the chosen video scores at least 0.85, at least every video, and strictly more than every earlier video |
| Matching.MatchOne | ShareBook/ShareBook.Service/Meetup/MeetupService.cs:92-96 | a meetup that has a URL is left alone, and matching changes no field other than the URL |
| Matching.MatchOneGetsBestVideo | ShareBook/ShareBook.Service/Meetup/MeetupService.cs:83-96 | a meetup without a URL gets one exactly when some video scores at least 0.85 (0.85 itself counts); the URL is the watch URL of the best video; otherwise the meetup is unchanged |
| Matching.InsertByStart | ShareBook/ShareBook.Service/Meetup/MeetupService.cs:51 | inserting a position into a StartDate-ordered list keeps it ordered and adds exactly that position |
| Matching.UnmatchedBelow | ShareBook/ShareBook.Service/Meetup/MeetupService.cs:51 | the list holds, in StartDate order, exactly the positions below the bound whose meetup has no URL |
| Matching.UnmatchedByStartDate | ShareBook/ShareBook.Service/Meetup/MeetupService.cs:51 | the query result holds every meetup without a URL and nothing else, each once, by ascending StartDate |
| Matching.MatchInSequenceAt | ShareBook/ShareBook.Service/Meetup/MeetupService.cs:79-102 | matching distinct positions one after another matches each visited meetup once and leaves every other meetup as it was |
| Matching.MatchInSequenceIsMatched | ShareBook/ShareBook.Service/Meetup/MeetupService.cs:51-102 | matching the unmatched meetups in StartDate order gives the same store as matching every meetup on its own |
| Matching.UpdatesForKeepsMatchable | ShareBook/ShareBook.Service/Meetup/MeetupService.cs:92-98 | the Update calls of the loop are those of the visited meetups that have a best video, in visiting order |
| Matching.UpdatesForCount | ShareBook/ShareBook.Service/Meetup/MeetupService.cs:79-100 | the loop issues exactly one Update per matchable meetup |
| Matching.MatchableIsChanged | ShareBook/ShareBook.Service/Meetup/MeetupService.cs:92-98 | the matchable meetups are exactly those that matching changes |
| Matching.MatchVideosCount | ShareBook/ShareBook.Service/Meetup/MeetupService.cs:98-104 | the count returned equals the number of Update calls and the number of meetups changed |
| Matching.MatchVideosFetchesOnlyWhenNeeded | ShareBook/ShareBook.Service/Meetup/MeetupService.cs:51-53 | YouTube is called exactly when some meetup lacks a URL; otherwise the step returns 0 and changes nothing |
| Matching.MatchVideosNeverOverwrites | ShareBook/ShareBook.Service/Meetup/MeetupService.cs:51-96 | a meetup that has a URL keeps it; a changed meetup changed only its URL, which is the watch URL of its best video from a successful fetch |
| Matching.MatchedIdempotent | ShareBook/ShareBook.Service/Meetup/MeetupService.cs:49-105 | matching again against the same videos changes nothing |
| Matching.MatchVideos | ShareBook/ShareBook.Service/Meetup/MeetupService.cs:49-105 | the matching step keeps the store size; a failed fetch changes nothing and issues no Update; a success counts exactly its Updates; `MatchVideosFetchesOnlyWhenNeeded`, `MatchVideosNeverOverwrites` and `MatchVideosCount` give the rest |
| Ingestion.HasEventId | ShareBook/ShareBook.Service/Meetup/MeetupService.cs:123 | `Any(s => s.SymplaEventId == id)` holds exactly when some stored meetup has that id |
| Ingestion.NewMeetup | ShareBook/ShareBook.Service/Meetup/MeetupService.cs:127-135 | the inserted meetup copies id, URL, name as title, and detail as description, and takes the uploaded cover and the parsed start date; it has no YouTube URL and is created now |
| Ingestion.IngestFrom | ShareBook/ShareBook.Service/Meetup/MeetupService.cs:121-137 | the rest of a batch only appends to the store, one meetup per counted insert; `IngestAppends` and `IngestStopsAtFailure` say which meetups and where a failure stops it |
| Ingestion.Ingest | ShareBook/ShareBook.Service/Meetup/MeetupService.cs:107-148 | a batch appends one meetup per counted insert, and a failed fetch leaves the store as it is with a fetch error and a count of 0 |
| Ingestion.IngestAppends | ShareBook/ShareBook.Service/Meetup/MeetupService.cs:121-137 | a batch only appends: the old store is a prefix of the new one and the count is the number of meetups appended; each appended meetup copies an event of the feed, and its id was not stored before it |
| Ingestion.IngestStopsAtFailure | ShareBook/ShareBook.Service/Meetup/MeetupService.cs:121-145 | a failed batch stopped at a new event whose upload or parse failed, with that error; the event is not stored, and the store and count are those of a clean run over the events before it |
| Ingestion.IngestKeepsEventIdsUnique | ShareBook/ShareBook.Service/Meetup/MeetupService.cs:123-135 | a store without duplicate Sympla ids has none after a batch |
| Ingestion.IngestCoversFeed | ShareBook/ShareBook.Service/Meetup/MeetupService.cs:121-137 | after a batch that ran to its end, every event of the feed is stored |
| Ingestion.IngestKnownEvents | ShareBook/ShareBook.Service/Meetup/MeetupService.cs:121-123 | a feed whose events are all stored leaves the store and the count as they were and raises no error |
| Ingestion.IngestIdempotent | ShareBook/ShareBook.Service/Meetup/MeetupService.cs:107-148 | running ingestion again on the same feed after a clean batch inserts nothing and returns 0 |
| MeetupSearch.Contains | ShareBook/ShareBook.Service/Meetup/MeetupService.cs:180 | `Contains` holds exactly when the needle starts at some offset of the text |
| MeetupSearch.Where | ShareBook/ShareBook.Service/Meetup/MeetupService.cs:180 | the filter keeps every matching meetup as often as it is stored, and drops every other meetup |
| MeetupSearch.InsertByCreation | ShareBook/ShareBook.Service/Meetup/MeetupService.cs:181 | inserting into a newest-first list keeps it newest first and adds exactly that meetup |
| MeetupSearch.OrderByCreationDescending | ShareBook/ShareBook.Service/Meetup/MeetupService.cs:181 | the result is a permutation of the input, ordered by CreationDate descending |
| MeetupSearch.Search | ShareBook/ShareBook.Service/Meetup/MeetupService.cs:177-183 | the result holds exactly the stored meetups whose upper-cased title or description contains the upper-cased criteria, each as often as stored, newest first |
| Report.Summary | ShareBook/ShareBook.Service/Meetup/MeetupService.cs:46 | the sentence starts with "Foram encontradas " and ends with " novos vídeos relacionados"; `SummaryDeterminesCounts` shows it embeds both counts |
| Report.Decimal | ShareBook/ShareBook.Service/Meetup/MeetupService.cs:46 | a count is written as a non-empty run of digits without a leading zero |
| Report.ParseDecimalOfDecimal | ShareBook/ShareBook.Service/Meetup/MeetupService.cs:46 | reading the written count back gives the count |
| Report.SummaryDeterminesCounts | ShareBook/ShareBook.Service/Meetup/MeetupService.cs:46 | two runs give the same sentence only when both counts are equal, so the sentence embeds both |
| Service.MeetupStore.Insert | ShareBook/ShareBook.Service/Meetup/MeetupService.cs:127 | Insert appends the meetup and issues no Update |
| Service.MeetupStore.Update | ShareBook/ShareBook.Service/Meetup/MeetupService.cs:98 | Update replaces the meetup at its key and is recorded in the log |
| Service.MeetupService.FindBestVideo | ShareBook/ShareBook.Service/Meetup/MeetupService.cs:81-94 | the inner loop fills the dictionary and returns the video that `BestVideo` chooses |
| Service.MeetupService.MatchAt | ShareBook/ShareBook.Service/Meetup/MeetupService.cs:81-101 | one meetup gets its best video's URL through one Update exactly when it has a best video; nothing else changes |
| Service.MeetupService.MatchNext | ShareBook/ShareBook.Service/Meetup/MeetupService.cs:79-101 | one turn of the outer loop extends the matched prefix and the Update log by the next meetup |
| Service.MeetupService.MatchInOrder | ShareBook/ShareBook.Service/Meetup/MeetupService.cs:79-102 | the outer loop leaves the store matched in StartDate order, with one logged Update per meetup that found a video, and counts them |
| Service.MeetupService.GetYoutubeVideos | ShareBook/ShareBook.Service/Meetup/MeetupService.cs:49-105 | the store, the Update log, whether YouTube was called and the result are those of `MatchVideos` on the old store |
| Service.MeetupService.GetMeetupsFromSympla | ShareBook/ShareBook.Service/Meetup/MeetupService.cs:107-148 | the store and the result are those of `Ingest` on the old store: the count of inserts, or the fetch, cover or parse error that ended the batch; no Update is issued |
| Service.MeetupService.FetchMeetups | ShareBook/ShareBook.Service/Meetup/MeetupService.cs:39-47 | disabled: fails before any call and changes nothing; failed ingestion: that error, and YouTube is not called; otherwise the store and log of ingesting then matching, and either the matching error or the summary sentence of both counts |

## Left out

- HTTP calls, query parameters, headers and JSON decoding of both feeds (MeetupService.cs:59-67, 113-120). They are network I/O. Each feed's answer is a parameter.
- Decoding of the upstream error message in the `catch` blocks (MeetupService.cs:69-74, 140-145). This is exception plumbing. A failed fetch carries an opaque message string.
- Cover download, resize, file name, slug and upload (MeetupService.cs:150-175). These are I/O and library code. `UploadCover` is one function value that may fail with a message, and it is called only for new events, in feed order.
- The bodies of `StringHelper.CalculateSimilarity`, `DateTime.Parse` and culture-dependent `ToUpper`. They are not part of this model or are library code. Each is a function value. Similarity is a `real`, and only its comparisons matter.
- Repository paging. `Get(filter, order)` returns a paged list. The model takes its items to be all meetups without a URL.
- `CreationDate` is set by the repository when a meetup is inserted. The model takes one `now` value for the whole batch.
- Null strings and null feed items are not modelled.
- Concurrency and `async` scheduling. The model runs each call to completion.
- MeetupSearch.OrderByCreationDescending: keeps meetups with equal CreationDate in store order by construction, but no contract states that stability.
- ShareBook/ShareBook.Test.Unit/Domain/BookTests.cs tests the `Book` entity, and `Book` is not part of this model.
- ShareBook/ShareBook.Repository/Migrations/20221018175319_Add_instagram.cs is a schema migration with no logic.
