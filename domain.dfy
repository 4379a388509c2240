/**
 * The entities the meetup job reads and writes: the stored Meetup record,
 * an event from the Sympla event feed, a video from the YouTube search
 * feed, and the errors that end a run.
 */
module Domain {
  import opened Wrappers

  /** Date-times (StartDate, CreationDate) are modelled as tick counts. */
  type DateTime = int

  /**
   * A stored meetup. `youtubeUrl` is null (None) until a video is matched.
   * The record's primary key is its position in the store.
   */
  datatype Meetup = Meetup(
    symplaEventId: int,
    symplaEventUrl: string,
    title: string,
    cover: string,
    description: string,
    startDate: DateTime,
    youtubeUrl: Option<string>,
    creationDate: DateTime)

  /** One event of the Sympla feed; `startDate` is still text. */
  datatype SymplaEvent = SymplaEvent(
    id: int,
    url: string,
    name: string,
    image: string,
    detail: string,
    startDate: string)

  /** One item of the YouTube search response: `Id.VideoId` and `Snippet.Title`. */
  datatype Video = Video(videoId: string, title: string)

  /** Why a run of the job ends without a summary. */
  datatype Error =
    | ServiceDisabled               // the IsActive gate
    | FetchError(message: string)   // a failed call to Sympla or YouTube
    | CoverError(message: string)   // the cover image could not be fetched or uploaded
    | MalformedDate(text: string)   // DateTime.Parse rejected an event's start date
}
