/** The application's error kinds and the text each one displays as. */
module Errors {

  datatype AppError =
    | InvalidRange(detail: string)
    | YtDlp(stderr: string)
    | EmptyPlaylist
    | DownloadFailed(title: string, reason: string)
    | Cancelled
      /** An I/O failure: creating the directory, spawning or waiting for the tool. */
    | Io(ioMessage: string)
      /** The tool's JSON output could not be deserialised. */
    | Json(jsonMessage: string)

  /**
   * The `Display` text of an error, as `to_string` produces it: each kind's
   * fixed prefix followed by its payload, the title quoted for a failed
   * download; I/O and JSON errors show their own text.
   */
  function Message(e: AppError): (m: string)
    ensures e.InvalidRange? ==> m == "Invalid range: " + e.detail
    ensures e.YtDlp? ==> m == "yt-dlp error: " + e.stderr
    ensures e == EmptyPlaylist ==> m == "No videos found in playlist"
    ensures e.DownloadFailed? ==> m == "Download failed for \"" + e.title + "\": " + e.reason
    ensures e == Cancelled ==> m == "User cancelled"
    ensures e.Io? ==> m == e.ioMessage
    ensures e.Json? ==> m == e.jsonMessage
    ensures e.InvalidRange? ==> |m| >= 15 && m[15..] == e.detail
    ensures e.YtDlp? ==> |m| >= 14 && m[14..] == e.stderr
    ensures e.DownloadFailed? ==> |m| >= |e.reason| && m[|m| - |e.reason|..] == e.reason
    ensures !e.Io? && !e.Json? ==> m != []
  {
    match e
    case InvalidRange(d) => "Invalid range: " + d
    case YtDlp(s) => "yt-dlp error: " + s
    case EmptyPlaylist => "No videos found in playlist"
    case DownloadFailed(t, r) => "Download failed for \"" + t + "\": " + r
    case Cancelled => "User cancelled"
    case Io(m) => m
    case Json(m) => m
  }

  /**
   * Range, tool, empty-playlist and cancellation errors can be told apart by
   * their text alone: their prefixes differ in the first character, and the
   * payload follows the prefix.
   */
  lemma MessageDeterminesError(e1: AppError, e2: AppError)
    requires e1.InvalidRange? || e1.YtDlp? || e1 == EmptyPlaylist || e1 == Cancelled
    requires e2.InvalidRange? || e2.YtDlp? || e2 == EmptyPlaylist || e2 == Cancelled
    ensures Message(e1) == Message(e2) <==> e1 == e2
  {
    var m1, m2 := Message(e1), Message(e2);
    if m1 == m2 {
      assert m1[0] == m2[0];
      if e1.InvalidRange? && e2.InvalidRange? {
        assert e1.detail == m1[15..] == m2[15..] == e2.detail;
      } else if e1.YtDlp? && e2.YtDlp? {
        assert e1.stderr == m1[14..] == m2[14..] == e2.stderr;
      }
    }
  }
}
