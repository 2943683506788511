/**
 * The decision order of the `/api/analyze_video` route (server.py:156-161):
 * the key is checked first, then the transcript, and only then is the model
 * asked anything. The URL and the `yt-dlp` run are outside the model: the
 * route receives what the subtitle file held, as `GetTranscript` does.
 */
module Routes {
  import opened Wrappers
  import opened PyStr
  import opened Auth
  import opened Captions
  import opened StudyBundle

  const NoTranscriptStatus: nat := 400
  const NoTranscriptError: string := "No transcript found."

  /** What the route answers: the 401 of `get_client`, the 400 for a missing
      or empty transcript, or the dictionary of `generate_study_data`. */
  datatype Response =
    | Rejected(reason: Unauthorized)
    | NoTranscript(status: nat, error: string)
    | Generated(data: StudyData)

  /** `analyze_video(req, x_gemini_api_key)`; `sent` lists the model calls. */
  method AnalyzeVideo(apiKey: Option<string>, subtitles: Option<string>, complete: Request -> string)
    returns (response: Response, sent: seq<Request>)
    ensures GetClient(apiKey).Failure? ==>
      response == Rejected(GetClient(apiKey).error) && sent == []
    ensures GetClient(apiKey).Success? && (subtitles.None? || TranscriptText(subtitles.value) == []) ==>
      response == NoTranscript(NoTranscriptStatus, NoTranscriptError) && sent == []
    ensures response.Generated? <==>
      GetClient(apiKey).Success? && subtitles.Some? && TranscriptText(subtitles.value) != []
    ensures response.Generated? ==>
      IsStudyDataFor(TranscriptText(subtitles.value), complete, response.data, sent)
  {
    sent := [];
    var client := GetClient(apiKey);
    if client.Failure? {
      return Rejected(client.error), sent;
    }
    var transcript := GetTranscript(subtitles);
    if transcript.None? || transcript.value == [] {
      return NoTranscript(NoTranscriptStatus, NoTranscriptError), sent;
    }
    var data;
    data, sent := GenerateStudyData(transcript.value, complete);
    response := Generated(data);
  }
}
