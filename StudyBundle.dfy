/**
 * `generate_study_data` (server.py:75-149): three model calls in sequence,
 * the first split into summary and notes, the second parsed into flashcards
 * and a quiz, the third kept as it is. The model call `try_generate` is an
 * oracle given as a parameter: it maps each request to the text that comes
 * back (an error message being one such text). The prompt texts are fixed
 * instructions; a request records only which prompt it uses and the content
 * appended to it.
 */
module StudyBundle {
  import opened PyStr
  import opened StudyAids

  const SplitMarker: string := "===SPLIT==="
  const ErrorMarker: string := "Error:"

  /** How much of the source each prompt carries, and how much of it the
      result keeps for the chat endpoint. */
  const NotesContentLimit: nat := 60000
  const ExtrasContentLimit: nat := 40000
  const RawTranscriptLimit: nat := 20000

  /** One call of `try_generate`: which of the three prompts, and the
      content placed after it. */
  datatype Request =
    | NotesRequest(content: string)
    | ExtrasRequest(content: string)
    | PodcastRequest(summary: string)

  /** The dictionary `generate_study_data` returns: either only `error`, or
      all six fields. */
  datatype StudyData =
    | ErrorOnly(error: string)
    | Bundle(summary: string, notes: string, flashcards: seq<Flashcard>,
             quiz: seq<QuizItem>, podcast: string, rawTranscript: string)

  /** server.py:97: the first response counts as failed when it contains
      "Error:" anywhere. */
  predicate IsFailure(response: string) {
    Contains(response, ErrorMarker)
  }

  /** Summary and notes out of the first response (server.py:98-100). */
  function SummaryAndNotes(raw: string): (string, string) {
    var parts := Split(raw, SplitMarker);
    (Strip(parts[0]), if |parts| > 1 then Strip(parts[1]) else raw)
  }

  /** The summary is the trimmed text before the first separator. With a
      separator, the notes are the trimmed text between the first and the
      second one (anything after a second separator is lost); without one,
      the notes are the whole response, untrimmed, and the summary is that
      response trimmed. */
  lemma SummaryAndNotesSplit(raw: string)
    ensures SummaryAndNotes(raw).0 == Strip(UpTo(raw, SplitMarker))
    ensures Contains(raw, SplitMarker) ==>
      SummaryAndNotes(raw).1 == Strip(UpTo(AfterFirst(raw, SplitMarker), SplitMarker))
      && !Contains(SummaryAndNotes(raw).1, SplitMarker)
    ensures !Contains(raw, SplitMarker) ==>
      SummaryAndNotes(raw).1 == raw && SummaryAndNotes(raw).0 == Strip(raw)
    ensures NoEdgeSpace(SummaryAndNotes(raw).0) && !Contains(SummaryAndNotes(raw).0, SplitMarker)
  {
    SplitPieces(raw, SplitMarker);
    var parts := Split(raw, SplitMarker);
    StripInside(parts[0], SplitMarker);
    if |parts| > 1 {
      StripInside(parts[1], SplitMarker);
    }
  }

  /** Trimming the ends cannot make a substring appear. */
  lemma StripInside(s: string, p: string)
    requires !Contains(s, p)
    ensures !Contains(Strip(s), p)
  {
    var t := TrimStart(s);
    NotContainsSlice(s, LeadingSpace(s), |s|, p);
    assert s[LeadingSpace(s)..|s|] == t;
    NotContainsSlice(t, 0, TrailingStart(t), p);
    assert t[0..TrailingStart(t)] == Strip(s);
  }

  /** What `generate_study_data(client, text)` does when `complete`
      answers each call of `try_generate`: `result` is its result and `sent`
      the requests it makes, in order. If the first response contains
      "Error:" that response is the whole result and no other request is
      made; otherwise the extras and the podcast script are asked for, in
      that order, and every field of the bundle comes from the responses
      and from `text`. */
  predicate IsStudyDataFor(text: string, complete: Request -> string, result: StudyData, sent: seq<Request>) {
    && |sent| >= 1 && sent[0] == NotesRequest(Prefix(text, NotesContentLimit))
    && (result.ErrorOnly? <==> IsFailure(complete(sent[0])))
    && (result.ErrorOnly? ==> result.error == complete(sent[0]) && sent == [sent[0]])
    && (result.Bundle? ==>
          var (summary, notes) := SummaryAndNotes(complete(sent[0]));
          var extras := complete(ExtrasRequest(Prefix(text, ExtrasContentLimit)));
          && sent == [sent[0], ExtrasRequest(Prefix(text, ExtrasContentLimit)), PodcastRequest(summary)]
          && result.summary == summary && result.notes == notes
          && result.flashcards == Flashcards(extras) && result.quiz == Quiz(extras)
          && result.podcast == complete(PodcastRequest(summary))
          && result.rawTranscript == Prefix(text, RawTranscriptLimit)
          && |result.rawTranscript| <= RawTranscriptLimit)
  }

  /** `generate_study_data(client, text)`, with `complete` answering each
      call of `try_generate`. Besides the result it returns the requests
      made, in order. */
  method GenerateStudyData(text: string, complete: Request -> string)
    returns (result: StudyData, sent: seq<Request>)
    ensures IsStudyDataFor(text, complete, result, sent)
  {
    // 1. notes
    var notesRequest := NotesRequest(Prefix(text, NotesContentLimit));
    sent := [notesRequest];
    var rawNotes := complete(notesRequest);
    if Contains(rawNotes, ErrorMarker) {
      return ErrorOnly(rawNotes), sent;
    }
    var (summary, notesText) := SummaryAndNotes(rawNotes);

    // 2. extras
    var extrasRequest := ExtrasRequest(Prefix(text, ExtrasContentLimit));
    sent := sent + [extrasRequest];
    var rawExtras := complete(extrasRequest);
    var flashcards := ParseFlashcards(rawExtras);
    var quiz := ParseQuiz(rawExtras);

    // 3. podcast script
    var podcastRequest := PodcastRequest(summary);
    sent := sent + [podcastRequest];
    var podcastScript := complete(podcastRequest);

    result := Bundle(summary, notesText, flashcards, quiz, podcastScript, Prefix(text, RawTranscriptLimit));
  }
}
