/**
 * The text side of `get_transcript` (server.py:33-48): the subtitle file
 * that `yt-dlp` writes is turned into plain transcript text by keeping the
 * cue lines, dropping every repeated line and normalising the whitespace.
 * Running the tool and reading and deleting the file are I/O; here the
 * file's content arrives as a parameter.
 */
module Captions {
  import opened Wrappers
  import opened PyStr
  import opened PyList
  import opened Normalize

  const TimingArrow: string := "-->"

  /** The WebVTT header and metadata lines `yt-dlp` writes before the cues. */
  predicate IsHeader(line: string) {
    StartsWith(line, "WEBVTT") || StartsWith(line, "Kind:") || StartsWith(line, "Language:")
  }

  /** The filter of the comprehension at server.py:43; the header test looks
      at the line before it is stripped. */
  predicate IsCueLine(line: string) {
    !Contains(line, TimingArrow) && Strip(line) != [] && !IsHeader(line)
  }

  /** What one line of the file contributes: its stripped text, or nothing. */
  function CueOf(line: string): Option<string> {
    if IsCueLine(line) then Some(Strip(line)) else None
  }

  /** `[l.strip() for l in content.splitlines() if ...]` */
  function CueLines(content: string): seq<string> {
    Collect(SplitLines(content), CueOf)
  }

  /** The kept lines are exactly the stripped cue lines of the file, one per
      cue line and in file order; none of them is blank or has a line break. */
  lemma CueLinesAreStrippedCueLines(content: string)
    ensures IsFilterMap(SplitLines(content), CueOf, CueLines(content))
    ensures forall c | c in CueLines(content) ::
      exists l | l in SplitLines(content) :: IsCueLine(l) && c == Strip(l)
    ensures forall l | l in SplitLines(content) && IsCueLine(l) :: Strip(l) in CueLines(content)
    ensures forall c | c in CueLines(content) :: c != [] && NoEdgeSpace(c)
  {
    CollectIsFilterMap(SplitLines(content), CueOf);
    FilterMapMembers(SplitLines(content), CueOf);
  }

  /** `clean_text(" ".join(list(dict.fromkeys(lines))))`: the transcript text
      built from a subtitle file's content. */
  function TranscriptText(content: string): (r: string)
    ensures IsClean(r)
    ensures NonSpace(r) == NonSpace(Join(FromKeys(CueLines(content)), " "))
  {
    CleanText(Join(FromKeys(CueLines(content)), " "))
  }

  /** The de-duplicated cue lines: no line twice, every cue line present,
      and in the order of first appearance in the file. */
  lemma DistinctCueLines(content: string)
    ensures var d := FromKeys(CueLines(content));
      NoDuplicates(d)
      && (forall l | l in SplitLines(content) && IsCueLine(l) :: Strip(l) in d)
      && (forall c | c in d :: exists l | l in SplitLines(content) :: IsCueLine(l) && c == Strip(l))
      && (forall i, j | 0 <= i < j < |d| ::
            FirstIndex(CueLines(content), d[i]) < FirstIndex(CueLines(content), d[j]))
  {
    CueLinesAreStrippedCueLines(content);
    FromKeysFirstOccurrenceOrder(CueLines(content));
  }

  /** `get_transcript(url)`: `subtitles` is the content of the file `yt-dlp`
      left behind, or None when the tool failed or wrote no file; both of
      those make the function return None. */
  function GetTranscript(subtitles: Option<string>): (r: Option<string>)
    ensures r.Some? <==> subtitles.Some?
    ensures r.Some? ==> IsClean(r.value) && r.value == TranscriptText(subtitles.value)
  {
    match subtitles
    case None => None
    case Some(content) => Some(TranscriptText(content))
  }
}
