# HazelNote text processing, modelled in Dafny

HazelNote's server (`server.py`) turns a video's auto-generated captions, a
PDF or pasted text into a study bundle: a summary, markdown notes,
flashcards, a quiz and a narration script, all written by a generative
model. Around the web plumbing sits a small deterministic core. This project
models that core as Dafny functions and methods and proves its properties:

- `clean_text`: every run of whitespace becomes one space, and the ends are
  trimmed (module `Normalize`).
- The credential gate of `get_client` (module `Auth`).
- The WebVTT cue-line extractor of `get_transcript`, applied to the content
  of the subtitle file (module `Captions`). It drops timing lines, blank
  lines and header lines, strips the rest, removes every repeated line with
  `dict.fromkeys`, joins with spaces and normalises.
- `generate_study_data` (modules `StudyAids`, `StudyBundle`). The model call
  `try_generate` is an oracle passed in as a function from request to
  response text. The module covers the abort on `"Error:"`, the
  `===SPLIT===` summary/notes split, the flashcard and quiz parsers and the
  final record with its `text[:20000]` sample.
- The decision order of the `/api/analyze_video` route (module `Routes`):
  key check, then transcript, then generation.

Python's `str` and list operations are modelled in `PyStr` and `PyList`:
`strip`, `in`, `startswith`, `find`, `split(sep)`, `join`,
`replace(old, "")`, `splitlines`, slicing, filtering comprehensions and
`dict.fromkeys`. Strings are sequences of Unicode scalar values (Dafny's
`char`), which is what Python's `str` holds apart from lone surrogates.
Whitespace is the set Python's `str.isspace()` accepts, which is also what
`\s` matches in a `str` regular expression. Line breaks are the ones
`str.splitlines()` splits at, with `\r\n` counted as one.

The flashcard and quiz parsers loop over lines and append to a list in the
source, so they are methods with loop invariants. Each is proved equal to a
specification function built from a per-line rule (`CardOf`, `QuizOf`). The
lemmas about those functions state the parsing rules: which lines produce an
item, which fields go where, and that order is kept.

### Behaviour of the code worth noting

- Repeated caption lines: the code removes every repeat of a line with
  `dict.fromkeys`, not just consecutive repeats. `Captions.DistinctCueLines`
  states the code's behaviour.
- Failure marker: the code aborts when `"Error:"` occurs anywhere in the
  first response, not only at its start (`StudyBundle.IsFailure`).
- Quiz options: the code only strips them, so their `A:`/`B:`/`C:` labels
  stay. A line with more than four `|` gives more than three options.
- Flashcard section: the code also ends the section at a second
  `===FLASHCARDS===`, because it takes piece 1 of the split. The test
  `len(parts) >= 2` always holds for a line that contains `|`.
- No-separator fallback: the notes are the whole untrimmed response and the
  summary is the same response trimmed. The two are equal only when the
  response has no whitespace at either end.
- Transcript providers: the code has only the `yt-dlp` provider. There is no
  official-caption or proxy provider to model.
- `try/except: pass` around the two parsers (server.py:114-119 and
  server.py:123-133) cannot fire for string input. The `[1]` index is guarded
  by the `in` test before it. The parsers are total functions here.

## Model

| member | source | states |
|---|---|---|
| Auth.GetClient | server.py:25-28 | A key is accepted iff it is present, not empty, not `"null"` and at least 10 characters long (equivalently, present with at least 10 characters). A rejection is HTTP 401 with the fixed settings message. An accepted client carries the key. |
| PyStr.Strip | server.py:31 | `strip()` returns a string no longer than its input with no whitespace at either end. |
| PyStr.StripCutsSpaceOnly | server.py:31 | `strip()` removes only whitespace from the two ends: the input is whitespace, then the result, then whitespace. |
| PyStr.StripOfStripped | server.py:31 | Stripping a string with no whitespace at its ends leaves it unchanged. |
| PyStr.StripEmptyIff | server.py:43 | `l.strip()` is empty (falsy) exactly when `l` is all whitespace. |
| PyStr.FindSpec | server.py:98 | The search behind `split` finds the first index at which the separator occurs, and finds nothing exactly when it does not occur. |
| PyStr.UpTo | server.py:115 | The text before the first separator is a prefix of the input without the separator, followed by the separator or the end. |
| PyStr.AfterFirst | server.py:115 | The text after the first occurrence of the separator. |
| PyStr.Split | server.py:98 | `split(sep)` always gives at least one piece, so index 0 is always valid. |
| PyStr.SplitMoreThanOne | server.py:113-115 | `split(sep)` gives more than one piece exactly when `sep` occurs, which makes the `[1]` index behind an `in` test valid. |
| PyStr.SplitJoin | server.py:98 | Joining the pieces of `split(sep)` with `sep` gives back the input, and no piece contains `sep`. |
| PyStr.SplitUnique | server.py:126 | For a one-character separator, the pieces of `split` are the only non-empty list of separator-free texts that joined with the separator give the string back. |
| PyStr.SplitPieces | server.py:99-100 | Piece 0 of a split is the text before the first separator. Piece 1 is the text between the first and the second separator, or up to the end. |
| PyStr.SplitLastPiece | server.py:131 | The last piece of a split is the text after the last separator, and that separator stands right before it. |
| PyStr.SplitCharCount | server.py:117 | Splitting on one character gives one more piece than the string has occurrences of that character. |
| PyStr.RemoveAll | server.py:118 | `replace(p, "")` never lengthens a string. |
| PyStr.RemoveAllAbsent | server.py:118 | `replace(p, "")` leaves a string without `p` unchanged. |
| PyStr.RemoveAllIsJoinOfSplit | server.py:118 | `s.replace(p, "") == "".join(s.split(p))`. |
| PyStr.SplitLines | server.py:43 | `splitlines()` gives lines without line breaks, and no lines at all exactly for the empty string. |
| PyStr.SplitLinesJoin | server.py:43 | Lines without breaks whose last line is non-empty come back unchanged from `splitlines()` after being joined with `"\n"`. |
| PyStr.Prefix | server.py:148 | `s[:n]` is the prefix of `s` of length `min(n, len(s))`. |
| Normalize.CollapseSingleSpaced | server.py:31 | After `re.sub(r'\s+', ' ', s)` the only whitespace is the plain space, and never two in a row. |
| Normalize.CollapseNonSpace | server.py:31 | The substitution keeps every non-whitespace character, in order. |
| Normalize.NonSpaceStrip | server.py:31 | Stripping keeps every non-whitespace character, in order. |
| Normalize.CleanText | server.py:30-31 | `clean_text` output has no whitespace at its ends and no two whitespace characters in a row. Its only whitespace is the plain space, and it keeps every non-whitespace character of the input in order. |
| Normalize.CleanTextIsJoinedWords | server.py:30-31 | `clean_text(s) == " ".join(s.split())`, an independent reference definition. |
| Normalize.CleanTextOfClean | server.py:30-31 | Cleaning an already clean string changes nothing. |
| Normalize.CleanTextIdempotent | server.py:30-31 | `clean_text(clean_text(s)) == clean_text(s)`. |
| PyList.CollectIsFilterMap | server.py:43 | A filtering comprehension gives exactly one result per kept element and nothing else, in input order. |
| PyList.FilterMapMembers | server.py:43 | Every result of a filtering comprehension comes from a kept element, and every kept element contributes its image. |
| PyList.FromKeys | server.py:44 | `list(dict.fromkeys(xs))` has no duplicates and the same elements as `xs`. |
| PyList.FromKeysFirstOccurrenceOrder | server.py:44 | The keys are ordered by their first occurrence in `xs`. |
| Captions.CueLinesAreStrippedCueLines | server.py:43 | The kept lines are the stripped forms of exactly the file lines that have no `-->`, are not blank and do not start (unstripped) with `WEBVTT`, `Kind:` or `Language:`. There is one per such line, in file order, and none is blank or has whitespace at its ends. |
| Captions.DistinctCueLines | server.py:43-44 | After `dict.fromkeys` the cue lines have no duplicates, every cue line of the file is present, nothing else is, and they are ordered by first appearance. |
| Captions.TranscriptText | server.py:44 | The transcript text is clean and has exactly the non-whitespace characters of the de-duplicated cue lines joined with spaces. |
| Captions.GetTranscript | server.py:33-48 | `get_transcript` returns text exactly when a subtitle file was produced, and that text is clean. |
| StudyAids.FlashcardSectionBounds | server.py:115 | The flashcard section runs from after the first `===FLASHCARDS===` to the next `===FLASHCARDS===` or `===QUIZ===`, or to the end. It contains neither marker. |
| StudyAids.CardOfLine | server.py:116-118 | A line gives a card iff it contains a pipe. Front is the text before the first pipe with `Front:` removed and trimmed. Back is the text between the first and second pipe with `Back:` removed and trimmed. |
| StudyAids.FlashcardsPerLine | server.py:113-118 | No cards without `===FLASHCARDS===`. Otherwise there is one card per section line that contains a pipe, no other card, in line order. |
| StudyAids.ParseFlashcards | server.py:112-119 | The loop builds exactly the specified flashcard list. |
| StudyAids.QuizSectionBounds | server.py:124 | The quiz section is the text between the first and the second `===QUIZ===`, or up to the end, and contains no marker. |
| StudyAids.QuizOfLine | server.py:125-131 | A line gives a quiz item iff it contains `Q:` and at least four pipes. The item then has one option fewer than the line has pipes, so at least three. The question is the text before the first pipe with `Q:` removed and trimmed. No field has whitespace at its ends. |
| StudyAids.QuizOptionsAreFields | server.py:127-131 | An accepted line is at least five pipe-free fields joined with the pipe character. The question is the first field without `Q:`, trimmed. The options are the fields between the first and the last, each only trimmed, so there are two fewer options than fields. The answer is the last field without `Answer:`, trimmed. |
| StudyAids.QuizAnswerIsLastField | server.py:131 | The answer is the text after the last pipe with `Answer:` removed and trimmed. |
| StudyAids.QuizPerLine | server.py:122-131 | No items without `===QUIZ===`. Otherwise there is one item per section line that qualifies, no other item, in line order. |
| StudyAids.ParseQuiz | server.py:121-133 | The loop builds exactly the specified quiz list. |
| StudyBundle.SummaryAndNotesSplit | server.py:98-100 | The summary is the trimmed text before the first `===SPLIT===`. With the separator, the notes are the trimmed text before the second one. Without it, the notes are the whole untrimmed response and the summary is that response trimmed. The summary never contains the separator. |
| StudyBundle.GenerateStudyData | server.py:75-149 | If `"Error:"` occurs anywhere in the first response, the result is only that error and no other request is made. Otherwise three requests are made in order: content `text[:60000]`, then `text[:40000]`, then the summary. The result holds the split summary and notes, the parsed flashcards and quiz, the third response, and `text[:20000]`, which is at most 20000 long. |
| Routes.AnalyzeVideo | server.py:156-161 | A rejected key gives the 401 before any model call. A missing or empty transcript gives 400 "No transcript found." with no model call. The route generates exactly when the key is accepted and the transcript is not empty, and the answer is then the result of `generate_study_data` on the cleaned transcript, with the same requests and the same result as `StudyBundle.GenerateStudyData` promises. |

## Left out

- Web plumbing: the FastAPI app, the templates, the `/` page, the
  `HTTPException`/`JSONResponse` machinery and the `uvicorn` start-up
  (server.py:12-14, 151-155, 178-180). Only the decision order of
  `analyze_video` is modelled.
- Running `yt-dlp` and reading and deleting `transcript.en.vtt`
  (server.py:36-42) are process and file I/O. The file content, or its
  absence, is a parameter of `GetTranscript`. A UTF-8 decoding failure while
  reading is folded into that absence.
- `extract_pdf_text` and `analyze_pdf` (server.py:50-59, 163-171) wrap
  `pypdf` and a temporary upload file. pypdf is not part of this model.
- `try_generate` and the Gemini client (server.py:61-72) are a network call.
  Their results are the oracle `complete`. The `"Error: ..."` text built at
  server.py:72 is one of the responses the oracle may give. A `None`
  `response.text` is not modelled: every response is a string.
- The prompt texts (server.py:79-95, 103-109, 136-142) are instructions with
  no behaviour. A `Request` records only which prompt is used and the content
  placed after it.
- The chat endpoint (server.py:173-176) only truncates and forwards to the
  model.
- Logging `print` calls have no effect on results.
- Lone surrogates (U+D800 to U+DFFF) can occur in a Python `str` but not in
  a Dafny `string`. No operation modelled here treats them specially.
