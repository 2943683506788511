/**
 * Stage 2 of `generate_study_data` (server.py:102-133): the flashcard and
 * quiz lists read out of the model's study-aids response. Each parser is a
 * loop over the lines of one section that appends to a list; each is proved
 * against a specification function built from the per-line rule.
 */
module StudyAids {
  import opened Wrappers
  import opened PyStr
  import opened PyList

  const FlashcardsMarker: string := "===FLASHCARDS==="
  const QuizMarker: string := "===QUIZ==="
  const Pipe: string := "|"

  datatype Flashcard = Flashcard(front: string, back: string)

  datatype QuizItem = QuizItem(question: string, options: seq<string>, answer: string)

  // ----------------------------------------------------------- flashcards

  /** `raw.split("===FLASHCARDS===")[1].split("===QUIZ===")[0]` */
  function FlashcardSection(raw: string): string
    requires Contains(raw, FlashcardsMarker)
  {
    SplitMoreThanOne(raw, FlashcardsMarker);
    Split(Split(raw, FlashcardsMarker)[1], QuizMarker)[0]
  }

  /** The card one line yields: fields 0 and 1 of the line split on `|`,
      with the `Front:` and `Back:` labels removed and the ends trimmed. */
  function CardOf(line: string): Option<Flashcard> {
    if Contains(line, Pipe) then
      var parts := Split(line, Pipe);
      if |parts| >= 2 then
        Some(Flashcard(Strip(RemoveAll(parts[0], "Front:")), Strip(RemoveAll(parts[1], "Back:"))))
      else None
    else None
  }

  /** The flashcard list `generate_study_data` builds from `raw`. */
  function Flashcards(raw: string): seq<Flashcard> {
    if Contains(raw, FlashcardsMarker) then Collect(SplitLines(FlashcardSection(raw)), CardOf)
    else []
  }

  /** The loop at server.py:112-119: each line's card, if any, is appended
      in turn. */
  method ParseFlashcards(raw: string) returns (cards: seq<Flashcard>)
    ensures cards == Flashcards(raw)
  {
    cards := [];
    if Contains(raw, FlashcardsMarker) {
      var lines := SplitLines(FlashcardSection(raw));
      var i := 0;
      while i < |lines|
        invariant 0 <= i <= |lines|
        invariant cards == Collect(lines[..i], CardOf)
      {
        CollectStep(lines, CardOf, i);
        var card := CardOf(lines[i]);
        if card.Some? {
          cards := cards + [card.value];
        }
        i := i + 1;
      }
      assert lines[..|lines|] == lines;
    }
  }

  /** The section runs from just after the first `===FLASHCARDS===` up to
      the next `===FLASHCARDS===` or `===QUIZ===`, whichever comes first, or
      to the end. */
  lemma FlashcardSectionBounds(raw: string)
    requires Contains(raw, FlashcardsMarker)
    ensures exists i: nat ::
      (StartsAt(raw, i, FlashcardsMarker) && NoneBefore(raw, FlashcardsMarker, i)
       && FlashcardSection(raw) == UpTo(UpTo(raw[i + |FlashcardsMarker|..], FlashcardsMarker), QuizMarker))
    ensures !Contains(FlashcardSection(raw), FlashcardsMarker) && !Contains(FlashcardSection(raw), QuizMarker)
  {
    SplitPieces(raw, FlashcardsMarker);
    SplitPieces(Split(raw, FlashcardsMarker)[1], QuizMarker);
    var s1 := Split(raw, FlashcardsMarker)[1];
    var s := UpTo(s1, QuizMarker);
    NotContainsSlice(s1, 0, |s|, FlashcardsMarker);
    assert s1[0..|s|] == s;
  }

  /** A line yields a card exactly when it contains `|` (two fields then
      always exist); front is the text before the first `|`, back the text
      between the first and the second, labels removed and trimmed. */
  lemma CardOfLine(line: string)
    ensures CardOf(line).Some? <==> Contains(line, Pipe)
    ensures CardOf(line).Some? ==>
      var c := CardOf(line).value;
      c.front == Strip(RemoveAll(UpTo(line, Pipe), "Front:"))
      && c.back == Strip(RemoveAll(UpTo(AfterFirst(line, Pipe), Pipe), "Back:"))
      && NoEdgeSpace(c.front) && NoEdgeSpace(c.back)
  {
    SplitPieces(line, Pipe);
  }

  /** One card per line of the section that contains `|`, no other card,
      in line order; no card at all without the flashcards marker. */
  lemma FlashcardsPerLine(raw: string)
    ensures !Contains(raw, FlashcardsMarker) ==> Flashcards(raw) == []
    ensures Contains(raw, FlashcardsMarker) ==>
      IsFilterMap(SplitLines(FlashcardSection(raw)), CardOf, Flashcards(raw))
    ensures Contains(raw, FlashcardsMarker) ==>
      forall l | l in SplitLines(FlashcardSection(raw)) && Contains(l, Pipe) :: CardOf(l).Some? && CardOf(l).value in Flashcards(raw)
  {
    if Contains(raw, FlashcardsMarker) {
      var lines := SplitLines(FlashcardSection(raw));
      CollectIsFilterMap(lines, CardOf);
      forall l | l in lines && Contains(l, Pipe) ensures CardOf(l).Some? { CardOfLine(l); }
      FilterMapMembers(lines, CardOf);
    }
  }

  // ------------------------------------------------------------------ quiz

  /** `raw.split("===QUIZ===")[1]` */
  function QuizSection(raw: string): string
    requires Contains(raw, QuizMarker)
  {
    SplitMoreThanOne(raw, QuizMarker);
    Split(raw, QuizMarker)[1]
  }

  /** `[p.strip() for p in parts]` */
  function StripEach(parts: seq<string>): (r: seq<string>)
    ensures |r| == |parts|
    ensures forall k | 0 <= k < |r| :: r[k] == Strip(parts[k])
  {
    seq(|parts|, k requires 0 <= k < |parts| => Strip(parts[k]))
  }

  /** The item one line yields: a line with `|` and `Q:` split into at least
      five fields gives the question (field 0 without `Q:`), the options
      (the fields between the first and the last, only trimmed) and the
      answer (the last field without `Answer:`). */
  function QuizOf(line: string): Option<QuizItem> {
    if Contains(line, Pipe) && Contains(line, "Q:") then
      var parts := Split(line, Pipe);
      if |parts| >= 5 then
        Some(QuizItem(
          Strip(RemoveAll(parts[0], "Q:")),
          StripEach(parts[1..|parts| - 1]),
          Strip(RemoveAll(Last(parts), "Answer:"))))
      else None
    else None
  }

  /** The quiz list `generate_study_data` builds from `raw`. */
  function Quiz(raw: string): seq<QuizItem> {
    if Contains(raw, QuizMarker) then Collect(SplitLines(QuizSection(raw)), QuizOf) else []
  }

  /** The loop at server.py:121-133: each line's item, if any, is appended
      in turn. */
  method ParseQuiz(raw: string) returns (quiz: seq<QuizItem>)
    ensures quiz == Quiz(raw)
  {
    quiz := [];
    if Contains(raw, QuizMarker) {
      var lines := SplitLines(QuizSection(raw));
      var i := 0;
      while i < |lines|
        invariant 0 <= i <= |lines|
        invariant quiz == Collect(lines[..i], QuizOf)
      {
        CollectStep(lines, QuizOf, i);
        var item := QuizOf(lines[i]);
        if item.Some? {
          quiz := quiz + [item.value];
        }
        i := i + 1;
      }
      assert lines[..|lines|] == lines;
    }
  }

  /** The quiz section is the text between the first and the second
      `===QUIZ===` (or the end). */
  lemma QuizSectionBounds(raw: string)
    requires Contains(raw, QuizMarker)
    ensures exists i: nat ::
      (StartsAt(raw, i, QuizMarker) && NoneBefore(raw, QuizMarker, i)
       && QuizSection(raw) == UpTo(raw[i + |QuizMarker|..], QuizMarker))
    ensures !Contains(QuizSection(raw), QuizMarker)
  {
    SplitPieces(raw, QuizMarker);
  }

  /** A line yields an item exactly when it contains `Q:` and at least four
      `|`; the item then has one option fewer than the line has `|`, so at
      least three, and its question is the text before the first `|`
      without `Q:`, trimmed. */
  lemma QuizOfLine(line: string)
    ensures QuizOf(line).Some? <==> Contains(line, "Q:") && CountChar(line, '|') >= 4
    ensures QuizOf(line).Some? ==>
      var q := QuizOf(line).value;
      |q.options| == CountChar(line, '|') - 1 >= 3
      && q.question == Strip(RemoveAll(UpTo(line, Pipe), "Q:"))
      && NoEdgeSpace(q.question) && NoEdgeSpace(q.answer)
      && forall k | 0 <= k < |q.options| :: NoEdgeSpace(q.options[k])
  {
    SplitCharCount(line, '|');
    SplitPieces(line, Pipe);
  }

  /** The answer is the text after the last `|` of the line, without
      `Answer:`, trimmed. */
  lemma QuizAnswerIsLastField(line: string)
    requires QuizOf(line).Some?
    ensures exists i: nat ::
      (0 < i <= |line| && line[i - 1] == '|' && !Contains(line[i..], Pipe)
       && QuizOf(line).value.answer == Strip(RemoveAll(line[i..], "Answer:")))
  {
    var parts := Split(line, Pipe);
    assert QuizOf(line).value.answer == Strip(RemoveAll(Last(parts), "Answer:"));
    var i := SplitLastPiece(line, Pipe);
    SplitJoin(line, Pipe);
    LastField(line, parts, i);
  }

  lemma LastField(line: string, parts: seq<string>, i: nat)
    requires |parts| > 1 && i <= |line| && Last(parts) == line[i..]
    requires i >= 1 && StartsAt(line, i - 1, Pipe)
    requires forall k | 0 <= k < |parts| :: !Contains(parts[k], Pipe)
    ensures line[i - 1] == '|' && !Contains(line[i..], Pipe)
  {
    assert line[i - 1..i][0] == line[i - 1];
    assert !Contains(parts[|parts| - 1], Pipe);
  }

  /** `fields` are pipe-free texts that give `line` back when joined with
      `|`. Only `Split(line, Pipe)` is such a sequence (`SplitUnique`). */
  predicate IsFieldsOf(line: string, fields: seq<string>) {
    Join(fields, Pipe) == line && forall k | 0 <= k < |fields| :: !Contains(fields[k], Pipe)
  }

  /** The item a line with these fields stands for: at least five fields;
      the question is the first without `Q:`, the options are the ones
      between the first and the last, only trimmed, and the answer is the
      last without `Answer:`, each trimmed. */
  predicate IsItemOfFields(q: QuizItem, fields: seq<string>) {
    && |fields| >= 5
    && q.question == Strip(RemoveAll(fields[0], "Q:"))
    && q.answer == Strip(RemoveAll(fields[|fields| - 1], "Answer:"))
    && |q.options| == |fields| - 2
    && forall k | 0 <= k < |fields| - 2 :: q.options[k] == Strip(fields[k + 1])
  }

  /** An item is made of the fields of its line, as `IsItemOfFields` says. */
  lemma QuizOptionsAreFields(line: string) returns (fields: seq<string>)
    requires QuizOf(line).Some?
    ensures IsFieldsOf(line, fields) && IsItemOfFields(QuizOf(line).value, fields)
  {
    fields := Split(line, Pipe);
    QuizOfFields(line);
    SplitFields(line);
  }

  lemma SplitFields(line: string)
    ensures IsFieldsOf(line, Split(line, Pipe))
  {
    SplitJoin(line, Pipe);
  }

  lemma QuizOfFields(line: string)
    requires QuizOf(line).Some?
    ensures IsItemOfFields(QuizOf(line).value, Split(line, Pipe))
  {
    var fields := Split(line, Pipe);
    QuizFromFields(QuizOf(line).value, fields);
  }

  lemma QuizFromFields(q: QuizItem, fields: seq<string>)
    requires |fields| >= 5
    requires q == QuizItem(Strip(RemoveAll(fields[0], "Q:")), StripEach(fields[1..|fields| - 1]),
                           Strip(RemoveAll(fields[|fields| - 1], "Answer:")))
    ensures |q.options| == |fields| - 2
    ensures forall k | 0 <= k < |fields| - 2 :: q.options[k] == Strip(fields[k + 1])
  {
    forall k | 0 <= k < |fields| - 2 ensures q.options[k] == Strip(fields[k + 1]) {
      assert fields[1..|fields| - 1][k] == fields[k + 1];
    }
  }

  lemma QuizOfAccepts(line: string)
    requires Contains(line, "Q:") && CountChar(line, '|') >= 4
    ensures QuizOf(line).Some?
  {
    QuizOfLine(line);
  }

  /** One item per line of the quiz section that `QuizOf` accepts, no other
      item, in line order; no item at all without the quiz marker. */
  lemma QuizPerLine(raw: string)
    ensures !Contains(raw, QuizMarker) ==> Quiz(raw) == []
    ensures Contains(raw, QuizMarker) ==>
      IsFilterMap(SplitLines(QuizSection(raw)), QuizOf, Quiz(raw))
    ensures Contains(raw, QuizMarker) ==>
      forall l | l in SplitLines(QuizSection(raw)) && Contains(l, "Q:") && CountChar(l, '|') >= 4 ::
        QuizOf(l).Some? && QuizOf(l).value in Quiz(raw)
  {
    if Contains(raw, QuizMarker) {
      var lines := SplitLines(QuizSection(raw));
      CollectIsFilterMap(lines, QuizOf);
      forall l | l in lines && Contains(l, "Q:") && CountChar(l, '|') >= 4 ensures QuizOf(l).Some? {
        QuizOfAccepts(l);
      }
      FilterMapMembers(lines, QuizOf);
    }
  }
}
