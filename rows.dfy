/** The rows of the exam, question, option and takes tables, the nested exam a
    teacher sends when authoring, and the two comparators the handlers sort by. */
module Rows {
  import opened Wrappers
  import opened Sequences
  import opened Sorting

  /** The columns of an exam that a teacher sets on create and on update. */
  datatype ExamInfo = ExamInfo(
    className: string,
    title: string,
    description: string,
    startTime: int,       // milliseconds since the epoch
    endTime: int,
    allowJumping: bool,
    shuffleQuestions: bool,
    shuffleOptions: bool)

  datatype ExamRow = ExamRow(id: int, teacherId: int, info: ExamInfo)

  /** Columns of a question that the authoring routes never write; `None`
      while they hold the database default. */
  datatype QuestionStats = QuestionStats(
    correctCount: int,
    incorrectCount: int,
    unansweredCount: int,
    correctRatio: real,
    discriminationRatio: real)

  datatype QuestionRow = QuestionRow(
    index: int,
    examId: int,
    text: string,
    score: int,
    stats: Option<QuestionStats>)

  datatype OptionStats = OptionStats(
    frequency: int,
    frequencyRatio: real,
    discriminationRatio: real)

  /** An option points at its question by (exam id, question index). */
  datatype OptionRow = OptionRow(
    examId: int,
    index: int,
    questionIndex: int,
    text: string,
    correctAnswer: bool,
    stats: Option<OptionStats>)

  /** A submission: one row per student who handed in the exam. */
  datatype TakesRow = TakesRow(examId: int, studentId: int)

  /** The nested exam body of POST and PUT /exam. */
  datatype OptionInput = OptionInput(text: string, correctAnswer: bool)
  datatype QuestionInput = QuestionInput(text: string, score: int, options: seq<OptionInput>)

  /** `compareOptions`: by question index, then by option index. */
  function CompareOptions(a: OptionRow, b: OptionRow): (r: int)
    ensures r == -1 || r == 0 || r == 1
    ensures r == 0 <==> a.questionIndex == b.questionIndex && a.index == b.index
    ensures r < 0 <==>
      a.questionIndex < b.questionIndex || (a.questionIndex == b.questionIndex && a.index < b.index)
  {
    if a.questionIndex < b.questionIndex then -1
    else if a.questionIndex > b.questionIndex then 1
    else if a.index < b.index then -1
    else if a.index > b.index then 1
    else 0
  }

  /** The comparator `a.index - b.index` used for questions. */
  function CompareQuestions(a: QuestionRow, b: QuestionRow): (r: int)
    ensures r < 0 <==> a.index < b.index
    ensures r == 0 <==> a.index == b.index
  {
    a.index - b.index
  }

  lemma CompareOptionsAntisymmetric(a: OptionRow, b: OptionRow)
    ensures CompareOptions(a, b) == -CompareOptions(b, a)
  {
  }

  lemma CompareOptionsTransitive(a: OptionRow, b: OptionRow, c: OptionRow)
    ensures CompareOptions(a, b) <= 0 && CompareOptions(b, c) <= 0 ==> CompareOptions(a, c) <= 0
    ensures CompareOptions(a, b) < 0 && CompareOptions(b, c) < 0 ==> CompareOptions(a, c) < 0
  {
  }

  lemma CompareOptionsIsComparator()
    ensures IsComparator(CompareOptions)
  {
    forall a, b, c ensures CompareOptions(a, b) <= 0 && CompareOptions(b, c) <= 0 ==> CompareOptions(a, c) <= 0 {
      CompareOptionsTransitive(a, b, c);
    }
  }

  lemma CompareQuestionsIsComparator()
    ensures IsComparator(CompareQuestions)
  {
  }

  /** Sorting option rows with `compareOptions` groups them by ascending
      question index, with ascending option index inside each group, and
      loses or adds no row. */
  lemma {:induction false} SortedOptionsGrouped(opts: seq<OptionRow>)
    ensures multiset(SortBy(CompareOptions, opts)) == multiset(opts)
    ensures var s := SortBy(CompareOptions, opts);
      forall i, j :: 0 <= i < j < |s| ==>
        s[i].questionIndex <= s[j].questionIndex &&
        (s[i].questionIndex == s[j].questionIndex ==> s[i].index <= s[j].index)
  {
    CompareOptionsIsComparator();
    SortBySorted(CompareOptions, opts);
    SortByPermutes(CompareOptions, opts);
    var s := SortBy(CompareOptions, opts);
    forall i, j | 0 <= i < j < |s|
      ensures s[i].questionIndex <= s[j].questionIndex
      ensures s[i].questionIndex == s[j].questionIndex ==> s[i].index <= s[j].index
    {
      assert CompareOptions(s[i], s[j]) <= 0;
    }
  }

  /** Sorting question rows by index puts them in ascending index order. */
  lemma {:induction false} SortedQuestionsAscending(qs: seq<QuestionRow>)
    ensures multiset(SortBy(CompareQuestions, qs)) == multiset(qs)
    ensures var s := SortBy(CompareQuestions, qs);
      forall i, j :: 0 <= i < j < |s| ==> s[i].index <= s[j].index
  {
    CompareQuestionsIsComparator();
    SortBySorted(CompareQuestions, qs);
    SortByPermutes(CompareQuestions, qs);
    var s := SortBy(CompareQuestions, qs);
    forall i, j | 0 <= i < j < |s| ensures s[i].index <= s[j].index {
      assert CompareQuestions(s[i], s[j]) <= 0;
    }
  }

  /** Questions that tie on index keep the order they came in: with a stable
      sort, the order the query returns them in shows through. */
  lemma TiedQuestionsKeepOrder(a: QuestionRow, b: QuestionRow)
    requires a.index == b.index
    ensures SortBy(CompareQuestions, [a, b]) == [a, b]
    ensures SortBy(CompareQuestions, [b, a]) == [b, a]
  {
    assert [a, b][..1] == [a] && [b, a][..1] == [b];
    assert [a][..0] == [] && [b][..0] == [];
    assert SortBy(CompareQuestions, [a]) == [a] && SortBy(CompareQuestions, [b]) == [b];
    assert Insert(CompareQuestions, b, [a]) == [a] + Insert(CompareQuestions, b, []);
    assert Insert(CompareQuestions, a, [b]) == [b] + Insert(CompareQuestions, a, []);
  }

  // The per-exam queries and deletions of the route handlers.

  function QuestionsOf(rows: seq<QuestionRow>, examId: int): (r: seq<QuestionRow>)
    ensures forall q :: q in r <==> q in rows && q.examId == examId
  {
    var p := (q: QuestionRow) => q.examId == examId;
    WhereMembers(rows, p);
    WhereComplete(rows, p);
    Where(rows, p)
  }

  function QuestionsNotOf(rows: seq<QuestionRow>, examId: int): (r: seq<QuestionRow>)
    ensures forall q :: q in r <==> q in rows && q.examId != examId
  {
    var p := (q: QuestionRow) => q.examId != examId;
    WhereMembers(rows, p);
    WhereComplete(rows, p);
    Where(rows, p)
  }

  function OptionsOf(rows: seq<OptionRow>, examId: int): (r: seq<OptionRow>)
    ensures forall o :: o in r <==> o in rows && o.examId == examId
  {
    var p := (o: OptionRow) => o.examId == examId;
    WhereMembers(rows, p);
    WhereComplete(rows, p);
    Where(rows, p)
  }

  function OptionsNotOf(rows: seq<OptionRow>, examId: int): (r: seq<OptionRow>)
    ensures forall o :: o in r <==> o in rows && o.examId != examId
  {
    var p := (o: OptionRow) => o.examId != examId;
    WhereMembers(rows, p);
    WhereComplete(rows, p);
    Where(rows, p)
  }

  function ExamsNotOf(rows: seq<ExamRow>, examId: int): (r: seq<ExamRow>)
    ensures forall e :: e in r <==> e in rows && e.id != examId
  {
    var p := (e: ExamRow) => e.id != examId;
    WhereMembers(rows, p);
    WhereComplete(rows, p);
    Where(rows, p)
  }

  function ExamIds(rows: seq<ExamRow>): set<int> {
    set e | e in rows :: e.id
  }

  /** `SELECT ... FROM exam WHERE id = $1` and its `rows[0]`. */
  function FindExam(rows: seq<ExamRow>, examId: int): (r: Option<ExamRow>)
    ensures r.None? <==> examId !in ExamIds(rows)
    ensures r.Some? ==> r.value in rows && r.value.id == examId
  {
    if rows == [] then None
    else if rows[0].id == examId then Some(rows[0])
    else FindExam(rows[1..], examId)
  }
}
