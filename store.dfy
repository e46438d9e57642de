/** The exam, question, option and takes tables, and the handlers of
    POST, DELETE and PUT /exam, GET /exam/:exam_id and POST /question that
    read and change them. A `SELECT ... WHERE` returns the matching rows in
    table order; `Date.now()` is the parameter `now`, in milliseconds. */
module Store {
  import opened Wrappers
  import opened Sequences
  import opened Sorting
  import opened Rows
  import opened Authoring
  import opened Assembly
  import opened QuestionBank

  /** The outcome of DELETE and PUT /exam: done (200), refused because the
      exam has started (401), or a server error (500). */
  datatype Outcome = Done | Refused | ServerError

  /** The outcome of GET /exam/:exam_id. */
  datatype Retrieval =
    | AlreadyCompleted                                      // 200, "already completed"
    | Expired                                               // 200, "time is up"
    | RetrievalError                                        // 500
    | Served(exam: ExamRow, questions: seq<ExamQuestion>)   // 200, the exam

  /** The exams table after `UPDATE exam SET ... WHERE id = examId`. */
  function WithInfo(rows: seq<ExamRow>, examId: int, info: ExamInfo): (r: seq<ExamRow>)
    ensures |r| == |rows|
    ensures forall i :: 0 <= i < |rows| ==>
      r[i] == (if rows[i].id == examId then ExamRow(examId, rows[i].teacherId, info) else rows[i])
  {
    if rows == [] then []
    else
      WithInfo(rows[..|rows| - 1], examId, info)
      + [if rows[|rows| - 1].id == examId then ExamRow(examId, rows[|rows| - 1].teacherId, info) else rows[|rows| - 1]]
  }

  /** The ids of the exams of class `className`: the join of POST /question. */
  function ClassExamIds(rows: seq<ExamRow>, className: string): set<int> {
    set e | e in rows && e.info.className == className :: e.id
  }

  function ClassQuestions(rows: seq<ExamRow>, questions: seq<QuestionRow>, className: string): seq<QuestionRow> {
    var ids := ClassExamIds(rows, className);
    Where(questions, (q: QuestionRow) => q.examId in ids)
  }

  function ClassOptions(rows: seq<ExamRow>, options: seq<OptionRow>, className: string): seq<OptionRow> {
    var ids := ClassExamIds(rows, className);
    Where(options, (o: OptionRow) => o.examId in ids)
  }

  /** The exam rows of class `className` whose id is `k`. */
  function ClassMatches(exams: seq<ExamRow>, className: string, k: int): seq<ExamRow> {
    Where(exams, (e: ExamRow) => e.id == k && e.info.className == className)
  }

  /** `SELECT r.* FROM rows r JOIN exam e ON r.exam_id = e.id WHERE
      e.class_name = className` as a nested-loop join: every row, once for
      each exam row of the class it matches. */
  function Join<R>(rows: seq<R>, examId: R -> int, exams: seq<ExamRow>, className: string): (r: seq<R>)
    ensures |r| <= |rows| * |exams|
    decreases |rows|
  {
    if rows == [] then []
    else
      var n := |rows| - 1;
      var row := rows[n];
      Join(rows[..n], examId, exams, className)
      + Map((e: ExamRow) => row, ClassMatches(exams, className, examId(row)))
  }

  function QuestionExamId(q: QuestionRow): int { q.examId }

  function OptionExamId(o: OptionRow): int { o.examId }

  /** The question order GET /exam/:exam_id uses: the caller's shuffle when
      the exam shuffles questions, otherwise by index. */
  function QuestionOrder(exam: ExamRow, fetched: seq<QuestionRow>, shuffled: seq<QuestionRow>): seq<QuestionRow> {
    if exam.info.shuffleQuestions then shuffled else SortBy(CompareQuestions, fetched)
  }

  function OptionOrder(exam: ExamRow, fetched: seq<OptionRow>, shuffled: seq<OptionRow>): seq<OptionRow> {
    if exam.info.shuffleOptions then shuffled else SortBy(CompareOptions, fetched)
  }

  /** `id` is the primary key of the exam table: no two rows share it. */
  ghost predicate Keyed(exams: seq<ExamRow>) {
    forall i, j :: 0 <= i < j < |exams| ==> exams[i].id != exams[j].id
  }

  ghost predicate Consistent(exams: seq<ExamRow>, questions: seq<QuestionRow>, options: seq<OptionRow>, nextExamId: int) {
    && (forall e :: e in exams ==> e.id < nextExamId)
    && Keyed(exams)
    && (forall q :: q in questions ==> q.examId in ExamIds(exams))
    && (forall o :: o in options ==> o.examId in ExamIds(exams))
  }

  class ExamStore {
    var exams: seq<ExamRow>
    var questions: seq<QuestionRow>
    var options: seq<OptionRow>
    var takes: seq<TakesRow>
    /** The next value of the exam id sequence. */
    var nextExamId: int

    /** Exam ids are keys handed out by the sequence, and every question and
        option row belongs to an exam in the table. */
    ghost predicate Valid()
      reads this
    {
      Consistent(exams, questions, options, nextExamId)
    }

    constructor(exams0: seq<ExamRow>, questions0: seq<QuestionRow>, options0: seq<OptionRow>,
                takes0: seq<TakesRow>, nextExamId0: int)
      requires Consistent(exams0, questions0, options0, nextExamId0)
      ensures Valid()
      ensures exams == exams0 && questions == questions0 && options == options0
      ensures takes == takes0 && nextExamId == nextExamId0
    {
      exams := exams0;
      questions := questions0;
      options := options0;
      takes := takes0;
      nextExamId := nextExamId0;
    }

    /** The nested `for` loops of POST and PUT /exam: question `q` is
        inserted, then each of its options. */
    method InsertRows(examId: int, qs: seq<QuestionInput>)
      modifies this
      ensures questions == old(questions) + QuestionRowsFor(examId, qs)
      ensures options == old(options) + OptionRowsFor(examId, qs)
      ensures exams == old(exams) && takes == old(takes) && nextExamId == old(nextExamId)
    {
      for q := 0 to |qs|
        invariant questions == old(questions) + QuestionRowsFor(examId, qs[..q])
        invariant options == old(options) + OptionRowsFor(examId, qs[..q])
        invariant exams == old(exams) && takes == old(takes) && nextExamId == old(nextExamId)
      {
        assert qs[..q + 1][..q] == qs[..q];
        questions := questions + [NewQuestionRow(examId, q, qs[q])];
        InsertOptions(examId, q, qs[q].options);
      }
      assert qs[..|qs|] == qs;
    }

    /** The inner loop: the options of question `q`, in order. */
    method InsertOptions(examId: int, q: int, os: seq<OptionInput>)
      modifies this
      ensures options == old(options) + OptionRowsOf(examId, q, os)
      ensures questions == old(questions) && exams == old(exams) && takes == old(takes)
      ensures nextExamId == old(nextExamId)
    {
      for o := 0 to |os|
        invariant options == old(options) + OptionRowsOf(examId, q, os[..o])
        invariant questions == old(questions) && exams == old(exams) && takes == old(takes)
        invariant nextExamId == old(nextExamId)
      {
        assert os[..o + 1][..o] == os[..o];
        options := options + [NewOptionRow(examId, q, o, os[o])];
      }
      assert os[..|os|] == os;
    }

    /** POST /exam: a new exam row with a fresh id, then its question and
        option rows; the exam's rows are exactly the flattened input. */
    method CreateExam(teacherId: int, info: ExamInfo, qs: seq<QuestionInput>) returns (examId: int)
      requires Valid()
      modifies this
      ensures Valid()
      ensures examId == old(nextExamId) && old(examId !in ExamIds(exams))
      ensures nextExamId == old(nextExamId) + 1
      ensures exams == old(exams) + [ExamRow(examId, teacherId, info)]
      ensures questions == old(questions) + QuestionRowsFor(examId, qs)
      ensures options == old(options) + OptionRowsFor(examId, qs)
      ensures takes == old(takes)
      ensures QuestionsOf(questions, examId) == QuestionRowsFor(examId, qs)
      ensures OptionsOf(options, examId) == OptionRowsFor(examId, qs)
    {
      examId := nextExamId;
      nextExamId := nextExamId + 1;
      exams := exams + [ExamRow(examId, teacherId, info)];
      InsertRows(examId, qs);
      CreateKeepsConsistent(old(exams), old(questions), old(options), old(nextExamId), teacherId, info, qs);
      FreshRowsOnly(old(questions), old(options), examId, qs);
    }

    /** DELETE /exam: refused when `now` is at or after the client's
        `startsAt` (an unparsable one compares false); otherwise the exam's
        options, questions and exam row are deleted. */
    method DeleteExam(examId: int, startsAt: Option<int>, now: int) returns (r: Outcome)
      requires Valid()
      modifies this
      ensures Valid()
      ensures r != ServerError
      ensures r == Refused <==> startsAt.Some? && now >= startsAt.value
      ensures r == Refused ==>
        exams == old(exams) && questions == old(questions) && options == old(options)
      ensures r == Done ==>
        && options == OptionsNotOf(old(options), examId)
        && questions == QuestionsNotOf(old(questions), examId)
        && exams == ExamsNotOf(old(exams), examId)
      ensures takes == old(takes) && nextExamId == old(nextExamId)
    {
      if startsAt.Some? && now >= startsAt.value {
        return Refused;
      }
      options := OptionsNotOf(options, examId);
      questions := QuestionsNotOf(questions, examId);
      exams := ExamsNotOf(exams, examId);
      DeleteKeepsConsistent(old(exams), old(questions), old(options), nextExamId, examId);
      r := Done;
    }

    /** PUT /exam: a missing exam is a server error; an exam whose stored
        start time is at or before `now` is refused; otherwise the exam's
        option and question rows are deleted, its columns set to `info`, and
        the flattened input inserted. */
    method UpdateExam(examId: int, info: ExamInfo, qs: seq<QuestionInput>, now: int) returns (r: Outcome)
      requires Valid()
      modifies this
      ensures Valid()
      ensures r == ServerError <==> examId !in ExamIds(old(exams))
      ensures r == Refused <==>
        examId in ExamIds(old(exams)) && now >= FindExam(old(exams), examId).value.info.startTime
      ensures r != Done ==>
        exams == old(exams) && questions == old(questions) && options == old(options)
      ensures r == Done ==>
        && options == OptionsNotOf(old(options), examId) + OptionRowsFor(examId, qs)
        && questions == QuestionsNotOf(old(questions), examId) + QuestionRowsFor(examId, qs)
        && exams == WithInfo(old(exams), examId, info)
      ensures takes == old(takes) && nextExamId == old(nextExamId)
    {
      var original := FindExam(exams, examId);
      if original.None? {
        return ServerError;
      }
      if now >= original.value.info.startTime {
        return Refused;
      }
      options := OptionsNotOf(options, examId);
      questions := QuestionsNotOf(questions, examId);
      exams := WithInfo(exams, examId, info);
      InsertRows(examId, qs);
      UpdateKeepsConsistent(old(exams), old(questions), old(options), nextExamId, examId, info, qs);
      r := Done;
    }

    /** GET /exam/:exam_id for student `studentId`. `shuffledQuestions` and
        `shuffledOptions` are the orders the random shuffle produced; they
        are used only when the exam's flags ask for them. */
    method RetrieveExam(studentId: int, examId: int, now: int,
                        shuffledQuestions: seq<QuestionRow>, shuffledOptions: seq<OptionRow>)
      returns (r: Retrieval)
      requires multiset(shuffledQuestions) == multiset(QuestionsOf(questions, examId))
      requires multiset(shuffledOptions) == multiset(OptionsOf(options, examId))
      ensures r == AlreadyCompleted <==> TakesRow(examId, studentId) in takes
      ensures TakesRow(examId, studentId) !in takes && examId !in ExamIds(exams) ==> r == RetrievalError
      ensures TakesRow(examId, studentId) !in takes && examId in ExamIds(exams) ==>
        var exam := FindExam(exams, examId).value;
        var qs := QuestionOrder(exam, QuestionsOf(questions, examId), shuffledQuestions);
        var os := OptionOrder(exam, OptionsOf(options, examId), shuffledOptions);
        r == if now > exam.info.endTime then Expired
             else if Grouped(qs, os).None? then RetrievalError
             else Served(exam, Grouped(qs, os).value)
    {
      if TakesRow(examId, studentId) in takes {
        return AlreadyCompleted;
      }
      var found := FindExam(exams, examId);
      if found.None? {
        return RetrievalError;
      }
      var exam := found.value;
      if now > exam.info.endTime {
        return Expired;
      }
      var qs := QuestionOrder(exam, QuestionsOf(questions, examId), shuffledQuestions);
      var os := OptionOrder(exam, OptionsOf(options, examId), shuffledOptions);
      var grouped := AttachOptions(qs, os);
      if grouped.None? {
        return RetrievalError;
      }
      r := Served(exam, grouped.value);
    }

    /** POST /question for class `className`. The joins are filters on the
        class's set of exam ids; they match each question and option row at
        most once because exam ids are a key, which `Valid()` states
        (`JoinQuestions`, `JoinOptions`). */
    method QuestionBankFor(className: string) returns (parsed: seq<BankQuestion>)
      requires Valid()
      ensures parsed == Bank(ClassQuestions(exams, questions, className), ClassOptions(exams, options, className))
      ensures parsed == Bank(Join(questions, QuestionExamId, exams, className), Join(options, OptionExamId, exams, className))
    {
      JoinQuestions(exams, questions, className);
      JoinOptions(exams, options, className);
      parsed := CollectQuestions(ClassQuestions(exams, questions, className), ClassOptions(exams, options, className));
    }
  }

  /** With exam ids a key, a row matches at most one exam row of the class,
      and one exactly when its exam id is among the class's ids. */
  lemma ClassMatchesAtMostOne(exams: seq<ExamRow>, className: string, k: int)
    requires Keyed(exams)
    ensures |ClassMatches(exams, className, k)| <= 1
    ensures |ClassMatches(exams, className, k)| == 1 <==> k in ClassExamIds(exams, className)
  {
    var p := (e: ExamRow) => e.id == k && e.info.className == className;
    var m := Where(exams, p);
    assert ClassMatches(exams, className, k) == m;
    var id := (e: ExamRow) => e.id;
    assert DistinctKeys(exams, id) by {
      forall i, j | 0 <= i < j < |exams| ensures id(exams[i]) != id(exams[j]) {
      }
    }
    WhereDistinct(exams, p, id);
    WhereMembers(exams, p);
    WhereComplete(exams, p);
    SameKeyAtMostOne(m, id, k);
    if |m| == 1 {
      assert m[0] in m;
    }
    if k in ClassExamIds(exams, className) {
      var e :| e in exams && e.info.className == className && e.id == k;
      assert e in m;
    }
  }

  /** The joins of POST /question are the filters `ClassQuestions` and
      `ClassOptions` build on: no row is repeated, because exam ids are a key. */
  lemma {:induction false} JoinIsFilter<R>(rows: seq<R>, examId: R -> int, exams: seq<ExamRow>, className: string,
                                           p: R -> bool)
    requires Keyed(exams)
    requires forall x :: p(x) == (examId(x) in ClassExamIds(exams, className))
    ensures Join(rows, examId, exams, className) == Where(rows, p)
    decreases |rows|
  {
    if rows != [] {
      var n := |rows| - 1;
      var row := rows[n];
      JoinIsFilter(rows[..n], examId, exams, className, p);
      var m := ClassMatches(exams, className, examId(row));
      ClassMatchesAtMostOne(exams, className, examId(row));
      var f := (e: ExamRow) => row;
      var copies := Map(f, m);
      assert copies == (if p(row) then [row] else []);
      assert Join(rows, examId, exams, className) == Join(rows[..n], examId, exams, className) + copies;
      assert Where(rows, p) == Where(rows[..n], p) + (if p(row) then [row] else []);
    }
  }

  lemma JoinQuestions(exams: seq<ExamRow>, questions: seq<QuestionRow>, className: string)
    requires Keyed(exams)
    ensures Join(questions, QuestionExamId, exams, className) == ClassQuestions(exams, questions, className)
  {
    var ids := ClassExamIds(exams, className);
    var viaIds := (q: QuestionRow) => q.examId in ids;
    JoinIsFilter(questions, QuestionExamId, exams, className, viaIds);
  }

  lemma JoinOptions(exams: seq<ExamRow>, options: seq<OptionRow>, className: string)
    requires Keyed(exams)
    ensures Join(options, OptionExamId, exams, className) == ClassOptions(exams, options, className)
  {
    var ids := ClassExamIds(exams, className);
    var viaIds := (o: OptionRow) => o.examId in ids;
    JoinIsFilter(options, OptionExamId, exams, className, viaIds);
  }

  /** The rows inserted for an exam all carry its id. */
  lemma NewRowsBelong(examId: int, qs: seq<QuestionInput>)
    ensures forall q :: q in QuestionRowsFor(examId, qs) ==> q.examId == examId
    ensures forall o :: o in OptionRowsFor(examId, qs) ==> o.examId == examId
  {
    QuestionRowsAt(examId, qs);
    OptionRowsForSound(examId, qs);
    forall q | q in QuestionRowsFor(examId, qs) ensures q.examId == examId {
      var i :| 0 <= i < |QuestionRowsFor(examId, qs)| && QuestionRowsFor(examId, qs)[i] == q;
    }
  }

  /** Rows of no exam `examId` had none before and have exactly the new ones. */
  lemma FreshRowsOnly(questions: seq<QuestionRow>, options: seq<OptionRow>, examId: int, qs: seq<QuestionInput>)
    requires forall q :: q in questions ==> q.examId != examId
    requires forall o :: o in options ==> o.examId != examId
    ensures QuestionsOf(questions + QuestionRowsFor(examId, qs), examId) == QuestionRowsFor(examId, qs)
    ensures OptionsOf(options + OptionRowsFor(examId, qs), examId) == OptionRowsFor(examId, qs)
  {
    var newQ := QuestionRowsFor(examId, qs);
    var newO := OptionRowsFor(examId, qs);
    var pq := (q: QuestionRow) => q.examId == examId;
    var po := (o: OptionRow) => o.examId == examId;
    NewRowsBelong(examId, qs);
    WhereConcat(questions, newQ, pq);
    WhereConcat(options, newO, po);
    assert forall i :: 0 <= i < |questions| ==> !pq(questions[i]) by {
      forall i | 0 <= i < |questions| ensures !pq(questions[i]) { assert questions[i] in questions; }
    }
    assert forall i :: 0 <= i < |options| ==> !po(options[i]) by {
      forall i | 0 <= i < |options| ensures !po(options[i]) { assert options[i] in options; }
    }
    WhereNone(questions, pq);
    WhereNone(options, po);
    assert forall i :: 0 <= i < |newQ| ==> pq(newQ[i]) by {
      forall i | 0 <= i < |newQ| ensures pq(newQ[i]) { assert newQ[i] in newQ; }
    }
    assert forall i :: 0 <= i < |newO| ==> po(newO[i]) by {
      forall i | 0 <= i < |newO| ensures po(newO[i]) { assert newO[i] in newO; }
    }
    WhereAll(newQ, pq);
    WhereAll(newO, po);
  }

  /** The rows of any exam other than `examId` are kept by removing `examId`'s. */
  lemma OthersRows(questions: seq<QuestionRow>, options: seq<OptionRow>, examId: int)
    ensures forall other :: other != examId ==>
      QuestionsOf(QuestionsNotOf(questions, examId), other) == QuestionsOf(questions, other)
    ensures forall other :: other != examId ==>
      OptionsOf(OptionsNotOf(options, examId), other) == OptionsOf(options, other)
  {
    forall other | other != examId
      ensures QuestionsOf(QuestionsNotOf(questions, examId), other) == QuestionsOf(questions, other)
      ensures OptionsOf(OptionsNotOf(options, examId), other) == OptionsOf(options, other)
    {
      WhereWhere(questions, (q: QuestionRow) => q.examId != examId, (q: QuestionRow) => q.examId == other);
      WhereWhere(options, (o: OptionRow) => o.examId != examId, (o: OptionRow) => o.examId == other);
    }
  }

  /** Delete leaves no question or option row of the exam and keeps every
      other exam's rows. */
  lemma DeleteRemovesOnly(questions: seq<QuestionRow>, options: seq<OptionRow>, examId: int)
    ensures QuestionsOf(QuestionsNotOf(questions, examId), examId) == []
    ensures OptionsOf(OptionsNotOf(options, examId), examId) == []
    ensures forall other :: other != examId ==>
      QuestionsOf(QuestionsNotOf(questions, examId), other) == QuestionsOf(questions, other)
    ensures forall other :: other != examId ==>
      OptionsOf(OptionsNotOf(options, examId), other) == OptionsOf(options, other)
  {
    OthersRows(questions, options, examId);
    FreshRowsOnly(QuestionsNotOf(questions, examId), OptionsNotOf(options, examId), examId, []);
    assert QuestionsNotOf(questions, examId) + QuestionRowsFor(examId, []) == QuestionsNotOf(questions, examId);
    assert OptionsNotOf(options, examId) + OptionRowsFor(examId, []) == OptionsNotOf(options, examId);
  }

  /** Update replaces rather than merges: afterwards the only question rows
      of `examId` are the newly inserted ones, and every other exam keeps
      exactly the question rows it had. */
  lemma UpdateReplacesQuestions(questions: seq<QuestionRow>, examId: int, qs: seq<QuestionInput>)
    ensures var after := QuestionsNotOf(questions, examId) + QuestionRowsFor(examId, qs);
      && QuestionsOf(after, examId) == QuestionRowsFor(examId, qs)
      && forall other :: other != examId ==> QuestionsOf(after, other) == QuestionsOf(questions, other)
  {
    var kept := QuestionsNotOf(questions, examId);
    var added := QuestionRowsFor(examId, qs);
    FreshRowsOnly(kept, [], examId, qs);
    OthersRows(questions, [], examId);
    NewRowsBelong(examId, qs);
    forall other | other != examId
      ensures QuestionsOf(kept + added, other) == QuestionsOf(questions, other)
    {
      var p := (q: QuestionRow) => q.examId == other;
      WhereConcat(kept, added, p);
      assert forall i :: 0 <= i < |added| ==> !p(added[i]) by {
        forall i | 0 <= i < |added| ensures !p(added[i]) { assert added[i] in added; }
      }
      WhereNone(added, p);
    }
  }

  /** The same for option rows. */
  lemma UpdateReplacesOptions(options: seq<OptionRow>, examId: int, qs: seq<QuestionInput>)
    ensures var after := OptionsNotOf(options, examId) + OptionRowsFor(examId, qs);
      && OptionsOf(after, examId) == OptionRowsFor(examId, qs)
      && forall other :: other != examId ==> OptionsOf(after, other) == OptionsOf(options, other)
  {
    var kept := OptionsNotOf(options, examId);
    var added := OptionRowsFor(examId, qs);
    FreshRowsOnly([], kept, examId, qs);
    OthersRows([], options, examId);
    NewRowsBelong(examId, qs);
    forall other | other != examId
      ensures OptionsOf(kept + added, other) == OptionsOf(options, other)
    {
      var p := (o: OptionRow) => o.examId == other;
      WhereConcat(kept, added, p);
      assert forall i :: 0 <= i < |added| ==> !p(added[i]) by {
        forall i | 0 <= i < |added| ensures !p(added[i]) { assert added[i] in added; }
      }
      WhereNone(added, p);
    }
  }

  /** Deleting an exam removes exactly its id from the table's ids. */
  lemma {:induction false} ExamIdsNotOf(rows: seq<ExamRow>, examId: int)
    ensures ExamIds(ExamsNotOf(rows, examId)) == ExamIds(rows) - {examId}
    decreases |rows|
  {
    if rows != [] {
      var n := |rows| - 1;
      ExamIdsNotOf(rows[..n], examId);
      assert rows == rows[..n] + [rows[n]];
      assert ExamIds(rows) == ExamIds(rows[..n]) + {rows[n].id};
      var p := (e: ExamRow) => e.id != examId;
      assert ExamsNotOf(rows, examId) == Where(rows[..n], p) + (if p(rows[n]) then [rows[n]] else []);
      if p(rows[n]) {
        assert ExamIds(ExamsNotOf(rows, examId)) == ExamIds(Where(rows[..n], p)) + {rows[n].id};
      }
    }
  }

  /** Setting an exam's columns keeps the table's ids. */
  lemma WithInfoIds(rows: seq<ExamRow>, examId: int, info: ExamInfo)
    ensures ExamIds(WithInfo(rows, examId, info)) == ExamIds(rows)
  {
    var r := WithInfo(rows, examId, info);
    forall x | x in ExamIds(r) ensures x in ExamIds(rows) {
      var e :| e in r && e.id == x;
      var i :| 0 <= i < |r| && r[i] == e;
      assert rows[i] in rows;
    }
    forall x | x in ExamIds(rows) ensures x in ExamIds(r) {
      var e :| e in rows && e.id == x;
      var i :| 0 <= i < |rows| && rows[i] == e;
      assert r[i] in r;
    }
  }

  /** Setting an exam's columns keeps ids keys. */
  lemma WithInfoKeyed(rows: seq<ExamRow>, examId: int, info: ExamInfo)
    requires Keyed(rows)
    ensures Keyed(WithInfo(rows, examId, info))
  {
    var r := WithInfo(rows, examId, info);
    forall i, j | 0 <= i < j < |r| ensures r[i].id != r[j].id {
      assert r[i].id == rows[i].id && r[j].id == rows[j].id;
    }
  }

  /** After the update, the exam with that id carries the new columns and
      every other exam row is one of the old ones. */
  lemma WithInfoRows(rows: seq<ExamRow>, examId: int, info: ExamInfo)
    ensures forall e :: e in WithInfo(rows, examId, info) ==>
      (e.id == examId ==> e.info == info) && (e.id != examId ==> e in rows)
  {
    var r := WithInfo(rows, examId, info);
    forall e | e in r ensures (e.id == examId ==> e.info == info) && (e.id != examId ==> e in rows) {
      var i :| 0 <= i < |r| && r[i] == e;
    }
  }

  lemma CreateKeepsConsistent(exams: seq<ExamRow>, questions: seq<QuestionRow>, options: seq<OptionRow>,
                              nextExamId: int, teacherId: int, info: ExamInfo, qs: seq<QuestionInput>)
    requires Consistent(exams, questions, options, nextExamId)
    ensures nextExamId !in ExamIds(exams)
    ensures Consistent(exams + [ExamRow(nextExamId, teacherId, info)],
                       questions + QuestionRowsFor(nextExamId, qs),
                       options + OptionRowsFor(nextExamId, qs), nextExamId + 1)
  {
    var exams' := exams + [ExamRow(nextExamId, teacherId, info)];
    assert ExamIds(exams') == ExamIds(exams) + {nextExamId};
    forall i, j | 0 <= i < j < |exams'| ensures exams'[i].id != exams'[j].id {
      assert exams'[i] == exams[i] && exams[i] in exams;
    }
    NewRowsBelong(nextExamId, qs);
  }

  lemma DeleteKeepsConsistent(exams: seq<ExamRow>, questions: seq<QuestionRow>, options: seq<OptionRow>,
                              nextExamId: int, examId: int)
    requires Consistent(exams, questions, options, nextExamId)
    ensures Consistent(ExamsNotOf(exams, examId), QuestionsNotOf(questions, examId),
                       OptionsNotOf(options, examId), nextExamId)
  {
    ExamIdsNotOf(exams, examId);
    var p := (e: ExamRow) => e.id != examId;
    var id := (e: ExamRow) => e.id;
    assert DistinctKeys(exams, id);
    WhereDistinct(exams, p, id);
    assert ExamsNotOf(exams, examId) == Where(exams, p);
    var kept := ExamsNotOf(exams, examId);
    assert forall i, j :: 0 <= i < j < |kept| ==> id(kept[i]) != id(kept[j]);
  }

  lemma UpdateKeepsConsistent(exams: seq<ExamRow>, questions: seq<QuestionRow>, options: seq<OptionRow>,
                              nextExamId: int, examId: int, info: ExamInfo, qs: seq<QuestionInput>)
    requires Consistent(exams, questions, options, nextExamId) && examId in ExamIds(exams)
    ensures Consistent(WithInfo(exams, examId, info),
                       QuestionsNotOf(questions, examId) + QuestionRowsFor(examId, qs),
                       OptionsNotOf(options, examId) + OptionRowsFor(examId, qs), nextExamId)
  {
    WithInfoIds(exams, examId, info);
    WithInfoKeyed(exams, examId, info);
    WithInfoRows(exams, examId, info);
    NewRowsBelong(examId, qs);
    var r := WithInfo(exams, examId, info);
    forall e | e in r ensures e.id < nextExamId {
      assert e.id in ExamIds(r);
    }
  }
}
