/** How GET /exam/:exam_id puts option rows under their questions: every
    question starts with an empty option list, then each option, in order, is
    pushed onto the first question whose index equals its question index. An
    option with no such question makes `findIndex` return -1, the push then
    throws, and the handler answers 500. */
module Assembly {
  import opened Wrappers
  import opened Sequences
  import opened Sorting
  import opened Rows
  import opened Authoring

  datatype ExamQuestion = ExamQuestion(row: QuestionRow, options: seq<OptionRow>)

  /** `Array.prototype.findIndex` on the question index: the position of the
      first question with that index, or -1. */
  function FindQuestion(qs: seq<QuestionRow>, questionIndex: int): (r: int)
    ensures -1 <= r < |qs|
    ensures 0 <= r ==> qs[r].index == questionIndex
    ensures forall k :: 0 <= k < |qs| && (r < 0 || k < r) ==> qs[k].index != questionIndex
  {
    if qs == [] then -1
    else if qs[0].index == questionIndex then 0
    else
      var r := FindQuestion(qs[1..], questionIndex);
      if r < 0 then -1 else r + 1
  }

  /** The options that end up under the question at position `i`. */
  function OptionsUnder(qs: seq<QuestionRow>, opts: seq<OptionRow>, i: int): seq<OptionRow> {
    Where(opts, (o: OptionRow) => FindQuestion(qs, o.questionIndex) == i)
  }

  /** Every option finds a question. */
  predicate AllPlaced(qs: seq<QuestionRow>, opts: seq<OptionRow>) {
    forall k :: 0 <= k < |opts| ==> FindQuestion(qs, opts[k].questionIndex) >= 0
  }

  /** Every question, in order, with the options placed under it. */
  function Groups(qs: seq<QuestionRow>, opts: seq<OptionRow>): (g: seq<ExamQuestion>)
    ensures |g| == |qs|
    ensures forall i :: 0 <= i < |qs| ==> g[i] == ExamQuestion(qs[i], OptionsUnder(qs, opts, i))
  {
    seq(|qs|, i requires 0 <= i < |qs| => ExamQuestion(qs[i], OptionsUnder(qs, opts, i)))
  }

  /** The grouped exam, or `None` when an option finds no question. */
  function Grouped(qs: seq<QuestionRow>, opts: seq<OptionRow>): Option<seq<ExamQuestion>> {
    if AllPlaced(qs, opts) then Some(Groups(qs, opts)) else None
  }

  /** Some question has index `questionIndex`. */
  predicate Named(qs: seq<QuestionRow>, questionIndex: int) {
    exists j :: 0 <= j < |qs| && qs[j].index == questionIndex
  }

  /** The two loops of the handler: `question.options = []` for every
      question, then `findIndex` and `push` for every option. */
  method AttachOptions(qs: seq<QuestionRow>, opts: seq<OptionRow>) returns (r: Option<seq<ExamQuestion>>)
    ensures r == Grouped(qs, opts)
    ensures r.None? <==> exists k :: 0 <= k < |opts| && !Named(qs, opts[k].questionIndex)
  {
    GroupedFailsIff(qs, opts);
    var exam: seq<ExamQuestion> := [];
    for i := 0 to |qs|
      invariant |exam| == i
      invariant forall j :: 0 <= j < i ==> exam[j] == ExamQuestion(qs[j], [])
    {
      exam := exam + [ExamQuestion(qs[i], [])];
    }
    assert opts[..0] == [];
    assert exam == Groups(qs, opts[..0]);
    for k := 0 to |opts|
      invariant AllPlaced(qs, opts[..k])
      invariant exam == Groups(qs, opts[..k])
    {
      var found := FindQuestion(qs, opts[k].questionIndex);
      if found < 0 {
        return None;
      }
      AttachStep(qs, opts, k);
      exam := exam[found := ExamQuestion(exam[found].row, exam[found].options + [opts[k]])];
    }
    assert opts[..|opts|] == opts;
    r := Some(exam);
  }

  /** One `push`: the option goes under the question `findIndex` chose and
      every other question's list stays as it was. */
  lemma AttachStep(qs: seq<QuestionRow>, opts: seq<OptionRow>, k: int)
    requires 0 <= k < |opts| && AllPlaced(qs, opts[..k])
    requires FindQuestion(qs, opts[k].questionIndex) >= 0
    ensures AllPlaced(qs, opts[..k + 1])
    ensures var found := FindQuestion(qs, opts[k].questionIndex);
      var before := Groups(qs, opts[..k]);
      before[found := ExamQuestion(qs[found], before[found].options + [opts[k]])] == Groups(qs, opts[..k + 1])
  {
    var o := opts[k];
    assert opts[..k + 1] == opts[..k] + [o];
    GroupsSnoc(qs, opts[..k], o, FindQuestion(qs, o.questionIndex));
    AllPlacedSnoc(qs, opts[..k], o);
  }

  lemma AllPlacedSnoc(qs: seq<QuestionRow>, opts: seq<OptionRow>, o: OptionRow)
    requires AllPlaced(qs, opts) && FindQuestion(qs, o.questionIndex) >= 0
    ensures AllPlaced(qs, opts + [o])
  {
    var s := opts + [o];
    forall i | 0 <= i < |s| ensures FindQuestion(qs, s[i].questionIndex) >= 0 {
      if i < |opts| {
        assert s[i] == opts[i];
      }
    }
  }

  lemma GroupsSnoc(qs: seq<QuestionRow>, opts: seq<OptionRow>, o: OptionRow, found: int)
    requires 0 <= found < |qs| && FindQuestion(qs, o.questionIndex) == found
    ensures var before := Groups(qs, opts);
      before[found := ExamQuestion(qs[found], before[found].options + [o])] == Groups(qs, opts + [o])
  {
    var before := Groups(qs, opts);
    var after := Groups(qs, opts + [o]);
    var pushed := before[found := ExamQuestion(qs[found], before[found].options + [o])];
    forall j | 0 <= j < |qs| ensures pushed[j] == after[j] {
      OptionsUnderSnoc(qs, opts, o, j);
      assert after[j] == ExamQuestion(qs[j], OptionsUnder(qs, opts + [o], j));
      assert before[j] == ExamQuestion(qs[j], OptionsUnder(qs, opts, j));
      if j == found {
        assert pushed[j] == ExamQuestion(qs[j], OptionsUnder(qs, opts, j) + [o]);
      } else {
        assert pushed[j] == before[j];
      }
    }
    assert |pushed| == |after|;
  }

  lemma OptionsUnderSnoc(qs: seq<QuestionRow>, opts: seq<OptionRow>, o: OptionRow, i: int)
    ensures OptionsUnder(qs, opts + [o], i)
         == OptionsUnder(qs, opts, i) + (if FindQuestion(qs, o.questionIndex) == i then [o] else [])
  {
    WhereSnoc(opts, o, (o: OptionRow) => FindQuestion(qs, o.questionIndex) == i);
  }

  /** `findIndex` fails exactly when no question has the index. */
  lemma FindQuestionFails(qs: seq<QuestionRow>, questionIndex: int)
    ensures FindQuestion(qs, questionIndex) < 0 <==> !Named(qs, questionIndex)
  {
    var r := FindQuestion(qs, questionIndex);
    if r >= 0 {
      assert qs[r].index == questionIndex;
    }
  }

  /** The handler answers 500 exactly when some option names a question
      index that no question has. */
  lemma GroupedFailsIff(qs: seq<QuestionRow>, opts: seq<OptionRow>)
    ensures Grouped(qs, opts).None? <==> exists k :: 0 <= k < |opts| && !Named(qs, opts[k].questionIndex)
  {
    forall k | 0 <= k < |opts|
      ensures FindQuestion(qs, opts[k].questionIndex) < 0 <==> !Named(qs, opts[k].questionIndex)
    {
      FindQuestionFails(qs, opts[k].questionIndex);
    }
  }

  /** An option sits under question `i` exactly when question `i` is the
      first one with its question index; options keep their relative order. */
  lemma OptionsUnderMembers(qs: seq<QuestionRow>, opts: seq<OptionRow>, i: int, o: OptionRow)
    ensures o in OptionsUnder(qs, opts, i) <==> o in opts && FindQuestion(qs, o.questionIndex) == i
  {
    var p := (o: OptionRow) => FindQuestion(qs, o.questionIndex) == i;
    WhereMembers(opts, p);
    if o in opts && FindQuestion(qs, o.questionIndex) == i {
      WhereComplete(opts, p);
    }
  }

  /** A question that no option names keeps the empty list it started with. */
  lemma UnnamedQuestionEmpty(qs: seq<QuestionRow>, opts: seq<OptionRow>, i: int)
    requires 0 <= i < |qs|
    requires forall k :: 0 <= k < |opts| ==> opts[k].questionIndex != qs[i].index
    ensures OptionsUnder(qs, opts, i) == []
  {
    WhereNone(opts, (o: OptionRow) => FindQuestion(qs, o.questionIndex) == i);
  }

  /** When question indices are distinct, the options under a question are
      exactly those naming its index. */
  lemma OptionsUnderDistinct(qs: seq<QuestionRow>, opts: seq<OptionRow>, i: int, o: OptionRow)
    requires 0 <= i < |qs|
    requires forall a, b :: 0 <= a < b < |qs| ==> qs[a].index != qs[b].index
    ensures o in OptionsUnder(qs, opts, i) <==> o in opts && o.questionIndex == qs[i].index
  {
    OptionsUnderMembers(qs, opts, i, o);
  }

  /** The options under a question are in the order the options came in;
      in particular in `compareOptions` order when they were sorted. */
  lemma OptionsUnderSorted(qs: seq<QuestionRow>, opts: seq<OptionRow>, i: int)
    requires Sorted(CompareOptions, opts)
    ensures Sorted(CompareOptions, OptionsUnder(qs, opts, i))
  {
    WhereSorted(CompareOptions, opts, (o: OptionRow) => FindQuestion(qs, o.questionIndex) == i);
  }

  /** The number of options under the first `n` questions. */
  function PlacedCount(qs: seq<QuestionRow>, opts: seq<OptionRow>, n: nat): nat {
    if n == 0 then 0 else PlacedCount(qs, opts, n - 1) + |OptionsUnder(qs, opts, n - 1)|
  }

  lemma {:induction false} PlacedCountSnoc(qs: seq<QuestionRow>, opts: seq<OptionRow>, o: OptionRow, n: nat)
    ensures PlacedCount(qs, opts + [o], n)
         == PlacedCount(qs, opts, n) + (if 0 <= FindQuestion(qs, o.questionIndex) < n then 1 else 0)
  {
    if n > 0 {
      PlacedCountSnoc(qs, opts, o, n - 1);
      WhereSnoc(opts, o, (o: OptionRow) => FindQuestion(qs, o.questionIndex) == n - 1);
    }
  }

  lemma {:induction false} PlacedCountAll(qs: seq<QuestionRow>, opts: seq<OptionRow>)
    requires AllPlaced(qs, opts)
    ensures PlacedCount(qs, opts, |qs|) == |opts|
    decreases |opts|
  {
    if opts == [] {
      PlacedCountEmpty(qs, |qs|);
    } else {
      var n := |opts| - 1;
      assert opts == opts[..n] + [opts[n]];
      assert AllPlaced(qs, opts[..n]) by {
        forall k | 0 <= k < n ensures FindQuestion(qs, opts[..n][k].questionIndex) >= 0 {
          assert opts[..n][k] == opts[k];
        }
      }
      PlacedCountAll(qs, opts[..n]);
      PlacedCountSnoc(qs, opts[..n], opts[n], |qs|);
    }
  }

  lemma {:induction false} PlacedCountEmpty(qs: seq<QuestionRow>, n: nat)
    ensures PlacedCount(qs, [], n) == 0
  {
    if n > 0 {
      PlacedCountEmpty(qs, n - 1);
    }
  }

  /** The number of options across a list of questions. */
  function TotalOptions(g: seq<ExamQuestion>): nat {
    if g == [] then 0 else TotalOptions(g[..|g| - 1]) + |g[|g| - 1].options|
  }

  lemma {:induction false} TotalOptionsIsPlacedCount(qs: seq<QuestionRow>, opts: seq<OptionRow>, g: seq<ExamQuestion>, n: nat)
    requires n <= |g| == |qs|
    requires forall i :: 0 <= i < |g| ==> g[i].options == OptionsUnder(qs, opts, i)
    ensures TotalOptions(g[..n]) == PlacedCount(qs, opts, n)
  {
    if n > 0 {
      TotalOptionsIsPlacedCount(qs, opts, g, n - 1);
      assert g[..n][..n - 1] == g[..n - 1];
    }
  }

  /** Grouping loses and duplicates no option: the options across all
      questions are as many as the option rows. */
  lemma GroupedKeepsEveryOption(qs: seq<QuestionRow>, opts: seq<OptionRow>)
    requires Grouped(qs, opts).Some?
    ensures TotalOptions(Grouped(qs, opts).value) == |opts|
  {
    var g := Grouped(qs, opts).value;
    TotalOptionsIsPlacedCount(qs, opts, g, |g|);
    assert g[..|g|] == g;
    PlacedCountAll(qs, opts);
  }

  /** In the rows inserted by the authoring routes, question `k` is found at
      position `k`. */
  lemma FindCreatedQuestion(examId: int, qs: seq<QuestionInput>, k: int)
    requires 0 <= k < |qs|
    ensures FindQuestion(QuestionRowsFor(examId, qs), k) == k
  {
    QuestionRowsAt(examId, qs);
    var rows := QuestionRowsFor(examId, qs);
    assert rows[k].index == k;
    var r := FindQuestion(rows, k);
    assert r >= 0 && !(k < r);
  }

  lemma OptionsUnderConcat(qs: seq<QuestionRow>, a: seq<OptionRow>, b: seq<OptionRow>, i: int)
    ensures OptionsUnder(qs, a + b, i) == OptionsUnder(qs, a, i) + OptionsUnder(qs, b, i)
  {
    WhereConcat(a, b, (o: OptionRow) => FindQuestion(qs, o.questionIndex) == i);
  }

  /** The options inserted for question `n` all go under question `n`. */
  lemma CreatedBlockUnder(examId: int, qs: seq<QuestionInput>, n: int, i: int)
    requires 0 <= n < |qs|
    ensures OptionsUnder(QuestionRowsFor(examId, qs), OptionRowsOf(examId, n, qs[n].options), i)
         == if i == n then OptionRowsOf(examId, n, qs[n].options) else []
  {
    var rows := QuestionRowsFor(examId, qs);
    var block := OptionRowsOf(examId, n, qs[n].options);
    var p := (o: OptionRow) => FindQuestion(rows, o.questionIndex) == i;
    OptionRowsOfAt(examId, n, qs[n].options);
    FindCreatedQuestion(examId, qs, n);
    if i == n {
      WhereAll(block, p);
    } else {
      WhereNone(block, p);
    }
  }

  /** The inserted option rows of the first `m` questions, grouped under the
      inserted question rows of all of them. */
  lemma {:induction false} CreatedOptionsUnder(examId: int, qs: seq<QuestionInput>, m: nat, i: int)
    requires m <= |qs|
    ensures OptionsUnder(QuestionRowsFor(examId, qs), OptionRowsFor(examId, qs[..m]), i)
         == if 0 <= i < m then OptionRowsOf(examId, i, qs[i].options) else []
  {
    var rows := QuestionRowsFor(examId, qs);
    if m > 0 {
      var n := m - 1;
      assert qs[..m][..n] == qs[..n];
      var front := OptionRowsFor(examId, qs[..n]);
      var block := OptionRowsOf(examId, n, qs[n].options);
      assert OptionRowsFor(examId, qs[..m]) == front + block;
      CreatedOptionsUnder(examId, qs, n, i);
      OptionsUnderConcat(rows, front, block, i);
      CreatedBlockUnder(examId, qs, n, i);
    } else {
      assert qs[..0] == [];
    }
  }

  /** The authoring routes insert rows already in the order both sorts give. */
  lemma CreatedRowsSorted(examId: int, qs: seq<QuestionInput>)
    ensures SortBy(CompareQuestions, QuestionRowsFor(examId, qs)) == QuestionRowsFor(examId, qs)
    ensures SortBy(CompareOptions, OptionRowsFor(examId, qs)) == OptionRowsFor(examId, qs)
  {
    var rows := QuestionRowsFor(examId, qs);
    var opts := OptionRowsFor(examId, qs);
    QuestionRowsAt(examId, qs);
    CompareQuestionsIsComparator();
    CompareOptionsIsComparator();
    assert Sorted(CompareQuestions, rows);
    SortByIdentity(CompareQuestions, rows);
    OptionRowsForIncreasing(examId, qs);
    assert Sorted(CompareOptions, opts);
    SortByIdentity(CompareOptions, opts);
  }

  /** Every inserted option finds its question. */
  lemma CreatedAllPlaced(examId: int, qs: seq<QuestionInput>)
    ensures AllPlaced(QuestionRowsFor(examId, qs), OptionRowsFor(examId, qs))
  {
    var rows := QuestionRowsFor(examId, qs);
    var opts := OptionRowsFor(examId, qs);
    OptionRowsForSound(examId, qs);
    forall k | 0 <= k < |opts| ensures FindQuestion(rows, opts[k].questionIndex) >= 0 {
      assert opts[k] in opts;
      FindCreatedQuestion(examId, qs, opts[k].questionIndex);
    }
  }

  /** Round trip: an exam as POST /exam or PUT /exam stores it comes back
      from GET /exam/:exam_id (without shuffling) as the nested exam that was
      sent, every option under its own question in its own position. */
  lemma CreatedExamRegroups(examId: int, qs: seq<QuestionInput>)
    ensures var rows := QuestionRowsFor(examId, qs);
      var g := Grouped(SortBy(CompareQuestions, rows), SortBy(CompareOptions, OptionRowsFor(examId, qs)));
      && g.Some?
      && |g.value| == |qs|
      && forall i :: 0 <= i < |qs| ==>
           g.value[i] == ExamQuestion(QuestionRow(i, examId, qs[i].text, qs[i].score, None),
                                      OptionRowsOf(examId, i, qs[i].options))
  {
    var rows := QuestionRowsFor(examId, qs);
    var opts := OptionRowsFor(examId, qs);
    CreatedRowsSorted(examId, qs);
    CreatedAllPlaced(examId, qs);
    QuestionRowsAt(examId, qs);
    assert qs[..|qs|] == qs;
    var g := Groups(rows, opts);
    forall i | 0 <= i < |qs|
      ensures g[i] == ExamQuestion(QuestionRow(i, examId, qs[i].text, qs[i].score, None),
                                   OptionRowsOf(examId, i, qs[i].options))
    {
      CreatedOptionsUnder(examId, qs, |qs|, i);
    }
  }
}
