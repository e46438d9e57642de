/** POST /question: the questions of every exam of a class, each with its own
    options and the statistics columns copied out. Questions are sorted by
    index and options by `compareOptions`; then, for every question, the
    options whose question index and exam id both match are pushed in order. */
module QuestionBank {
  import opened Wrappers
  import opened Sequences
  import opened Sorting
  import opened Rows

  /** `questionObj`: the question's columns other than `score`, and its options. */
  datatype BankQuestion = BankQuestion(
    index: int,
    examId: int,
    text: string,
    stats: Option<QuestionStats>,
    options: seq<OptionRow>)

  predicate Belongs(q: QuestionRow, o: OptionRow) {
    q.index == o.questionIndex && q.examId == o.examId
  }

  /** The options the inner loop pushes for question `q`. */
  function OptionsOfQuestion(q: QuestionRow, opts: seq<OptionRow>): seq<OptionRow> {
    Where(opts, (o: OptionRow) => Belongs(q, o))
  }

  function Entry(q: QuestionRow, opts: seq<OptionRow>): BankQuestion {
    BankQuestion(q.index, q.examId, q.text, q.stats, OptionsOfQuestion(q, opts))
  }

  /** The response body's `questions`, given the rows the two joins return. */
  function Bank(questions: seq<QuestionRow>, options: seq<OptionRow>): (b: seq<BankQuestion>)
    ensures |b| == |questions|
  {
    var qs := SortBy(CompareQuestions, questions);
    var os := SortBy(CompareOptions, options);
    seq(|qs|, i requires 0 <= i < |qs| => Entry(qs[i], os))
  }

  method CollectQuestions(questions: seq<QuestionRow>, options: seq<OptionRow>) returns (parsed: seq<BankQuestion>)
    ensures parsed == Bank(questions, options)
  {
    var qs := SortBy(CompareQuestions, questions);
    var os := SortBy(CompareOptions, options);
    parsed := [];
    for q := 0 to |qs|
      invariant |parsed| == q
      invariant forall i :: 0 <= i < q ==> parsed[i] == Entry(qs[i], os)
    {
      var pushed: seq<OptionRow> := [];
      for o := 0 to |os|
        invariant pushed == OptionsOfQuestion(qs[q], os[..o])
      {
        assert os[..o + 1] == os[..o] + [os[o]];
        WhereSnoc(os[..o], os[o], (x: OptionRow) => Belongs(qs[q], x));
        if qs[q].index != os[o].questionIndex || qs[q].examId != os[o].examId {
          continue;
        } else {
          pushed := pushed + [os[o]];
        }
      }
      assert os[..|os|] == os;
      parsed := parsed + [BankQuestion(qs[q].index, qs[q].examId, qs[q].text, qs[q].stats, pushed)];
    }
  }

  /** Entry `i` is built from the `i`-th question in index order. */
  lemma BankAt(questions: seq<QuestionRow>, options: seq<OptionRow>, i: int)
    requires 0 <= i < |questions|
    ensures Bank(questions, options)[i]
         == Entry(SortBy(CompareQuestions, questions)[i], SortBy(CompareOptions, options))
  {
  }

  /** The entries come in ascending question index order. */
  lemma BankAscending(questions: seq<QuestionRow>, options: seq<OptionRow>)
    ensures var b := Bank(questions, options);
      forall i, j :: 0 <= i < j < |b| ==> b[i].index <= b[j].index
  {
    var b := Bank(questions, options);
    SortedQuestionsAscending(questions);
    forall i, j | 0 <= i < j < |b| ensures b[i].index <= b[j].index {
      BankAt(questions, options, i);
      BankAt(questions, options, j);
    }
  }

  /** The question columns an entry copies, `score` left out. */
  predicate Copies(q: QuestionRow, e: BankQuestion) {
    q.index == e.index && q.examId == e.examId && q.text == e.text && q.stats == e.stats
  }

  /** The columns an entry carries over from its question row. */
  datatype Columns = Columns(index: int, examId: int, text: string, stats: Option<QuestionStats>)

  function RowColumns(q: QuestionRow): Columns {
    Columns(q.index, q.examId, q.text, q.stats)
  }

  function EntryColumns(e: BankQuestion): Columns {
    Columns(e.index, e.examId, e.text, e.stats)
  }

  /** One entry per question row: the entries' columns are the rows' columns,
      `score` left out, each as often as it occurs among the rows. */
  lemma BankCopiesRows(questions: seq<QuestionRow>, options: seq<OptionRow>)
    ensures multiset(Map(EntryColumns, Bank(questions, options))) == multiset(Map(RowColumns, questions))
  {
    var qs := SortBy(CompareQuestions, questions);
    var b := Bank(questions, options);
    forall i | 0 <= i < |b| ensures EntryColumns(b[i]) == RowColumns(qs[i]) {
      BankAt(questions, options, i);
    }
    assert Map(EntryColumns, b) == Map(RowColumns, qs);
    SortByPermutes(CompareQuestions, questions);
    MapPermutes(RowColumns, qs, questions);
  }

  /** Every entry copies some question row. */
  lemma BankFromRows(questions: seq<QuestionRow>, options: seq<OptionRow>, i: int)
    requires 0 <= i < |questions|
    ensures exists q :: q in questions && Copies(q, Bank(questions, options)[i])
  {
    var qs := SortBy(CompareQuestions, questions);
    BankAt(questions, options, i);
    SortByPermutes(CompareQuestions, questions);
    assert qs[i] in multiset(qs);
    assert qs[i] in questions;
    assert Copies(qs[i], Bank(questions, options)[i]);
  }

  /** Every question row has an entry. */
  lemma BankCoversRows(questions: seq<QuestionRow>, options: seq<OptionRow>, q: QuestionRow)
    requires q in questions
    ensures exists i :: 0 <= i < |questions| && Copies(q, Bank(questions, options)[i])
  {
    var qs := SortBy(CompareQuestions, questions);
    SortByPermutes(CompareQuestions, questions);
    assert q in multiset(questions);
    assert q in qs;
    var i :| 0 <= i < |qs| && qs[i] == q;
    BankAt(questions, options, i);
    assert Copies(q, Bank(questions, options)[i]);
  }

  /** The options of an entry are exactly the option rows with its question
      index and exam id, in `compareOptions` order; rows are copied unchanged. */
  lemma BankOptionsExact(questions: seq<QuestionRow>, options: seq<OptionRow>, i: int, o: OptionRow)
    requires 0 <= i < |questions|
    ensures var b := Bank(questions, options);
      && (o in b[i].options <==> o in options && o.questionIndex == b[i].index && o.examId == b[i].examId)
      && Sorted(CompareOptions, b[i].options)
  {
    var qs := SortBy(CompareQuestions, questions);
    var os := SortBy(CompareOptions, options);
    var p := (x: OptionRow) => Belongs(qs[i], x);
    WhereMembers(os, p);
    SortByPermutes(CompareOptions, options);
    SortByPermutes(CompareQuestions, questions);
    assert o in options <==> o in os by {
      assert o in options <==> o in multiset(options);
    }
    if o in os && Belongs(qs[i], o) {
      WhereComplete(os, p);
    }
    CompareOptionsIsComparator();
    SortBySorted(CompareOptions, options);
    WhereSorted(CompareOptions, os, p);
  }

  /** Each matching option row appears under its entry as many times as it
      occurs among the joined rows: the sort before the inner loop neither
      duplicates nor drops rows. */
  lemma BankOptionsCounted(questions: seq<QuestionRow>, options: seq<OptionRow>, i: int)
    requires 0 <= i < |questions|
    ensures multiset(Bank(questions, options)[i].options)
         == multiset(OptionsOfQuestion(SortBy(CompareQuestions, questions)[i], options))
  {
    var q := SortBy(CompareQuestions, questions)[i];
    SortByPermutes(CompareOptions, options);
    WherePermutes(SortBy(CompareOptions, options), options, (x: OptionRow) => Belongs(q, x));
  }

  /** An option row that matches no question row appears under no entry. */
  lemma OrphanOptionsDropped(questions: seq<QuestionRow>, options: seq<OptionRow>, o: OptionRow)
    requires forall q :: q in questions ==> !Belongs(q, o)
    ensures forall i :: 0 <= i < |Bank(questions, options)| ==> o !in Bank(questions, options)[i].options
  {
    var qs := SortBy(CompareQuestions, questions);
    var os := SortBy(CompareOptions, options);
    SortByPermutes(CompareQuestions, questions);
    forall i | 0 <= i < |qs| ensures o !in Bank(questions, options)[i].options {
      assert qs[i] in multiset(qs);
      assert qs[i] in multiset(questions);
      WhereMembers(os, (x: OptionRow) => Belongs(qs[i], x));
    }
  }
}
