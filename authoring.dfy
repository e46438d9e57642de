/** How POST /exam and PUT /exam flatten a nested exam into question and
    option rows: the nested `for` loops give question `q` the index `q`, and
    option `o` of question `q` the index `o` and the question index `q`. */
module Authoring {
  import opened Wrappers
  import opened Rows

  function NewQuestionRow(examId: int, q: int, input: QuestionInput): QuestionRow {
    QuestionRow(q, examId, input.text, input.score, None)
  }

  function NewOptionRow(examId: int, q: int, o: int, input: OptionInput): OptionRow {
    OptionRow(examId, o, q, input.text, input.correctAnswer, None)
  }

  /** The question rows inserted for `qs`, in insertion order. */
  function QuestionRowsFor(examId: int, qs: seq<QuestionInput>): seq<QuestionRow>
    decreases |qs|
  {
    if qs == [] then []
    else QuestionRowsFor(examId, qs[..|qs| - 1]) + [NewQuestionRow(examId, |qs| - 1, qs[|qs| - 1])]
  }

  /** The option rows inserted for question `q` with options `os`. */
  function OptionRowsOf(examId: int, q: int, os: seq<OptionInput>): seq<OptionRow>
    decreases |os|
  {
    if os == [] then []
    else OptionRowsOf(examId, q, os[..|os| - 1]) + [NewOptionRow(examId, q, |os| - 1, os[|os| - 1])]
  }

  /** The option rows inserted for `qs`, in insertion order. */
  function OptionRowsFor(examId: int, qs: seq<QuestionInput>): seq<OptionRow>
    decreases |qs|
  {
    if qs == [] then []
    else OptionRowsFor(examId, qs[..|qs| - 1]) + OptionRowsOf(examId, |qs| - 1, qs[|qs| - 1].options)
  }

  /** The number of options of all questions in `qs`. */
  function OptionCount(qs: seq<QuestionInput>): nat
    decreases |qs|
  {
    if qs == [] then 0 else OptionCount(qs[..|qs| - 1]) + |qs[|qs| - 1].options|
  }

  /** Question `q` is inserted as the `q`-th row, with index `q`. */
  lemma {:induction false} QuestionRowsAt(examId: int, qs: seq<QuestionInput>)
    ensures |QuestionRowsFor(examId, qs)| == |qs|
    ensures forall q :: 0 <= q < |qs| ==>
      QuestionRowsFor(examId, qs)[q] == QuestionRow(q, examId, qs[q].text, qs[q].score, None)
    decreases |qs|
  {
    if qs != [] {
      var n := |qs| - 1;
      QuestionRowsAt(examId, qs[..n]);
    }
  }

  /** Option `o` of question `q` is the `o`-th of its block, with index `o`
      and question index `q`. */
  lemma {:induction false} OptionRowsOfAt(examId: int, q: int, os: seq<OptionInput>)
    ensures |OptionRowsOf(examId, q, os)| == |os|
    ensures forall o :: 0 <= o < |os| ==>
      OptionRowsOf(examId, q, os)[o] == OptionRow(examId, o, q, os[o].text, os[o].correctAnswer, None)
    decreases |os|
  {
    if os != [] {
      OptionRowsOfAt(examId, q, os[..|os| - 1]);
    }
  }

  /** Where option `o` of question `q` lands among all inserted option rows:
      after the options of the questions before `q`, so indices are
      contiguous from 0 within every question. */
  lemma {:induction false} OptionRowsForAt(examId: int, qs: seq<QuestionInput>, q: int, o: int)
    requires 0 <= q < |qs| && 0 <= o < |qs[q].options|
    ensures |OptionRowsFor(examId, qs)| == OptionCount(qs)
    ensures OptionCount(qs[..q]) + o < OptionCount(qs)
    ensures OptionRowsFor(examId, qs)[OptionCount(qs[..q]) + o]
         == OptionRow(examId, o, q, qs[q].options[o].text, qs[q].options[o].correctAnswer, None)
    decreases |qs|
  {
    var n := |qs| - 1;
    var front := qs[..n];
    OptionRowsForCount(examId, qs);
    OptionRowsOfAt(examId, n, qs[n].options);
    if q < n {
      OptionRowsForAt(examId, front, q, o);
      assert front[..q] == qs[..q];
      assert front[q] == qs[q];
    } else {
      OptionRowsForCount(examId, front);
      assert qs[..q] == front;
    }
  }

  lemma {:induction false} OptionRowsForCount(examId: int, qs: seq<QuestionInput>)
    ensures |OptionRowsFor(examId, qs)| == OptionCount(qs)
    decreases |qs|
  {
    if qs != [] {
      var n := |qs| - 1;
      OptionRowsForCount(examId, qs[..n]);
      OptionRowsOfAt(examId, n, qs[n].options);
    }
  }

  /** Every inserted option row belongs to the new exam and is the option of
      the input that its question index and index name. */
  lemma {:induction false} OptionRowsForSound(examId: int, qs: seq<QuestionInput>)
    ensures forall r :: r in OptionRowsFor(examId, qs) ==>
      && r.examId == examId
      && 0 <= r.questionIndex < |qs|
      && 0 <= r.index < |qs[r.questionIndex].options|
      && r == NewOptionRow(examId, r.questionIndex, r.index, qs[r.questionIndex].options[r.index])
    decreases |qs|
  {
    if qs != [] {
      var n := |qs| - 1;
      var front := qs[..n];
      OptionRowsForSound(examId, front);
      OptionRowsOfAt(examId, n, qs[n].options);
      forall r | r in OptionRowsFor(examId, qs)
        ensures r.examId == examId && 0 <= r.questionIndex < |qs|
        ensures 0 <= r.index < |qs[r.questionIndex].options|
        ensures r == NewOptionRow(examId, r.questionIndex, r.index, qs[r.questionIndex].options[r.index])
      {
        if r in OptionRowsFor(examId, front) {
          assert front[r.questionIndex] == qs[r.questionIndex];
        } else {
          var block := OptionRowsOf(examId, n, qs[n].options);
          assert r in block;
          var o :| 0 <= o < |block| && block[o] == r;
        }
      }
    }
  }

  /** Inserted option rows strictly increase under `compareOptions`. */
  ghost predicate StrictlyIncreasing(s: seq<OptionRow>) {
    forall i, j :: 0 <= i < j < |s| ==> CompareOptions(s[i], s[j]) < 0
  }

  /** The option rows are inserted already in `compareOptions` order, and no
      two of them share a (question index, index) pair. */
  lemma {:induction false} OptionRowsForIncreasing(examId: int, qs: seq<QuestionInput>)
    ensures StrictlyIncreasing(OptionRowsFor(examId, qs))
    decreases |qs|
  {
    if qs != [] {
      var n := |qs| - 1;
      var front := qs[..n];
      var a := OptionRowsFor(examId, front);
      var b := OptionRowsOf(examId, n, qs[n].options);
      OptionRowsForIncreasing(examId, front);
      OptionRowsForSound(examId, front);
      OptionRowsOfAt(examId, n, qs[n].options);
      var s := a + b;
      forall i, j | 0 <= i < j < |s| ensures CompareOptions(s[i], s[j]) < 0 {
        if j < |a| {
          assert s[i] == a[i] && s[j] == a[j];
        } else if i < |a| {
          assert s[i] == a[i] && a[i] in a;
          assert s[j] == b[j - |a|];
        } else {
          assert s[i] == b[i - |a|] && s[j] == b[j - |a|];
        }
      }
    }
  }
}
