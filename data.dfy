/**
  Question filtering and the result header (src/data.py).

  A pandas frame is modelled as a sequence of rows, each carrying its index
  label. `filter_top_questions` annotates the caller's question frame in place
  with the per-question answer count and returns, renumbered, the rows whose
  count reaches a threshold.
 */
module Data {
  import opened Common

  /** A row of the answer table; `answer_id` may be missing (NaN). */
  datatype Answer = Answer(answerId: Option<int>, questionId: int, userId: int)

  /** The columns of the question table used here; `nAnswers` is `n_answers`, `None` for NaN. */
  datatype Question = Question(questionId: int, text: string, nAnswers: Option<nat>)

  /** A labelled row of the question frame. */
  datatype Row = Row(index: int, question: Question)

  /** A row after `reset_index()`: its new label and the old label kept in column `index`. */
  datatype TopRow = TopRow(position: nat, index: int, question: Question)

  /** The question frame, which `filter_top_questions` changes in place. */
  class QuestionFrame {
    var rows: seq<Row>

    constructor (rows: seq<Row>)
      ensures this.rows == rows
    {
      this.rows := rows;
    }
  }

  // ---------------------------------------------------------------------------
  // Counting answers per question, as pandas groups the answer table by question id (src/data.py:32)

  /** Some answer row refers to question `q`, so `q` is a group of the groupby. */
  ghost predicate HasAnswerRow(answers: seq<Answer>, q: int) {
    exists i :: 0 <= i < |answers| && answers[i].questionId == q
  }

  /** The answer rows of question `q` whose `answer_id` is present: what `count()` counts. */
  ghost function CountedRows(answers: seq<Answer>, q: int): set<nat> {
    set i: nat | i < |answers| && answers[i].questionId == q && answers[i].answerId.Some?
  }

  /** The count pandas reports for question `q`, `None` when `q` is no group. */
  ghost function AnswerCount(answers: seq<Answer>, q: int): Option<nat> {
    if HasAnswerRow(answers, q) then Some(|CountedRows(answers, q)|) else None
  }

  /** The groupby count as a map from question id to count, built row by row. */
  function GroupCount(answers: seq<Answer>): (counts: map<int, nat>)
    ensures forall q :: q in counts ==> counts[q] <= |answers|
  {
    if answers == [] then map[]
    else
      var counts := GroupCount(answers[..|answers| - 1]);
      var a := answers[|answers| - 1];
      var before := if a.questionId in counts then counts[a.questionId] else 0;
      counts[a.questionId := before + if a.answerId.Some? then 1 else 0]
  }

  /** `Series.map(counts)`: the count of a question id, NaN when it is no key. */
  function Lookup(counts: map<int, nat>, q: int): (r: Option<nat>)
    ensures r.Some? <==> q in counts
    ensures r.Some? ==> r.value == counts[q]
  {
    if q in counts then Some(counts[q]) else None
  }

  /** Question `q` has an answer row among `answers + [a]` iff it has one among `answers` or is `a`'s. */
  lemma HasAnswerRowSnoc(answers: seq<Answer>, a: Answer, q: int)
    ensures HasAnswerRow(answers + [a], q) <==> HasAnswerRow(answers, q) || a.questionId == q
  {
    var all := answers + [a];
    if HasAnswerRow(all, q) {
      var i :| 0 <= i < |all| && all[i].questionId == q;
      if i < |answers| { assert answers[i] == all[i]; }
    }
    if HasAnswerRow(answers, q) {
      var i :| 0 <= i < |answers| && answers[i].questionId == q;
      assert all[i] == answers[i];
    }
    assert all[|answers|] == a;
  }

  /** Appending a row adds it to the counted rows of its question when its id is present. */
  lemma CountedRowsSnoc(answers: seq<Answer>, a: Answer, q: int)
    ensures |CountedRows(answers + [a], q)| ==
            |CountedRows(answers, q)| + if a.questionId == q && a.answerId.Some? then 1 else 0
  {
    var all, n := answers + [a], |answers|;
    var before, after := CountedRows(answers, q), CountedRows(all, q);
    var added: set<nat> := if a.questionId == q && a.answerId.Some? then {n} else {};
    forall i | i in after ensures i in before + added {
      if i < n { assert all[i] == answers[i]; }
    }
    forall i | i in before + added ensures i in after {
      if i < n { assert all[i] == answers[i]; }
    }
    assert after == before + added;
    assert n !in before;
  }

  /** The map built row by row agrees with the groupby's definition of a count. */
  lemma {:induction false} GroupCountCorrect(answers: seq<Answer>, q: int)
    ensures Lookup(GroupCount(answers), q) == AnswerCount(answers, q)
  {
    if answers == [] {
      assert !HasAnswerRow(answers, q);
    } else {
      var n := |answers| - 1;
      var prefix, a := answers[..n], answers[n];
      assert answers == prefix + [a];
      GroupCountCorrect(prefix, q);
      HasAnswerRowSnoc(prefix, a, q);
      CountedRowsSnoc(prefix, a, q);
    }
  }

  // ---------------------------------------------------------------------------
  // Annotating, selecting and renumbering

  /** The question frame after its `n_answers` column is written (src/data.py:33). */
  function Annotate(rows: seq<Row>, answers: seq<Answer>): (annotated: seq<Row>)
    ensures |annotated| == |rows|
  {
    var counts := GroupCount(answers);
    seq(|rows|, i requires 0 <= i < |rows| =>
      rows[i].(question := rows[i].question.(nAnswers := Lookup(counts, rows[i].question.questionId))))
  }

  /** Every row keeps its label, id and text and now carries its answer count. */
  lemma AnnotateCounts(rows: seq<Row>, answers: seq<Answer>, i: nat)
    requires i < |rows|
    ensures var r := Annotate(rows, answers)[i];
            && r.index == rows[i].index
            && r.question.questionId == rows[i].question.questionId
            && r.question.text == rows[i].question.text
            && r.question.nAnswers == AnswerCount(answers, rows[i].question.questionId)
  {
    GroupCountCorrect(answers, rows[i].question.questionId);
  }

  /** `n_answers >= k_answer`; NaN compares false whatever the threshold. */
  predicate Qualifies(nAnswers: Option<nat>, kAnswer: int) {
    nAnswers.Some? && nAnswers.value >= kAnswer
  }

  /** The rows whose count qualifies, in their original order (src/data.py:35). */
  function Keep(rows: seq<Row>, kAnswer: int): (kept: seq<Row>)
    ensures |kept| <= |rows|
    ensures forall j :: 0 <= j < |kept| ==> Qualifies(kept[j].question.nAnswers, kAnswer)
  {
    if rows == [] then []
    else
      var n := |rows| - 1;
      Keep(rows[..n], kAnswer) + if Qualifies(rows[n].question.nAnswers, kAnswer) then [rows[n]] else []
  }

  /** The positions of the qualifying rows, ascending. */
  function KeptPositions(rows: seq<Row>, kAnswer: int): (ps: seq<nat>)
    ensures forall j :: 0 <= j < |ps| ==> ps[j] < |rows|
    ensures forall j :: 0 <= j < |rows| ==> (j in ps <==> Qualifies(rows[j].question.nAnswers, kAnswer))
    ensures forall a, b :: 0 <= a < b < |ps| ==> ps[a] < ps[b]
  {
    if rows == [] then []
    else
      var n := |rows| - 1;
      KeptPositions(rows[..n], kAnswer) + if Qualifies(rows[n].question.nAnswers, kAnswer) then [n] else []
  }

  /** The selection is the subsequence of the rows at the qualifying positions. */
  lemma {:induction false} KeepAtPositions(rows: seq<Row>, kAnswer: int)
    ensures |Keep(rows, kAnswer)| == |KeptPositions(rows, kAnswer)|
    ensures forall j :: 0 <= j < |Keep(rows, kAnswer)| ==>
              Keep(rows, kAnswer)[j] == rows[KeptPositions(rows, kAnswer)[j]]
  {
    if rows != [] {
      var n := |rows| - 1;
      var prefix := rows[..n];
      KeepAtPositions(prefix, kAnswer);
      var kept, ps := Keep(prefix, kAnswer), KeptPositions(prefix, kAnswer);
      var extra, extraPs := if Qualifies(rows[n].question.nAnswers, kAnswer) then [rows[n]] else [],
                            if Qualifies(rows[n].question.nAnswers, kAnswer) then [n] else [];
      assert Keep(rows, kAnswer) == kept + extra;
      assert KeptPositions(rows, kAnswer) == ps + extraPs;
      forall j | 0 <= j < |kept| ensures (kept + extra)[j] == rows[(ps + extraPs)[j]] {
        assert prefix[ps[j]] == rows[ps[j]];
      }
    }
  }

  /** `reset_index()`: rows renumbered 0..n-1, the old label kept as column `index`. */
  function ResetIndex(rows: seq<Row>): (top: seq<TopRow>)
    ensures |top| == |rows|
    ensures forall j :: 0 <= j < |top| ==> top[j].position == j
  {
    seq(|rows|, j requires 0 <= j < |rows| => TopRow(j, rows[j].index, rows[j].question))
  }

  /** `set_index("index")`, the inverse of `reset_index()`. */
  function SetIndex(top: seq<TopRow>): (rows: seq<Row>)
    ensures |rows| == |top|
  {
    seq(|top|, j requires 0 <= j < |top| => Row(top[j].index, top[j].question))
  }

  /** Renumbering loses nothing: restoring the old labels gives back the rows. */
  lemma ResetIndexRoundTrip(rows: seq<Row>)
    ensures SetIndex(ResetIndex(rows)) == rows
  {
  }

  /** `filter_top_questions`: annotate the caller's frame, then select and renumber (src/data.py:31-35). */
  method FilterTopQuestions(questions: QuestionFrame, answers: seq<Answer>, kAnswer: int)
    returns (top: seq<TopRow>)
    modifies questions
    ensures questions.rows == Annotate(old(questions.rows), answers)
    ensures top == ResetIndex(Keep(questions.rows, kAnswer))
  {
    questions.rows := Annotate(questions.rows, answers);
    top := ResetIndex(Keep(questions.rows, kAnswer));
  }

  /**
    The result of filtering is exactly the questions whose answer count is
    present and reaches the threshold, in their original order, renumbered,
    each carrying its old label and its count.
   */
  lemma TopQuestionsAreQualifying(rows: seq<Row>, answers: seq<Answer>, kAnswer: int)
    ensures var top := ResetIndex(Keep(Annotate(rows, answers), kAnswer));
            var ps := KeptPositions(Annotate(rows, answers), kAnswer);
            && |top| == |ps|
            && (forall i :: 0 <= i < |rows| ==>
                  (i in ps <==> Qualifies(AnswerCount(answers, rows[i].question.questionId), kAnswer)))
            && (forall a, b :: 0 <= a < b < |ps| ==> ps[a] < ps[b])
            && (forall j :: 0 <= j < |top| ==>
                  && ps[j] < |rows|
                  && top[j].position == j
                  && top[j].index == rows[ps[j]].index
                  && top[j].question.questionId == rows[ps[j]].question.questionId
                  && top[j].question.text == rows[ps[j]].question.text
                  && top[j].question.nAnswers == AnswerCount(answers, rows[ps[j]].question.questionId)
                  && Qualifies(top[j].question.nAnswers, kAnswer))
  {
    var annotated := Annotate(rows, answers);
    KeepAtPositions(annotated, kAnswer);
    forall i | 0 <= i < |rows| {
      AnnotateCounts(rows, answers, i);
    }
  }

  /** A question no answer row refers to is never kept, whatever the threshold. */
  lemma UnansweredNeverKept(rows: seq<Row>, answers: seq<Answer>, kAnswer: int)
    ensures forall i :: 0 <= i < |rows| && !HasAnswerRow(answers, rows[i].question.questionId) ==>
              i !in KeptPositions(Annotate(rows, answers), kAnswer)
    ensures forall r :: r in Keep(Annotate(rows, answers), kAnswer) ==>
              HasAnswerRow(answers, r.question.questionId)
  {
    var annotated := Annotate(rows, answers);
    forall i | 0 <= i < |rows| {
      AnnotateCounts(rows, answers, i);
    }
    KeepAtPositions(annotated, kAnswer);
    var kept, ps := Keep(annotated, kAnswer), KeptPositions(annotated, kAnswer);
    forall r | r in kept ensures HasAnswerRow(answers, r.question.questionId) {
      var j :| 0 <= j < |kept| && kept[j] == r;
      assert r == annotated[ps[j]];
    }
  }

  /** With the default threshold of 1, a question is kept exactly when it has a counted answer. */
  lemma DefaultThresholdKeepsAnswered(rows: seq<Row>, answers: seq<Answer>, i: nat)
    requires i < |rows|
    ensures i in KeptPositions(Annotate(rows, answers), 1) <==>
            CountedRows(answers, rows[i].question.questionId) != {}
  {
    var q := rows[i].question.questionId;
    AnnotateCounts(rows, answers, i);
    if CountedRows(answers, q) != {} {
      var j :| j in CountedRows(answers, q);
      assert HasAnswerRow(answers, q);
    }
  }

  // ---------------------------------------------------------------------------
  // The header of `save_results_csv` (src/data.py:39)

  function DigitChar(d: nat): char
    requires d < 10
  {
    "0123456789"[d]
  }

  /** `str(n)`. */
  function Decimal(n: nat): (s: string)
    ensures |s| > 0
    ensures forall i :: 0 <= i < |s| ==> '0' <= s[i] <= '9'
    ensures s[0] == '0' <==> n == 0
  {
    if n < 10 then [DigitChar(n)] else Decimal(n / 10) + [DigitChar(n % 10)]
  }

  function UserColumn(idx: nat): (name: string)
    ensures |name| == |Decimal(idx)| + 7
    ensures name[..4] == "user" && name[|name| - 3..] == "_id"
    ensures name[4..|name| - 3] == Decimal(idx)
  {
    "user" + Decimal(idx) + "_id"
  }

  /** The user column names for the ranks `lo` up to, but not including, `hi`. */
  function UserColumns(lo: nat, hi: nat): (cols: seq<string>)
    requires lo <= hi
    ensures |cols| == hi - lo
    ensures forall k :: 0 <= k < |cols| ==> cols[k] == UserColumn(lo + k)
    decreases hi - lo
  {
    if lo == hi then [] else [UserColumn(lo)] + UserColumns(lo + 1, hi)
  }

  /** The column list of `save_results_csv`: the question id, then one column per rank 1..20. */
  function ResultColumns(): (cols: seq<string>)
    ensures |cols| == 21 && cols[0] == "question_id"
    ensures forall k :: 1 <= k <= 20 ==> cols[k] == UserColumn(k)
  {
    ["question_id"] + UserColumns(1, 21)
  }

  /** The value of a decimal digit character. */
  function DigitValue(c: char): nat {
    if '0' <= c <= '9' then c as int - '0' as int else 0
  }

  /** `int(s)` for a string of decimal digits. */
  function ParseDecimal(s: string): nat {
    if s == [] then 0 else ParseDecimal(s[..|s| - 1]) * 10 + DigitValue(s[|s| - 1])
  }

  /** `str` writes a number so that reading it back gives the number. */
  lemma {:induction false} DecimalRoundTrip(n: nat)
    ensures ParseDecimal(Decimal(n)) == n
  {
    var s := Decimal(n);
    if n >= 10 {
      DecimalRoundTrip(n / 10);
      assert s[..|s| - 1] == Decimal(n / 10);
    }
  }

  /** The user columns carry distinct names, so each rank has its own column. */
  lemma UserColumnInjective(i: nat, j: nat)
    requires UserColumn(i) == UserColumn(j)
    ensures i == j
  {
    var a, b := UserColumn(i), UserColumn(j);
    assert Decimal(i) == a[4..|a| - 3];
    assert Decimal(j) == b[4..|b| - 3];
    DecimalRoundTrip(i);
    DecimalRoundTrip(j);
  }

  lemma UserColumnSpelled()
    ensures UserColumn(1) == "user1_id" && UserColumn(20) == "user20_id"
  {
    assert Decimal(20) == "20";
  }

  /** The first and last user columns, spelled out. */
  lemma ResultColumnsSpelled()
    ensures ResultColumns()[1] == "user1_id" && ResultColumns()[20] == "user20_id"
  {
    UserColumnSpelled();
  }

  /** No two header entries are equal: `question_id` and twenty distinct user columns. */
  lemma ResultColumnsDistinct()
    ensures forall i, j :: 0 <= i < j < |ResultColumns()| ==> ResultColumns()[i] != ResultColumns()[j]
  {
    var cols := ResultColumns();
    forall i, j | 0 <= i < j < |cols| ensures cols[i] != cols[j] {
      if i == 0 {
        assert cols[j][0] == 'u';
      } else if cols[i] == cols[j] {
        UserColumnInjective(i, j);
      }
    }
  }
}
