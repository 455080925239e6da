/** The small log readers of online_quiz.py. Each scans the whole log in order
    and keeps what the last matching row says (or, for `AnsweringStarted`,
    whether any row matches). */
module Readers {
  import opened Wrappers
  import opened Text
  import opened LastWins
  import opened EventLog

  // ---------------------------------------------------------------- answers

  /** An ANSWER row of quiz `quizId` by participant `pid`, sent from `ip` when
      an address is given (`read_answers`) or from anywhere (`read_answers_no_ip`). */
  predicate IsAnswerOf(row: Row, quizId: string, ip: Option<string>, pid: string) {
    row.Answer? && row.quizId == quizId && (ip.None? || row.ip == ip.value) && row.pid == pid
  }

  /** The question and stripped text such a row stores. */
  function AnswerWrite(quizId: string, ip: Option<string>, pid: string): Row -> Option<(string, string)> {
    row => if IsAnswerOf(row, quizId, ip, pid) then Some((row.question, Strip(row.text))) else None
  }

  /** `read_answers`: questions 1..n start blank, and every matching ANSWER row
      overwrites its question with its stripped text. */
  function ReadAnswers(log: Log, quizId: string, n: nat, ip: string, pid: string): (r: map<string, string>)
    ensures forall k :: k in r <==> k in QuestionKeys(n) || exists i :: Writes(log, AnswerWrite(quizId, Some(ip), pid), i, k)
    ensures forall i, k :: LastWrite(log, AnswerWrite(quizId, Some(ip), pid), i, k) ==> r[k] == Strip(log[i].text)
    ensures forall k :: k in QuestionKeys(n) && (forall i :: !Writes(log, AnswerWrite(quizId, Some(ip), pid), i, k)) ==> r[k] == ""
  {
    Overlay(Seed(n, ""), log, AnswerWrite(quizId, Some(ip), pid))
  }

  /** `read_answers_no_ip`: as `ReadAnswers`, whatever address the rows came from. */
  function ReadAnswersNoIp(log: Log, quizId: string, n: nat, pid: string): (r: map<string, string>)
    ensures forall k :: k in r <==> k in QuestionKeys(n) || exists i :: Writes(log, AnswerWrite(quizId, None, pid), i, k)
    ensures forall i, k :: LastWrite(log, AnswerWrite(quizId, None, pid), i, k) ==> r[k] == Strip(log[i].text)
    ensures forall k :: k in QuestionKeys(n) && (forall i :: !Writes(log, AnswerWrite(quizId, None, pid), i, k)) ==> r[k] == ""
  {
    Overlay(Seed(n, ""), log, AnswerWrite(quizId, None, pid))
  }

  /** Appending an ANSWER row makes its stripped text the answer read back,
      whatever the log held before; submitting "A" and then "B" reads "B". */
  lemma AnswerIsReadBack(log: Log, quizId: string, n: nat, ip: string, pid: string, row: Row)
    requires IsAnswerOf(row, quizId, Some(ip), pid)
    ensures ReadAnswers(log + [row], quizId, n, ip, pid)[row.question] == Strip(row.text)
  {
    var log' := log + [row];
    assert LastWrite(log', AnswerWrite(quizId, Some(ip), pid), |log|, row.question);
  }

  /** An ANSWER row among appended `rows` that no later appended ANSWER row
      overrides for its question is the answer read back. */
  lemma LaterAnswerIsReadBack(log: Log, rows: seq<Row>, j: nat, quizId: string, n: nat, ip: string, pid: string)
    requires j < |rows| && IsAnswerOf(rows[j], quizId, Some(ip), pid)
    requires forall i :: j < i < |rows| && rows[i].Answer? ==> rows[i].question != rows[j].question
    ensures var r := ReadAnswers(log + rows, quizId, n, ip, pid);
            rows[j].question in r && r[rows[j].question] == Strip(rows[j].text)
  {
    var all := log + rows;
    var f := AnswerWrite(quizId, Some(ip), pid);
    assert all[|log| + j] == rows[j];
    forall i | |log| + j < i < |all|
      ensures !Writes(all, f, i, rows[j].question)
    {
      assert all[i] == rows[i - |log|];
    }
    assert LastWrite(all, f, |log| + j, rows[j].question);
  }

  // ----------------------------------------------------------------- status

  predicate IsStatusOf(row: Row, quizId: string, ip: string, pid: string) {
    row.Status? && row.quizId == quizId && row.ip == ip && row.pid == pid
  }

  function StatusWrite(quizId: string, ip: string, pid: string): Row -> Option<string> {
    row => if IsStatusOf(row, quizId, ip, pid) then Some(row.status) else None
  }

  /** `read_status`: the status of the last STATUS row of this participant at
      this address, or "" before any. */
  function ReadStatus(log: Log, quizId: string, ip: string, pid: string): (r: string)
    ensures forall i :: IsLast(log, StatusWrite(quizId, ip, pid), i) ==> r == log[i].status
    ensures (forall i :: 0 <= i < |log| ==> !IsStatusOf(log[i], quizId, ip, pid)) ==> r == ""
  {
    assert forall i :: 0 <= i < |log| ==> (StatusWrite(quizId, ip, pid)(log[i]).None? <==> !IsStatusOf(log[i], quizId, ip, pid));
    LastOf(log, StatusWrite(quizId, ip, pid)).GetOr("")
  }

  /** Appending a STATUS row makes it the status read back. */
  lemma StatusIsReadBack(log: Log, row: Row)
    requires row.Status?
    ensures ReadStatus(log + [row], row.quizId, row.ip, row.pid) == row.status
  {
    assert IsLast(log + [row], StatusWrite(row.quizId, row.ip, row.pid), |log|);
  }

  // ------------------------------------------------------------ quiz details

  predicate IsStartOf(row: Row, quizId: string) {
    row.StartQuiz? && row.quizId == quizId
  }

  function StartOf(quizId: string): Row -> Option<Row> {
    row => if IsStartOf(row, quizId) then Some(row) else None
  }

  datatype QuizDetails = QuizDetails(name: string, questions: nat)

  /** `get_quiz_details`: name and question count from the last START_QUIZ row
      of the quiz; an unknown quiz (or one whose last start row has no name)
      is an error. */
  function GetQuizDetails(log: Log, quizId: string): (r: Result<QuizDetails, Failure>)
    ensures r.Err? ==> r.error == UnknownQuiz(quizId)
    ensures (forall i :: 0 <= i < |log| ==> !IsStartOf(log[i], quizId)) ==> r.Err?
    ensures forall i :: IsLast(log, StartOf(quizId), i) ==>
              (r.Ok? <==> log[i].quizName != "") &&
              (r.Ok? ==> r.value == QuizDetails(log[i].quizName, log[i].questions))
  {
    assert forall i :: 0 <= i < |log| ==> (StartOf(quizId)(log[i]).None? <==> !IsStartOf(log[i], quizId));
    match LastOf(log, StartOf(quizId))
    case Some(row) =>
      if row.quizName != "" then Ok(QuizDetails(row.quizName, row.questions))
      else Err(UnknownQuiz(quizId))
    case None => Err(UnknownQuiz(quizId))
  }

  /** `is_quiz_host`: the caller's id and address both equal those of the last
      START_QUIZ row of the quiz. With no such row the host is ("", ""), so the
      empty id at the empty address passes; the program never produces either. */
  function IsQuizHost(log: Log, quizId: string, pid: string, ip: string): (r: bool)
    ensures forall i :: IsLast(log, StartOf(quizId), i) ==> (r <==> pid == log[i].hostId && ip == log[i].hostIp)
    ensures (forall i :: 0 <= i < |log| ==> !IsStartOf(log[i], quizId)) ==> (r <==> pid == "" && ip == "")
  {
    assert forall i :: 0 <= i < |log| ==> (StartOf(quizId)(log[i]).None? <==> !IsStartOf(log[i], quizId));
    match LastOf(log, StartOf(quizId))
    case Some(row) => pid == row.hostId && ip == row.hostIp
    case None => pid == "" && ip == ""
  }

  /** Once a START_QUIZ row is appended, exactly its host id at its host
      address is the quiz host. */
  lemma HostIsExactlyTheStarter(log: Log, row: Row, pid: string, ip: string)
    requires row.StartQuiz?
    ensures IsQuizHost(log + [row], row.quizId, pid, ip) <==> pid == row.hostId && ip == row.hostIp
  {
    assert IsLast(log + [row], StartOf(row.quizId), |log|);
  }

  // ----------------------------------------------------------- participants

  predicate IsParticipantRowOf(row: Row, pid: string) {
    row.Participant? && row.pid == pid
  }

  function NameWrite(pid: string): Row -> Option<string> {
    row => if IsParticipantRowOf(row, pid) then Some(row.name) else None
  }

  /** `get_participant_details`: the name on the last PARTICIPANT row of this
      id in ANY quiz (the program does not filter on the quiz), or "". */
  function GetParticipantDetails(log: Log, pid: string): (r: string)
    ensures forall i :: IsLast(log, NameWrite(pid), i) ==> r == log[i].name
    ensures (forall i :: 0 <= i < |log| ==> !IsParticipantRowOf(log[i], pid)) ==> r == ""
  {
    assert forall i :: 0 <= i < |log| ==> (NameWrite(pid)(log[i]).None? <==> !IsParticipantRowOf(log[i], pid));
    LastOf(log, NameWrite(pid)).GetOr("")
  }

  // -------------------------------------------------------- answering start

  /** An ANSWER row of the quiz, or a STATUS row of the quiz saying "started". */
  predicate OpensAnswering(row: Row, quizId: string) {
    row.quizId == quizId && (row.Answer? || (row.Status? && row.status == Started))
  }

  /** `answering_started`: a first-match scan that stops at the first row
      opening the answering phase. */
  function AnsweringStarted(log: Log, quizId: string): (r: bool)
    ensures r <==> exists i :: 0 <= i < |log| && OpensAnswering(log[i], quizId)
    decreases |log|
  {
    if log == [] then false
    else if OpensAnswering(log[0], quizId) then true
    else
      var r := AnsweringStarted(log[1..], quizId);
      assert forall i :: 1 <= i < |log| ==> log[i] == log[1..][i - 1];
      assert r ==> exists i :: 0 <= i < |log| && OpensAnswering(log[i], quizId) by {
        if r {
          var j :| 0 <= j < |log| - 1 && OpensAnswering(log[1..][j], quizId);
          assert log[j + 1] == log[1..][j];
        }
      }
      r
  }

  // ------------------------------------------------------------- checkees

  predicate IsCheckerRowOf(row: Row, quizId: string, checker: string) {
    row.Checker? && row.quizId == quizId && row.checker == checker
  }

  function CheckeeWrite(quizId: string, checker: string): Row -> Option<string> {
    row => if IsCheckerRowOf(row, quizId, checker) then Some(row.checkee) else None
  }

  /** `get_checkee_id`: whom the last CHECKER row of the quiz assigns to this
      checker, or "". */
  function GetCheckeeId(log: Log, quizId: string, checker: string): (r: string)
    ensures forall i :: IsLast(log, CheckeeWrite(quizId, checker), i) ==> r == log[i].checkee
    ensures (forall i :: 0 <= i < |log| ==> !IsCheckerRowOf(log[i], quizId, checker)) ==> r == ""
  {
    assert forall i :: 0 <= i < |log| ==> (CheckeeWrite(quizId, checker)(log[i]).None? <==> !IsCheckerRowOf(log[i], quizId, checker));
    LastOf(log, CheckeeWrite(quizId, checker)).GetOr("")
  }

  // ---------------------------------------------------------- current quiz

  datatype CurrentQuiz = CurrentQuiz(quizId: string, name: string, questions: nat)

  /** START_QUIZ rows open a quiz and END_QUIZ rows close it, in any quiz. */
  function QuizMarker(): Row -> Option<Option<CurrentQuiz>> {
    (row: Row) =>
      if row.StartQuiz? then Some(Some(CurrentQuiz(row.quizId, row.quizName, row.questions)))
      else if row.EndQuiz? then Some(None)
      else None
  }

  /** `get_current_quiz_id`: the quiz of the last START_QUIZ row, unless an
      END_QUIZ row follows it. */
  function GetCurrentQuizId(log: Log): (r: Option<CurrentQuiz>)
    ensures r.Some? <==> exists i :: IsLast(log, QuizMarker(), i) && log[i].StartQuiz?
    ensures forall i :: IsLast(log, QuizMarker(), i) && log[i].StartQuiz? ==>
              r == Some(CurrentQuiz(log[i].quizId, log[i].quizName, log[i].questions))
  {
    var last: Option<Option<CurrentQuiz>> := LastOf(log, QuizMarker());
    if last.Some? then last.value else None
  }
}
