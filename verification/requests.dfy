/** The append decisions of the request handlers: which STATUS, ANSWER, CHECK
    and CHECKER rows `enter_answers`, `examine_results`, `check_answers`,
    `open_checking` and `open_answering` append to the log, given the log,
    the submitted form, the caller's address and the time stamp. */
module Requests {
  import opened Wrappers
  import opened Text
  import opened LastWins
  import opened EventLog
  import opened Sets
  import opened Readers
  import Checks
  import Replay
  import Ranking
  import Assignment

  /** The submitted form fields. */
  type Form = map<string, string>

  /** `keys` lists fields of the form: the order the handler visits them in. */
  predicate KeysIn(form: Form, keys: seq<string>) {
    forall i :: 0 <= i < |keys| ==> keys[i] in form
  }

  /** The page a request ends on. `WaitPage` is a hand-over to `wait()`,
      whose own effects are not part of this model. */
  datatype Page = WaitPage | AnswerPage | BackPage | ExaminePage | CheckPage | ErrorPage(failure: Failure)

  /** The rows a request appends, in order, and the page it ends on. */
  datatype Outcome = Outcome(rows: seq<Row>, page: Page)

  /** What Python's `int()` accepts: optional surrounding white space, an
      optional sign, and ASCII digits with single underscores between them. */
  predicate IntLiteral(s: string) {
    var t := Strip(s);
    var body := if |t| > 0 && (t[0] == '+' || t[0] == '-') then t[1..] else t;
    DigitGroups(body)
  }

  /** A non-empty string of ASCII digits, such as the page number the
      form itself renders, is accepted by `int()`; the empty string is not. */
  lemma DigitsAreIntLiteral(s: string)
    requires |s| > 0 && AllDigits(s)
    ensures IntLiteral(s) && !IntLiteral("")
  {
    var a, b :| 0 <= a <= b <= |s| && Strip(s) == s[a..b]
                && (forall i :: 0 <= i < a ==> IsSpace(s[i]))
                && (forall i :: b <= i < |s| ==> IsSpace(s[i]));
    assert IsDigit(s[0]) && IsDigit(s[|s| - 1]);
    assert !IsSpace(s[0]) && !IsSpace(s[|s| - 1]);
    assert a == 0 && b == |s|;
  }

  predicate DigitGroups(s: string) {
    && |s| > 0 && IsDigit(s[0]) && IsDigit(s[|s| - 1])
    && forall i :: 0 < i < |s| - 1 ==> IsDigit(s[i]) || (s[i] == '_' && IsDigit(s[i - 1]) && IsDigit(s[i + 1]))
  }

  // ------------------------------------------------------------ life cycle

  /** The status changes the handlers make: waiting -> started ->
      finished -> checking. */
  predicate Advances(from: string, to: string) {
    || (from == Waiting && to == Started)
    || (from == Started && to == Finished)
    || (from == Finished && to == Checking)
  }

  /** Every STATUS row in `rows` moves its participant one step along the
      life cycle from the status the log read just before that row. */
  ghost predicate FollowsLifecycle(log: Log, rows: seq<Row>) {
    forall i :: 0 <= i < |rows| && rows[i].Status? ==>
      Advances(ReadStatus(log + rows[..i], rows[i].quizId, rows[i].ip, rows[i].pid), rows[i].status)
  }

  predicate NoStatusRows(rows: seq<Row>) {
    forall i :: 0 <= i < |rows| ==> !rows[i].Status?
  }

  /** Nobody is recorded as checking their own answers. */
  predicate NoSelfCheck(rows: seq<Row>) {
    forall i :: 0 <= i < |rows| && rows[i].Check? ==> rows[i].checker != rows[i].checkee
  }

  /** Rows without STATUS rows change no status, so what follows them
      follows the life cycle from the same statuses. */
  lemma LifecycleAfterOtherRows(log: Log, a: seq<Row>, b: seq<Row>)
    requires NoStatusRows(a) && FollowsLifecycle(log + a, b)
    ensures FollowsLifecycle(log, a + b)
  {
    forall i | 0 <= i < |a + b| && (a + b)[i].Status?
      ensures Advances(ReadStatus(log + (a + b)[..i], (a + b)[i].quizId, (a + b)[i].ip, (a + b)[i].pid), (a + b)[i].status)
    {
      var j := StatusRowInSecond(log, a, b, i);
      assert Advances(ReadStatus((log + a) + b[..j], b[j].quizId, b[j].ip, b[j].pid), b[j].status);
    }
  }

  /** A STATUS row of `a + b` lies in `b` when `a` has none, and what the
      log holds before it is `log + a` followed by the part of `b` before
      it. */
  lemma StatusRowInSecond(log: Log, a: seq<Row>, b: seq<Row>, i: nat) returns (j: nat)
    requires NoStatusRows(a) && i < |a + b| && (a + b)[i].Status?
    ensures j < |b| && (a + b)[i] == b[j] && log + (a + b)[..i] == (log + a) + b[..j]
  {
    forall k | 0 <= k < |a|
      ensures !(a + b)[k].Status?
    {
      assert (a + b)[k] == a[k];
    }
    j := i - |a|;
    assert (a + b)[..i] == a + b[..j];
  }

  /** At most one STATUS row, first, that advances from the status the log
      reads, followed by rows that are not STATUS rows. */
  lemma LifecycleOfOptionalStatus(log: Log, first: seq<Row>, rest: seq<Row>)
    requires |first| <= 1 && NoStatusRows(rest)
    requires forall row :: row in first ==> row.Status? && Advances(ReadStatus(log, row.quizId, row.ip, row.pid), row.status)
    ensures FollowsLifecycle(log, first + rest)
  {
    var rows := first + rest;
    assert forall i :: |first| <= i < |rows| ==> rows[i] == rest[i - |first|];
    if first != [] {
      assert rows[0] in first;
      assert log + rows[..0] == log;
    }
  }

  // --------------------------------------------------------- enter_answers

  /** The ANSWER rows of `enter_answers`: each visited field whose name is a
      question number, is already among the participant's answers, and
      carries a different value is written, and the local copy of the
      answers is updated. */
  function AnswerRows(quizId: string, ip: string, pid: string, ts: string, form: Form, keys: seq<string>, answers: map<string, string>): (r: seq<Row>)
    requires KeysIn(form, keys)
    ensures forall i :: 0 <= i < |r| ==>
              && r[i].Answer? && r[i].question in keys && IsNumericKey(r[i].question)
              && r[i] == Answer(ts, quizId, ip, pid, r[i].question, form[r[i].question])
    ensures Distinct(keys) ==> forall i, j :: 0 <= i < j < |r| ==> r[i].question != r[j].question
    decreases |keys|
  {
    if keys == [] then []
    else
      var k := keys[0];
      var rest := keys[1..];
      assert forall x :: x in rest ==> x in keys;
      if IsNumericKey(k) && k in answers && form[k] != answers[k] then
        var tail := AnswerRows(quizId, ip, pid, ts, form, rest, answers[k := form[k]]);
        assert Distinct(keys) ==> k !in rest;
        ConsShift(Answer(ts, quizId, ip, pid, k, form[k]), tail);
        [Answer(ts, quizId, ip, pid, k, form[k])] + tail
      else AnswerRows(quizId, ip, pid, ts, form, rest, answers)
  }

  /** Some ANSWER or CHECK row among `rows` is for question `k`. */
  predicate Asks(rows: seq<Row>, k: string) {
    exists i :: 0 <= i < |rows| && (rows[i].Answer? || rows[i].Check?) && rows[i].question == k
  }

  /** A question has a row in `[row] + tail` exactly when it is `row`'s
      question or has a row in `tail`. */
  lemma ConsQuestion(row: Row, tail: seq<Row>, k: string)
    requires row.Answer? || row.Check?
    requires forall i :: 0 <= i < |tail| ==> tail[i].Answer? || tail[i].Check?
    ensures var r := [row] + tail;
            Asks(r, k) <==>
              row.question == k || Asks(tail, k)
  {
    var r := [row] + tail;
    assert r[0] == row;
    if i :| 0 < i < |r| && r[i].question == k {
      assert tail[i - 1] == r[i];
    }
    if i :| 0 <= i < |tail| && tail[i].question == k {
      assert r[i + 1] == tail[i];
    }
  }

  /** With each field visited once, a question gets an ANSWER row exactly
      when its field is a question number already among the answers and
      differs from the stored answer. */
  lemma {:induction false} AnswerRowsExactly(quizId: string, ip: string, pid: string, ts: string, form: Form, keys: seq<string>, answers: map<string, string>, k: string)
    requires KeysIn(form, keys) && Distinct(keys)
    ensures var r := AnswerRows(quizId, ip, pid, ts, form, keys, answers);
            Asks(r, k) <==>
              k in keys && IsNumericKey(k) && k in answers && form[k] != answers[k]
    decreases |keys|, 1
  {
    if keys != [] {
      var k0 := keys[0];
      if IsNumericKey(k0) && k0 in answers && form[k0] != answers[k0] {
        AnswerRowsExactlyWritten(quizId, ip, pid, ts, form, keys, answers, k);
      } else {
        AnswerRowsExactlySkipped(quizId, ip, pid, ts, form, keys, answers, k);
      }
    }
  }

  /** `AnswerRowsExactly` when the first field is written. */
  lemma {:induction false} AnswerRowsExactlyWritten(quizId: string, ip: string, pid: string, ts: string, form: Form, keys: seq<string>, answers: map<string, string>, k: string)
    requires KeysIn(form, keys) && Distinct(keys) && keys != []
    requires IsNumericKey(keys[0]) && keys[0] in answers && form[keys[0]] != answers[keys[0]]
    ensures var r := AnswerRows(quizId, ip, pid, ts, form, keys, answers);
            Asks(r, k) <==>
              k in keys && IsNumericKey(k) && k in answers && form[k] != answers[k]
    decreases |keys|, 0
  {
    var k0 := keys[0];
    var rest := keys[1..];
    var answers' := answers[k0 := form[k0]];
    DistinctTail(form, keys);
    AnswerRowsExactly(quizId, ip, pid, ts, form, rest, answers', k);
    var tail := AnswerRows(quizId, ip, pid, ts, form, rest, answers');
    AnswerRowsCons(quizId, ip, pid, ts, form, keys, answers);
    ConsQuestion(Answer(ts, quizId, ip, pid, k0, form[k0]), tail, k);
    if k != k0 {
      AnswerUnchangedElsewhere(form, answers, k0, form[k0], k);
    }
  }

  /** A written first field puts its ANSWER row in front of the rows of the
      remaining fields, with the stored answer updated. */
  lemma AnswerRowsCons(quizId: string, ip: string, pid: string, ts: string, form: Form, keys: seq<string>, answers: map<string, string>)
    requires KeysIn(form, keys) && keys != []
    requires IsNumericKey(keys[0]) && keys[0] in answers && form[keys[0]] != answers[keys[0]]
    ensures KeysIn(form, keys[1..])
    ensures AnswerRows(quizId, ip, pid, ts, form, keys, answers) ==
              [Answer(ts, quizId, ip, pid, keys[0], form[keys[0]])] +
              AnswerRows(quizId, ip, pid, ts, form, keys[1..], answers[keys[0] := form[keys[0]]])
  {
  }

  /** Updating the stored answer of `k0` leaves whether field `k` differs
      from its stored answer unchanged. */
  lemma AnswerUnchangedElsewhere(form: Form, answers: map<string, string>, k0: string, v: string, k: string)
    requires k != k0
    ensures var answers' := answers[k0 := v];
            (k in form && k in answers' && form[k] != answers'[k]) == (k in form && k in answers && form[k] != answers[k])
  {
  }

  /** `AnswerRowsExactly` when the first field is not written. */
  lemma {:induction false} AnswerRowsExactlySkipped(quizId: string, ip: string, pid: string, ts: string, form: Form, keys: seq<string>, answers: map<string, string>, k: string)
    requires KeysIn(form, keys) && Distinct(keys) && keys != []
    requires !(IsNumericKey(keys[0]) && keys[0] in answers && form[keys[0]] != answers[keys[0]])
    ensures var r := AnswerRows(quizId, ip, pid, ts, form, keys, answers);
            Asks(r, k) <==>
              k in keys && IsNumericKey(k) && k in answers && form[k] != answers[k]
    decreases |keys|, 0
  {
    var k0 := keys[0];
    var rest := keys[1..];
    DistinctTail(form, keys);
    AnswerRowsExactly(quizId, ip, pid, ts, form, rest, answers, k);
    var r := AnswerRows(quizId, ip, pid, ts, form, keys, answers);
    assert r == AnswerRows(quizId, ip, pid, ts, form, rest, answers);
    if k == k0 {
      assert !Asks(r, k);
    } else {
      assert k in keys <==> k in rest;
    }
  }

  /** `enter_answers`. An unknown quiz, or a missing form field, ends on the
      error page with nothing written. Before answering has begun only the
      host gets past the wait page. A waiting participant is marked started;
      a participant past answering is handed to `examine_results`; then the
      page number must parse, and the changed answers are written. */
  function EnterAnswers(log: Log, form: Form, keys: seq<string>, ip: string, ts: string): (o: Outcome)
    requires KeysIn(form, keys)
    ensures FollowsLifecycle(log, o.rows)
    ensures o.rows != [] ==>
              && "quiz_id" in form && "participant_id" in form
              && GetQuizDetails(log, form["quiz_id"]).Ok?
              && (AnsweringStarted(log, form["quiz_id"]) || IsQuizHost(log, form["quiz_id"], form["participant_id"], ip))
    ensures "quiz_id" in form && "participant_id" in form ==>
              forall row :: row in o.rows && row.Answer? ==>
                && IsAnswerOf(row, form["quiz_id"], Some(ip), form["participant_id"])
                && IsNumericKey(row.question) && row.question in form && row.text == form[row.question]
    ensures Distinct(keys) ==> AnswersOnce(o.rows)
  {
    if "quiz_id" !in form then Outcome([], ErrorPage(MissingField("quiz_id")))
    else if "page_nbr" !in form then Outcome([], ErrorPage(MissingField("page_nbr")))
    else if "participant_id" !in form then Outcome([], ErrorPage(MissingField("participant_id")))
    else
      var quizId := form["quiz_id"];
      var pid := form["participant_id"];
      match GetQuizDetails(log, quizId)
      case Err(e) => Outcome([], ErrorPage(e))
      case Ok(details) =>
        if !AnsweringStarted(log, quizId) && !IsQuizHost(log, quizId, pid, ip) then Outcome([], WaitPage)
        else AnsweringBody(log, form, keys, ip, ts, quizId, pid, details.questions)
  }

  /** The part of `enter_answers` past the wait page, for participant `pid`
      of quiz `quizId` with `n` questions. */
  function AnsweringBody(log: Log, form: Form, keys: seq<string>, ip: string, ts: string, quizId: string, pid: string, n: nat): (o: Outcome)
    requires KeysIn(form, keys) && "page_nbr" in form
    ensures FollowsLifecycle(log, o.rows)
    ensures forall row :: row in o.rows && row.Answer? ==>
              && IsAnswerOf(row, quizId, Some(ip), pid)
              && IsNumericKey(row.question) && row.question in form && row.text == form[row.question]
    ensures Distinct(keys) ==> AnswersOnce(o.rows)
  {
    var status := ReadStatus(log, quizId, ip, pid);
    var begin := if status == Waiting then [Status(ts, quizId, ip, pid, Started)] else [];
    if status != Waiting && status != Started then ExamineResults(log, form, ip, ts)
    else if !IntLiteral(form["page_nbr"]) then
      LifecycleOfOptionalStatus(log, begin, []);
      assert begin + [] == begin;
      Outcome(begin, ErrorPage(NotANumber(form["page_nbr"])))
    else WriteAnswers(log, form, keys, ip, ts, quizId, pid, n, begin)
  }

  /** The answering step proper: the optional status row `begin`, then the
      ANSWER rows of the fields that changed. */
  function WriteAnswers(log: Log, form: Form, keys: seq<string>, ip: string, ts: string, quizId: string, pid: string, n: nat, begin: seq<Row>): (o: Outcome)
    requires KeysIn(form, keys)
    requires |begin| <= 1
    requires forall row :: row in begin ==> row.Status? && Advances(ReadStatus(log, row.quizId, row.ip, row.pid), row.status)
    ensures FollowsLifecycle(log, o.rows)
    ensures forall row :: row in o.rows && row.Answer? ==>
              && IsAnswerOf(row, quizId, Some(ip), pid)
              && IsNumericKey(row.question) && row.question in form && row.text == form[row.question]
    ensures Distinct(keys) ==> AnswersOnce(o.rows)
  {
    var answers := ReadAnswers(log, quizId, n, ip, pid);
    var written := AnswerRows(quizId, ip, pid, ts, form, keys, answers);
    LifecycleOfOptionalStatus(log, begin, written);
    AnswersAfterStatus(begin, written);
    Outcome(begin + written, if written != [] then BackPage else AnswerPage)
  }

  /** Rows without ANSWER rows put in front add no ANSWER row. */
  lemma AnswersAfterStatus(begin: seq<Row>, written: seq<Row>)
    requires forall i :: 0 <= i < |begin| ==> !begin[i].Answer?
    ensures forall row :: row in begin + written && row.Answer? ==> row in written
    ensures AnswersOnce(written) ==> AnswersOnce(begin + written)
  {
    var r := begin + written;
    assert forall i :: |begin| <= i < |r| ==> r[i] == written[i - |begin|];
  }

  /** No two ANSWER rows among `rows` are for the same question. */
  predicate AnswersOnce(rows: seq<Row>) {
    forall i, j :: 0 <= i < j < |rows| && rows[i].Answer? && rows[j].Answer? ==> rows[i].question != rows[j].question
  }

  /** Some row among `rows` is an ANSWER to question `k`. */
  predicate AnswerWritten(rows: seq<Row>, k: string) {
    exists i :: 0 <= i < |rows| && rows[i].Answer? && rows[i].question == k
  }

  /** An `enter_answers` submission writes field `k`: the form names the
      quiz, the page and the participant; the quiz is known; answering has
      begun or the sender is the host; the sender is waiting or answering;
      the page number parses; and `k` is a numeric field that is already one
      of the sender's answers and differs from it. */
  predicate ChangesAnswer(log: Log, form: Form, keys: seq<string>, ip: string, k: string) {
    && "quiz_id" in form && "page_nbr" in form && "participant_id" in form
    && var quizId := form["quiz_id"];
       var pid := form["participant_id"];
       && GetQuizDetails(log, quizId).Ok?
       && (AnsweringStarted(log, quizId) || IsQuizHost(log, quizId, pid, ip))
       && (ReadStatus(log, quizId, ip, pid) == Waiting || ReadStatus(log, quizId, ip, pid) == Started)
       && IntLiteral(form["page_nbr"])
       && var answers := ReadAnswers(log, quizId, GetQuizDetails(log, quizId).value.questions, ip, pid);
          k in keys && k in form && IsNumericKey(k) && k in answers && form[k] != answers[k]
  }

  /** With distinct field names, `enter_answers` writes an ANSWER to
      question `k` exactly when the submission changes it. */
  lemma EnterAnswersExactly(log: Log, form: Form, keys: seq<string>, ip: string, ts: string, k: string)
    requires KeysIn(form, keys) && Distinct(keys)
    ensures AnswerWritten(EnterAnswers(log, form, keys, ip, ts).rows, k) <==> ChangesAnswer(log, form, keys, ip, k)
  {
    if "quiz_id" in form && "page_nbr" in form && "participant_id" in form {
      var quizId, pid := form["quiz_id"], form["participant_id"];
      if GetQuizDetails(log, quizId).Ok? && (AnsweringStarted(log, quizId) || IsQuizHost(log, quizId, pid, ip)) {
        AnsweringBodyExactly(log, form, keys, ip, ts, quizId, pid, GetQuizDetails(log, quizId).value.questions, k);
      }
    }
  }

  /** `EnterAnswersExactly` past the wait page. */
  lemma AnsweringBodyExactly(log: Log, form: Form, keys: seq<string>, ip: string, ts: string, quizId: string, pid: string, n: nat, k: string)
    requires KeysIn(form, keys) && Distinct(keys) && "page_nbr" in form
    ensures var status := ReadStatus(log, quizId, ip, pid);
            var answers := ReadAnswers(log, quizId, n, ip, pid);
            AnswerWritten(AnsweringBody(log, form, keys, ip, ts, quizId, pid, n).rows, k) <==>
              && (status == Waiting || status == Started)
              && IntLiteral(form["page_nbr"])
              && k in keys && k in form && IsNumericKey(k) && k in answers && form[k] != answers[k]
  {
    var status := ReadStatus(log, quizId, ip, pid);
    if (status == Waiting || status == Started) && IntLiteral(form["page_nbr"]) {
      AnsweringBodyWrites(log, form, keys, ip, ts, quizId, pid, n, k);
    } else {
      AnsweringBodyNoAnswers(log, form, keys, ip, ts, quizId, pid, n, k);
    }
  }

  /** A participant past answering, or a page number that does not parse,
      gets no ANSWER row written. */
  lemma AnsweringBodyNoAnswers(log: Log, form: Form, keys: seq<string>, ip: string, ts: string, quizId: string, pid: string, n: nat, k: string)
    requires KeysIn(form, keys) && "page_nbr" in form
    requires var status := ReadStatus(log, quizId, ip, pid);
             !((status == Waiting || status == Started) && IntLiteral(form["page_nbr"]))
    ensures !AnswerWritten(AnsweringBody(log, form, keys, ip, ts, quizId, pid, n).rows, k)
  {
    var status := ReadStatus(log, quizId, ip, pid);
    if status != Waiting && status != Started {
      assert AnsweringBody(log, form, keys, ip, ts, quizId, pid, n) == ExamineResults(log, form, ip, ts);
      StatusRowsWriteNothing(ExamineResults(log, form, ip, ts).rows, k);
    } else {
      var begin := if status == Waiting then [Status(ts, quizId, ip, pid, Started)] else [];
      assert AnsweringBody(log, form, keys, ip, ts, quizId, pid, n).rows == begin;
      StatusRowsWriteNothing(begin, k);
    }
  }

  /** A waiting or answering participant with a page number that parses gets
      the ANSWER rows of the answering step. */
  lemma AnsweringBodyWrites(log: Log, form: Form, keys: seq<string>, ip: string, ts: string, quizId: string, pid: string, n: nat, k: string)
    requires KeysIn(form, keys) && Distinct(keys) && "page_nbr" in form
    requires var status := ReadStatus(log, quizId, ip, pid);
             (status == Waiting || status == Started) && IntLiteral(form["page_nbr"])
    ensures var answers := ReadAnswers(log, quizId, n, ip, pid);
            AnswerWritten(AnsweringBody(log, form, keys, ip, ts, quizId, pid, n).rows, k) <==>
              k in keys && IsNumericKey(k) && k in answers && form[k] != answers[k]
  {
    var status := ReadStatus(log, quizId, ip, pid);
    var begin := if status == Waiting then [Status(ts, quizId, ip, pid, Started)] else [];
    assert AnsweringBody(log, form, keys, ip, ts, quizId, pid, n) == WriteAnswers(log, form, keys, ip, ts, quizId, pid, n, begin);
    WriteAnswersExactly(log, form, keys, ip, ts, quizId, pid, n, begin, k);
  }

  /** Rows that are all STATUS rows write no ANSWER and no CHECK. */
  lemma StatusRowsWriteNothing(rows: seq<Row>, k: string)
    requires forall row :: row in rows ==> row.Status?
    ensures !AnswerWritten(rows, k) && !VerdictWritten(rows, k)
  {
    assert forall i :: 0 <= i < |rows| ==> rows[i] in rows;
  }

  /** The answering step writes an ANSWER to `k` exactly when `k` is a
      numeric field that is already one of the stored answers and differs
      from it. */
  lemma WriteAnswersExactly(log: Log, form: Form, keys: seq<string>, ip: string, ts: string, quizId: string, pid: string, n: nat, begin: seq<Row>, k: string)
    requires KeysIn(form, keys) && Distinct(keys)
    requires |begin| <= 1
    requires forall row :: row in begin ==> row.Status? && Advances(ReadStatus(log, row.quizId, row.ip, row.pid), row.status)
    ensures var answers := ReadAnswers(log, quizId, n, ip, pid);
            AnswerWritten(WriteAnswers(log, form, keys, ip, ts, quizId, pid, n, begin).rows, k) <==>
              k in keys && IsNumericKey(k) && k in answers && form[k] != answers[k]
  {
    var answers := ReadAnswers(log, quizId, n, ip, pid);
    assert WriteAnswers(log, form, keys, ip, ts, quizId, pid, n, begin).rows == begin + AnswerRows(quizId, ip, pid, ts, form, keys, answers);
    AnswerRowsExactly(quizId, ip, pid, ts, form, keys, answers, k);
    AnswerWrittenAfter(begin, AnswerRows(quizId, ip, pid, ts, form, keys, answers), k,
                       k in keys && IsNumericKey(k) && k in answers && form[k] != answers[k]);
  }

  /** Leading STATUS rows write no ANSWER: when `k` is some question of the
      ANSWER rows `written` exactly when `c` holds, an ANSWER to `k` follows
      the STATUS rows exactly when `c` holds. */
  lemma AnswerWrittenAfter(begin: seq<Row>, written: seq<Row>, k: string, c: bool)
    requires forall row :: row in begin ==> row.Status?
    requires forall i :: 0 <= i < |written| ==> written[i].Answer?
    requires Asks(written, k) <==> c
    ensures AnswerWritten(begin + written, k) <==> c
  {
    var r := begin + written;
    if AnswerWritten(r, k) {
      var i :| 0 <= i < |r| && r[i].Answer? && r[i].question == k;
      assert r[i] !in begin;
      assert written[i - |begin|] == r[i];
    }
    if exists j :: 0 <= j < |written| && written[j].question == k {
      var j :| 0 <= j < |written| && written[j].question == k;
      assert r[j + |begin|] == written[j];
    }
  }

  /** After `enter_answers` with distinct field names, `read_answers` gives
      every question the submission changed the stripped text just submitted. */
  lemma EnteredAnswersReadBack(log: Log, form: Form, keys: seq<string>, ip: string, ts: string, n: nat)
    requires KeysIn(form, keys) && Distinct(keys) && "quiz_id" in form && "participant_id" in form
    ensures var o := EnterAnswers(log, form, keys, ip, ts);
            var r := ReadAnswers(log + o.rows, form["quiz_id"], n, ip, form["participant_id"]);
            forall row :: row in o.rows && row.Answer? ==>
              row.question in r && row.question in form && r[row.question] == Strip(form[row.question])
  {
    var o := EnterAnswers(log, form, keys, ip, ts);
    var quizId, pid := form["quiz_id"], form["participant_id"];
    var r := ReadAnswers(log + o.rows, quizId, n, ip, pid);
    forall row | row in o.rows && row.Answer?
      ensures row.question in r && row.question in form && r[row.question] == Strip(form[row.question])
    {
      var j :| 0 <= j < |o.rows| && o.rows[j] == row;
      assert AnswersOnce(o.rows);
      LaterAnswerIsReadBack(log, o.rows, j, quizId, n, ip, pid);
    }
  }

  // ------------------------------------------------------- examine_results

  /** `examine_results`: a started participant is marked finished; the page
      then replays the quiz, which fails on a row naming an unknown
      participant. */
  function ExamineResults(log: Log, form: Form, ip: string, ts: string): (o: Outcome)
    ensures FollowsLifecycle(log, o.rows)
    ensures |o.rows| <= 1
    ensures forall row :: row in o.rows ==> row.Status? && row.status == Finished
    ensures o.rows != [] <==>
              && "quiz_id" in form && "participant_id" in form
              && GetQuizDetails(log, form["quiz_id"]).Ok?
              && ReadStatus(log, form["quiz_id"], ip, form["participant_id"]) == Started
  {
    if "quiz_id" !in form then Outcome([], ErrorPage(MissingField("quiz_id")))
    else if "participant_id" !in form then Outcome([], ErrorPage(MissingField("participant_id")))
    else
      var quizId := form["quiz_id"];
      var pid := form["participant_id"];
      match GetQuizDetails(log, quizId)
      case Err(e) => Outcome([], ErrorPage(e))
      case Ok(_) =>
        var status := ReadStatus(log, quizId, ip, pid);
        var closed := if status == Started then [Status(ts, quizId, ip, pid, Finished)] else [];
        LifecycleOfOptionalStatus(log, closed, []);
        assert closed + [] == closed;
        Outcome(closed, ExaminedPage(log + closed, quizId))
  }

  /** The results page replays the quiz, which fails on a row naming an
      unknown participant. */
  function ExaminedPage(log: Log, quizId: string): Page {
    match Ranking.ReadResults(log, quizId)
    case Err(e) => ErrorPage(e)
    case Ok(_) => ExaminePage
  }

  // --------------------------------------------------------- check_answers

  /** The CHECK rows of `check_answers`: each visited field whose name is a
      question number already among the checkee's verdicts, whose stripped
      value differs from the stored verdict, is written, unless the checker
      is the checkee. */
  function CheckRows(quizId: string, checker: string, checkee: string, ts: string, form: Form, keys: seq<string>, checks: map<string, string>): (r: seq<Row>)
    requires KeysIn(form, keys)
    ensures checker == checkee ==> r == []
    ensures forall i :: 0 <= i < |r| ==>
              && r[i].Check? && r[i].question in keys && IsNumericKey(r[i].question)
              && r[i] == Check(ts, quizId, checkee, checker, r[i].question, Strip(form[r[i].question]))
    ensures Distinct(keys) ==> forall i, j :: 0 <= i < j < |r| ==> r[i].question != r[j].question
    decreases |keys|
  {
    if keys == [] then []
    else
      var k := keys[0];
      var rest := keys[1..];
      var v := Strip(form[k]);
      assert forall x :: x in rest ==> x in keys;
      if IsNumericKey(k) && k in checks && v != checks[k] && checker != checkee then
        var tail := CheckRows(quizId, checker, checkee, ts, form, rest, checks[k := v]);
        CheckRowCons(quizId, checker, checkee, ts, form, keys, tail);
        [Check(ts, quizId, checkee, checker, k, v)] + tail
      else CheckRows(quizId, checker, checkee, ts, form, rest, checks)
  }

  /** The CHECK row of the first field put in front of the rows of the
      others keeps the shape `CheckRows` promises. */
  lemma CheckRowCons(quizId: string, checker: string, checkee: string, ts: string, form: Form, keys: seq<string>, tail: seq<Row>)
    requires keys != [] && KeysIn(form, keys) && IsNumericKey(keys[0])
    requires forall i :: 0 <= i < |tail| ==>
               && tail[i].Check? && tail[i].question in keys[1..] && IsNumericKey(tail[i].question)
               && tail[i] == Check(ts, quizId, checkee, checker, tail[i].question, Strip(form[tail[i].question]))
    requires Distinct(keys[1..]) ==> forall i, j :: 0 <= i < j < |tail| ==> tail[i].question != tail[j].question
    ensures var r := [Check(ts, quizId, checkee, checker, keys[0], Strip(form[keys[0]]))] + tail;
            && (forall i :: 0 <= i < |r| ==>
                  && r[i].Check? && r[i].question in keys && IsNumericKey(r[i].question)
                  && r[i] == Check(ts, quizId, checkee, checker, r[i].question, Strip(form[r[i].question])))
            && (Distinct(keys) ==> forall i, j :: 0 <= i < j < |r| ==> r[i].question != r[j].question)
  {
    var r := [Check(ts, quizId, checkee, checker, keys[0], Strip(form[keys[0]]))] + tail;
    ConsShift(r[0], tail);
    assert forall x :: x in keys[1..] ==> x in keys;
    if Distinct(keys) {
      DistinctTail(form, keys);
    }
  }

  /** With each field visited once, a question gets a CHECK row exactly
      when the checker is not the checkee and its field is a question number
      already among the verdicts whose stripped value differs from the stored
      verdict. */
  lemma {:induction false} CheckRowsExactly(quizId: string, checker: string, checkee: string, ts: string, form: Form, keys: seq<string>, checks: map<string, string>, k: string)
    requires KeysIn(form, keys) && Distinct(keys)
    ensures var r := CheckRows(quizId, checker, checkee, ts, form, keys, checks);
            Asks(r, k) <==>
              checker != checkee && k in keys && IsNumericKey(k) && k in checks && Strip(form[k]) != checks[k]
    decreases |keys|, 1
  {
    if keys != [] {
      var k0 := keys[0];
      if IsNumericKey(k0) && k0 in checks && Strip(form[k0]) != checks[k0] && checker != checkee {
        CheckRowsExactlyWritten(quizId, checker, checkee, ts, form, keys, checks, k);
      } else {
        CheckRowsExactlySkipped(quizId, checker, checkee, ts, form, keys, checks, k);
      }
    }
  }

  /** `CheckRowsExactly` when the first field is written. */
  lemma {:induction false} CheckRowsExactlyWritten(quizId: string, checker: string, checkee: string, ts: string, form: Form, keys: seq<string>, checks: map<string, string>, k: string)
    requires KeysIn(form, keys) && Distinct(keys) && keys != []
    requires IsNumericKey(keys[0]) && keys[0] in checks && Strip(form[keys[0]]) != checks[keys[0]] && checker != checkee
    ensures var r := CheckRows(quizId, checker, checkee, ts, form, keys, checks);
            Asks(r, k) <==>
              checker != checkee && k in keys && IsNumericKey(k) && k in checks && Strip(form[k]) != checks[k]
    decreases |keys|, 0
  {
    var k0 := keys[0];
    var rest := keys[1..];
    var v := Strip(form[k0]);
    var checks' := checks[k0 := v];
    DistinctTail(form, keys);
    CheckRowsExactly(quizId, checker, checkee, ts, form, rest, checks', k);
    var tail := CheckRows(quizId, checker, checkee, ts, form, rest, checks');
    CheckRowsCons(quizId, checker, checkee, ts, form, keys, checks);
    ConsQuestion(Check(ts, quizId, checkee, checker, k0, v), tail, k);
    if k != k0 {
      VerdictUnchangedElsewhere(form, checks, k0, v, k);
    }
  }

  /** The rest of a list of distinct form fields is distinct, lacks the
      first field, and is still in the form. */
  lemma DistinctTail(form: Form, keys: seq<string>)
    requires KeysIn(form, keys) && Distinct(keys) && keys != []
    ensures KeysIn(form, keys[1..]) && Distinct(keys[1..]) && keys[0] !in keys[1..]
    ensures forall x :: x in keys <==> x == keys[0] || x in keys[1..]
  {
    assert forall x :: x in keys[1..] ==> x in keys;
  }

  /** A written first field puts its CHECK row in front of the rows of the
      remaining fields, with the stored verdict updated. */
  lemma CheckRowsCons(quizId: string, checker: string, checkee: string, ts: string, form: Form, keys: seq<string>, checks: map<string, string>)
    requires KeysIn(form, keys) && keys != []
    requires IsNumericKey(keys[0]) && keys[0] in checks && Strip(form[keys[0]]) != checks[keys[0]] && checker != checkee
    ensures KeysIn(form, keys[1..])
    ensures CheckRows(quizId, checker, checkee, ts, form, keys, checks) ==
              [Check(ts, quizId, checkee, checker, keys[0], Strip(form[keys[0]]))] +
              CheckRows(quizId, checker, checkee, ts, form, keys[1..], checks[keys[0] := Strip(form[keys[0]])])
  {
  }

  /** Updating the stored verdict of `k0` leaves whether field `k` differs
      from its stored verdict unchanged. */
  lemma VerdictUnchangedElsewhere(form: Form, checks: map<string, string>, k0: string, v: string, k: string)
    requires k != k0
    ensures var checks' := checks[k0 := v];
            (k in form && k in checks' && Strip(form[k]) != checks'[k]) == (k in form && k in checks && Strip(form[k]) != checks[k])
  {
  }

  /** `CheckRowsExactly` when the first field is not written. */
  lemma {:induction false} CheckRowsExactlySkipped(quizId: string, checker: string, checkee: string, ts: string, form: Form, keys: seq<string>, checks: map<string, string>, k: string)
    requires KeysIn(form, keys) && Distinct(keys) && keys != []
    requires !(IsNumericKey(keys[0]) && keys[0] in checks && Strip(form[keys[0]]) != checks[keys[0]] && checker != checkee)
    ensures var r := CheckRows(quizId, checker, checkee, ts, form, keys, checks);
            Asks(r, k) <==>
              checker != checkee && k in keys && IsNumericKey(k) && k in checks && Strip(form[k]) != checks[k]
    decreases |keys|, 0
  {
    var k0 := keys[0];
    var rest := keys[1..];
    assert forall x :: x in rest ==> x in keys;
    assert k0 !in rest;
    CheckRowsExactly(quizId, checker, checkee, ts, form, rest, checks, k);
    var r := CheckRows(quizId, checker, checkee, ts, form, keys, checks);
    assert r == CheckRows(quizId, checker, checkee, ts, form, rest, checks);
    if k == k0 {
      assert !Asks(r, k);
    } else {
      assert k in keys <==> k in rest;
    }
  }

  /** `check_answers`. A finished participant who checks someone else is
      marked checking; the checkee's verdicts are read, which fails when a
      verdict names a question outside 1..n; the changed verdicts are
      written; then the quiz is replayed and the verdicts read again. */
  function CheckAnswers(log: Log, form: Form, keys: seq<string>, ip: string, ts: string): (o: Outcome)
    requires KeysIn(form, keys)
    ensures FollowsLifecycle(log, o.rows)
    ensures NoSelfCheck(o.rows)
    ensures o.rows != [] ==>
              && "quiz_id" in form && "participant_id" in form && "participant_id_check" in form
              && form["participant_id"] != form["participant_id_check"]
              && GetQuizDetails(log, form["quiz_id"]).Ok?
    ensures "quiz_id" in form && "participant_id" in form && "participant_id_check" in form ==>
              forall row :: row in o.rows && row.Check? ==>
                && row.quizId == form["quiz_id"]
                && row.checker == form["participant_id"] && row.checkee == form["participant_id_check"]
                && IsNumericKey(row.question) && row.question in form && row.verdict == Strip(form[row.question])
    ensures Distinct(keys) ==> ChecksOnce(o.rows)
  {
    if "quiz_id" !in form then Outcome([], ErrorPage(MissingField("quiz_id")))
    else if "page_nbr" !in form then Outcome([], ErrorPage(MissingField("page_nbr")))
    else if "participant_id" !in form then Outcome([], ErrorPage(MissingField("participant_id")))
    else if "participant_id_check" !in form then Outcome([], ErrorPage(MissingField("participant_id_check")))
    else
      var quizId := form["quiz_id"];
      var pid := form["participant_id"];
      var pidCheck := form["participant_id_check"];
      match GetQuizDetails(log, quizId)
      case Err(e) => Outcome([], ErrorPage(e))
      case Ok(details) => CheckingBody(log, form, keys, ip, ts, quizId, pid, pidCheck, details.questions)
  }

  /** The part of `check_answers` past the quiz lookup: participant `pid`
      checks `pidCheck` in quiz `quizId` with `n` questions. */
  function CheckingBody(log: Log, form: Form, keys: seq<string>, ip: string, ts: string, quizId: string, pid: string, pidCheck: string, n: nat): (o: Outcome)
    requires KeysIn(form, keys)
    ensures FollowsLifecycle(log, o.rows)
    ensures pid == pidCheck ==> o.rows == []
    ensures forall row :: row in o.rows && row.Check? ==>
              && row.quizId == quizId && row.checker == pid && row.checkee == pidCheck
              && IsNumericKey(row.question) && row.question in form && row.verdict == Strip(form[row.question])
    ensures Distinct(keys) ==> ChecksOnce(o.rows)
  {
    var begun := CheckingBegun(log, quizId, ip, ts, pid, pidCheck);
    match Checks.ReadChecks(log + begun, quizId, n, pidCheck)
    case Err(e) =>
      LifecycleOfOptionalStatus(log, begun, []);
      assert begun + [] == begun;
      Outcome(begun, ErrorPage(e))
    case Ok(read) => WriteChecks(log, form, keys, ts, quizId, pid, pidCheck, n, begun, read.0)
  }

  /** The checking step proper: the optional status row `begun`, then the
      CHECK rows of the fields whose verdict changed from `checks`. */
  function WriteChecks(log: Log, form: Form, keys: seq<string>, ts: string, quizId: string, pid: string, pidCheck: string, n: nat, begun: seq<Row>, checks: map<string, string>): (o: Outcome)
    requires KeysIn(form, keys)
    requires |begun| <= 1
    requires forall row :: row in begun ==> row.Status? && Advances(ReadStatus(log, row.quizId, row.ip, row.pid), row.status)
    ensures FollowsLifecycle(log, o.rows)
    ensures pid == pidCheck && begun == [] ==> o.rows == []
    ensures forall row :: row in o.rows && row.Check? ==>
              && row.quizId == quizId && row.checker == pid && row.checkee == pidCheck
              && IsNumericKey(row.question) && row.question in form && row.verdict == Strip(form[row.question])
    ensures Distinct(keys) ==> ChecksOnce(o.rows)
  {
    var written := CheckRows(quizId, pid, pidCheck, ts, form, keys, checks);
    LifecycleOfOptionalStatus(log, begun, written);
    ChecksAfterStatus(begun, written);
    Outcome(begun + written, CheckedPage(log + begun + written, quizId, n, pidCheck))
  }

  /** The checking page replays the quiz and reads the checkee's verdicts
      again; either can fail. */
  function CheckedPage(log: Log, quizId: string, n: nat, pidCheck: string): Page {
    if Ranking.ReadResults(log, quizId).Err? then ErrorPage(Ranking.ReadResults(log, quizId).error)
    else if Checks.ReadChecks(log, quizId, n, pidCheck).Err? then ErrorPage(UncountedQuestion)
    else CheckPage
  }

  /** Rows without CHECK rows put in front add no CHECK row. */
  lemma ChecksAfterStatus(begun: seq<Row>, written: seq<Row>)
    requires forall i :: 0 <= i < |begun| ==> !begun[i].Check?
    ensures forall row :: row in begun + written && row.Check? ==> row in written
    ensures ChecksOnce(written) ==> ChecksOnce(begun + written)
  {
    var r := begun + written;
    assert forall i :: |begun| <= i < |r| ==> r[i] == written[i - |begun|];
  }

  /** No two CHECK rows among `rows` are for the same question. */
  predicate ChecksOnce(rows: seq<Row>) {
    forall i, j :: 0 <= i < j < |rows| && rows[i].Check? && rows[j].Check? ==> rows[i].question != rows[j].question
  }

  /** The STATUS row `check_answers` writes first: a finished participant
      who checks someone else is marked checking. */
  function CheckingBegun(log: Log, quizId: string, ip: string, ts: string, pid: string, pidCheck: string): (r: seq<Row>)
    ensures |r| <= 1
    ensures forall row :: row in r ==> row.Status? && Advances(ReadStatus(log, row.quizId, row.ip, row.pid), row.status)
    ensures r != [] <==> ReadStatus(log, quizId, ip, pid) == Finished && pid != pidCheck
  {
    if ReadStatus(log, quizId, ip, pid) == Finished && pidCheck != pid then [Status(ts, quizId, ip, pid, Checking)] else []
  }

  /** Some row among `rows` is a CHECK of question `k`. */
  predicate VerdictWritten(rows: seq<Row>, k: string) {
    exists i :: 0 <= i < |rows| && rows[i].Check? && rows[i].question == k
  }

  /** A `check_answers` submission writes field `k`: the form names the
      quiz, the page, the checker and the checkee, who differ; the quiz is
      known; the checkee's verdicts, read after the checker's STATUS row,
      count; and `k` is a numeric field that is one of those verdicts and
      differs from it once stripped. */
  predicate ChangesVerdict(log: Log, form: Form, keys: seq<string>, ip: string, ts: string, k: string) {
    && "quiz_id" in form && "page_nbr" in form && "participant_id" in form && "participant_id_check" in form
    && var quizId := form["quiz_id"];
       var pid := form["participant_id"];
       var pidCheck := form["participant_id_check"];
       && pid != pidCheck
       && GetQuizDetails(log, quizId).Ok?
       && var read := Checks.ReadChecks(log + CheckingBegun(log, quizId, ip, ts, pid, pidCheck), quizId,
                                        GetQuizDetails(log, quizId).value.questions, pidCheck);
          && read.Ok?
          && k in keys && k in form && IsNumericKey(k) && k in read.value.0 && Strip(form[k]) != read.value.0[k]
  }

  /** With distinct field names, `check_answers` writes a CHECK of question
      `k` exactly when the submission changes that verdict. */
  lemma CheckAnswersExactly(log: Log, form: Form, keys: seq<string>, ip: string, ts: string, k: string)
    requires KeysIn(form, keys) && Distinct(keys)
    ensures VerdictWritten(CheckAnswers(log, form, keys, ip, ts).rows, k) <==> ChangesVerdict(log, form, keys, ip, ts, k)
  {
    if "quiz_id" in form && "page_nbr" in form && "participant_id" in form && "participant_id_check" in form {
      var quizId := form["quiz_id"];
      if GetQuizDetails(log, quizId).Ok? {
        CheckingBodyExactly(log, form, keys, ip, ts, quizId, form["participant_id"], form["participant_id_check"],
                            GetQuizDetails(log, quizId).value.questions, k);
      }
    }
  }

  /** `CheckAnswersExactly` past the quiz lookup. */
  lemma CheckingBodyExactly(log: Log, form: Form, keys: seq<string>, ip: string, ts: string, quizId: string, pid: string, pidCheck: string, n: nat, k: string)
    requires KeysIn(form, keys) && Distinct(keys)
    ensures var read := Checks.ReadChecks(log + CheckingBegun(log, quizId, ip, ts, pid, pidCheck), quizId, n, pidCheck);
            VerdictWritten(CheckingBody(log, form, keys, ip, ts, quizId, pid, pidCheck, n).rows, k) <==>
              && pid != pidCheck && read.Ok?
              && k in keys && k in form && IsNumericKey(k) && k in read.value.0 && Strip(form[k]) != read.value.0[k]
  {
    var begun := CheckingBegun(log, quizId, ip, ts, pid, pidCheck);
    var o := CheckingBody(log, form, keys, ip, ts, quizId, pid, pidCheck, n);
    match Checks.ReadChecks(log + begun, quizId, n, pidCheck)
    case Err(_) =>
      assert o.rows == begun;
    case Ok(read) =>
      WriteChecksExactly(log, form, keys, ts, quizId, pid, pidCheck, n, begun, read.0, k);
  }

  /** The checking step writes a CHECK of `k` exactly when checker and
      checkee differ and `k` is a numeric field that is one of the stored
      verdicts and differs from it once stripped. */
  lemma WriteChecksExactly(log: Log, form: Form, keys: seq<string>, ts: string, quizId: string, pid: string, pidCheck: string, n: nat, begun: seq<Row>, checks: map<string, string>, k: string)
    requires KeysIn(form, keys) && Distinct(keys)
    requires |begun| <= 1
    requires forall row :: row in begun ==> row.Status? && Advances(ReadStatus(log, row.quizId, row.ip, row.pid), row.status)
    ensures VerdictWritten(WriteChecks(log, form, keys, ts, quizId, pid, pidCheck, n, begun, checks).rows, k) <==>
              pid != pidCheck && k in keys && IsNumericKey(k) && k in checks && Strip(form[k]) != checks[k]
  {
    assert WriteChecks(log, form, keys, ts, quizId, pid, pidCheck, n, begun, checks).rows == begun + CheckRows(quizId, pid, pidCheck, ts, form, keys, checks);
    CheckRowsExactly(quizId, pid, pidCheck, ts, form, keys, checks, k);
    VerdictWrittenAfter(begun, CheckRows(quizId, pid, pidCheck, ts, form, keys, checks), k,
                        pid != pidCheck && k in keys && IsNumericKey(k) && k in checks && Strip(form[k]) != checks[k]);
  }

  /** Leading STATUS rows write no CHECK: when `k` is some question of the
      CHECK rows `written` exactly when `c` holds, a CHECK of `k` follows the
      STATUS rows exactly when `c` holds. */
  lemma VerdictWrittenAfter(begun: seq<Row>, written: seq<Row>, k: string, c: bool)
    requires forall row :: row in begun ==> row.Status?
    requires forall i :: 0 <= i < |written| ==> written[i].Check?
    requires Asks(written, k) <==> c
    ensures VerdictWritten(begun + written, k) <==> c
  {
    var r := begun + written;
    if VerdictWritten(r, k) {
      var i :| 0 <= i < |r| && r[i].Check? && r[i].question == k;
      assert r[i] !in begun;
      assert written[i - |begun|] == r[i];
    }
    if exists j :: 0 <= j < |written| && written[j].question == k {
      var j :| 0 <= j < |written| && written[j].question == k;
      assert r[j + |begun|] == written[j];
    }
  }

  /** After `check_answers` with distinct field names, the verdicts
      `read_checks` folds for the checked participant hold, on every question
      the submission changed, the stripped verdict just submitted. */
  lemma EnteredChecksReadBack(log: Log, form: Form, keys: seq<string>, ip: string, ts: string, n: nat)
    requires KeysIn(form, keys) && Distinct(keys) && "quiz_id" in form && "participant_id_check" in form
    ensures var o := CheckAnswers(log, form, keys, ip, ts);
            var t := Checks.CheckTable(log + o.rows, form["quiz_id"], n, form["participant_id_check"]);
            var p := form["participant_id_check"];
            forall row :: row in o.rows && row.Check? ==>
              row.question in t[p] && row.question in form && t[p][row.question] == Strip(form[row.question])
  {
    var o := CheckAnswers(log, form, keys, ip, ts);
    var quizId, p := form["quiz_id"], form["participant_id_check"];
    forall row | row in o.rows && row.Check?
      ensures var t := Checks.CheckTable(log + o.rows, quizId, n, p);
              row.question in t[p] && row.question in form && t[p][row.question] == Strip(form[row.question])
    {
      var j :| 0 <= j < |o.rows| && o.rows[j] == row;
      assert ChecksOnce(o.rows);
      Checks.LaterVerdictIsReadBack(log, o.rows, j, quizId, n, p);
      StripIdempotent(form[row.question]);
    }
  }

  // ---------------------------------------------------------- open_checking

  /** `open_checking`: when the caller is the quiz host, the finished
      participants, in result order and then shuffled by `shuffle`, are each
      assigned the one before them; every caller is then handed to
      `examine_results`. */
  function OpenChecking(log: Log, form: Form, ip: string, ts: string, shuffle: seq<string> -> seq<string>): (o: Outcome)
    ensures FollowsLifecycle(log, o.rows)
    ensures forall row :: row in o.rows ==> row.Checker? || row.Status?
    ensures (exists row :: row in o.rows && row.Checker?) ==>
              "quiz_id" in form && "participant_id" in form && IsQuizHost(log, form["quiz_id"], form["participant_id"], ip)
  {
    if "quiz_id" !in form then Outcome([], ErrorPage(MissingField("quiz_id")))
    else if "participant_id" !in form then Outcome([], ErrorPage(MissingField("participant_id")))
    else
      var quizId := form["quiz_id"];
      var pid := form["participant_id"];
      if IsQuizHost(log, quizId, pid, ip) then
        match Ranking.ReadResults(log, quizId)
        case Err(e) => Outcome([], ErrorPage(e))
        case Ok(ranked) =>
          var ids := shuffle(Assignment.FinishedIds(ranked.ranking, ranked.entries));
          var pairs := Assignment.CheckerRows(quizId, ts, ids);
          var rest := ExamineResults(log + pairs, form, ip, ts);
          LifecycleAfterOtherRows(log, pairs, rest.rows);
          Outcome(pairs + rest.rows, rest.page)
      else ExamineResults(log, form, ip, ts)
  }

  // -------------------------------------------------------- open_answering

  /** `open_answering`: the host's blank answer to question 1 opens the
      answering phase for everyone; every caller is then handed to `wait()`. */
  function OpenAnswering(log: Log, form: Form, ip: string, ts: string): (o: Outcome)
    ensures o.rows != [] <==> "quiz_id" in form && "participant_id" in form &&
                              IsQuizHost(log, form["quiz_id"], form["participant_id"], ip)
    ensures forall row :: row in o.rows ==> row.Answer? && row.question == "1" && row.text == ""
  {
    if "quiz_id" !in form then Outcome([], ErrorPage(MissingField("quiz_id")))
    else if "participant_id" !in form then Outcome([], ErrorPage(MissingField("participant_id")))
    else
      var quizId := form["quiz_id"];
      var pid := form["participant_id"];
      if IsQuizHost(log, quizId, pid, ip) then Outcome([Answer(ts, quizId, ip, pid, "1", "")], WaitPage)
      else Outcome([], WaitPage)
  }

  /** Once the host has opened answering, every participant's
      `enter_answers` gets past the wait page. */
  lemma OpenAnsweringStartsAnswering(log: Log, form: Form, ip: string, ts: string)
    requires OpenAnswering(log, form, ip, ts).rows != []
    ensures AnsweringStarted(log + OpenAnswering(log, form, ip, ts).rows, form["quiz_id"])
  {
    var rows := OpenAnswering(log, form, ip, ts).rows;
    assert OpensAnswering((log + rows)[|log|], form["quiz_id"]);
  }

  // ------------------------------------------------------------ properties

  /** The finished participants `open_checking` shuffles, in result order. */
  function FinishedOf(log: Log, quizId: string): seq<string>
    requires Ranking.ReadResults(log, quizId).Ok?
  {
    var r := Ranking.ReadResults(log, quizId).value;
    Assignment.FinishedIds(r.ranking, r.entries)
  }

  /** The finished participants, in the result order, carry no repeats. */
  lemma FinishedDistinct(log: Log, quizId: string)
    requires Ranking.ReadResults(log, quizId).Ok?
    ensures Distinct(FinishedOf(log, quizId))
  {
  }

  /** When the host opens checking, the CHECKER rows come first, one per
      finished participant: each finished participant checks exactly one
      finished participant and is checked by exactly one, and with two or more
      of them nobody checks themself. `shuffle` is only assumed to reorder
      the list it is given. */
  lemma OpenCheckingAssignsOthers(log: Log, form: Form, ip: string, ts: string, shuffle: seq<string> -> seq<string>)
    requires "quiz_id" in form && "participant_id" in form
    requires IsQuizHost(log, form["quiz_id"], form["participant_id"], ip)
    requires Ranking.ReadResults(log, form["quiz_id"]).Ok?
    requires multiset(shuffle(FinishedOf(log, form["quiz_id"]))) == multiset(FinishedOf(log, form["quiz_id"]))
    ensures var finished := FinishedOf(log, form["quiz_id"]);
            var rows := OpenChecking(log, form, ip, ts, shuffle).rows;
            |finished| <= |rows| && Assignment.IsPairing(rows[..|finished|], finished)
  {
    var quizId := form["quiz_id"];
    var finished := FinishedOf(log, quizId);
    var ids := shuffle(finished);
    SameElements(ids, finished);
    FinishedDistinct(log, quizId);
    DistinctPermutation(ids, finished);
    OpenCheckingStartsWithPairs(log, form, ip, ts, shuffle);
    Assignment.PairsOfReordering(quizId, ts, ids, finished);
  }

  /** The host's `open_checking` writes the CHECKER rows of the shuffled
      finished participants before anything else. */
  lemma OpenCheckingStartsWithPairs(log: Log, form: Form, ip: string, ts: string, shuffle: seq<string> -> seq<string>)
    requires "quiz_id" in form && "participant_id" in form
    requires IsQuizHost(log, form["quiz_id"], form["participant_id"], ip)
    requires Ranking.ReadResults(log, form["quiz_id"]).Ok?
    ensures var pairs := Assignment.CheckerRows(form["quiz_id"], ts, shuffle(FinishedOf(log, form["quiz_id"])));
            var rows := OpenChecking(log, form, ip, ts, shuffle).rows;
            |pairs| <= |rows| && rows[..|pairs|] == pairs
  {
    var quizId := form["quiz_id"];
    var pairs := Assignment.CheckerRows(quizId, ts, shuffle(FinishedOf(log, quizId)));
    var rows := OpenChecking(log, form, ip, ts, shuffle).rows;
    assert rows == pairs + ExamineResults(log + pairs, form, ip, ts).rows;
  }

  /** Sequences with the same multiset have the same length and elements. */
  lemma SameElements<T>(a: seq<T>, b: seq<T>)
    requires multiset(a) == multiset(b)
    ensures |a| == |b| && forall x :: x in a <==> x in b
  {
    assert |multiset(a)| == |multiset(b)|;
    assert forall x :: x in a <==> x in multiset(a);
    assert forall x :: x in b <==> x in multiset(b);
  }
}
