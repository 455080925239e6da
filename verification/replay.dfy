/** `read_results_from_logfile`: the replay of one quiz's rows into a record
    per participant. Rows of other quizzes are skipped; a PARTICIPANT row
    creates a participant (or renames one), and every other row updates the
    participant it names, which must already exist. */
module Replay {
  import opened Wrappers
  import opened Text
  import opened LastWins
  import opened EventLog
  import Readers
  import Checks
  import opened Sets

  /** What the replay keeps for one participant. `checker` is the name of the
      participant assigned to check this one, as it was when the CHECKER row
      was replayed; None until a CHECKER row names this participant. */
  datatype Entry = Entry(
    checks: map<string, string>,
    answers: map<string, string>,
    status: string,
    name: string,
    checker: Option<string>)

  /** The record of a participant the replay has not seen. */
  const Blank := Entry(map[], map[], "", "", None)

  /** The replayed quiz. `order` lists the participants in the order they
      joined, which is the iteration order of the program's result dict and
      so the input order of its stable sort. */
  datatype Results = Results(
    quizName: string,
    quizDate: string,
    entries: map<string, Entry>,
    order: seq<string>)

  /** `order` enumerates the participants, each once. */
  predicate Wf(st: Results) {
    && Distinct(st.order)
    && (forall p :: p in st.entries ==> p in st.order)
    && (forall i :: 0 <= i < |st.order| ==> st.order[i] in st.entries)
  }

  /** Stored answers and verdicts carry no surrounding white space. */
  predicate EntryStripped(e: Entry) {
    (forall q :: q in e.answers ==> Trimmed(e.answers[q])) &&
    (forall q :: q in e.checks ==> Trimmed(e.checks[q]))
  }

  predicate Stripped(st: Results) {
    forall p :: p in st.entries ==> EntryStripped(st.entries[p])
  }

  function EntryOf(st: Results, p: string): Entry {
    if p in st.entries then st.entries[p] else Blank
  }

  /** The participants a row updates, each of whom must already be known. */
  function Needs(row: Row): set<string> {
    match row
    case Answer(_, _, _, pid, _, _) => {pid}
    case Check(_, _, checkee, _, _, _) => {checkee}
    case Status(_, _, _, pid, _) => {pid}
    case Checker(_, _, checker, checkee) => {checker, checkee}
    case _ => {}
  }

  /** The participant a row introduces, if it is a PARTICIPANT row. */
  function Joins(row: Row): set<string> {
    if row.Participant? then {row.pid} else {}
  }

  /** One row of the quiz applied to the replay state. A row naming an
      unknown participant is the program's KeyError; for a CHECKER row the
      checker is looked up before the checkee. */
  function Step(st: Results, row: Row): (r: Result<Results, Failure>)
    ensures r.Ok? <==> Needs(row) <= st.entries.Keys
    ensures r.Err? ==> exists p :: p in Needs(row) && p !in st.entries && r.error == UnknownParticipant(p)
    ensures r.Ok? ==> r.value.entries.Keys == st.entries.Keys + Joins(row)
    ensures r.Ok? && Wf(st) ==> Wf(r.value)
    ensures r.Ok? && Stripped(st) ==> Stripped(r.value)
    ensures r.Ok? && row.Checker? ==> r.value.entries[row.checkee].checker == Some(st.entries[row.checker].name)
    ensures r.Ok? && row.StartQuiz? ==> r.value.quizName == row.quizName && r.value.quizDate == Take(row.ts, 8)
    ensures r.Ok? && !row.StartQuiz? ==> r.value.quizName == st.quizName && r.value.quizDate == st.quizDate
  {
    match row
    case StartQuiz(ts, _, name, _, _, _) =>
      Ok(st.(quizName := name, quizDate := Take(ts, 8)))
    case EndQuiz(_, _) => Ok(st)
    case Participant(_, _, _, pid, name) =>
      if pid in st.entries then Ok(Put(st, pid, st.entries[pid].(name := name)))
      else Ok(Join(st, pid, name))
    case Answer(_, _, _, pid, q, text) =>
      if pid !in st.entries then Err(UnknownParticipant(pid))
      else
        Ok(Put(st, pid, WithAnswer(st.entries[pid], q, text)))
    case Check(_, _, checkee, _, q, verdict) =>
      if checkee !in st.entries then Err(UnknownParticipant(checkee))
      else
        Ok(Put(st, checkee, WithVerdict(st.entries[checkee], q, verdict)))
    case Status(_, _, _, pid, status) =>
      if pid !in st.entries then Err(UnknownParticipant(pid))
      else Ok(Put(st, pid, st.entries[pid].(status := status)))
    case Checker(_, _, checker, checkee) =>
      if checker !in st.entries then Err(UnknownParticipant(checker))
      else if checkee !in st.entries then Err(UnknownParticipant(checkee))
      else
        var name := st.entries[checker].name;
        Ok(Put(st, checkee, st.entries[checkee].(checker := Some(name))))
  }

  /** The record with answer `q` set to the stripped `text`. */
  function WithAnswer(e: Entry, q: string, text: string): (r: Entry)
    ensures r.answers.Keys == e.answers.Keys + {q} && Trimmed(r.answers[q])
    ensures EntryStripped(e) ==> EntryStripped(r)
  {
    e.(answers := e.answers[q := Strip(text)])
  }

  /** The record with the verdict on `q` set to the stripped `verdict`. */
  function WithVerdict(e: Entry, q: string, verdict: string): (r: Entry)
    ensures r.checks.Keys == e.checks.Keys + {q} && Trimmed(r.checks[q])
    ensures EntryStripped(e) ==> EntryStripped(r)
  {
    e.(checks := e.checks[q := Strip(verdict)])
  }

  /** Participant `p`'s record replaced; the participants stay the same. */
  function Put(st: Results, p: string, e: Entry): (r: Results)
    requires p in st.entries
    ensures r.entries.Keys == st.entries.Keys && r.order == st.order
    ensures r.quizName == st.quizName && r.quizDate == st.quizDate
    ensures Wf(st) ==> Wf(r)
    ensures Stripped(st) && EntryStripped(e) ==> Stripped(r)
  {
    st.(entries := st.entries[p := e])
  }

  /** A new participant `p` with a blank record, placed last in the order. */
  function Join(st: Results, p: string, name: string): (r: Results)
    requires p !in st.entries
    ensures r.entries.Keys == st.entries.Keys + {p} && r.order == st.order + [p]
    ensures r.quizName == st.quizName && r.quizDate == st.quizDate
    ensures Wf(st) ==> Wf(r)
    ensures Stripped(st) ==> Stripped(r)
  {
    var r := st.(entries := st.entries[p := Blank.(name := name)], order := st.order + [p]);
    if Wf(st) then JoinWf(st, r, p); r else r
  }

  /** Appending a participant not yet known keeps `order` an enumeration. */
  lemma JoinWf(st: Results, r: Results, p: string)
    requires Wf(st) && p !in st.entries
    requires r.entries.Keys == st.entries.Keys + {p} && r.order == st.order + [p]
    ensures Wf(r)
  {
    assert forall i :: 0 <= i < |st.order| ==> r.order[i] == st.order[i];
  }

  const Empty := Results("", "", map[], [])

  /** A row of this quiz is replayed; rows of other quizzes are skipped. */
  function Apply(st: Results, row: Row, quizId: string): Result<Results, Failure> {
    if row.quizId == quizId then Step(st, row) else Ok(st)
  }

  /** `read_results_from_logfile`: the rows of the quiz replayed in log order;
      the first row naming an unknown participant stops the replay. */
  function ReadResultsFromLog(log: Log, quizId: string): (r: Result<Results, Failure>)
    ensures r.Ok? ==> Wf(r.value) && Stripped(r.value)
    ensures r.Err? ==> r.error.UnknownParticipant?
    decreases |log|
  {
    if log == [] then Ok(Empty)
    else
      var row := log[|log| - 1];
      match ReadResultsFromLog(log[..|log| - 1], quizId)
      case Err(e) => Err(e)
      case Ok(st) => Apply(st, row, quizId)
  }

  /** The quiz name and date of a successful replay are those of the last
      START_QUIZ row of the quiz, the date being the first eight characters
      of its time stamp; both are empty when the quiz has no such row. */
  lemma {:induction false} ReplayHeader(log: Log, quizId: string)
    requires ReadResultsFromLog(log, quizId).Ok?
    ensures var st := ReadResultsFromLog(log, quizId).value;
            var last := LastOf(log, Readers.StartOf(quizId));
            && st.quizName == (if last.Some? then last.value.quizName else "")
            && st.quizDate == (if last.Some? then Take(last.value.ts, 8) else "")
    decreases |log|
  {
    if log != [] {
      var pre := log[..|log| - 1];
      ReplayHeader(pre, quizId);
      LastOfLast(log, Readers.StartOf(quizId));
    }
  }

  /** The replayed quiz name is the name `get_quiz_details` reports. */
  lemma ReplayNameIsQuizName(log: Log, quizId: string)
    requires ReadResultsFromLog(log, quizId).Ok? && Readers.GetQuizDetails(log, quizId).Ok?
    ensures ReadResultsFromLog(log, quizId).value.quizName == Readers.GetQuizDetails(log, quizId).value.name
  {
    ReplayHeader(log, quizId);
  }

  // ------------------------------------------------- agreement with readers

  predicate IsJoinOf(row: Row, quizId: string, p: string) {
    row.Participant? && row.quizId == quizId && row.pid == p
  }

  /** The name a PARTICIPANT row of the quiz gives participant `p`. */
  function NameIn(quizId: string, p: string): Row -> Option<string> {
    row => if IsJoinOf(row, quizId, p) then Some(row.name) else None
  }

  predicate IsStatusIn(row: Row, quizId: string, p: string) {
    row.Status? && row.quizId == quizId && row.pid == p
  }

  /** The status a STATUS row of the quiz gives `p`, from any address. */
  function StatusIn(quizId: string, p: string): Row -> Option<string> {
    row => if IsStatusIn(row, quizId, p) then Some(row.status) else None
  }

  /** Participant `p`'s record in the replay state is what the single-purpose
      last-write-wins readers compute from the same log: the answers of
      `read_answers_no_ip` and the verdicts of `read_checks` (both without
      their blank seed), the last status from any address, and the name of
      the last PARTICIPANT row of the quiz. `p` is a participant exactly when
      such a row exists. */
  ghost predicate Agrees(log: Log, quizId: string, st: Results, p: string) {
    && EntryOf(st, p).answers == Overlay(map[], log, Readers.AnswerWrite(quizId, None, p))
    && EntryOf(st, p).checks == Overlay(map[], log, Checks.VerdictWrite(quizId, p))
    && EntryOf(st, p).status == LastOf(log, StatusIn(quizId, p)).GetOr("")
    && EntryOf(st, p).name == LastOf(log, NameIn(quizId, p)).GetOr("")
    && (p in st.entries <==> LastOf(log, NameIn(quizId, p)).Some?)
  }

  /** A successful replay agrees with the readers for every participant id. */
  lemma {:induction false} ReplayAgreesWithReaders(log: Log, quizId: string)
    requires ReadResultsFromLog(log, quizId).Ok?
    ensures forall p :: Agrees(log, quizId, ReadResultsFromLog(log, quizId).value, p)
    decreases |log|
  {
    var st := ReadResultsFromLog(log, quizId).value;
    if log != [] {
      var n := |log| - 1;
      var pre := log[..n];
      ReplayAgreesWithReaders(pre, quizId);
      var st0 := ReadResultsFromLog(pre, quizId).value;
      forall p
        ensures Agrees(log, quizId, st, p)
      {
        AgreesStep(log, quizId, st0, p);
      }
    }
  }

  /** One replayed row keeps the replay state in agreement with the readers. */
  lemma AgreesStep(log: Log, quizId: string, st0: Results, p: string)
    requires log != [] && Apply(st0, log[|log| - 1], quizId).Ok?
    requires Agrees(log[..|log| - 1], quizId, st0, p)
    ensures Agrees(log, quizId, Apply(st0, log[|log| - 1], quizId).value, p)
  {
    var row := log[|log| - 1];
    var st := Apply(st0, row, quizId).value;
    ApplyEntry(st0, row, quizId, p);
    var e0, e := EntryOf(st0, p), EntryOf(st, p);
    AnswersStep(log, quizId, p, st0, e0, e);
    VerdictsStep(log, quizId, p, st0, e0, e);
    StatusStep(log, quizId, p, st0, e0, e);
    NameStep(log, quizId, p, st0, e0, e);
  }

  /** Replaying a row changes `p`'s record as `EntryStep` says, and makes
      `p` a participant only through a PARTICIPANT row of the quiz. */
  lemma ApplyEntry(st0: Results, row: Row, quizId: string, p: string)
    requires Apply(st0, row, quizId).Ok?
    ensures var st := Apply(st0, row, quizId).value;
            && EntryOf(st, p) == (if row.quizId == quizId then EntryStep(st0, EntryOf(st0, p), row, p) else EntryOf(st0, p))
            && (p in st.entries <==> p in st0.entries || IsJoinOf(row, quizId, p))
  {
    if row.quizId == quizId && p in Step(st0, row).value.entries {
      StepEntry(st0, row, p);
    }
  }

  /** The record `p` has after the last row of `log`, given the one before. */
  predicate AfterLast(log: Log, quizId: string, p: string, st0: Results, e0: Entry, e: Entry)
    requires log != []
  {
    var row := log[|log| - 1];
    e == if row.quizId == quizId then EntryStep(st0, e0, row, p) else e0
  }

  lemma AnswersStep(log: Log, quizId: string, p: string, st0: Results, e0: Entry, e: Entry)
    requires log != [] && AfterLast(log, quizId, p, st0, e0, e)
    requires e0.answers == Overlay(map[], log[..|log| - 1], Readers.AnswerWrite(quizId, None, p))
    ensures e.answers == Overlay(map[], log, Readers.AnswerWrite(quizId, None, p))
  {
    var row := log[|log| - 1];
    var f := Readers.AnswerWrite(quizId, None, p);
    OverlayLast(map[], log, f);
    AnswerWriteOf(quizId, p, row);
    AnswersAfterLast(log, quizId, p, st0, e0, e);
    Overwrite(e0.answers, e.answers, Overlay(map[], log[..|log| - 1], f), Overlay(map[], log, f), f(row));
  }

  lemma VerdictsStep(log: Log, quizId: string, p: string, st0: Results, e0: Entry, e: Entry)
    requires log != [] && AfterLast(log, quizId, p, st0, e0, e)
    requires e0.checks == Overlay(map[], log[..|log| - 1], Checks.VerdictWrite(quizId, p))
    ensures e.checks == Overlay(map[], log, Checks.VerdictWrite(quizId, p))
  {
    var row := log[|log| - 1];
    var f := Checks.VerdictWrite(quizId, p);
    OverlayLast(map[], log, f);
    VerdictWriteOf(quizId, p, row);
    VerdictsAfterLast(log, quizId, p, st0, e0, e);
    Overwrite(e0.checks, e.checks, Overlay(map[], log[..|log| - 1], f), Overlay(map[], log, f), f(row));
  }

  /** The answer an ANSWER row of `p` in the quiz stores, from any address. */
  lemma AnswerWriteOf(quizId: string, p: string, row: Row)
    ensures Readers.AnswerWrite(quizId, None, p)(row) ==
              if Readers.IsAnswerOf(row, quizId, None, p) then Some((row.question, Strip(row.text))) else None
  {
  }

  /** The verdict a CHECK row about `p` in the quiz stores. */
  lemma VerdictWriteOf(quizId: string, p: string, row: Row)
    ensures Checks.VerdictWrite(quizId, p)(row) ==
              if Checks.IsCheckOf(row, quizId, p) then Some((row.question, Strip(row.verdict))) else None
  {
  }

  /** The last row changes `p`'s answers exactly when it is one of `p`'s
      ANSWER rows of the quiz. */
  lemma AnswersAfterLast(log: Log, quizId: string, p: string, st0: Results, e0: Entry, e: Entry)
    requires log != [] && AfterLast(log, quizId, p, st0, e0, e)
    ensures var row := log[|log| - 1];
            e.answers == if Readers.IsAnswerOf(row, quizId, None, p) then e0.answers[row.question := Strip(row.text)] else e0.answers
  {
  }

  /** The last row changes `p`'s verdicts exactly when it is a CHECK row
      about `p` in the quiz. */
  lemma VerdictsAfterLast(log: Log, quizId: string, p: string, st0: Results, e0: Entry, e: Entry)
    requires log != [] && AfterLast(log, quizId, p, st0, e0, e)
    ensures var row := log[|log| - 1];
            e.checks == if Checks.IsCheckOf(row, quizId, p) then e0.checks[row.question := Strip(row.verdict)] else e0.checks
  {
  }

  /** A map and the fold it agrees with stay in agreement when both take
      the same optional write. */
  lemma Overwrite<K, V>(before: map<K, V>, after: map<K, V>, o0: map<K, V>, o: map<K, V>, w: Option<(K, V)>)
    requires before == o0
    requires o == if w.None? then o0 else o0[w.value.0 := w.value.1]
    requires after == if w.None? then before else before[w.value.0 := w.value.1]
    ensures after == o
  {
  }

  lemma StatusStep(log: Log, quizId: string, p: string, st0: Results, e0: Entry, e: Entry)
    requires log != [] && AfterLast(log, quizId, p, st0, e0, e)
    requires e0.status == LastOf(log[..|log| - 1], StatusIn(quizId, p)).GetOr("")
    ensures e.status == LastOf(log, StatusIn(quizId, p)).GetOr("")
  {
    EntryStepFields(st0, e0, log[|log| - 1], p);
    LastOfLast(log, StatusIn(quizId, p));
  }

  lemma NameStep(log: Log, quizId: string, p: string, st0: Results, e0: Entry, e: Entry)
    requires log != [] && AfterLast(log, quizId, p, st0, e0, e)
    requires e0.name == LastOf(log[..|log| - 1], NameIn(quizId, p)).GetOr("")
    ensures e.name == LastOf(log, NameIn(quizId, p)).GetOr("")
    ensures LastOf(log, NameIn(quizId, p)).Some? <==> LastOf(log[..|log| - 1], NameIn(quizId, p)).Some? || IsJoinOf(log[|log| - 1], quizId, p)
  {
    EntryStepFields(st0, e0, log[|log| - 1], p);
    LastOfLast(log, NameIn(quizId, p));
  }

  /** Only a PARTICIPANT row for `p` changes its name, and only a STATUS row
      for `p` its status. */
  lemma EntryStepFields(st: Results, e: Entry, row: Row, p: string)
    ensures EntryStep(st, e, row, p).name == if row.Participant? && row.pid == p then row.name else e.name
    ensures EntryStep(st, e, row, p).status == if row.Status? && row.pid == p then row.status else e.status
  {
  }

  /** Participant `p` joined the quiz in a row before row `i`. */
  ghost predicate JoinedBefore(log: Log, quizId: string, i: int, p: string) {
    exists j :: 0 <= j < i && j < |log| && IsJoinOf(log[j], quizId, p)
  }

  /** Every row of the quiz names only participants who joined before it. */
  ghost predicate Replayable(log: Log, quizId: string) {
    forall i, p :: 0 <= i < |log| && log[i].quizId == quizId && p in Needs(log[i]) ==> JoinedBefore(log, quizId, i, p)
  }

  /** The replay succeeds exactly when no row of the quiz names a participant
      before that participant's PARTICIPANT row. */
  lemma {:induction false} ReplayOkIff(log: Log, quizId: string)
    ensures ReadResultsFromLog(log, quizId).Ok? <==> Replayable(log, quizId)
    decreases |log|
  {
    if log != [] {
      var n := |log| - 1;
      var pre := log[..n];
      var row := log[n];
      ReplayOkIff(pre, quizId);
      assert forall i :: 0 <= i < n ==> pre[i] == log[i];
      assert forall i, p :: 0 <= i <= n ==> (JoinedBefore(pre, quizId, i, p) <==> JoinedBefore(log, quizId, i, p));
      assert Replayable(log, quizId) <==>
        Replayable(pre, quizId) &&
        (row.quizId == quizId ==> forall p :: p in Needs(row) ==> JoinedBefore(log, quizId, n, p));
      if ReadResultsFromLog(pre, quizId).Ok? {
        var st0 := ReadResultsFromLog(pre, quizId).value;
        ReplayAgreesWithReaders(pre, quizId);
        forall p
          ensures p in st0.entries <==> JoinedBefore(pre, quizId, n, p)
        {
          assert Agrees(pre, quizId, st0, p);
          assert forall j :: 0 <= j < n ==> (NameIn(quizId, p)(pre[j]).Some? <==> IsJoinOf(pre[j], quizId, p));
        }
      }
    }
  }

  // ----------------------------------------------------------- renaming

  /** Two replay states with the same participants, in the same order, with
      the same answers, verdicts and statuses; names may differ. */
  predicate SameScores(x: Results, y: Results) {
    && x.order == y.order
    && x.entries.Keys == y.entries.Keys
    && forall p :: p in x.entries ==>
         x.entries[p].answers == y.entries[p].answers &&
         x.entries[p].checks == y.entries[p].checks &&
         x.entries[p].status == y.entries[p].status
  }

  /** Replaying the same row on two such states fails on both or on neither,
      and keeps them alike. */
  lemma StepSameScores(x: Results, y: Results, row: Row)
    requires SameScores(x, y)
    ensures Step(x, row).Ok? <==> Step(y, row).Ok?
    ensures Step(x, row).Ok? ==> SameScores(Step(x, row).value, Step(y, row).value)
  {
    if Step(x, row).Ok? {
      forall p | p in Step(x, row).value.entries
        ensures Step(x, row).value.entries[p].answers == Step(y, row).value.entries[p].answers
        ensures Step(x, row).value.entries[p].checks == Step(y, row).value.entries[p].checks
        ensures Step(x, row).value.entries[p].status == Step(y, row).value.entries[p].status
      {
        StepEntrySame(x, y, row, p);
      }
    }
  }

  /** One participant's part of `StepSameScores`. */
  lemma StepEntrySame(x: Results, y: Results, row: Row, p: string)
    requires SameScores(x, y) && Step(x, row).Ok? && Step(y, row).Ok?
    requires p in Step(x, row).value.entries
    ensures Step(x, row).value.entries[p].answers == Step(y, row).value.entries[p].answers
    ensures Step(x, row).value.entries[p].checks == Step(y, row).value.entries[p].checks
    ensures Step(x, row).value.entries[p].status == Step(y, row).value.entries[p].status
  {
    StepEntry(x, row, p);
    StepEntry(y, row, p);
    var ex, ey := EntryOf(x, p), EntryOf(y, p);
    assert ex.answers == ey.answers && ex.checks == ey.checks && ex.status == ey.status;
    EntryStepSame(x, y, ex, ey, row, p);
  }

  /** Records alike in answers, verdicts and status stay alike after a row. */
  lemma EntryStepSame(x: Results, y: Results, ex: Entry, ey: Entry, row: Row, p: string)
    requires ex.answers == ey.answers && ex.checks == ey.checks && ex.status == ey.status
    ensures EntryStep(x, ex, row, p).answers == EntryStep(y, ey, row, p).answers
    ensures EntryStep(x, ex, row, p).checks == EntryStep(y, ey, row, p).checks
    ensures EntryStep(x, ex, row, p).status == EntryStep(y, ey, row, p).status
  {
  }

  /** What one row does to participant `p`'s record, given the state it is
      replayed on (a CHECKER row copies the checker's name). */
  function EntryStep(st: Results, e: Entry, row: Row, p: string): Entry {
    match row
    case Participant(_, _, _, pid, name) => if pid == p then e.(name := name) else e
    case Answer(_, _, _, pid, q, text) => if pid == p then e.(answers := e.answers[q := Strip(text)]) else e
    case Check(_, _, checkee, _, q, verdict) => if checkee == p then e.(checks := e.checks[q := Strip(verdict)]) else e
    case Status(_, _, _, pid, status) => if pid == p then e.(status := status) else e
    case Checker(_, _, checker, checkee) => if checkee == p then e.(checker := Some(EntryOf(st, checker).name)) else e
    case _ => e
  }

  /** A successful step changes each record as `EntryStep` says, a new
      participant starting from the blank record. */
  lemma StepEntry(st: Results, row: Row, p: string)
    requires Step(st, row).Ok? && p in Step(st, row).value.entries
    ensures Step(st, row).value.entries[p] == EntryStep(st, EntryOf(st, p), row, p)
  {
  }

  /** A PARTICIPANT row for an id that already joined changes only that
      participant's name: the participants, their order, and everyone's
      answers, verdicts, status and checker stay as they were. */
  lemma RenameChangesOnlyName(log: Log, row: Row)
    requires row.Participant? && ReadResultsFromLog(log, row.quizId).Ok?
    requires row.pid in ReadResultsFromLog(log, row.quizId).value.entries
    ensures var before := ReadResultsFromLog(log, row.quizId).value;
            var after := ReadResultsFromLog(log + [row], row.quizId);
            && after.Ok?
            && after.value.order == before.order
            && after.value.entries.Keys == before.entries.Keys
            && after.value.entries[row.pid].name == row.name
            && forall p :: p in before.entries ==>
                 after.value.entries[p] == if p == row.pid then before.entries[p].(name := row.name) else before.entries[p]
  {
    assert (log + [row])[..|log|] == log;
  }

  /** Inserting such a rename anywhere after the participant joined leaves
      every participant's answers, verdicts and status as they were, and
      makes the replay neither fail nor succeed where it did not before. */
  lemma {:induction false} RenameKeepsScores(a: Log, row: Row, b: Log)
    requires row.Participant? && ReadResultsFromLog(a, row.quizId).Ok?
    requires row.pid in ReadResultsFromLog(a, row.quizId).value.entries
    ensures var with := ReadResultsFromLog(a + [row] + b, row.quizId);
            var without := ReadResultsFromLog(a + b, row.quizId);
            (with.Ok? <==> without.Ok?) && (with.Ok? ==> SameScores(with.value, without.value))
    decreases |b|
  {
    var quizId := row.quizId;
    if b == [] {
      assert a + [row] + b == a + [row];
      assert a + b == a;
      ReplaySnoc(a, row, quizId);
      RenameStepSame(ReadResultsFromLog(a, quizId).value, row);
    } else {
      var m := |b| - 1;
      var b' := b[..m];
      RenameKeepsScores(a, row, b');
      assert a + [row] + b == (a + [row] + b') + [b[m]];
      assert a + b == (a + b') + [b[m]];
      ReplaySnoc(a + [row] + b', b[m], quizId);
      ReplaySnoc(a + b', b[m], quizId);
      ApplySameScores(ReadResultsFromLog(a + [row] + b', quizId), ReadResultsFromLog(a + b', quizId), b[m], quizId);
    }
  }

  /** Replaying a log with one more row replays the row on the shorter
      log's state. */
  lemma ReplaySnoc(log: Log, row: Row, quizId: string)
    ensures ReadResultsFromLog(log + [row], quizId) == Then(ReadResultsFromLog(log, quizId), row, quizId)
  {
    assert (log + [row])[..|log|] == log;
  }

  /** A replay result carried over one more row. */
  function Then(r: Result<Results, Failure>, row: Row, quizId: string): Result<Results, Failure> {
    match r
    case Err(e) => Err(e)
    case Ok(st) => Apply(st, row, quizId)
  }

  /** A rename of a known participant succeeds and keeps the scores. */
  lemma RenameStepSame(st: Results, row: Row)
    requires row.Participant? && row.pid in st.entries
    ensures Step(st, row).Ok? && SameScores(Step(st, row).value, st)
  {
    var st' := Step(st, row).value;
    assert st'.entries == st.entries[row.pid := st.entries[row.pid].(name := row.name)];
  }

  /** Two alike replay results stay alike, failing together, over one more row. */
  lemma ApplySameScores(w: Result<Results, Failure>, wo: Result<Results, Failure>, row: Row, quizId: string)
    requires (w.Ok? <==> wo.Ok?) && (w.Ok? ==> SameScores(w.value, wo.value))
    ensures Then(w, row, quizId).Ok? <==> Then(wo, row, quizId).Ok?
    ensures Then(w, row, quizId).Ok? ==> SameScores(Then(w, row, quizId).value, Then(wo, row, quizId).value)
  {
    if w.Ok? && row.quizId == quizId {
      StepSameScores(w.value, wo.value, row);
    }
  }
}
