/** The quiz program's only persistent state: an append-only log of rows,
    each `[timestamp, kind, quiz_id, ...]`. Here a row is one case of a tagged
    datatype whose fields follow the column layout the program writes
    (online_quiz.py:109-111, 432-433, 481, 543, 583). */
module EventLog {
  import opened Text

  const Waiting := "waiting"
  const Started := "started"
  const Finished := "finished"
  const Checking := "checking"
  const Correct := "correct"
  const Wrong := "wrong"

  datatype Row =
    /** `[ts, START_QUIZ, quiz_id, name, n, host_pid, host_ip]` */
    | StartQuiz(ts: string, quizId: string, quizName: string, questions: nat, hostId: string, hostIp: string)
    /** `[ts, END_QUIZ, quiz_id]`: reserved; nothing in the program writes it */
    | EndQuiz(ts: string, quizId: string)
    /** `[ts, PARTICIPANT, quiz_id, ip, pid, name]` */
    | Participant(ts: string, quizId: string, ip: string, pid: string, name: string)
    /** `[ts, ANSWER, quiz_id, ip, pid, q, text]` */
    | Answer(ts: string, quizId: string, ip: string, pid: string, question: string, text: string)
    /** `[ts, STATUS, quiz_id, ip, pid, status]` */
    | Status(ts: string, quizId: string, ip: string, pid: string, status: string)
    /** `[ts, CHECK, quiz_id, checkee, checker, q, verdict]` */
    | Check(ts: string, quizId: string, checkee: string, checker: string, question: string, verdict: string)
    /** `[ts, CHECKER, quiz_id, checker, checkee]` */
    | Checker(ts: string, quizId: string, checker: string, checkee: string)

  type Log = seq<Row>

  /** Why an operation gives up; each case is an exception the program lets
      escape to its error page. */
  datatype Failure =
    /** `get_quiz_details` found no named START_QUIZ row */
    | UnknownQuiz(quizId: string)
    /** a row names a participant that never joined (KeyError in the replay) */
    | UnknownParticipant(pid: string)
    /** a verdict on a question outside 1..n (KeyError in `make_check_counts`) */
    | UncountedQuestion
    /** the participant is not among the ranked results (IndexError) */
    | NotRanked(pid: string)
    /** a quiz of zero questions (`log(0)` is a math domain error) */
    | NoQuestions
    /** a request form lacks a field the handler reads (KeyError) */
    | MissingField(field: string)
    /** a form field that `int()` rejects (ValueError) */
    | NotANumber(text: string)

  /** The question numbers `str(1)` .. `str(n)`. */
  function QuestionKeys(n: nat): set<string> {
    set i | 1 <= i <= n :: NatToStr(i)
  }

  /** There are exactly `n` question keys, and each is the decimal text of
      a number 1..n that parses back to it. */
  lemma QuestionKeysCount(n: nat)
    ensures |QuestionKeys(n)| == n
    ensures forall k :: k in QuestionKeys(n) ==> AllDigits(k) && 1 <= ParseNat(k) <= n && k == NatToStr(ParseNat(k))
  {
    QuestionKeysSize(n);
    forall k | k in QuestionKeys(n)
      ensures AllDigits(k) && 1 <= ParseNat(k) <= n && k == NatToStr(ParseNat(k))
    {
      var i :| 1 <= i <= n && k == NatToStr(i);
      ParseNatToStr(i);
    }
  }

  lemma {:induction false} QuestionKeysSize(n: nat)
    ensures |QuestionKeys(n)| == n
    decreases n
  {
    if n > 0 {
      QuestionKeysSize(n - 1);
      QuestionKeysSucc(n);
    }
  }

  /** The keys for `n` questions are those for `n - 1` and the new one. */
  lemma QuestionKeysSucc(n: nat)
    requires n > 0
    ensures QuestionKeys(n) == QuestionKeys(n - 1) + {NatToStr(n)}
    ensures NatToStr(n) !in QuestionKeys(n - 1)
  {
    forall i | 1 <= i <= n - 1
      ensures NatToStr(i) != NatToStr(n)
    {
      NatToStrInjective(i, n);
    }
  }

  /** `{ str(i): v for i in range(1, n+1) }`; how many keys that is, and
      what they are, is `QuestionKeysCount`. */
  function Seed<V>(n: nat, v: V): (m: map<string, V>)
    ensures m.Keys == QuestionKeys(n)
    ensures forall k :: k in m ==> m[k] == v
  {
    map k | k in QuestionKeys(n) :: v
  }
}
