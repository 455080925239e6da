/** Peer verdicts: the per-checkee verdict table `read_checks` builds, and the
    per-question "correct/total" tallies `make_check_counts` derives from it. */
module Checks {
  import opened Wrappers
  import opened Text
  import opened LastWins
  import opened EventLog
  import Sets

  /** A CHECK row of the quiz about checkee `p`. */
  predicate IsCheckOf(row: Row, quizId: string, p: string) {
    row.Check? && row.quizId == quizId && row.checkee == p
  }

  /** The question and stripped verdict such a row stores. */
  function VerdictWrite(quizId: string, p: string): Row -> Option<(string, string)> {
    row => if IsCheckOf(row, quizId, p) then Some((row.question, Strip(row.verdict))) else None
  }

  /** checkee -> question -> verdict */
  type Table = map<string, map<string, string>>

  /** The table `read_checks` folds from the log: the requested checkee and
      every checkee of a CHECK row of the quiz, each starting from blank
      verdicts on questions 1..n, and each row overwriting its question. */
  function CheckTable(log: Log, quizId: string, n: nat, pidCheck: string): (t: Table)
    ensures pidCheck in t
    decreases |log|
  {
    if log == [] then map[pidCheck := Seed(n, "")]
    else
      var t := CheckTable(log[..|log| - 1], quizId, n, pidCheck);
      var row := log[|log| - 1];
      if row.Check? && row.quizId == quizId then
        var inner := if row.checkee in t then t[row.checkee] else Seed(n, "");
        t[row.checkee := inner[row.question := Strip(row.verdict)]]
      else t
  }

  /** The nested fold is one last-write-wins fold per checkee: the table
      holds the requested checkee and every checkee some CHECK row of the quiz
      names, and each entry is what that checkee's own rows leave on top of
      blank verdicts for questions 1..n. */
  lemma {:induction false} CheckTablePerCheckee(log: Log, quizId: string, n: nat, pidCheck: string)
    ensures var t := CheckTable(log, quizId, n, pidCheck);
            && (forall p :: p in t <==> p == pidCheck || Checked(log, quizId, p))
            && (forall p :: p in t ==> t[p] == Overlay(Seed(n, ""), log, VerdictWrite(quizId, p)))
    decreases |log|
  {
    if log != [] {
      var pre := log[..|log| - 1];
      CheckTablePerCheckee(pre, quizId, n, pidCheck);
      CheckTableKeysStep(log, quizId, n, pidCheck);
      CheckTableEntriesStep(log, quizId, n, pidCheck);
    }
  }

  /** Some CHECK row of the quiz in `log` is about checkee `p`. */
  ghost predicate Checked(log: Log, quizId: string, p: string) {
    exists i :: 0 <= i < |log| && IsCheckOf(log[i], quizId, p)
  }

  /** A log has a CHECK row about `p` when the rows before its last one do,
      or its last one is one. */
  lemma CheckedLast(log: Log, quizId: string, p: string)
    requires log != []
    ensures Checked(log, quizId, p) <==> Checked(log[..|log| - 1], quizId, p) || IsCheckOf(log[|log| - 1], quizId, p)
  {
    var pre := log[..|log| - 1];
    if i :| 0 <= i < |log| && IsCheckOf(log[i], quizId, p) {
      if i < |pre| {
        assert pre[i] == log[i];
      }
    }
    if i :| 0 <= i < |pre| && IsCheckOf(pre[i], quizId, p) {
      assert log[i] == pre[i];
    }
  }

  /** The inductive step of `CheckTablePerCheckee` for the checkees. */
  lemma CheckTableKeysStep(log: Log, quizId: string, n: nat, pidCheck: string)
    requires log != []
    requires var t0 := CheckTable(log[..|log| - 1], quizId, n, pidCheck);
             forall p :: p in t0 <==> p == pidCheck || Checked(log[..|log| - 1], quizId, p)
    ensures var t := CheckTable(log, quizId, n, pidCheck);
            forall p :: p in t <==> p == pidCheck || Checked(log, quizId, p)
  {
    CheckTableLastKeys(log, quizId, n, pidCheck);
    forall p
      ensures p in CheckTable(log, quizId, n, pidCheck) <==> p == pidCheck || Checked(log, quizId, p)
    {
      CheckedLast(log, quizId, p);
    }
  }

  /** The last row of the log adds its checkee, if it is a CHECK row of the quiz. */
  lemma CheckTableLastKeys(log: Log, quizId: string, n: nat, pidCheck: string)
    requires log != []
    ensures var row := log[|log| - 1];
            CheckTable(log, quizId, n, pidCheck).Keys ==
              CheckTable(log[..|log| - 1], quizId, n, pidCheck).Keys + if row.Check? && row.quizId == quizId then {row.checkee} else {}
  {
  }

  /** The inductive step of `CheckTablePerCheckee` for the verdicts. */
  lemma CheckTableEntriesStep(log: Log, quizId: string, n: nat, pidCheck: string)
    requires log != []
    requires var pre := log[..|log| - 1];
             var t0 := CheckTable(pre, quizId, n, pidCheck);
             && (forall p :: p in t0 <==> p == pidCheck || Checked(pre, quizId, p))
             && (forall p :: p in t0 ==> t0[p] == Overlay(Seed(n, ""), pre, VerdictWrite(quizId, p)))
    ensures var t := CheckTable(log, quizId, n, pidCheck);
            forall p :: p in t ==> t[p] == Overlay(Seed(n, ""), log, VerdictWrite(quizId, p))
  {
    var m := |log| - 1;
    var pre := log[..m];
    var t0 := CheckTable(pre, quizId, n, pidCheck);
    var t := CheckTable(log, quizId, n, pidCheck);
    forall p | p in t
      ensures t[p] == Overlay(Seed(n, ""), log, VerdictWrite(quizId, p))
    {
      OverlayLast(Seed(n, ""), log, VerdictWrite(quizId, p));
      if p !in t0 {
        assert forall i :: 0 <= i < |pre| ==> VerdictWrite(quizId, p)(pre[i]).None?;
      }
    }
  }

  /** A CHECK row among appended `rows` that no later appended CHECK row
      overrides for its question is the verdict read back for its checkee. */
  lemma LaterVerdictIsReadBack(log: Log, rows: seq<Row>, j: nat, quizId: string, n: nat, pidCheck: string)
    requires j < |rows| && rows[j].Check? && rows[j].quizId == quizId
    requires forall i :: j < i < |rows| && rows[i].Check? ==> rows[i].question != rows[j].question
    ensures var t := CheckTable(log + rows, quizId, n, pidCheck);
            var p := rows[j].checkee;
            p in t && rows[j].question in t[p] && t[p][rows[j].question] == Strip(rows[j].verdict)
  {
    var all := log + rows;
    var p := rows[j].checkee;
    var f := VerdictWrite(quizId, p);
    CheckTablePerCheckee(all, quizId, n, pidCheck);
    assert all[|log| + j] == rows[j];
    forall i | |log| + j < i < |all|
      ensures !Writes(all, f, i, rows[j].question)
    {
      assert all[i] == rows[i - |log|];
    }
    assert LastWrite(all, f, |log| + j, rows[j].question);
  }

  datatype Tally = Tally(correct: nat, total: nat)

  /** The "c/t" text of a tally. */
  function TallyText(t: Tally): string {
    NatToStr(t.correct) + "/" + NatToStr(t.total)
  }

  /** The checkees among `ps` with a non-blank verdict on question `q`. */
  function Voters(t: Table, ps: set<string>, q: string): set<string> {
    set p | p in ps && p in t && q in t[p] && t[p][q] != ""
  }

  /** The checkees among `ps` with the verdict "correct" on question `q`. */
  function CorrectVoters(t: Table, ps: set<string>, q: string): set<string> {
    set p | p in ps && p in t && q in t[p] && t[p][q] == Correct
  }

  /** Every non-blank verdict in the table is on one of the questions 1..n,
      so `make_check_counts` finds a counter for it. */
  predicate Countable(t: Table, n: nat) {
    forall p :: p in t ==> CountableOf(t, n, p)
  }

  /** Every non-blank verdict about checkee `p` is on one of the questions 1..n. */
  predicate CountableOf(t: Table, n: nat, p: string)
    requires p in t
  {
    forall q :: q in t[p] && t[p][q] != "" ==> q in QuestionKeys(n)
  }

  /** The tallies as sets: for each question 1..n, the checkees with a
      "correct" verdict over those with any non-blank verdict. */
  function Tallies(t: Table, n: nat): (r: map<string, Tally>)
    ensures r.Keys == QuestionKeys(n)
    ensures forall q :: q in r ==> r[q].correct <= r[q].total <= |t|
    ensures forall q :: q in r ==> (r[q].total == 0 <==> forall p :: p in t && q in t[p] ==> t[p][q] == "")
  {
    forall q | q in QuestionKeys(n)
      ensures |CorrectVoters(t, t.Keys, q)| <= |Voters(t, t.Keys, q)| <= |t|
      ensures |Voters(t, t.Keys, q)| == 0 <==> forall p :: p in t && q in t[p] ==> t[p][q] == ""
    {
      Sets.SubsetCardinality(CorrectVoters(t, t.Keys, q), Voters(t, t.Keys, q));
      Sets.SubsetCardinality(Voters(t, t.Keys, q), t.Keys);
      if p :| p in t && q in t[p] && t[p][q] != "" {
        assert p in Voters(t, t.Keys, q);
      }
    }
    map q | q in QuestionKeys(n) :: Tally(|CorrectVoters(t, t.Keys, q)|, |Voters(t, t.Keys, q)|)
  }

  /** Adding one checkee `p` to the counted set adds its own verdict on `q`. */
  lemma VotersAdd(t: Table, ps: set<string>, p: string, q: string)
    requires p !in ps && p in t
    ensures |Voters(t, ps + {p}, q)| == |Voters(t, ps, q)| + (if q in t[p] && t[p][q] != "" then 1 else 0)
    ensures |CorrectVoters(t, ps + {p}, q)| == |CorrectVoters(t, ps, q)| + (if q in t[p] && t[p][q] == Correct then 1 else 0)
  {
    VotersAddOne(t, ps, p, q);
    CorrectVotersAddOne(t, ps, p, q);
  }

  lemma VotersAddOne(t: Table, ps: set<string>, p: string, q: string)
    requires p !in ps && p in t
    ensures Voters(t, ps + {p}, q) == Voters(t, ps, q) + if q in t[p] && t[p][q] != "" then {p} else {}
  {
  }

  lemma CorrectVotersAddOne(t: Table, ps: set<string>, p: string, q: string)
    requires p !in ps && p in t
    ensures CorrectVoters(t, ps + {p}, q) == CorrectVoters(t, ps, q) + if q in t[p] && t[p][q] == Correct then {p} else {}
  {
  }

  /** The contribution of checkee `p`'s verdict on `q` to a tally. */
  function Contribution(t: Table, p: string, q: string): Tally
    requires p in t
  {
    if q in t[p] && t[p][q] != "" then Tally(if t[p][q] == Correct then 1 else 0, 1)
    else Tally(0, 0)
  }

  function Plus(a: Tally, b: Tally): Tally {
    Tally(a.correct + b.correct, a.total + b.total)
  }

  /** The inner loop of `make_check_counts` for checkee `p`: each non-blank
      verdict adds to its question's counter, and a verdict on a question with
      no counter stops the program (None). */
  method AddVerdicts(t: Table, n: nat, p: string, counts: map<string, Tally>) returns (r: Option<map<string, Tally>>)
    requires p in t && counts.Keys == QuestionKeys(n)
    ensures r.Some? <==> CountableOf(t, n, p)
    ensures r.Some? ==> r.value.Keys == QuestionKeys(n)
    ensures r.Some? ==> forall q :: q in counts ==> r.value[q] == Plus(counts[q], Contribution(t, p, q))
  {
    r := AddToCounters(t, p, counts);
  }

  /** The loop of `AddVerdicts`, over whatever counters `counts` holds. */
  method AddToCounters(t: Table, p: string, counts: map<string, Tally>) returns (r: Option<map<string, Tally>>)
    requires p in t
    ensures r.Some? <==> forall q :: q in t[p] && t[p][q] != "" ==> q in counts
    ensures r.Some? ==> r.value.Keys == counts.Keys
    ensures r.Some? ==> forall q :: q in counts ==> r.value[q] == Plus(counts[q], Contribution(t, p, q))
  {
    var acc := counts;
    var qs := t[p].Keys;
    ghost var seen: set<string> := {};
    while qs != {}
      invariant AddInvariant(t, p, counts, acc, qs, seen)
      decreases |qs|
    {
      var q :| q in qs;
      var acc' := acc;
      if t[p][q] != "" {
        if q !in acc {
          return None;
        }
        var c := acc[q];
        acc' := acc[q := Tally(c.correct + (if t[p][q] == Correct then 1 else 0), c.total + 1)];
      }
      AddStep(t, p, counts, acc, qs, seen, q, acc');
      acc, qs, seen := acc', qs - {q}, seen + {q};
    }
    return Some(acc);
  }

  /** The inner loop has gone over the questions `seen` of checkee `p`,
      adding each non-blank verdict to `acc`, and has `qs` left. */
  predicate AddInvariant(t: Table, p: string, counts: map<string, Tally>, acc: map<string, Tally>, qs: set<string>, seen: set<string>)
    requires p in t
  {
    && qs + seen == t[p].Keys && qs !! seen
    && acc.Keys == counts.Keys
    && (forall q :: q in acc ==> acc[q] == if q in seen then Plus(counts[q], Contribution(t, p, q)) else counts[q])
    && (forall q :: q in seen && t[p][q] != "" ==> q in counts)
  }

  /** One question more of the inner loop keeps its invariant. */
  lemma AddStep(t: Table, p: string, counts: map<string, Tally>, acc: map<string, Tally>, qs: set<string>, seen: set<string>, q: string, acc': map<string, Tally>)
    requires p in t && AddInvariant(t, p, counts, acc, qs, seen) && q in qs
    requires t[p][q] == "" ==> acc' == acc
    requires t[p][q] != "" ==> q in acc && acc' == acc[q := Tally(acc[q].correct + (if t[p][q] == Correct then 1 else 0), acc[q].total + 1)]
    ensures AddInvariant(t, p, counts, acc', qs - {q}, seen + {q})
  {
  }

  /** `make_check_counts`: start every question 1..n at 0/0, then for each
      checkee and each of its non-blank verdicts add one to the total, and one
      to the correct count for "correct". A verdict on a question outside 1..n
      has no counter (the program's KeyError): the result is then None. */
  method MakeCheckCounts(t: Table, n: nat) returns (r: Option<map<string, Tally>>)
    ensures r.Some? <==> Countable(t, n)
    ensures r.Some? ==> r.value == Tallies(t, n)
  {
    var counts := Seed(n, Tally(0, 0));
    var todo := t.Keys;
    ghost var done: set<string> := {};
    NobodyCounted(t, n);
    while todo != {}
      invariant CountInvariant(t, n, counts, todo, done)
      decreases |todo|
    {
      var p :| p in todo;
      var next := AddVerdicts(t, n, p, counts);
      if next.None? {
        return None;
      }
      CountStep(t, n, counts, todo, done, p, next.value);
      counts, todo, done := next.value, todo - {p}, done + {p};
    }
    AllCounted(t, n, done, counts);
    return Some(counts);
  }

  /** The outer loop of `make_check_counts` has counted the checkees `done`,
      each of whose verdicts had a counter, and has `todo` left. */
  predicate CountInvariant(t: Table, n: nat, counts: map<string, Tally>, todo: set<string>, done: set<string>) {
    && todo + done == t.Keys && todo !! done
    && counts.Keys == QuestionKeys(n)
    && (forall q :: q in counts ==> counts[q] == Tally(|CorrectVoters(t, done, q)|, |Voters(t, done, q)|))
    && (forall p :: p in done ==> p in t && CountableOf(t, n, p))
  }

  /** Counting one checkee more keeps the outer loop's invariant. */
  lemma CountStep(t: Table, n: nat, counts: map<string, Tally>, todo: set<string>, done: set<string>, p: string, next: map<string, Tally>)
    requires CountInvariant(t, n, counts, todo, done) && p in todo && p in t && CountableOf(t, n, p)
    requires next.Keys == QuestionKeys(n)
    requires forall q :: q in counts ==> next[q] == Plus(counts[q], Contribution(t, p, q))
    ensures CountInvariant(t, n, next, todo - {p}, done + {p})
  {
    CountOneMore(t, n, done, p, counts, next);
  }

  lemma NobodyCounted(t: Table, n: nat)
    ensures forall q :: q in Seed(n, Tally(0, 0)) ==>
              Seed(n, Tally(0, 0))[q] == Tally(|CorrectVoters(t, {}, q)|, |Voters(t, {}, q)|)
  {
    forall q | q in Seed(n, Tally(0, 0))
      ensures Seed(n, Tally(0, 0))[q] == Tally(|CorrectVoters(t, {}, q)|, |Voters(t, {}, q)|)
    {
      assert Voters(t, {}, q) == {};
      assert CorrectVoters(t, {}, q) == {};
    }
  }

  lemma AllCounted(t: Table, n: nat, done: set<string>, counts: map<string, Tally>)
    requires done == t.Keys && counts.Keys == QuestionKeys(n)
    requires forall q :: q in counts ==> counts[q] == Tally(|CorrectVoters(t, done, q)|, |Voters(t, done, q)|)
    ensures counts == Tallies(t, n)
  {
  }

  lemma CountOneMore(t: Table, n: nat, done: set<string>, p: string, counts: map<string, Tally>, next: map<string, Tally>)
    requires p !in done && p in t
    requires next.Keys == counts.Keys
    requires forall q :: q in counts ==> counts[q] == Tally(|CorrectVoters(t, done, q)|, |Voters(t, done, q)|)
    requires forall q :: q in counts ==> next[q] == Plus(counts[q], Contribution(t, p, q))
    ensures forall q :: q in next ==> next[q] == Tally(|CorrectVoters(t, done + {p}, q)|, |Voters(t, done + {p}, q)|)
  {
    forall q | q in next
      ensures next[q] == Tally(|CorrectVoters(t, done + {p}, q)|, |Voters(t, done + {p}, q)|)
    {
      VotersAdd(t, done, p, q);
    }
  }

  /** `read_checks`: the requested checkee's verdicts (blank for questions
      1..n it has none on, the last CHECK row's stripped verdict otherwise) and
      the tallies over every checkee of the quiz; a verdict on a question
      outside 1..n makes the tallies fail. */
  function ReadChecks(log: Log, quizId: string, n: nat, pidCheck: string): (r: Result<(map<string, string>, map<string, Tally>), Failure>)
    ensures r.Ok? <==> Countable(CheckTable(log, quizId, n, pidCheck), n)
    ensures r.Err? ==> r.error == UncountedQuestion
    ensures r.Ok? ==> r.value.0 == Overlay(Seed(n, ""), log, VerdictWrite(quizId, pidCheck))
    ensures r.Ok? ==> r.value.1 == Tallies(CheckTable(log, quizId, n, pidCheck), n)
    ensures r.Ok? ==> r.value.1.Keys == QuestionKeys(n)
    ensures r.Ok? ==> forall q :: q in r.value.1 ==>
              r.value.1[q].correct <= r.value.1[q].total <= |CheckTable(log, quizId, n, pidCheck)|
  {
    var t := CheckTable(log, quizId, n, pidCheck);
    CheckTablePerCheckee(log, quizId, n, pidCheck);
    if Countable(t, n) then
      var counts := Tallies(t, n);
      Ok((t[pidCheck], counts))
    else Err(UncountedQuestion)
  }

  /** The widest "c/t" text among the tallies of questions 1..n. */
  function MaxTallyWidth(counts: map<string, Tally>, n: nat): (w: nat)
    requires QuestionKeys(n) <= counts.Keys
    ensures forall i :: 1 <= i <= n ==> |TallyText(counts[NatToStr(i)])| <= w
    ensures n == 0 ==> w == 0
    ensures n > 0 ==> exists i :: 1 <= i <= n && w == |TallyText(counts[NatToStr(i)])|
    decreases n
  {
    if n == 0 then 0
    else
      QuestionKeysSucc(n);
      var w := MaxTallyWidth(counts, n - 1);
      var here := |TallyText(counts[NatToStr(n)])|;
      var r := if here > w then here else w;
      WidthStep(counts, n, w, r);
      r
  }

  /** A width covering questions 1..n-1 and question n covers 1..n. */
  lemma WidthStep(counts: map<string, Tally>, n: nat, w: nat, r: nat)
    requires n > 0 && forall i :: 1 <= i <= n ==> NatToStr(i) in counts
    requires forall i :: 1 <= i <= n - 1 ==> |TallyText(counts[NatToStr(i)])| <= w
    requires w <= r && |TallyText(counts[NatToStr(n)])| <= r
    ensures forall i :: 1 <= i <= n ==> |TallyText(counts[NatToStr(i)])| <= r
  {
  }

  /** `find_max_len_check_counts`: the width of the widest tally text, so
      that right-justifying every tally to it lines them up. */
  function FindMaxLenCheckCounts(counts: map<string, Tally>, n: nat): (w: nat)
    requires counts.Keys == QuestionKeys(n)
    ensures forall q :: q in counts ==> |TallyText(counts[q])| <= w
    ensures counts == map[] ==> w == 0
    ensures counts != map[] ==> exists q :: q in counts && w == |TallyText(counts[q])|
  {
    var w := MaxTallyWidth(counts, n);
    assert n > 0 ==> NatToStr(1) in counts;
    w
  }
}
