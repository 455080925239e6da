/** Aggregation and ranking: the per-participant counts that
    `add_answers_given_to_results` and `add_solos_to_results` add to the
    replayed results, and the stable sort `read_results` orders them by. */
module Ranking {
  import opened Wrappers
  import opened Text
  import opened EventLog
  import opened Replay
  import opened Sets

  // ---------------------------------------------------------------- counts

  /** The questions a participant gave a non-blank answer to. */
  function GivenSet(e: Entry): set<string> {
    set q | q in e.answers && Strip(e.answers[q]) != ""
  }

  /** `add_answers_given_to_results`: how many answers are non-blank once
      stripped. */
  function AnswersGiven(e: Entry): (r: nat)
    ensures r <= |e.answers|
    ensures r == 0 <==> forall q :: q in e.answers ==> Strip(e.answers[q]) == ""
  {
    var given := GivenSet(e);
    Sets.SubsetCardinality(given, e.answers.Keys);
    assert forall q :: q in e.answers && Strip(e.answers[q]) != "" ==> q in given;
    |given|
  }

  /** The replay stores answers already stripped, so the second strip changes
      nothing: `answers_given` counts the non-empty answers. */
  lemma AnswersGivenStripped(e: Entry)
    requires EntryStripped(e)
    ensures AnswersGiven(e) == |set q | q in e.answers && e.answers[q] != ""|
  {
    forall q | q in e.answers {
      StripTrimmed(e.answers[q]);
    }
    assert GivenSet(e) == set q | q in e.answers && e.answers[q] != "";
  }

  /** Participant `e` has a "correct" verdict (after stripping) on `q`. */
  predicate IsCorrect(e: Entry, q: string) {
    q in e.checks && Strip(e.checks[q]) == Correct
  }

  function CorrectSet(e: Entry): set<string> {
    set q | q in e.checks && IsCorrect(e, q)
  }

  /** `answers_checked`: how many questions carry a verdict, blank or not. */
  function AnswersChecked(e: Entry): nat {
    |e.checks|
  }

  /** `correct_answers`: how many verdicts read "correct". */
  function CorrectAnswers(e: Entry): (r: nat)
    ensures r <= AnswersChecked(e)
    ensures r == 0 <==> forall q :: !IsCorrect(e, q)
  {
    Sets.SubsetCardinality(CorrectSet(e), e.checks.Keys);
    assert forall q :: IsCorrect(e, q) ==> q in CorrectSet(e);
    |CorrectSet(e)|
  }

  /** Everyone with a "correct" verdict on question `q`. */
  function CorrectOn(entries: map<string, Entry>, q: string): set<string> {
    set p | p in entries && IsCorrect(entries[p], q)
  }

  /** `add_solos_to_results`: the questions participant `p` got right and
      exactly one participant got right. */
  function Solos(entries: map<string, Entry>, p: string): (r: set<string>)
    requires p in entries
    ensures r <= CorrectSet(entries[p])
  {
    set q | q in entries[p].checks && IsCorrect(entries[p], q) && |CorrectOn(entries, q)| == 1
  }

  /** A solo is a question `p` got right and nobody else did. */
  lemma SoloIff(entries: map<string, Entry>, p: string, q: string)
    requires p in entries
    ensures q in Solos(entries, p) <==>
              IsCorrect(entries[p], q) && forall o :: o in entries && o != p ==> !IsCorrect(entries[o], q)
  {
    if IsCorrect(entries[p], q) {
      var c := CorrectOn(entries, q);
      assert p in c;
      Sets.SingletonOf(c, p);
      if forall o :: o in entries && o != p ==> !IsCorrect(entries[o], q) {
        assert c == {p};
      } else {
        var o :| o in entries && o != p && IsCorrect(entries[o], q);
        assert o in c;
      }
    }
  }

  /** Solos never outnumber correct answers, which never outnumber verdicts. */
  lemma SolosBounds(entries: map<string, Entry>, p: string)
    requires p in entries
    ensures |Solos(entries, p)| <= CorrectAnswers(entries[p]) <= AnswersChecked(entries[p])
  {
    Sets.SubsetCardinality(Solos(entries, p), CorrectSet(entries[p]));
  }

  /** No question is a solo of two different participants. */
  lemma SolosDisjoint(entries: map<string, Entry>, p: string, o: string)
    requires p in entries && o in entries && p != o
    ensures Solos(entries, p) !! Solos(entries, o)
  {
    forall q | q in Solos(entries, p)
      ensures q !in Solos(entries, o)
    {
      SoloIff(entries, p, q);
      SoloIff(entries, o, q);
    }
  }

  // --------------------------------------------------------------- the key

  /** The sort key of `read_results`: more correct answers first, then fewer
      checked answers, then more given answers, then the name. */
  datatype RankKey = RankKey(correct: nat, checked: nat, given: nat, name: string)

  function KeyOf(e: Entry): RankKey {
    RankKey(CorrectAnswers(e), AnswersChecked(e), AnswersGiven(e), e.name)
  }

  /** The sort key of each participant id. */
  function KeyIn(entries: map<string, Entry>): string -> RankKey {
    p => KeyOf(if p in entries then entries[p] else Blank)
  }

  /** Key `a` sorts strictly before key `b`: Python's tuple comparison of
      `(-correct, checked, -given, name)`, names compared by code point. */
  predicate Before(a: RankKey, b: RankKey) {
    if a.correct != b.correct then a.correct > b.correct
    else if a.checked != b.checked then a.checked < b.checked
    else if a.given != b.given then a.given > b.given
    else LexLess(a.name, b.name)
  }

  lemma BeforeIrreflexive(a: RankKey)
    ensures !Before(a, a)
  {
    LexLessIrreflexive(a.name);
  }

  lemma BeforeTransitive(a: RankKey, b: RankKey, c: RankKey)
    requires Before(a, b) && Before(b, c)
    ensures Before(a, c)
  {
    if a.correct == b.correct == c.correct && a.checked == b.checked == c.checked && a.given == b.given == c.given {
      LexLessTransitive(a.name, b.name, c.name);
    }
  }

  /** Two keys are equal or one sorts before the other. */
  lemma BeforeTotal(a: RankKey, b: RankKey)
    ensures a == b || Before(a, b) || Before(b, a)
  {
    LexLessTotal(a.name, b.name);
  }

  lemma BeforeAsymmetric(a: RankKey, b: RankKey)
    ensures Before(a, b) ==> !Before(b, a)
  {
    if Before(a, b) && Before(b, a) {
      BeforeTransitive(a, b, a);
      BeforeIrreflexive(a);
    }
  }

  /** "Not after" is transitive. */
  lemma NotBeforeTransitive(a: RankKey, b: RankKey, c: RankKey)
    requires !Before(a, b) && !Before(b, c)
    ensures !Before(a, c)
  {
    BeforeTotal(a, b);
    if Before(a, c) && a != b {
      BeforeTransitive(b, a, c);
    }
  }

  // ------------------------------------------------------------- the sort

  /** No element sorts strictly before an earlier one. */
  ghost predicate Sorted<T>(s: seq<T>, key: T -> RankKey) {
    forall i, j :: 0 <= i < j < |s| ==> !Before(key(s[j]), key(s[i]))
  }

  /** A sorted sequence stays sorted when an element that sorts before none of
      it is appended. */
  lemma SortedSnoc<T>(s: seq<T>, x: T, key: T -> RankKey)
    requires Sorted(s, key)
    requires forall i :: 0 <= i < |s| ==> !Before(key(x), key(s[i]))
    ensures Sorted(s + [x], key)
  {
    var r := s + [x];
    forall i, j | 0 <= i < j < |r|
      ensures !Before(key(r[j]), key(r[i]))
    {
      if j == |s| {
        assert r[j] == x && r[i] == s[i];
      } else {
        assert r[j] == s[j] && r[i] == s[i];
      }
    }
  }

  /** `x` placed after the last element of `s` that does not sort after it. */
  function Insert<T>(s: seq<T>, x: T, key: T -> RankKey): (r: seq<T>)
    ensures multiset(r) == multiset(s) + multiset{x}
    decreases |s|
  {
    if s == [] then [x]
    else
      var n := |s| - 1;
      if Before(key(x), key(s[n])) then
        assert s == s[..n] + [s[n]];
        Insert(s[..n], x, key) + [s[n]]
      else s + [x]
  }

  lemma {:induction false} InsertSorted<T>(s: seq<T>, x: T, key: T -> RankKey)
    requires Sorted(s, key)
    ensures Sorted(Insert(s, x, key), key)
    decreases |s|
  {
    if s != [] {
      var n := |s| - 1;
      var y := s[n];
      if Before(key(x), key(y)) {
        var pre := s[..n];
        InsertSorted(pre, x, key);
        var ins := Insert(pre, x, key);
        forall i | 0 <= i < |ins|
          ensures !Before(key(y), key(ins[i]))
        {
          assert ins[i] in multiset(ins);
          if ins[i] == x {
            BeforeAsymmetric(key(x), key(y));
          } else {
            assert ins[i] in multiset(pre);
            var j :| 0 <= j < n && pre[j] == ins[i];
            assert s[j] == ins[i];
          }
        }
        SortedSnoc(ins, y, key);
      } else {
        forall i | 0 <= i < n
          ensures !Before(key(x), key(s[i]))
        {
          NotBeforeTransitive(key(x), key(y), key(s[i]));
        }
        SortedSnoc(s, x, key);
      }
    }
  }

  /** Python's `sorted`: a stable sort, here an insertion sort that takes the
      elements in order and puts each after every element it does not sort
      before. The result is a sorted permutation of the input. */
  function SortBy<T>(s: seq<T>, key: T -> RankKey): (r: seq<T>)
    ensures multiset(r) == multiset(s)
    ensures |r| == |s|
    ensures Sorted(r, key)
    decreases |s|
  {
    if s == [] then []
    else
      var n := |s| - 1;
      var sorted := SortBy(s[..n], key);
      InsertSorted(sorted, s[n], key);
      assert s == s[..n] + [s[n]];
      assert |multiset(Insert(sorted, s[n], key))| == |s|;
      Insert(sorted, s[n], key)
  }

  /** The elements of `s` whose key is `k`, in order. */
  function Filter<T>(s: seq<T>, key: T -> RankKey, k: RankKey): seq<T>
    decreases |s|
  {
    if s == [] then []
    else
      var n := |s| - 1;
      Filter(s[..n], key, k) + if key(s[n]) == k then [s[n]] else []
  }

  lemma {:induction false} FilterAppend<T>(a: seq<T>, b: seq<T>, key: T -> RankKey, k: RankKey)
    ensures Filter(a + b, key, k) == Filter(a, key, k) + Filter(b, key, k)
    decreases |b|
  {
    if b == [] {
      assert a + b == a;
    } else {
      var n := |b| - 1;
      assert (a + b)[..|a + b| - 1] == a + b[..n];
      FilterAppend(a, b[..n], key, k);
    }
  }

  lemma {:induction false} InsertFilter<T>(s: seq<T>, x: T, key: T -> RankKey, k: RankKey)
    ensures Filter(Insert(s, x, key), key, k) == Filter(s, key, k) + if key(x) == k then [x] else []
    decreases |s|
  {
    if s == [] {
      assert Insert(s, x, key) == [x];
      FilterOne(x, key, k);
    } else {
      var n := |s| - 1;
      if Before(key(x), key(s[n])) {
        InsertFilter(s[..n], x, key, k);
        InsertFilterBefore(s, x, key, k);
      } else {
        assert s == s[..n] + [s[n]];
        assert Insert(s, x, key) == s + [x];
        FilterAppend(s, [x], key, k);
        FilterOne(x, key, k);
      }
    }
  }

  /** The step of `InsertFilter` where `x` goes in before the last element. */
  lemma InsertFilterBefore<T>(s: seq<T>, x: T, key: T -> RankKey, k: RankKey)
    requires s != [] && Before(key(x), key(s[|s| - 1]))
    requires Filter(Insert(s[..|s| - 1], x, key), key, k) == Filter(s[..|s| - 1], key, k) + if key(x) == k then [x] else []
    ensures Filter(Insert(s, x, key), key, k) == Filter(s, key, k) + if key(x) == k then [x] else []
  {
    var n := |s| - 1;
    var y := s[n];
    var t := Insert(s[..n], x, key);
    InsertBeforeLast(s, x, key);
    FilterSnoc(t, y, key, k);
    BeforeIrreflexive(key(x));
    SwapDisjoint(Filter(s[..n], key, k), if key(x) == k then [x] else [], if key(y) == k then [y] else []);
  }

  /** Inserting before the last element keeps that element last. */
  lemma InsertBeforeLast<T>(s: seq<T>, x: T, key: T -> RankKey)
    requires s != [] && Before(key(x), key(s[|s| - 1]))
    ensures Insert(s, x, key) == Insert(s[..|s| - 1], x, key) + [s[|s| - 1]]
  {
  }

  /** Two pieces of which one is empty may be appended in either order. */
  lemma SwapDisjoint<T>(a: seq<T>, b: seq<T>, c: seq<T>)
    requires b == [] || c == []
    ensures a + b + c == a + c + b
  {
  }

  /** Filtering `s + [y]` filters `s` and then `[y]`. */
  lemma FilterSnoc<T>(s: seq<T>, y: T, key: T -> RankKey, k: RankKey)
    ensures Filter(s + [y], key, k) == Filter(s, key, k) + if key(y) == k then [y] else []
  {
    assert (s + [y])[..|s|] == s;
  }

  /** A one-element sequence keeps its element exactly when the key matches. */
  lemma FilterOne<T>(x: T, key: T -> RankKey, k: RankKey)
    ensures Filter([x], key, k) == if key(x) == k then [x] else []
  {
    assert [x][..0] == [];
  }

  /** The sort is stable: the elements sharing any one key keep their
      relative order. */
  lemma {:induction false} SortStable<T>(s: seq<T>, key: T -> RankKey, k: RankKey)
    ensures Filter(SortBy(s, key), key, k) == Filter(s, key, k)
    decreases |s|
  {
    if s != [] {
      var n := |s| - 1;
      SortStable(s[..n], key, k);
      InsertFilter(SortBy(s[..n], key), s[n], key, k);
    }
  }

  // --------------------------------------------------------- read_results

  /** The ranked results: the replay state with its participants sorted. */
  datatype Ranked = Ranked(quizName: string, quizDate: string, entries: map<string, Entry>, ranking: seq<string>)

  /** `read_results`: the replayed quiz with its participants ordered by the
      rank key, ties kept in joining order. */
  function ReadResults(log: Log, quizId: string): (r: Result<Ranked, Failure>)
    ensures r.Ok? <==> ReadResultsFromLog(log, quizId).Ok?
    ensures r.Err? ==> r.error == ReadResultsFromLog(log, quizId).error
    ensures r.Ok? ==> var st := ReadResultsFromLog(log, quizId).value;
              && r.value.entries == st.entries
              && multiset(r.value.ranking) == multiset(st.order)
              && (forall p :: p in r.value.entries <==> p in r.value.ranking)
              && Distinct(r.value.ranking)
              && Sorted(r.value.ranking, KeyIn(r.value.entries))
  {
    match ReadResultsFromLog(log, quizId)
    case Err(e) => Err(e)
    case Ok(st) =>
      var ranking := SortBy(st.order, KeyIn(st.entries));
      assert forall p :: p in ranking <==> p in multiset(st.order);
      DistinctPermutation(ranking, st.order);
      Ok(Ranked(st.quizName, st.quizDate, st.entries, ranking))
  }

  /** Participants with equal keys stay in the order they joined. */
  lemma ReadResultsStable(log: Log, quizId: string, k: RankKey)
    requires ReadResults(log, quizId).Ok?
    ensures var r := ReadResults(log, quizId).value;
            Filter(r.ranking, KeyIn(r.entries), k) == Filter(ReadResultsFromLog(log, quizId).value.order, KeyIn(r.entries), k)
  {
    var st := ReadResultsFromLog(log, quizId).value;
    SortStable(st.order, KeyIn(st.entries), k);
  }
}
