/** Peer-check assignment in `open_checking`: the finished participants, in
    shuffled order, each check the one before them, the first checking the
    last (Python's `L[-1]`). */
module Assignment {
  import opened Wrappers
  import opened EventLog
  import opened Replay
  import Readers
  import LastWins
  import opened Sets

  /** The participants in `order` whose status is exactly "finished", in
      that order. */
  function FinishedIds(order: seq<string>, entries: map<string, Entry>): (r: seq<string>)
    ensures forall p :: p in r <==> p in order && p in entries && entries[p].status == Finished
    ensures Distinct(order) ==> Distinct(r)
    ensures |r| <= |order|
    decreases |order|
  {
    if order == [] then []
    else
      var n := |order| - 1;
      var p := order[n];
      var r := FinishedIds(order[..n], entries);
      assert forall x :: x in order <==> x in order[..n] || x == p;
      if p in entries && entries[p].status == Finished then r + [p] else r
  }

  /** The CHECKER rows written for the shuffled list `ids`: row `i` makes
      `ids[i]` the checker of `ids[i - 1]`, where index -1 is the last id.
      With distinct ids the rows pair the ids one to one, and nobody checks
      themself once there are two or more. */
  function CheckerRows(quizId: string, ts: string, ids: seq<string>): (r: seq<Row>)
    ensures |r| == |ids|
    ensures forall i :: 0 <= i < |r| ==> r[i] == Checker(ts, quizId, ids[i], ids[Prev(i, |ids|)])
    ensures Distinct(ids) ==> CheckeesUnique(r) && EveryoneChecks(r, ids) && EveryoneChecked(r, ids)
    ensures Distinct(ids) && |ids| >= 2 ==> NoneSelf(r)
  {
    var r := seq(|ids|, i requires 0 <= i < |ids| => Checker(ts, quizId, ids[i], ids[Prev(i, |ids|)]));
    if Distinct(ids) then
      CyclicIsBijection(quizId, ts, ids, r);
      r
    else
      r
  }

  /** The index Python reaches with `i - 1` in a list of length `k`. */
  function Prev(i: nat, k: nat): (j: nat)
    requires i < k
    ensures j < k
  {
    if i == 0 then k - 1 else i - 1
  }

  /** Every row is a CHECKER row whose two sides are both in `members`. */
  predicate OnlyMembers(r: seq<Row>, members: seq<string>)
  {
    forall i :: 0 <= i < |r| ==> r[i].Checker? && r[i].checker in members && r[i].checkee in members
  }

  /** No two CHECKER rows name the same checkee. */
  predicate CheckeesUnique(r: seq<Row>)
  {
    forall i, j :: 0 <= i < |r| && 0 <= j < |r| && r[i].Checker? && r[j].Checker? && r[i].checkee == r[j].checkee ==> i == j
  }

  /** Every member is the checker of some CHECKER row. */
  predicate EveryoneChecks(r: seq<Row>, members: seq<string>)
  {
    forall x :: x in members ==> exists i :: 0 <= i < |r| && r[i].Checker? && r[i].checker == x
  }

  /** Every member is the checkee of some CHECKER row. */
  predicate EveryoneChecked(r: seq<Row>, members: seq<string>)
  {
    forall x :: x in members ==> exists i :: 0 <= i < |r| && r[i].Checker? && r[i].checkee == x
  }

  /** No CHECKER row pairs a participant with themself. */
  predicate NoneSelf(r: seq<Row>)
  {
    forall i :: 0 <= i < |r| && r[i].Checker? ==> r[i].checker != r[i].checkee
  }

  /** `r` pairs up `members` one to one, and nobody with themself once there
      are two or more. */
  predicate IsPairing(r: seq<Row>, members: seq<string>)
  {
    && OnlyMembers(r, members)
    && CheckeesUnique(r)
    && EveryoneChecks(r, members)
    && EveryoneChecked(r, members)
    && (|members| >= 2 ==> NoneSelf(r))
  }

  /** A lone finished participant is assigned to check themself. */
  lemma LoneCheckerChecksThemself(quizId: string, ts: string, ids: seq<string>)
    requires |ids| == 1
    ensures CheckerRows(quizId, ts, ids) == [Checker(ts, quizId, ids[0], ids[0])]
  {
  }

  /** `Prev` is `(i - 1) mod k`: the index before `i`, wrapping from 0 to
      `k - 1`. */
  lemma PrevIsModular(i: nat, k: nat)
    requires i < k
    ensures Prev(i, k) == (i + k - 1) % k
  {
    if i > 0 {
      assert i + k - 1 == (i - 1) + k;
    }
  }

  /** Rows laid out as `CheckerRows` lays them out over distinct ids form a
      bijection: every id checks someone and is checked by exactly one row,
      and with two or more ids nobody checks themself. */
  lemma CyclicIsBijection(quizId: string, ts: string, ids: seq<string>, r: seq<Row>)
    requires Distinct(ids) && |r| == |ids|
    requires forall i :: 0 <= i < |r| ==> r[i] == Checker(ts, quizId, ids[i], ids[Prev(i, |ids|)])
    ensures CheckeesUnique(r) && EveryoneChecks(r, ids) && EveryoneChecked(r, ids)
    ensures |ids| >= 2 ==> NoneSelf(r)
  {
    var k := |ids|;
    forall x | x in ids
      ensures exists i :: 0 <= i < |r| && r[i].Checker? && r[i].checker == x
      ensures exists i :: 0 <= i < |r| && r[i].Checker? && r[i].checkee == x
    {
      var j :| 0 <= j < k && ids[j] == x;
      assert r[j].checker == x;
      var i := if j == k - 1 then 0 else j + 1;
      assert r[i].checkee == x;
    }
  }

  /** After the rows are appended, `get_checkee_id` gives every listed
      checker the id before it in the list. */
  lemma AssignedCheckeeIsRead(log: Log, quizId: string, ts: string, ids: seq<string>, i: nat)
    requires Distinct(ids) && i < |ids|
    ensures Readers.GetCheckeeId(log + CheckerRows(quizId, ts, ids), quizId, ids[i]) == ids[Prev(i, |ids|)]
  {
    var r := CheckerRows(quizId, ts, ids);
    var all := log + r;
    assert all[|log| + i] == r[i];
    forall j | |log| + i < j < |all|
      ensures !Readers.IsCheckerRowOf(all[j], quizId, ids[i])
    {
      assert all[j] == r[j - |log|];
    }
    assert LastWins.IsLast(all, Readers.CheckeeWrite(quizId, ids[i]), |log| + i);
  }

  /** The assignment over a reordering `ids` of the distinct list `members`
      is a pairing of `members`. */
  lemma PairsOfReordering(quizId: string, ts: string, ids: seq<string>, members: seq<string>)
    requires Distinct(ids) && |ids| == |members| && forall x :: x in ids <==> x in members
    ensures IsPairing(CheckerRows(quizId, ts, ids), members)
  {
    var r := CheckerRows(quizId, ts, ids);
    forall i | 0 <= i < |ids|
      ensures r[i].Checker? && r[i].checker in members && r[i].checkee in members
    {
      assert ids[i] in ids && ids[Prev(i, |ids|)] in ids;
    }
  }
}
