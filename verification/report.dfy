/** `make_quiz_result_text`: the plain-text result sheet of one participant.
    A header gives the quiz, the participant's name, rank, score and number
    of solos; then one line per question shows the solo marker, the tally of
    verdicts on that question across all checkees, this participant's
    verdict glyph, the question number and the answer given. */
module Report {
  import opened Wrappers
  import opened Text
  import opened EventLog
  import opened Replay
  import Readers
  import Checks
  import Ranking

  /** What the sheet reports: the quiz, its date, how many participants and
      questions it has, the participant's name, rank, score and number of
      solos, one line per question, and the file name stem offered for
      download. */
  datatype Report = Report(
    quizName: string,
    quizDate: string,
    participants: nat,
    questions: nat,
    name: string,
    rank: nat,
    score: nat,
    solos: nat,
    lines: seq<string>,
    fileStem: string)

  /** The five header pieces. */
  function Header(r: Report): seq<string> {
    [ r.quizName + " (date: " + r.quizDate + "; " + NatToStr(r.participants) + " participants; " +
        NatToStr(r.questions) + " questions)\n\n",
      "Name:  " + r.name + "\n",
      "Rank:  " + NatToStr(r.rank) + "\n",
      "Score: " + NatToStr(r.score) + "\n",
      "Solos: " + NatToStr(r.solos) + "\n\n" ]
  }

  /** The text the program returns: the header followed by the lines. */
  function TextOf(r: Report): string {
    Concat(Header(r) + r.lines)
  }

  /** The text is the header followed by the lines in order: line `k`
      starts right after the header and the lines before it. An answer may
      itself hold a newline, so line `k` is a logical line of the sheet, not
      necessarily its `k`-th newline-separated one. */
  lemma TextLayout(r: Report, k: nat)
    requires k < |r.lines|
    ensures var h := Concat(Header(r));
            var o := |h| + |Concat(r.lines[..k])|;
            && o + |r.lines[k]| <= |TextOf(r)|
            && TextOf(r)[..|h|] == h
            && TextOf(r)[o..o + |r.lines[k]|] == r.lines[k]
  {
    var lines := r.lines;
    ConcatAppend(Header(r), lines);
    assert lines == lines[..k] + lines[k..];
    ConcatAppend(lines[..k], lines[k..]);
    ConcatFrom(lines, k);
    PieceAt(Concat(Header(r)), Concat(lines[..k]), lines[k], Concat(lines[k + 1..]));
  }

  /** Joining the pieces from `k` on is piece `k` followed by the rest. */
  lemma ConcatFrom(lines: seq<string>, k: nat)
    requires k < |lines|
    ensures Concat(lines[k..]) == lines[k] + Concat(lines[k + 1..])
  {
    assert lines[k..][0] == lines[k] && lines[k..][1..] == lines[k + 1..];
  }

  /** Where `h` and `x` sit in `h + (a + (x + b))`. */
  lemma PieceAt(h: string, a: string, x: string, b: string)
    ensures var t := h + (a + (x + b));
            var o := |h| + |a|;
            && o + |x| <= |t|
            && t[..|h|] == h
            && t[o..o + |x|] == x
  {
  }

  /** The first position of `x` in `s`: the program's 1-based rank, less one. */
  function IndexOf<T(==)>(s: seq<T>, x: T): (k: nat)
    requires x in s
    ensures k < |s| && s[k] == x
    ensures x !in s[..k]
  {
    if s[0] == x then 0
    else
      assert s == [s[0]] + s[1..];
      var k := IndexOf(s[1..], x);
      assert s[..k + 1] == [s[0]] + s[1..][..k];
      k + 1
  }

  /** The verdict glyph: '+' for "correct", '-' for "wrong", '?' for any other
      verdict and for a question without one. */
  function Glyph(checks: map<string, string>, q: string): (c: char)
    ensures c == '+' <==> q in checks && checks[q] == Correct
    ensures c == '-' <==> q in checks && checks[q] == Wrong
    ensures c == '+' || c == '-' || c == '?'
  {
    if q !in checks then '?'
    else if checks[q] == Correct then '+'
    else if checks[q] == Wrong then '-'
    else '?'
  }

  /** The solo column is only there when the participant has a solo at all. */
  function SoloWidth(solos: set<string>): nat {
    if solos == {} then 0 else 5
  }

  /** "SOLO " on a solo question, five blanks on the others, nothing when
      there are no solos. */
  function SoloColumn(solos: set<string>, q: string): (r: string)
    ensures |r| == SoloWidth(solos)
    ensures r == "SOLO " <==> q in solos
    ensures forall j :: 0 <= j < |r| ==> (r[j] == ' ' <==> q !in solos || j == 4)
  {
    if solos == {} then "" else if q in solos then "SOLO " else "     "
  }

  /** The line of question `i` out of `n`: tallies right-justified to
      `width`, question numbers to the width of `n`. */
  function QuestionLine(i: nat, n: nat, solos: set<string>, counts: map<string, Checks.Tally>, width: nat, e: Entry): string
    requires NatToStr(i) in counts
  {
    Line(NatToStr(i), |NatToStr(n)|, solos, counts, width, e)
  }

  /** The line of question key `q`, its number right-justified to `d`. */
  function Line(q: string, d: nat, solos: set<string>, counts: map<string, Checks.Tally>, width: nat, e: Entry): string
    requires q in counts
  {
    SoloColumn(solos, q) + RJust(Checks.TallyText(counts[q]), width) + " " + [Glyph(e.checks, q)] + " " +
    RJust(q, d) + ". " + AnswerText(e.answers, q) + "\n"
  }

  /** The stored answer, or nothing for a question without one. */
  function AnswerText(answers: map<string, string>, q: string): string {
    if q in answers then answers[q] else ""
  }

  /** The column of the verdict glyph, the same on every line. */
  function GlyphColumn(solos: set<string>, width: nat): nat {
    SoloWidth(solos) + width + 1
  }

  /** The column layout of a question line: the solo column `solo`, the
      tally `tally` and a blank fill the columns before `g`; the glyph `c`
      sits at column `g`; then a blank, the number `q` right-justified in
      `d` columns, ". ", the answer, and a closing newline. */
  predicate Columns(line: string, solo: string, tally: string, g: nat, c: char, q: string, d: nat, answer: string) {
    && g == |solo| + |tally| + 1 && |q| <= d && |line| == g + d + 5 + |answer|
    && line[..|solo|] == solo
    && line[|solo|..g - 1] == tally
    && line[g - 1] == ' '
    && line[g] == c
    && line[g + 1] == ' '
    && NumberField(line, g, q, d)
    && line[g + 2 + d..g + 4 + d] == ". "
    && line[g + 4 + d..|line| - 1] == answer
    && line[|line| - 1] == '\n'
  }

  /** The `d` columns after glyph column `g` hold `q` right-justified. */
  predicate NumberField(line: string, g: nat, q: string, d: nat) {
    && |q| <= d && g + 2 + d <= |line|
    && Justified(line[g + 2..g + 2 + d], q)
  }

  /** `field` is `q` preceded by blanks only. */
  predicate Justified(field: string, q: string) {
    && |q| <= |field|
    && field[|field| - |q|..] == q
    && forall j :: 0 <= j < |field| - |q| ==> field[j] == ' '
  }

  /** Every question line has the same layout: the glyph at `GlyphColumn`,
      the tally right-justified to `width`, the number in the width of `n`,
      and the stored answer at the end. */
  lemma LineLayout(i: nat, n: nat, solos: set<string>, counts: map<string, Checks.Tally>, width: nat, e: Entry)
    requires 1 <= i <= n && NatToStr(i) in counts && |Checks.TallyText(counts[NatToStr(i)])| <= width
    ensures var line := QuestionLine(i, n, solos, counts, width, e);
            var g := GlyphColumn(solos, width);
            var d := |NatToStr(n)|;
            var q := NatToStr(i);
            Columns(line, SoloColumn(solos, q), RJust(Checks.TallyText(counts[q]), width), g, Glyph(e.checks, q), q, d,
                    AnswerText(e.answers, q))
  {
    NatToStrLengthMono(i, n);
    LineColumns(NatToStr(i), |NatToStr(n)|, solos, counts, width, e);
  }

  /** Drops the blanks `rjust` put in front. */
  function DropBlanks(s: string): (r: string)
    ensures |r| <= |s| && r == s[|s| - |r|..]
    ensures r == [] || r[0] != ' '
    decreases |s|
  {
    if s != [] && s[0] == ' ' then DropBlanks(s[1..]) else s
  }

  /** The question number printed in the `d` columns after glyph column `g`,
      if they hold blanks followed by digits. */
  function NumberAt(line: string, g: nat, d: nat): (r: Option<nat>)
  {
    if g + 2 + d > |line| then None
    else
      var field := DropBlanks(line[g + 2..g + 2 + d]);
      if field != [] && AllDigits(field) then Some(ParseNat(field)) else None
  }

  /** Blanks followed by a string not starting with a blank lose exactly
      the blanks. */
  lemma {:induction false} DropBlanksOf(s: string, k: nat)
    requires k <= |s| && (forall j :: 0 <= j < k ==> s[j] == ' ')
    requires k == |s| || s[k] != ' '
    ensures DropBlanks(s) == s[k..]
    decreases k
  {
    if k > 0 {
      DropBlanksOf(s[1..], k - 1);
    }
  }

  /** Reading the number column of question `i`'s line gives back `i`. */
  lemma NumberReadsBack(i: nat, n: nat, solos: set<string>, counts: map<string, Checks.Tally>, width: nat, e: Entry)
    requires 1 <= i <= n && NatToStr(i) in counts && |Checks.TallyText(counts[NatToStr(i)])| <= width
    ensures NumberAt(QuestionLine(i, n, solos, counts, width, e), GlyphColumn(solos, width), |NatToStr(n)|) == Some(i)
  {
    var q := NatToStr(i);
    LineLayout(i, n, solos, counts, width, e);
    ColumnsNumber(QuestionLine(i, n, solos, counts, width, e), GlyphColumn(solos, width), q, |NatToStr(n)|);
    ParseNatToStr(i);
  }

  /** A line with a digit string `q` in its number column reads back as
      that number. */
  lemma ColumnsNumber(line: string, g: nat, q: string, d: nat)
    requires NumberField(line, g, q, d) && q != [] && AllDigits(q)
    ensures NumberAt(line, g, d) == Some(ParseNat(q))
  {
    FieldReadsBack(line[g + 2..g + 2 + d], q);
  }

  /** A field of blanks followed by a digit string `q` loses exactly the
      blanks. */
  lemma FieldReadsBack(field: string, q: string)
    requires Justified(field, q) && q != [] && AllDigits(q)
    ensures DropBlanks(field) == q
  {
    var k := |field| - |q|;
    assert field[k] == field[k..][0] == q[0];
    assert q[0] != ' ' by { assert IsDigit(q[0]); }
    DropBlanksOf(field, k);
  }

  /** `LineLayout` for any question key `q` whose number fits in `d` columns. */
  lemma LineColumns(q: string, d: nat, solos: set<string>, counts: map<string, Checks.Tally>, width: nat, e: Entry)
    requires q in counts && |q| <= d && |Checks.TallyText(counts[q])| <= width
    ensures Columns(Line(q, d, solos, counts, width, e), SoloColumn(solos, q), RJust(Checks.TallyText(counts[q]), width),
                    GlyphColumn(solos, width), Glyph(e.checks, q), q, d, AnswerText(e.answers, q))
  {
    Layout(SoloColumn(solos, q), RJust(Checks.TallyText(counts[q]), width), Glyph(e.checks, q),
           RJust(q, d), q, AnswerText(e.answers, q), GlyphColumn(solos, width), d);
  }

  /** The layout of `solo + tally + " " + [c] + " " + num + ". " + answer + "\n"`
      by columns, for a number field `num` that ends in `q` after blanks. */
  lemma Layout(solo: string, tally: string, c: char, num: string, q: string, answer: string, g: nat, d: nat)
    requires g == |solo| + |tally| + 1 && d == |num|
    requires |q| <= |num| && num[|num| - |q|..] == q
    requires forall j :: 0 <= j < |num| - |q| ==> num[j] == ' '
    ensures Columns(solo + tally + " " + [c] + " " + num + ". " + answer + "\n", solo, tally, g, c, q, d, answer)
  {
    var p := solo + tally + " " + [c];
    var line := p + " " + num + ". " + answer + "\n";
    LeftColumns(solo, tally, c);
    RightColumns(p, num, answer);
    PrefixSlice(line, p, 0, |solo|);
    PrefixSlice(line, p, |solo|, g - 1);
    PrefixSlice(line, p, g - 1, g + 1);
    assert line[g - 1] == line[g - 1..g + 1][0] && line[g] == line[g - 1..g + 1][1];
  }

  /** The columns up to and including the glyph. */
  lemma LeftColumns(solo: string, tally: string, c: char)
    ensures var p := solo + tally + " " + [c];
            var g := |solo| + |tally| + 1;
            && |p| == g + 1
            && p[..|solo|] == solo
            && p[|solo|..g - 1] == tally
            && p[g - 1] == ' '
            && p[g] == c
  {
  }

  /** The columns after a prefix `p`: a blank, the number field, ". ", the
      answer and the newline. */
  lemma RightColumns(p: string, num: string, answer: string)
    ensures var line := p + " " + num + ". " + answer + "\n";
            var o := |p|;
            var d := |num|;
            && |line| == o + d + 4 + |answer|
            && line[..o] == p
            && line[o] == ' '
            && line[o + 1..o + 1 + d] == num
            && line[o + 1 + d..o + 3 + d] == ". "
            && line[o + 3 + d..|line| - 1] == answer
            && line[|line| - 1] == '\n'
  {
  }

  /** A slice inside a prefix is the slice of the prefix. */
  lemma PrefixSlice(line: string, p: string, i: nat, j: nat)
    requires |p| <= |line| && line[..|p|] == p && i <= j <= |p|
    ensures line[i..j] == p[i..j]
  {
    assert forall k :: i <= k < j ==> line[k] == line[..|p|][k];
  }

  /** Every question 1..n has a tally. */
  lemma KeysCover(n: nat, counts: map<string, Checks.Tally>)
    requires counts.Keys == QuestionKeys(n)
    ensures forall i :: 1 <= i <= n ==> NatToStr(i) in counts
  {
    forall i | 1 <= i <= n
      ensures NatToStr(i) in counts
    {
      assert NatToStr(i) in QuestionKeys(n);
    }
  }

  /** The question lines 1..n of participant entry `e`, tallies
      right-justified to `width`. When every tally fits in `width`, the
      lines are laid out in order, line `k` for question `k + 1`. */
  function QuestionLines(n: nat, solos: set<string>, counts: map<string, Checks.Tally>, width: nat, e: Entry): (r: seq<string>)
    requires counts.Keys == QuestionKeys(n)
    ensures |r| == n
    ensures forall k :: 0 <= k < n ==> NatToStr(k + 1) in counts && r[k] == QuestionLine(k + 1, n, solos, counts, width, e)
    ensures (forall q :: q in counts ==> |Checks.TallyText(counts[q])| <= width) ==> AllLaidOut(r, n, solos, counts, width, e)
  {
    KeysCover(n, counts);
    var r := seq(n, k requires 0 <= k < n => QuestionLine(k + 1, n, solos, counts, width, e));
    assert forall k :: 0 <= k < n ==> NatToStr(k + 1) in counts && r[k] == QuestionLine(k + 1, n, solos, counts, width, e);
    if forall q :: q in counts ==> |Checks.TallyText(counts[q])| <= width then
      LinesLayout(r, n, solos, counts, width, e);
      r
    else
      r
  }

  /** `make_quiz_result_text` for participant `pid` of quiz `quizId`. The
      failures come in the program's order: an unknown quiz, a verdict on a
      question outside 1..n, an unknown participant in the replay, a
      participant missing from the results (the rank lookup's IndexError),
      and a quiz with no questions (`log(0, 10)`). Otherwise the sheet
      describes the participant in the sense of `Describes`. */
  function MakeQuizResultText(log: Log, quizId: string, pid: string): (r: Result<Report, Failure>)
    ensures Readers.GetQuizDetails(log, quizId).Err? ==> r == Err(UnknownQuiz(quizId))
    ensures Readers.GetQuizDetails(log, quizId).Ok? ==>
              var n := Readers.GetQuizDetails(log, quizId).value.questions;
              && (Checks.ReadChecks(log, quizId, n, pid).Err? ==> r == Err(UncountedQuestion))
              && (Checks.ReadChecks(log, quizId, n, pid).Ok? && Ranking.ReadResults(log, quizId).Err? ==>
                    r == Err(Ranking.ReadResults(log, quizId).error))
              && (Checks.ReadChecks(log, quizId, n, pid).Ok? && Ranking.ReadResults(log, quizId).Ok? ==>
                    && (pid !in Ranking.ReadResults(log, quizId).value.ranking ==> r == Err(NotRanked(pid)))
                    && (pid in Ranking.ReadResults(log, quizId).value.ranking && n == 0 ==> r == Err(NoQuestions))
                    && (pid in Ranking.ReadResults(log, quizId).value.ranking && n > 0 ==>
                          r.Ok? && Describes(r.value, log, pid, n, Checks.ReadChecks(log, quizId, n, pid).value.1, Ranking.ReadResults(log, quizId).value)))
  {
    match Readers.GetQuizDetails(log, quizId)
    case Err(e) => Err(e)
    case Ok(details) =>
      var n := details.questions;
      match Checks.ReadChecks(log, quizId, n, pid)
      case Err(e) => Err(e)
      case Ok(read) =>
        match Ranking.ReadResults(log, quizId)
        case Err(e) => Err(e)
        case Ok(ranked) =>
          if pid !in ranked.ranking then Err(NotRanked(pid))
          else if n == 0 then Err(NoQuestions)
          else Ok(Compose(log, pid, n, read.1, ranked))
  }

  /** `rep` describes participant `pid`: the quiz name and date of the
      replay, the number of participants ranked and of questions, the
      participant's name; the rank is the 1-based position of `pid`'s first
      occurrence in the ranking; the score is their number of "correct"
      verdicts and `solos` their number of solos; there are `n` lines, line
      `k` for question `k + 1`, in the layout of `AllLaidOut` with tallies
      as wide as the widest; the file stem is the quiz name's. */
  predicate Describes(rep: Report, log: Log, pid: string, n: nat, counts: map<string, Checks.Tally>, ranked: Ranking.Ranked) {
    && counts.Keys == QuestionKeys(n) && pid in ranked.entries
    && rep.quizName == ranked.quizName && rep.quizDate == ranked.quizDate
    && rep.participants == |ranked.ranking| && rep.questions == n
    && rep.name == Readers.GetParticipantDetails(log, pid)
    && 1 <= rep.rank <= |ranked.ranking| && ranked.ranking[rep.rank - 1] == pid && pid !in ranked.ranking[..rep.rank - 1]
    && rep.score == Ranking.CorrectAnswers(ranked.entries[pid])
    && rep.solos == |Ranking.Solos(ranked.entries, pid)|
    && AllLaidOut(rep.lines, n, Ranking.Solos(ranked.entries, pid), counts, Checks.FindMaxLenCheckCounts(counts, n), ranked.entries[pid])
    && rep.fileStem == FileStem(ranked.quizName)
  }

  /** The sheet once every lookup has succeeded; it describes the
      participant. */
  function Compose(log: Log, pid: string, n: nat, counts: map<string, Checks.Tally>, ranked: Ranking.Ranked): (r: Report)
    requires counts.Keys == QuestionKeys(n)
    requires pid in ranked.ranking && pid in ranked.entries
    ensures Describes(r, log, pid, n, counts, ranked)
  {
    var e := ranked.entries[pid];
    var solos := Ranking.Solos(ranked.entries, pid);
    Report(ranked.quizName, ranked.quizDate, |ranked.ranking|, n, Readers.GetParticipantDetails(log, pid),
           IndexOf(ranked.ranking, pid) + 1, Ranking.CorrectAnswers(e), |solos|,
           QuestionLines(n, solos, counts, Checks.FindMaxLenCheckCounts(counts, n), e),
           FileStem(ranked.quizName))
  }

  /** The `n` lines share one layout: line `k` is question `k + 1`'s solo
      column, tally right-justified to `width`, glyph at the common column,
      number in the width of `n` (reading back as `k + 1`) and answer. */
  predicate AllLaidOut(lines: seq<string>, n: nat, solos: set<string>, counts: map<string, Checks.Tally>, width: nat, e: Entry) {
    && |lines| == n
    && forall k :: 0 <= k < n ==> LaidOut(lines[k], k + 1, n, solos, counts, width, e)
  }

  /** `line` is laid out as the line of question `i`: its columns, and the
      number `i` readable from its number column. */
  predicate LaidOut(line: string, i: nat, n: nat, solos: set<string>, counts: map<string, Checks.Tally>, width: nat, e: Entry) {
    var g := GlyphColumn(solos, width);
    var d := |NatToStr(n)|;
    var q := NatToStr(i);
    && q in counts
    && Columns(line, SoloColumn(solos, q), RJust(Checks.TallyText(counts[q]), width), g, Glyph(e.checks, q), q, d,
               AnswerText(e.answers, q))
    && NumberAt(line, g, d) == Some(i)
  }

  /** `LineLayout` and `NumberReadsBack` together, for question `i`. */
  lemma LineLaidOut(i: nat, n: nat, solos: set<string>, counts: map<string, Checks.Tally>, width: nat, e: Entry)
    requires 1 <= i <= n && NatToStr(i) in counts && |Checks.TallyText(counts[NatToStr(i)])| <= width
    ensures LaidOut(QuestionLine(i, n, solos, counts, width, e), i, n, solos, counts, width, e)
  {
    LineLayout(i, n, solos, counts, width, e);
    NumberReadsBack(i, n, solos, counts, width, e);
  }

  /** `LineLayout` and `NumberReadsBack` for every line of a list of
      question lines. */
  lemma LinesLayout(lines: seq<string>, n: nat, solos: set<string>, counts: map<string, Checks.Tally>, width: nat, e: Entry)
    requires counts.Keys == QuestionKeys(n) && |lines| == n
    requires forall k :: 0 <= k < n ==> NatToStr(k + 1) in counts && lines[k] == QuestionLine(k + 1, n, solos, counts, width, e)
    requires forall q :: q in counts ==> |Checks.TallyText(counts[q])| <= width
    ensures AllLaidOut(lines, n, solos, counts, width, e)
  {
    KeysCover(n, counts);
    forall k | 0 <= k < n
      ensures LaidOut(lines[k], k + 1, n, solos, counts, width, e)
    {
      assert NatToStr(k + 1) in counts;
      LineLaidOut(k + 1, n, solos, counts, width, e);
    }
  }
}
