/**
 * Reconciliation of a tournament participant's self-reported data (one row of
 * the organiser's spreadsheet) against the data on their FIDE profile page.
 *
 * The HTTP request and the HTML scraping are abstracted into an `Outcome`
 * value; the open log file is the sequence of lines written to it so far,
 * one element per `f.write` call (without its trailing newline); the
 * console confirmation is returned as a boolean, and as a list of lines for
 * a whole roster.
 */
module FideConfirmation {
  import opened PyText

  // ---------------------------------------------------------------------------
  // Titles
  // ---------------------------------------------------------------------------

  /** A FIDE title, or the marker for "no title" (a float NaN in the script). */
  datatype Title = Missing | Text(s: string)

  /** `is_missing_title`: only the missing marker counts as "no title". */
  predicate IsMissingTitle(t: Title) {
    t.Missing?
  }

  /**
   * Python's `!=` between two titles. NaN compares unequal to everything,
   * itself included, and a float is never equal to a string.
   */
  predicate PyNotEqual(a: Title, b: Title)
    ensures PyNotEqual(a, b) <==> a != b || IsMissingTitle(a)
  {
    if a.Text? && b.Text? then a.s != b.s else true
  }

  /** The "FIDE title:" cell of the profile page: the text `None` means no title. */
  function TitleFromPage(cell: string): (t: Title)
    ensures IsMissingTitle(t) <==> cell == "None"
    ensures !IsMissingTitle(t) ==> t.s == cell
  {
    if cell == "None" then Missing else Text(cell)
  }

  /** How a title appears inside an f-string: NaN prints as `nan`. */
  function TitleToString(t: Title): string {
    match t
    case Missing => "nan"
    case Text(s) => s
  }

  lemma IsMissingTitleExactly(t: Title)
    ensures IsMissingTitle(Missing)
    ensures IsMissingTitle(t) <==> t == Missing
    ensures forall s: string :: !IsMissingTitle(Text(s))
  {
  }

  /** Unlike `==`, Python's `!=` does not make the missing marker equal to itself. */
  lemma PyNotEqualIrreflexiveOnlyOnText(t: Title)
    ensures PyNotEqual(t, t) <==> IsMissingTitle(t)
  {
  }

  /** Reading the page cell back: every text other than `None` survives unchanged. */
  lemma TitleFromPageRoundTrip(cell: string)
    ensures cell != "None" ==> TitleToString(TitleFromPage(cell)) == cell
    ensures TitleFromPage(cell) == Missing <==> cell == "None"
  {
  }

  // ---------------------------------------------------------------------------
  // Players
  // ---------------------------------------------------------------------------

  /**
   * One spreadsheet row as the script reads it. Rating and ID arrive here
   * already in the text form `str()` gives them.
   */
  datatype Row = Row(firstName: string, surname: string, rating: string, fideId: string, title: Title)

  /** `Player`: the participant as reported; no operation changes it after construction. */
  datatype Player = Player(name: string, rating: string, fideId: string, title: Title) {
    function GetId(): string { fideId }
    function GetName(): string { name }
    function GetRating(): string { rating }
    function GetTitle(): Title { title }
  }

  /** `Player.__init__`: the display name is "surname, first name". */
  function NewPlayer(firstName: string, surname: string, rating: string, fideId: string, title: Title): (p: Player)
    ensures |p.GetName()| == |surname| + 2 + |firstName|
    ensures p.GetName()[..|surname|] == surname
    ensures p.GetName()[|surname|..|surname| + 2] == ", "
    ensures p.GetName()[|surname| + 2..] == firstName
    ensures p.GetRating() == rating && p.GetId() == fideId && p.GetTitle() == title
  {
    Player(surname + ", " + firstName, rating, fideId, title)
  }

  /**
   * Among rows whose surnames have the same length, the display name
   * determines both the surname and the first name. The length condition is
   * needed: surname "A, B" with first name "C" and surname "A" with first
   * name "B, C" give the same display name.
   */
  lemma NewPlayerNameDeterminesParts(r1: Row, r2: Row)
    requires |r1.surname| == |r2.surname|
    requires NewPlayer(r1.firstName, r1.surname, r1.rating, r1.fideId, r1.title).GetName()
          == NewPlayer(r2.firstName, r2.surname, r2.rating, r2.fideId, r2.title).GetName()
    ensures r1.surname == r2.surname && r1.firstName == r2.firstName
  {
    var n1 := NewPlayer(r1.firstName, r1.surname, r1.rating, r1.fideId, r1.title).GetName();
    assert r1.surname == n1[..|r1.surname|];
    assert r1.firstName == n1[|r1.surname| + 2..];
  }

  function PlayerOf(r: Row): Player {
    NewPlayer(r.firstName, r.surname, r.rating, r.fideId, r.title)
  }

  // ---------------------------------------------------------------------------
  // Lookup outcome and log lines
  // ---------------------------------------------------------------------------

  /**
   * What `requests.get` on the profile URL and the scraping of the page give:
   * either a response that is not ok, with its status code, or the name,
   * rating and title read from the page.
   */
  datatype Outcome =
    | TransportFailure(code: int)
    | Found(name: string, rating: string, title: Title)

  /**
   * One line written to the log file, described by the values it mentions;
   * `Render` gives its exact text.
   */
  datatype Issue =
    | IdNotRetrieved(player: string, fideId: string, code: int)
    | NameMismatch(reported: string, fideName: string)
    | RatingMismatch(player: string, reportedRating: string, fideRating: string)
    | TitleMismatch(player: string, reportedTitle: Title, fideTitle: Title)

  /** The exact text of each line, as the script's f-strings format it (without the newline). */
  function Render(issue: Issue): string {
    match issue
    case IdNotRetrieved(player, id, code) =>
      player + " reported " + id + " as their ID, but this could not be retrieved. Error code = " + IntToString(code)
    case NameMismatch(reported, fideName) =>
      "Player says their name is " + reported + ", but FIDE says " + fideName
    case RatingMismatch(player, reported, fideRating) =>
      player + " reported " + reported + " as their rating, but FIDE says " + fideRating
    case TitleMismatch(player, reported, fideTitle) =>
      player + " reported " + TitleToString(reported) + " as their title, but FIDE says " + TitleToString(fideTitle)
  }

  /**
   * The failure line starts with the player's name, carries the reported ID
   * right after " reported ", and ends with the status code, which can be
   * read back from it.
   */
  lemma FailureLineMentions(player: string, id: string, code: int)
    ensures var line := Render(IdNotRetrieved(player, id, code));
            var digits := IntToString(code);
            && line[..|player|] == player
            && line[|player| + 10..|player| + 10 + |id|] == id
            && line[|line| - |digits|..] == digits
            && ParseInt(line[|line| - |digits|..]) == code
  {
    var line := Render(IdNotRetrieved(player, id, code));
    var digits := IntToString(code);
    var head := player + " reported " + id + " as their ID, but this could not be retrieved. Error code = ";
    assert line == head + digits;
    assert line[..|player|] == player;
    assert line[|player| + 10..|player| + 10 + |id|] == id;
    assert line[|line| - |digits|..] == digits;
    ParseIntToString(code);
  }

  /** Every line except the name line starts with the player's display name. */
  lemma LineStartsWithPlayer(issue: Issue)
    requires !issue.NameMismatch?
    ensures |Render(issue)| >= |issue.player| && Render(issue)[..|issue.player|] == issue.player
  {
    var line, player := Render(issue), issue.player;
    assert |line| >= |player|;
    forall k | 0 <= k < |player| ensures line[k] == player[k] { }
    assert line[..|player|] == player;
  }

  // ---------------------------------------------------------------------------
  // The three checks of verify_player
  // ---------------------------------------------------------------------------

  /** Name check: the names differ once both are lower-cased. */
  predicate NameDiffers(reported: string, fideName: string) {
    Lower(reported) != Lower(fideName)
  }

  /** Rating check: exact string comparison, no numeric tolerance. */
  predicate RatingDiffers(reported: string, fideRating: string) {
    reported != fideRating
  }

  /** Title check, as the script writes it: unequal under `!=` and exactly one side missing. */
  predicate TitleFlagged(reported: Title, fideTitle: Title) {
    PyNotEqual(reported, fideTitle) && IsMissingTitle(reported) != IsMissingTitle(fideTitle)
  }

  /** The line the name check writes, if any. */
  function NameCheck(p: Player, fideName: string): seq<Issue> {
    if NameDiffers(p.GetName(), fideName) then [NameMismatch(p.GetName(), fideName)] else []
  }

  /** The line the rating check writes, if any. */
  function RatingCheck(p: Player, fideRating: string): seq<Issue> {
    if RatingDiffers(p.GetRating(), fideRating) then [RatingMismatch(p.GetName(), p.GetRating(), fideRating)] else []
  }

  /** The line the title check writes, if any. */
  function TitleCheck(p: Player, fideTitle: Title): seq<Issue> {
    if TitleFlagged(p.GetTitle(), fideTitle) then [TitleMismatch(p.GetName(), p.GetTitle(), fideTitle)] else []
  }

  /** The lines `verify_player` writes for one player and one lookup outcome, in order. */
  function Issues(p: Player, outcome: Outcome): seq<Issue> {
    match outcome
    case TransportFailure(code) => [IdNotRetrieved(p.GetName(), p.GetId(), code)]
    case Found(fideName, fideRating, fideTitle) =>
      NameCheck(p, fideName) + RatingCheck(p, fideRating) + TitleCheck(p, fideTitle)
  }

  /** Position of a check in the order the script runs them. */
  function Rank(issue: Issue): nat {
    match issue
    case IdNotRetrieved(_, _, _) => 0
    case NameMismatch(_, _) => 1
    case RatingMismatch(_, _, _) => 2
    case TitleMismatch(_, _, _) => 3
  }

  // ---------------------------------------------------------------------------
  // Properties of the checks
  // ---------------------------------------------------------------------------

  /** A response that is not ok gives exactly the one ID line, whatever the other fields hold. */
  lemma FailureShortCircuits(p: Player, code: int)
    ensures Issues(p, TransportFailure(code)) == [IdNotRetrieved(p.GetName(), p.GetId(), code)]
    ensures forall issue :: issue in Issues(p, TransportFailure(code)) ==> Rank(issue) == 0
  {
  }

  /**
   * A successful lookup writes at most three lines, in the order name,
   * rating, title, at most one of each, and never the ID line.
   */
  lemma FoundIssuesOrdered(p: Player, fideName: string, fideRating: string, fideTitle: Title)
    ensures var r := Issues(p, Found(fideName, fideRating, fideTitle));
            && |r| <= 3
            && (forall i :: 0 <= i < |r| ==> Rank(r[i]) > 0)
            && (forall i, j :: 0 <= i < j < |r| ==> Rank(r[i]) < Rank(r[j]))
  {
  }

  /**
   * Each check writes its line exactly when its own comparison fails,
   * whatever the other two checks found.
   */
  lemma FoundIssuesIff(p: Player, fideName: string, fideRating: string, fideTitle: Title)
    ensures var r := Issues(p, Found(fideName, fideRating, fideTitle));
            && (NameMismatch(p.GetName(), fideName) in r <==> NameDiffers(p.GetName(), fideName))
            && (RatingMismatch(p.GetName(), p.GetRating(), fideRating) in r <==> RatingDiffers(p.GetRating(), fideRating))
            && (TitleMismatch(p.GetName(), p.GetTitle(), fideTitle) in r <==> TitleFlagged(p.GetTitle(), fideTitle))
            && (forall issue :: issue in r && Rank(issue) == 1 ==> issue == NameMismatch(p.GetName(), fideName))
            && (forall issue :: issue in r && Rank(issue) == 2 ==> issue == RatingMismatch(p.GetName(), p.GetRating(), fideRating))
            && (forall issue :: issue in r && Rank(issue) == 3 ==> issue == TitleMismatch(p.GetName(), p.GetTitle(), fideTitle))
  {
  }

  /** The confirmation is due exactly when the lookup succeeded and all three checks passed. */
  lemma NoIssuesIffAllChecksPass(p: Player, outcome: Outcome)
    ensures outcome.Found? && Issues(p, outcome) == [] <==>
            outcome.Found?
            && !NameDiffers(p.GetName(), outcome.name)
            && !RatingDiffers(p.GetRating(), outcome.rating)
            && !TitleFlagged(p.GetTitle(), outcome.title)
  {
  }

  /** The name check ignores case only: it passes exactly for names that agree letter by letter up to case. */
  lemma NameCheckCaseInsensitive(reported: string, fideName: string)
    ensures !NameDiffers(reported, fideName) <==>
            |reported| == |fideName| &&
            forall i :: 0 <= i < |reported| ==> LowerChar(reported[i]) == LowerChar(fideName[i])
  {
    LowerEqualIff(reported, fideName);
  }

  lemma NameCheckExample()
    ensures !NameDiffers("Smith, John", "SMITH, JOHN")
    ensures NameDiffers("Smith, John", "Smith, Jon")
  {
    NameCheckCaseInsensitive("Smith, John", "SMITH, JOHN");
    NameCheckCaseInsensitive("Smith, John", "Smith, Jon");
  }

  lemma RatingCheckExample(p: Player, fideName: string, fideTitle: Title)
    requires p.GetRating() == "2400"
    ensures |set issue | issue in Issues(p, Found(fideName, "2401", fideTitle)) && Rank(issue) == 2| == 1
    ensures forall issue :: issue in Issues(p, Found(fideName, "2400", fideTitle)) ==> Rank(issue) != 2
  {
    var r := Issues(p, Found(fideName, "2401", fideTitle));
    var line := RatingMismatch(p.GetName(), "2400", "2401");
    FoundIssuesIff(p, fideName, "2401", fideTitle);
    assert (set issue | issue in r && Rank(issue) == 2) == {line};
  }

  /** As written, a title line appears exactly when one side is missing and the other is not. */
  lemma TitleFlaggedIffExactlyOneMissing(reported: Title, fideTitle: Title)
    ensures TitleFlagged(reported, fideTitle) <==> IsMissingTitle(reported) != IsMissingTitle(fideTitle)
  {
  }

  /** Two missing titles are not flagged although `nan != nan` holds in Python. */
  lemma BothMissingNotFlagged()
    ensures PyNotEqual(Missing, Missing)
    ensures !TitleFlagged(Missing, Missing)
  {
  }

  /** As written, two different real titles ("GM" against "IM") are not flagged either. */
  lemma DifferentRealTitlesNotFlagged(reported: string, fideTitle: string)
    requires reported != fideTitle
    ensures PyNotEqual(Text(reported), Text(fideTitle))
    ensures !TitleFlagged(Text(reported), Text(fideTitle))
  {
  }

  /** A missing reported title against "Woman FIDE Master" on the page gives exactly the title line. */
  lemma MissingAgainstRealTitleExample()
    ensures var p := NewPlayer("Jane", "Doe", "2200", "12345", Missing);
            Issues(p, Found("Doe, Jane", "2200", Text("Woman FIDE Master")))
            == [TitleMismatch("Doe, Jane", Missing, Text("Woman FIDE Master"))]
  {
    assert "Doe" + ", " + "Jane" == "Doe, Jane";
  }

  lemma AllCorrectExample()
    ensures var p := NewPlayer("Jane", "Doe", "2200", "12345", Missing);
            Issues(p, Found("Doe, Jane", "2200", Missing)) == []
  {
    assert "Doe" + ", " + "Jane" == "Doe, Jane";
  }

  // ---------------------------------------------------------------------------
  // verify_player
  // ---------------------------------------------------------------------------

  /**
   * `verify_player`: on a failed request, write the ID line and stop;
   * otherwise run the name, rating and title checks one after another,
   * writing a line for each that fails, and report everything correct when
   * none did.
   */
  method VerifyPlayer(p: Player, outcome: Outcome, log: seq<Issue>) returns (log': seq<Issue>, allCorrect: bool)
    ensures log' == log + Issues(p, outcome)
    ensures allCorrect <==> outcome.Found? && Issues(p, outcome) == []
  {
    if outcome.TransportFailure? {
      log' := log + [IdNotRetrieved(p.GetName(), p.GetId(), outcome.code)];
      allCorrect := false;
      return;
    }
    var fideName, fideRating, fideTitle := outcome.name, outcome.rating, outcome.title;
    var mistake := false;
    log' := log;
    if Lower(p.GetName()) != Lower(fideName) {
      log' := log' + [NameMismatch(p.GetName(), fideName)];
      mistake := true;
    }
    ghost var afterName := log';
    assert afterName == log + NameCheck(p, fideName) && (mistake <==> NameCheck(p, fideName) != []);
    if p.GetRating() != fideRating {
      log' := log' + [RatingMismatch(p.GetName(), p.GetRating(), fideRating)];
      mistake := true;
    }
    ghost var afterRating := log';
    assert afterRating == afterName + RatingCheck(p, fideRating);
    if PyNotEqual(p.GetTitle(), fideTitle) && IsMissingTitle(p.GetTitle()) != IsMissingTitle(fideTitle) {
      log' := log' + [TitleMismatch(p.GetName(), p.GetTitle(), fideTitle)];
      mistake := true;
    }
    assert log' == afterRating + TitleCheck(p, fideTitle);
    allCorrect := !mistake;
  }

  // ---------------------------------------------------------------------------
  // main: every roster row in order, one log
  // ---------------------------------------------------------------------------

  /** The parts joined end to end, in order. */
  function Flatten<T>(parts: seq<seq<T>>): seq<T> {
    if parts == [] then [] else Flatten(parts[..|parts| - 1]) + parts[|parts| - 1]
  }

  lemma {:induction false} FlattenAppend<T>(a: seq<seq<T>>, b: seq<seq<T>>)
    ensures Flatten(a + b) == Flatten(a) + Flatten(b)
  {
    if b == [] {
      assert a + b == a;
    } else {
      var n := |b| - 1;
      assert (a + b)[..|a + b| - 1] == a + b[..n];
      FlattenAppend(a, b[..n]);
    }
  }

  /** The console line one row contributes: the confirmation when every check passed. */
  function RowConsole(row: Row, outcome: Outcome): seq<string> {
    if outcome.Found? && Issues(PlayerOf(row), outcome) == []
    then [PlayerOf(row).GetName() + " reported everything correctly!"]
    else []
  }

  /** The lines of each row, each computed from that row and its own lookup only. */
  function RowLogs(rows: seq<Row>, outcomes: seq<Outcome>): (parts: seq<seq<Issue>>)
    requires |outcomes| == |rows|
    ensures |parts| == |rows|
  {
    seq(|rows|, i requires 0 <= i < |rows| => Issues(PlayerOf(rows[i]), outcomes[i]))
  }

  function RowConsoles(rows: seq<Row>, outcomes: seq<Outcome>): (parts: seq<seq<string>>)
    requires |outcomes| == |rows|
    ensures |parts| == |rows|
  {
    seq(|rows|, i requires 0 <= i < |rows| => RowConsole(rows[i], outcomes[i]))
  }

  /** Extending the roster by one row extends the per-row parts by that row's part. */
  lemma RowsSnoc(rows: seq<Row>, outcomes: seq<Outcome>, i: nat)
    requires |outcomes| == |rows| && i < |rows|
    ensures RowLogs(rows[..i + 1], outcomes[..i + 1])
         == RowLogs(rows[..i], outcomes[..i]) + [Issues(PlayerOf(rows[i]), outcomes[i])]
    ensures RowConsoles(rows[..i + 1], outcomes[..i + 1])
         == RowConsoles(rows[..i], outcomes[..i]) + [RowConsole(rows[i], outcomes[i])]
  {
    var r, o, r', o' := rows[..i], outcomes[..i], rows[..i + 1], outcomes[..i + 1];
    assert forall j :: 0 <= j < i ==> r'[j] == r[j] && o'[j] == o[j];
    assert r'[i] == rows[i] && o'[i] == outcomes[i];
    var before, after := RowConsoles(r, o), RowConsoles(r', o');
    forall j | 0 <= j < i + 1
      ensures after[j] == (before + [RowConsole(rows[i], outcomes[i])])[j]
    {
      if j < i {
        assert r'[j] == r[j] && o'[j] == o[j];
      }
    }
  }

  /** The whole log: each row's lines, in roster order. */
  function RosterLog(rows: seq<Row>, outcomes: seq<Outcome>): seq<Issue>
    requires |outcomes| == |rows|
  {
    Flatten(RowLogs(rows, outcomes))
  }

  /** Everything printed to the console, in roster order. */
  function RosterConsole(rows: seq<Row>, outcomes: seq<Outcome>): seq<string>
    requires |outcomes| == |rows|
  {
    Flatten(RowConsoles(rows, outcomes))
  }

  /**
   * Participants are independent: the log of two consecutive parts of a
   * roster is the log of the first part followed by the log of the second.
   */
  lemma RosterLogAppend(a: seq<Row>, oa: seq<Outcome>, b: seq<Row>, ob: seq<Outcome>)
    requires |oa| == |a| && |ob| == |b|
    ensures RosterLog(a + b, oa + ob) == RosterLog(a, oa) + RosterLog(b, ob)
  {
    assert RowLogs(a + b, oa + ob) == RowLogs(a, oa) + RowLogs(b, ob);
    FlattenAppend(RowLogs(a, oa), RowLogs(b, ob));
  }

  /**
   * One participant's lines sit in the log between those of the participants
   * before and after, and depend only on that participant and their lookup.
   */
  lemma RosterLogSplit(rows: seq<Row>, outcomes: seq<Outcome>, i: nat)
    requires |outcomes| == |rows| && i < |rows|
    ensures RosterLog(rows, outcomes)
         == RosterLog(rows[..i], outcomes[..i]) + Issues(PlayerOf(rows[i]), outcomes[i])
            + RosterLog(rows[i + 1..], outcomes[i + 1..])
  {
    assert rows == rows[..i] + [rows[i]] + rows[i + 1..];
    assert outcomes == outcomes[..i] + [outcomes[i]] + outcomes[i + 1..];
    RosterLogAppend(rows[..i] + [rows[i]], outcomes[..i] + [outcomes[i]], rows[i + 1..], outcomes[i + 1..]);
    RosterLogAppend(rows[..i], outcomes[..i], [rows[i]], [outcomes[i]]);
    assert RowLogs([rows[i]], [outcomes[i]]) == [Issues(PlayerOf(rows[i]), outcomes[i])];
    assert Flatten([Issues(PlayerOf(rows[i]), outcomes[i])]) == Issues(PlayerOf(rows[i]), outcomes[i]);
  }

  /** Each row adds at most three lines to the log. */
  lemma {:induction false} RosterLogBound(rows: seq<Row>, outcomes: seq<Outcome>)
    requires |outcomes| == |rows|
    ensures |RosterLog(rows, outcomes)| <= 3 * |rows|
  {
    if rows != [] {
      var n := |rows| - 1;
      RosterLogBound(rows[..n], outcomes[..n]);
      RosterLogSplit(rows, outcomes, n);
      assert RowLogs(rows[n + 1..], outcomes[n + 1..]) == [];
      var o := outcomes[n];
      if o.Found? {
        FoundIssuesOrdered(PlayerOf(rows[n]), o.name, o.rating, o.title);
      }
    }
  }

  /**
   * `main`: the log file is opened for writing (so it starts empty), then each
   * row becomes a `Player` and is verified, in roster order, against the
   * lookup outcome for that row.
   */
  method VerifyRoster(rows: seq<Row>, outcomes: seq<Outcome>) returns (log: seq<Issue>, console: seq<string>)
    requires |outcomes| == |rows|
    ensures log == RosterLog(rows, outcomes)
    ensures console == RosterConsole(rows, outcomes)
  {
    log, console := [], [];
    for i := 0 to |rows|
      invariant log == RosterLog(rows[..i], outcomes[..i])
      invariant console == RosterConsole(rows[..i], outcomes[..i])
    {
      var player := NewPlayer(rows[i].firstName, rows[i].surname, rows[i].rating, rows[i].fideId, rows[i].title);
      var correct;
      log, correct := VerifyPlayer(player, outcomes[i], log);
      if correct {
        console := console + [player.GetName() + " reported everything correctly!"];
      }
      RowsSnoc(rows, outcomes, i);
    }
    assert rows[..|rows|] == rows;
    assert outcomes[..|rows|] == outcomes;
  }
}
