/** The game session of App.tsx: the React state (`gamePhase`, `characters`,
    `dialogueLog`, `day`, `selectedCharacter`, `askedCharacters`) as the
    fields of one object, and each handler or phase effect as a method
    that updates them. Each oracle reply and each random draw the handler
    awaits is a parameter; the timers between steps are left out, so a
    handler and the callbacks it schedules form one step. */
module Session {
  import opened Collections
  import opened GameTypes
  import Roster
  import Tally
  import Oracle
  import Text

  /** The phases in which the office is at work: the game is not over. */
  predicate Playing(p: GamePhase) {
    p == DayIntro || p == DayDiscussion || p == Voting || p == Night
  }

  /** A selection the handlers act on. `!selectedCharacter` treats the
      empty name like no selection at all, since `""` is falsy. */
  predicate Chosen(selected: Option<string>) {
    selected.Some? && selected.value != ""
  }

  /** The name of the player (`characters.find(c => c.isPlayer)`): on a
      roster with one player, the name of that player; with no player, the
      empty name. */
  function PlayerName(cs: seq<Character>): (name: string)
    ensures Roster.Count(cs, Roster.PlayerFlag) == 1 ==>
      forall i :: 0 <= i < |cs| && cs[i].isPlayer ==> name == cs[i].name
    ensures Roster.Count(cs, Roster.PlayerFlag) == 0 ==> name == ""
  {
    match Roster.FindPlayer(cs)
    case Some(p) =>
      assert Roster.Count(cs, Roster.PlayerFlag) == 1 ==> forall i :: 0 <= i < |cs| && cs[i].isPlayer ==> i == p by {
        if Roster.Count(cs, Roster.PlayerFlag) == 1 {
          forall i | 0 <= i < |cs| && cs[i].isPlayer
            ensures i == p
          {
            if i > p {
              Roster.CountAtLeastTwo(cs, Roster.PlayerFlag, p, i);
            }
          }
        }
      }
      cs[p].name
    case None => ""
  }

  /** All ballots of a vote: the player's, without a reason, then the NPCs'. */
  function Ballot(cs: seq<Character>, votee: string, reply: Option<seq<Vote>>, picks: seq<nat>): seq<Vote>
    requires reply.None? ==> Oracle.PicksFor(cs, votee, Oracle.Npcs(cs), picks)
  {
    [Vote(PlayerName(cs), votee, "")] + Oracle.NpcBallot(cs, votee, reply, picks)
  }

  /** One log line per ballot, in ballot order. */
  function VoteLines(votes: seq<Vote>): (lines: seq<Dialogue>)
    ensures |lines| == |votes|
    ensures forall i :: 0 <= i < |votes| ==> lines[i] == System(VoteLine(votes[i].voter, votes[i].votee, votes[i].reason))
  {
    seq(|votes|, i requires 0 <= i < |votes| => System(VoteLine(votes[i].voter, votes[i].votee, votes[i].reason)))
  }

  /** The announcement of a dismissal, followed by the dismissed one's last
      words when a character of that name exists. */
  function DismissalNotes(cs: seq<Character>, name: string, finalWords: Option<string>): seq<Dialogue> {
    [System(Dismissed(name))] +
      (if Roster.FindNamed(cs, name).Some? then [Said(name, Oracle.ReplyOr(finalWords, Oracle.FarewellFallback))] else [])
  }

  /** The `Object.entries(dialogues).forEach` of the day intro: a line for
      each key, in key order, whose name belongs to a live character. */
  function Speeches(cs: seq<Character>, keys: seq<string>, text: map<string, string>): seq<Dialogue> {
    if keys == [] then []
    else
      var k := keys[|keys| - 1];
      Speeches(cs, keys[..|keys| - 1], text) + (if k in text && Roster.AliveNamed(cs, k) then [Said(k, text[k])] else [])
  }

  /** Every speech of the day intro is the line its live speaker was given. */
  lemma {:induction false} SpeechesFromLiving(cs: seq<Character>, keys: seq<string>, text: map<string, string>)
    ensures forall d :: d in Speeches(cs, keys, text) ==>
      d.Said? && d.speaker in keys && d.speaker in text && Roster.AliveNamed(cs, d.speaker) && d.text == text[d.speaker]
  {
    if keys != [] {
      var k := keys[|keys| - 1];
      SpeechesFromLiving(cs, keys[..|keys| - 1], text);
      assert forall x :: x in keys[..|keys| - 1] ==> x in keys;
    }
  }

  /** Every live character named among the keys gets their line. */
  lemma {:induction false} SpeechesInclude(cs: seq<Character>, keys: seq<string>, text: map<string, string>, j: nat)
    requires j < |keys| && keys[j] in text && Roster.AliveNamed(cs, keys[j])
    ensures Said(keys[j], text[keys[j]]) in Speeches(cs, keys, text)
  {
    var last := |keys| - 1;
    if j < last {
      assert keys[..last][j] == keys[j];
      SpeechesInclude(cs, keys[..last], text, j);
    }
  }

  /** When the day-intro call fails, every live character speaks the
      fallback line, and nobody else speaks. */
  lemma FallbackIntroEveryoneSpeaks(cs: seq<Character>)
    ensures var d := Oracle.FallbackDialogues(cs);
      forall name :: Roster.AliveNamed(cs, name) ==> Said(name, Oracle.FallbackLine(name)) in Speeches(cs, d.keys, d.text)
    ensures var d := Oracle.FallbackDialogues(cs);
      forall s :: s in Speeches(cs, d.keys, d.text) ==> s.Said? && Roster.AliveNamed(cs, s.speaker)
  {
    var d := Oracle.FallbackDialogues(cs);
    forall name | Roster.AliveNamed(cs, name)
      ensures Said(name, Oracle.FallbackLine(name)) in Speeches(cs, d.keys, d.text)
    {
      assert name in d.keys;
      var j :| 0 <= j < |d.keys| && d.keys[j] == name;
      SpeechesInclude(cs, d.keys, d.text, j);
    }
    SpeechesFromLiving(cs, d.keys, d.text);
  }

  /** The `forEach` over the dialogue map's entries. */
  method SpeakLines(cs: seq<Character>, keys: seq<string>, text: map<string, string>) returns (speeches: seq<Dialogue>)
    ensures speeches == Speeches(cs, keys, text)
  {
    speeches := [];
    var i := 0;
    while i < |keys|
      invariant i <= |keys|
      invariant speeches == Speeches(cs, keys[..i], text)
    {
      assert keys[..i + 1][..i] == keys[..i];
      if keys[i] in text && Roster.AliveNamed(cs, keys[i]) {
        speeches := speeches + [Said(keys[i], text[keys[i]])];
      }
      i := i + 1;
    }
    assert keys[..i] == keys;
  }

  /** The `forEach` that logs one line per ballot. */
  method LogVotes(votes: seq<Vote>) returns (lines: seq<Dialogue>)
    ensures lines == VoteLines(votes)
  {
    lines := [];
    var i := 0;
    while i < |votes|
      invariant i <= |votes|
      invariant lines == VoteLines(votes[..i])
    {
      lines := lines + [System(VoteLine(votes[i].voter, votes[i].votee, votes[i].reason))];
      i := i + 1;
    }
  }

  /** The morning announcement: whose seat is empty and why, or that
      nothing happened. */
  function NightNotes(outcome: Oracle.NightOutcome): seq<Dialogue> {
    if outcome.eliminated != "" then [System(Vanished(outcome.eliminated, outcome.reason))]
    else [System(QuietNight)]
  }

  /** Deaths keep the roster well formed, and a roster whose game goes on
      has a live villain and a live player. */
  lemma StepKeepsRoster(before: seq<Character>, after: seq<Character>)
    requires Roster.WellFormed(before) && Roster.Descends(before, after)
    ensures Roster.WellFormed(after)
    ensures Roster.EndVerdict(after) == Roster.Continue ==>
      Roster.Exists(after, Roster.AliveVillain) && Roster.Exists(after, Roster.AlivePlayer)
  {
    Roster.CastKeepsWellFormed(before, after);
    Roster.EndVerdictCases(after);
  }

  /** The outcome of the vote on `votee`: the player's ballot and the NPCs'
      are logged one line each; the one name with strictly the most votes,
      if there is one, is dismissed (with its last words), and otherwise
      the tie is announced. The dismissed one is always a live character. */
  ghost predicate VoteTaken(before: seq<Character>, log0: seq<Dialogue>, votee: string,
                            reply: Option<seq<Vote>>, picks: seq<nat>, finalWords: Option<string>,
                            votes: seq<Vote>, dismissed: Option<string>, after: seq<Character>, log1: seq<Dialogue>)
  {
    && (reply.None? ==> Oracle.PicksFor(before, votee, Oracle.Npcs(before), picks))
    && votes == Ballot(before, votee, reply, picks)
    && dismissed == Tally.Dismissal(votes)
    && (dismissed.Some? ==> Roster.AliveNamed(before, dismissed.value))
    && log1 == log0 + [System(VoteHeader)] + VoteLines(votes)
               + (if dismissed.Some? then DismissalNotes(before, dismissed.value, finalWords) else [System(HungVote)])
    && after == (if dismissed.Some? then Roster.Eliminate(before, dismissed.value) else before)
  }

  /** handleConfirmVote from the selection on: collect the ballots, log
      them, decide, and dismiss. */
  method TakeVote(cs: seq<Character>, log0: seq<Dialogue>, votee: string,
                  reply: Option<seq<Vote>>, picks: seq<nat>, finalWords: Option<string>)
    returns (votes: seq<Vote>, dismissed: Option<string>, after: seq<Character>, log1: seq<Dialogue>)
    requires Roster.WellFormed(cs) && Roster.Selectable(cs, votee)
    requires reply.None? ==> Oracle.PicksFor(cs, votee, Oracle.Npcs(cs), picks)
    ensures VoteTaken(cs, log0, votee, reply, picks, finalWords, votes, dismissed, after, log1)
    ensures Roster.Descends(cs, after)
  {
    Roster.CountPositive(cs, Roster.PlayerFlag);
    var player := cs[Roster.FindPlayer(cs).value];
    var npcVotes := Oracle.NpcVotes(cs, votee, reply, picks);
    votes := [Vote(player.name, votee, "")] + npcVotes;
    dismissed := Tally.Decide(votes);
    if dismissed.Some? {
      WinnerIsLiving(cs, votee, votes, dismissed.value);
    }
    var lines := LogVotes(votes);
    after := if dismissed.Some? then Roster.Eliminate(cs, dismissed.value) else cs;
    var notes := if dismissed.Some? then DismissalNotes(cs, dismissed.value, finalWords) else [System(HungVote)];
    log1 := log0 + [System(VoteHeader)] + lines + notes;
  }

  /** The phase that a verdict leads to, `continuing` when the game goes on. */
  function PhaseAfter(v: Roster.Verdict, continuing: GamePhase): GamePhase {
    match v
    case Win => EndWin
    case Lose => EndLose
    case Continue => continuing
  }

  /** Running the end check again on an unchanged roster changes nothing
      further: the same verdict leads to the same phase. */
  lemma EndCheckRepeats(v: Roster.Verdict, p: GamePhase)
    ensures PhaseAfter(v, PhaseAfter(v, p)) == PhaseAfter(v, p)
  {
  }

  /** The night's end check as written never ends the game: in any
      consistent night the roster it reads is undecided, so whoever the
      night takes, the next phase is the morning. */
  lemma StaleNightNeverEnds(cs: seq<Character>, log: seq<Dialogue>, day: nat,
                            selected: Option<string>, asked: seq<string>, victim: string)
    requires Consistent(Night, cs, log, day, selected, asked)
    ensures PhaseAfter(Roster.NightVerdictAsWritten(cs, victim), DayIntro) == DayIntro
  {
  }

  /** The session invariant. Before setup there is nobody; afterwards the
      roster has one villain and one player colleague. A selection is only
      held while discussing or voting, and names a live non-player. Each
      character is questioned at most once a day. While the office is at
      work the villain and the player are alive, and from the first night on
      the game is undecided; an end screen shows the verdict of the roster. */
  ghost predicate Consistent(phase: GamePhase, characters: seq<Character>, log: seq<Dialogue>, day: nat,
                             selected: Option<string>, asked: seq<string>)
  {
    && day >= 1
    && ((phase == Welcome || phase == Setup) ==>
          characters == [] && log == [] && selected.None? && asked == [] && day == 1)
    && (phase != Welcome && phase != Setup ==> Roster.WellFormed(characters))
    && (selected.Some? ==>
          (phase == DayDiscussion || phase == Voting) && Roster.Selectable(characters, selected.value))
    && NoDuplicates(asked)
    && (Playing(phase) ==>
          Roster.Exists(characters, Roster.AliveVillain) && Roster.Exists(characters, Roster.AlivePlayer))
    && (phase == Night || (Playing(phase) && day > 1) ==> Roster.EndVerdict(characters) == Roster.Continue)
    && (phase == EndWin ==> Roster.EndVerdict(characters) == Roster.Win)
    && (phase == EndLose ==> Roster.EndVerdict(characters) == Roster.Lose)
  }

  class Session {
    var phase: GamePhase
    var characters: seq<Character>
    var log: seq<Dialogue>
    var day: nat
    var selected: Option<string>
    var asked: seq<string>

    /** The session invariant, on the current field values. */
    ghost predicate Valid()
      reads this
    {
      Consistent(phase, characters, log, day, selected, asked)
    }

    /** The initial state of the `useState` hooks. */
    constructor()
      ensures Valid()
      ensures phase == Welcome && characters == [] && log == [] && day == 1 && selected.None? && asked == []
    {
      phase := Welcome;
      characters := [];
      log := [];
      day := 1;
      selected := None;
      asked := [];
    }

    /** handleStartGame, up to the setup call: the setup screen. */
    method StartGame()
      requires Valid() && phase == Welcome
      modifies this
      ensures Valid() && phase == Setup
      ensures characters == old(characters) && log == old(log) && day == old(day)
      ensures selected == old(selected) && asked == old(asked)
    {
      phase := Setup;
    }

    /** handleStartGame, from the setup reply on: the villain seat is drawn
        among all seats and the player seat among the others; everyone is
        alive; the log is the company background and the player's
        introduction; the first morning follows. */
    method CompleteSetup(reply: Option<Oracle.SetupReply>, villainPick: nat, offset: nat)
      requires Valid() && phase == Setup
      requires var n := |Oracle.SetupGame(reply).recruits|; n >= 2 && villainPick < n && offset < n - 1
      modifies this
      ensures Valid() && phase == DayIntro && day == 1 && selected.None? && asked == []
      ensures var setup := Oracle.SetupGame(reply);
        var playerSeat := Roster.PlayerIndex(villainPick, offset, |setup.recruits|);
        && characters == Roster.Assign(setup.recruits, villainPick, playerSeat)
        && Roster.AllAlive(characters)
        && characters[villainPick].role == Villain
        && characters[playerSeat].isPlayer && characters[playerSeat].role == Colleague
        && log == [System(Background(setup.background)),
                   System(PlayerIntro(setup.recruits[playerSeat].name, setup.recruits[playerSeat].title, Colleague))]
    {
      var setup := Oracle.SetupGame(reply);
      var n := |setup.recruits|;
      var playerSeat := Roster.PlayerIndex(villainPick, offset, n);
      Roster.SetupWellFormed(setup.recruits, villainPick, offset);
      characters := Roster.Assign(setup.recruits, villainPick, playerSeat);
      log := [System(Background(setup.background))];
      var player := characters[Roster.FindPlayer(characters).value];
      assert player == characters[playerSeat];
      log := log + [System(PlayerIntro(player.name, player.title, player.role))];
      phase := DayIntro;
    }

    /** The DAY_INTRO effect: the questions of the day are reset, the day
        and its incident are announced, each live character named in the
        dialogue map says their line, and the discussion opens. */
    method RunDayIntro(reply: Option<Oracle.DayIntroReply>)
      requires Valid() && phase == DayIntro
      requires reply.Some? ==> Oracle.LinesValid(reply.value.dialogues)
      modifies this
      ensures Valid() && phase == DayDiscussion && asked == []
      ensures characters == old(characters) && day == old(day) && selected == old(selected)
      ensures var intro := Oracle.DayIntro(old(characters), reply);
        log == old(log) + [System(DayHeader(day)), System(Incident(intro.incident))]
                        + Speeches(characters, intro.dialogues.keys, intro.dialogues.text)
    {
      var intro := Oracle.DayIntro(characters, reply);
      var speeches := SpeakLines(characters, intro.dialogues.keys, intro.dialogues.text);
      var newLog := log + [System(DayHeader(day)), System(Incident(intro.incident))] + speeches;
      DiscussionConsistent(characters, log, newLog, day, selected, asked);
      asked := [];
      log := newLog;
      phase := DayDiscussion;
    }

    /** handleCharacterSelect: while discussing or voting, a live
        non-player is selected; any other request changes nothing. */
    method SelectCharacter(name: string)
      requires Valid()
      modifies this
      ensures Valid()
      ensures if (phase == DayDiscussion || phase == Voting) && Roster.Selectable(characters, name)
        then selected == Some(name) else selected == old(selected)
      ensures phase == old(phase) && characters == old(characters) && log == old(log)
      ensures day == old(day) && asked == old(asked)
    {
      if phase == Voting || phase == DayDiscussion {
        if Roster.Selectable(characters, name) {
          selected := Some(name);
        }
      }
    }

    /** handleAskQuestion: with a selection (other than the empty name) not
        yet questioned today and a question that is not blank, the question and the answer are logged
        and the selection is marked as questioned; otherwise nothing
        changes. The selection is always found in the roster, since it is
        selectable. */
    method AskQuestion(question: string, answer: Option<string>)
      requires Valid() && phase == DayDiscussion
      modifies this
      ensures Valid()
      ensures phase == old(phase) && characters == old(characters) && day == old(day) && selected == old(selected)
      ensures !Chosen(old(selected)) || Text.Blank(question) || old(selected).value in old(asked) ==>
        log == old(log) && asked == old(asked)
      ensures Chosen(old(selected)) && !Text.Blank(question) && old(selected).value !in old(asked) ==>
        && log == old(log) + [System(Question(old(selected).value, question)),
                              Said(old(selected).value, Oracle.ReplyOr(answer, Oracle.QuestionFallback))]
        && asked == old(asked) + [old(selected).value]
    {
      Text.TrimEmptyIffBlank(question);
      if !Chosen(selected) || Text.Trim(question) == [] || selected.value in asked {
        return;
      }
      var target := selected.value;
      var newLog := log + [System(Question(target, question)), Said(target, Oracle.ReplyOr(answer, Oracle.QuestionFallback))];
      QuestionConsistent(characters, log, newLog, day, target, asked);
      log := newLog;
      asked := asked + [target];
    }

    /** The "start voting" button of the discussion panel. */
    method BeginVoting()
      requires Valid() && phase == DayDiscussion
      modifies this
      ensures Valid() && phase == Voting
      ensures characters == old(characters) && log == old(log) && day == old(day)
      ensures selected == old(selected) && asked == old(asked)
    {
      phase := Voting;
    }

    /** handleConfirmVote: without a selection, or with the empty name
        selected, nothing changes; otherwise the vote goes ahead. */
    method ConfirmVote(reply: Option<seq<Vote>>, picks: seq<nat>, finalWords: Option<string>)
      returns (votes: seq<Vote>, dismissed: Option<string>)
      requires Valid() && phase == Voting
      requires reply.None? && Chosen(selected) ==>
        Oracle.PicksFor(characters, selected.value, Oracle.Npcs(characters), picks)
      modifies this
      ensures Valid()
      ensures !Chosen(old(selected)) ==>
        && votes == [] && dismissed.None? && phase == old(phase) && characters == old(characters)
        && log == old(log) && selected == old(selected) && day == old(day) && asked == old(asked)
      ensures Chosen(old(selected)) ==>
        && VoteTaken(old(characters), old(log), old(selected).value, reply, picks, finalWords,
                     votes, dismissed, characters, log)
        && phase == VoteResult && selected.None? && day == old(day) && asked == old(asked)
    {
      if !Chosen(selected) {
        return [], None;
      }
      votes, dismissed := VoteOnSelection(reply, picks, finalWords);
    }

    /** The vote itself, once a character other than the empty name is
        selected. */
    method VoteOnSelection(reply: Option<seq<Vote>>, picks: seq<nat>, finalWords: Option<string>)
      returns (votes: seq<Vote>, dismissed: Option<string>)
      requires Valid() && phase == Voting && Chosen(selected)
      requires reply.None? ==> Oracle.PicksFor(characters, selected.value, Oracle.Npcs(characters), picks)
      modifies this
      ensures Valid()
      ensures VoteTaken(old(characters), old(log), old(selected).value, reply, picks, finalWords,
                        votes, dismissed, characters, log)
      ensures phase == VoteResult && selected.None? && day == old(day) && asked == old(asked)
    {
      var after, newLog;
      votes, dismissed, after, newLog := TakeVote(characters, log, selected.value, reply, picks, finalWords);
      VoteResultConsistent(characters, after, newLog, day, asked);
      log := newLog;
      characters := after;
      selected := None;
      phase := VoteResult;
    }

    /** checkEndCondition on the current roster: a verdict other than
        "continue" moves to its end screen and reports that the game is
        over. */
    method CheckEndCondition() returns (over: bool)
      modifies this
      ensures over <==> Roster.EndVerdict(characters) != Roster.Continue
      ensures phase == PhaseAfter(Roster.EndVerdict(characters), old(phase))
      ensures characters == old(characters) && log == old(log) && day == old(day)
      ensures selected == old(selected) && asked == old(asked)
    {
      var verdict := Roster.EndVerdict(characters);
      if verdict == Roster.Win {
        phase := EndWin;
        return true;
      }
      if verdict == Roster.Lose {
        phase := EndLose;
        return true;
      }
      return false;
    }

    /** The VOTE_RESULT effect: the end check, and night if the game goes on. */
    method AfterVoteResult()
      requires Valid() && phase == VoteResult
      modifies this
      ensures Valid()
      ensures phase == PhaseAfter(Roster.EndVerdict(characters), Night)
      ensures characters == old(characters) && log == old(log) && day == old(day)
      ensures selected == old(selected) && asked == old(asked)
    {
      StepKeepsRoster(characters, characters);
      var over := CheckEndCondition();
      if !over {
        phase := Night;
      }
    }

    /** The NIGHT effect: the night is announced, the victim of the night
        (if any) vanishes, and the end check runs on the roster after the
        night; if the game goes on, the next morning follows. */
    method RunNight(reply: Option<Oracle.NightReply>, pick: nat)
      requires Valid() && phase == Night && Oracle.NightPickFits(characters, pick)
      modifies this
      ensures Valid()
      ensures var outcome := Oracle.NightResult(old(characters), reply, pick);
        && characters == Roster.NightAfter(old(characters), outcome.eliminated)
        && log == old(log) + [System(NightFalls)] + NightNotes(outcome)
      ensures Roster.EndVerdict(characters) == Roster.NightVerdict(old(characters), Oracle.NightResult(old(characters), reply, pick).eliminated)
      ensures phase == PhaseAfter(Roster.EndVerdict(characters), DayIntro)
      ensures day == if phase == DayIntro then old(day) + 1 else old(day)
      ensures selected == old(selected) && asked == old(asked)
    {
      var outcome := Oracle.NightResult(characters, reply, pick);
      var after := Roster.NightAfter(characters, outcome.eliminated);
      var newLog := log + [System(NightFalls)] + NightNotes(outcome);
      MorningConsistent(characters, after, log, newLog, day, selected, asked);
      log := newLog;
      characters := after;
      var over := CheckEndCondition();
      if !over {
        day := day + 1;
        phase := DayIntro;
      }
    }

    /** resetGame, from the end screen: back to the welcome screen with
        nobody, an empty log and day one. */
    method Reset()
      requires Valid() && (phase == EndWin || phase == EndLose)
      modifies this
      ensures Valid()
      ensures phase == Welcome && characters == [] && log == [] && day == 1 && selected.None? && asked == []
    {
      phase := Welcome;
      characters := [];
      log := [];
      day := 1;
      selected := None;
      asked := [];
    }
  }

  /** Every ballot of a vote names a live character (the player's names
      the selectable selection, and the NPCs' come from the vote filter or
      the fallback), so whoever the vote dismisses is a live character. */
  lemma WinnerIsLiving(cs: seq<Character>, votee: string, votes: seq<Vote>, name: string)
    requires Roster.Selectable(cs, votee)
    requires |votes| > 0 && votes[0].votee == votee
    requires forall v :: v in votes[1..] ==> Roster.AliveNamed(cs, v.votee)
    requires Tally.StrictWinner(votes, name)
    ensures Roster.AliveNamed(cs, name)
  {
    Tally.OccurrencesPositive(votes, name);
    var i :| 0 <= i < |votes| && votes[i].votee == name;
    if i == 0 {
      var k := Roster.FindNamed(cs, votee).value;
      assert cs[k] in cs;
    } else {
      assert votes[i] == votes[1..][i - 1];
    }
  }

  /** Dismissals keep the session consistent at the vote result. */
  lemma VoteResultConsistent(before: seq<Character>, after: seq<Character>, log: seq<Dialogue>, day: nat, asked: seq<string>)
    requires Roster.WellFormed(before) && Roster.Descends(before, after)
    requires day >= 1 && NoDuplicates(asked)
    ensures Consistent(VoteResult, after, log, day, None, asked)
  {
    Roster.CastKeepsWellFormed(before, after);
  }

  /** The morning keeps the session consistent into the discussion. */
  lemma DiscussionConsistent(cs: seq<Character>, log: seq<Dialogue>, log': seq<Dialogue>, day: nat,
                             selected: Option<string>, asked: seq<string>)
    requires Consistent(DayIntro, cs, log, day, selected, asked)
    ensures Consistent(DayDiscussion, cs, log', day, selected, [])
  {
  }

  /** Questioning a selection not yet questioned keeps the session consistent. */
  lemma QuestionConsistent(cs: seq<Character>, log: seq<Dialogue>, log': seq<Dialogue>, day: nat,
                           target: string, asked: seq<string>)
    requires Consistent(DayDiscussion, cs, log, day, Some(target), asked) && target !in asked
    ensures Consistent(DayDiscussion, cs, log', day, Some(target), asked + [target])
  {
  }

  /** A night keeps the session consistent, whichever way the end check
      goes on the roster after it. */
  lemma MorningConsistent(before: seq<Character>, after: seq<Character>, log: seq<Dialogue>, log': seq<Dialogue>,
                          day: nat, selected: Option<string>, asked: seq<string>)
    requires Consistent(Night, before, log, day, selected, asked) && Roster.Descends(before, after)
    ensures var v := Roster.EndVerdict(after);
      Consistent(PhaseAfter(v, DayIntro), after, log', if v == Roster.Continue then day + 1 else day, selected, asked)
  {
    StepKeepsRoster(before, after);
  }
}
