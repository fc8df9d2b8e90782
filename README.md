# Office Villain: the game-rule engine in Dafny

"Office Villain" is a social-deduction game. A roster of office workers contains one
hidden villain and one player, and the player is a good colleague. Each day has four steps:

1. An incident is announced and every character speaks.
2. The player may question each character once.
3. Everyone votes, and a single top vote-getter is dismissed.
4. At night the villain removes a colleague.

After every elimination an end check decides between a win (the villain is gone), a loss
(the player is gone, or the villain faces a single colleague) and going on.

The project models two things:

- **The session state machine of `App.tsx`.** It is a `Session` class. Its fields are:
  - the phase;
  - the roster;
  - the append-only dialogue log;
  - the day;
  - the selection;
  - the characters questioned today.

  Its methods are the transitions: start, setup, day intro, selection, question, start of
  voting, vote, the end check, the vote-result step, the night and the reset. Every
  transition keeps the session invariant `Session.Consistent`. The end check
  `CheckEndCondition` is the one exception. It is a step inside `AfterVoteResult` and
  `RunNight` and promises only its verdict and the phase it moves to. The transition that
  calls it restores the invariant. The invariant says:
  - after setup there is exactly one villain and one player, and the player is a colleague;
  - a selection is only held while discussing or voting, and names a live non-player;
  - nobody is questioned twice a day;
  - while the office is at work, the villain and the player are alive;
  - the end screens show the verdict of the roster.

- **The deterministic logic around each call to the narrative oracle in
  `services/geminiService.ts`.** This covers:
  - the setup fallback;
  - the fallback dialogue map of the day intro;
  - the answer fallbacks;
  - the night victim: who is eligible, whether the proposal is accepted, and the random
    fallback;
  - the filter on the oracle's NPC votes;
  - the fallback vote loop.

An oracle reply is a parameter of type `Option`, where `None` is the `catch` path. Every
`Math.floor(Math.random() * len)` is an index parameter below `len`.

The pure parts are functions with lemmas:

- the role and seat assignment;
- the vote count (`reduce`);
- the end verdict;
- the elimination (`map`);
- the oracle validators and fallbacks.

The parts that update step by step are methods with loops:

- the top-target loop of the vote count;
- the fallback vote `forEach`;
- the `forEach` loops that append to the log;
- the session transitions.

The log records each system line as a `Note` tag carrying its data, instead of the Korean
sentence. What a character says is kept as text.

Files:
- `collections.dfy`: `Option`, `filter` and subsequences.
- `types.dfy`: the types of `types.ts`.
- `roster.dfy`: setup, counts, elimination, the end verdict and lookups.
- `tally.dfy`: the vote count.
- `text.dfy`: `String.prototype.trim`.
- `oracle.dfy`: the oracle validators and fallbacks.
- `session.dfy`: the state machine.

## Model

| member | source | states |
|---|---|---|
| Roster.PlayerIndex | App.tsx:43-44 | The player's seat is inside the roster. For two or more characters it is never the villain's seat. |
| Roster.PlayerIndexCoversOthers | App.tsx:43-44 | Every seat other than the villain's is reached by some offset draw below n-1. |
| Roster.PlayerIndexWraps | App.tsx:44 | The `%` wraps the seat around at most once: the seat is `v+1+r`, or `v+1+r-n` once that passes the end. |
| Roster.PlayerIndexInjective | App.tsx:44 | Distinct offset draws give distinct player seats. Together with the previous two lemmas, a uniform draw seats the player uniformly among the others. |
| Roster.Assign | App.tsx:46-52 | One character per recruit. `Roster.SetupWellFormed` gives the rest of its meaning: names and titles are the recruits', the villain and the player sit at the drawn seats, and everyone is alive. |
| Roster.SetupWellFormed | App.tsx:43-52 | After setup everyone is alive and there is exactly one villain, at the drawn seat. There is exactly one player, at the computed seat, and the player is a colleague. Every name and title is the recruit's. |
| Roster.SoloSetupCoincides | App.tsx:43-49 | For a roster of one, the offset draw is 0 and the only character is both villain and player. |
| Roster.CastKeepsWellFormed | App.tsx:144 | Changing nothing but `isAlive` keeps one villain, one player, and the player a colleague. |
| Roster.Eliminate | App.tsx:144 | Exactly the characters with the given name become dead. Names, titles, roles and the player flag are unchanged, and nobody comes back to life. |
| Roster.EliminateColleagueCount | App.tsx:215 | With unique names, eliminating a live colleague lowers the live-colleague count by exactly one. |
| Roster.EndVerdict | App.tsx:65-84 | The verdict of `checkEndCondition`. `Roster.EndVerdictCases` states when it is Win, Lose or Continue, and `Roster.WinIsFinal` that a win stays a win. |
| Roster.EndVerdictCases | App.tsx:65-84 | The verdict is Win exactly when no villain is alive, whatever holds for the player. It is Lose exactly when the villain is alive and either the player is dead or at most one colleague is alive. Otherwise it is Continue. |
| Roster.WinIsFinal | App.tsx:71-74 | Once no villain is alive, further deaths keep the verdict at Win. |
| Roster.FreshRosterContinues | App.tsx:46-84 | A freshly set-up roster of three or more gets the verdict Continue. |
| Roster.NightAfter | App.tsx:213-218 | An empty victim name leaves the roster as it was. Otherwise exactly the characters with that name die, and nobody comes back to life. |
| Roster.NightVerdictAsWritten | App.tsx:220 | The night's end check as written reads the roster from before the kill. A night that began undecided therefore always reports Continue. |
| Roster.NightVerdict | App.tsx:213-220 | The night's end check as intended: the verdict on the roster after the kill. `Roster.NightKillDecides` states when it is a loss, and `Roster.StaleNightCheckMissesLoss` shows where it differs from the check as written. |
| Roster.NightKillDecides | App.tsx:209-223 | Take a game that was going on, with unique names, and a night that kills a live non-player colleague. The verdict on the roster after the kill is Lose exactly when two live colleagues were left before, and Continue otherwise. |
| Roster.StaleNightCheckMissesLoss | App.tsx:213-220 | A concrete roster exists where the as-written check says Continue but the roster after the kill is a loss. |
| Roster.FindNamed | App.tsx:88 | `find` by name gives the index of the first character with that name, or none when no character has it. |
| Roster.Selectable | App.tsx:88-89 | The character that `find` by name returns exists, is alive and is not the player. `Session.Session.SelectCharacter` states its effect, and `Session.Consistent` keeps every held selection selectable. |
| Roster.FindPlayer | App.tsx:98 | `find` of the player gives the first index with `isPlayer`. It gives none exactly when no character is the player. |
| Tally.Tally | App.tsx:116-119 | The count has exactly the names some vote names, and each maps to the number of votes naming it (see "Left out" for names that `{}` inherits). |
| Tally.TopTargets | App.tsx:121-130 | Whatever order the keys are visited in: `maxVotes` is at least every count and, when positive, is attained. `eliminatedTargets` is exactly the set of names holding that maximum, each listed once. |
| Tally.Dismissal | App.tsx:133-134 | The dismissed name has strictly more votes than any other name. When none is dismissed, no name has strictly more votes than all others. |
| Tally.Decide | App.tsx:116-155 | Count, collect the top names, and dismiss only a name that stands alone at the top. The result is the strict winner when there is one, and nobody on a tie or an empty vote. |
| Tally.ClearMajority | App.tsx:133-136 | Two of three votes for one name make that name the strict winner. |
| Tally.HungVote | App.tsx:150-151 | One vote each for two names makes no strict winner. |
| Text.TrimStart | App.tsx:160 | Drops exactly the leading white space. What is left is a suffix that starts with a non-space. |
| Text.TrimEnd | App.tsx:160 | Drops exactly the trailing white space. What is left is a prefix that ends with a non-space. |
| Text.Trim | App.tsx:160 | `String.prototype.trim` as `TrimEnd` after `TrimStart`. `Text.TrimEmptyIffBlank` and `Text.TrimKeepsInside` state what the result means. |
| Text.TrimEmptyIffBlank | App.tsx:160 | `question.trim()` is empty exactly when the question is all white space, in the ECMAScript sense. |
| Text.TrimKeepsInside | App.tsx:160 | A non-empty trimmed string starts and ends with a non-space. |
| Oracle.SetupGame | services/geminiService.ts:47-61 | When the setup call fails, the fallback company has six recruits with distinct names. |
| Oracle.Put | services/geminiService.ts:98 | Object spread `{...acc, [k]: v}`: a known key keeps its place and takes the new value, and a new key goes after every key already there (true for names that are not array indices; see "Left out"). |
| Collections.FilterCounts | services/geminiService.ts:66 | `Array.prototype.filter` keeps every copy of an element it keeps and no copy of one it drops. |
| Oracle.AliveCharacters | services/geminiService.ts:66 | `filter(c => c.isAlive)` keeps exactly the live characters, in order. |
| Oracle.FallbackLinesOf | services/geminiService.ts:98 | The `reduce` has one key per name of the characters, no other key, and each value is that name's fallback line. |
| Oracle.FallbackDialogues | services/geminiService.ts:96-99 | The fallback dialogue map has exactly one entry per live character's name, each holding that name's fallback line. |
| Oracle.NightTargets | services/geminiService.ts:140 | The night's possible victims are exactly the live, non-player colleagues, in roster order. |
| Oracle.NightResult | services/geminiService.ts:138-178 | Nobody is taken when no villain is alive or there is no possible victim. Otherwise the victim is a possible victim. A proposal naming a possible victim is kept with its reason. Any other reply, and a failed call, takes the possible victim at the drawn index, with the tip-off reason that names that victim. |
| Oracle.NightSparesVillainAndPlayer | services/geminiService.ts:139-177 | With unique names, the night never takes the villain, the player or a dead character. |
| Oracle.Npcs | services/geminiService.ts:182-183 | The NPCs are exactly the live non-players, in roster order. |
| Oracle.NpcsCounts | services/geminiService.ts:182-183 | Each live non-player appears in the NPC list as often as in the roster, and nobody else appears. |
| Oracle.AcceptedVotes | services/geminiService.ts:221-225 | A vote is kept exactly when its voter is a live non-player, its votee is alive, and the two differ. The kept votes are a subsequence of the proposed ones, so nothing is added in place of dropped votes. |
| Oracle.AcceptedVotesCounts | services/geminiService.ts:221-225 | The filter keeps every copy of an acceptable vote and no copy of any other vote. |
| Oracle.PotentialTargets | services/geminiService.ts:231 | The potential targets are exactly the live characters other than the player's votee, in roster order. |
| Oracle.PotentialTargetsCounts | services/geminiService.ts:231 | Each potential target appears as often as in the roster, and nobody else appears, so the draws range over the source's array. |
| Oracle.FallbackPool | services/geminiService.ts:234-241 | An NPC's pool is a subsequence of the potential targets, so everyone in it is alive and is not the player's votee. A colleague's pool is exactly the potential targets other than itself. A villain with a colleague to blame has exactly the potential targets that are colleagues other than itself, and that pool is not empty. A villain with nobody to blame has the whole list of potential targets. |
| Oracle.FallbackVote | services/geminiService.ts:234-248 | An NPC casts no fallback vote exactly when its pool is empty. A vote it casts is its own, names the pool entry at the drawn index, and carries the fixed reason. |
| Oracle.FallbackVoteCast | services/geminiService.ts:234-248 | A colleague casts a fallback vote exactly when a live character other than the player's votee and itself is left. The villain casts one exactly when any live character other than the votee is left. |
| Oracle.FallbackVoteTarget | services/geminiService.ts:235-241 | A fallback vote names a live character other than the player's votee. A non-villain never votes for itself. The villain votes for a live colleague other than itself whenever one is left to blame. |
| Oracle.BallotStep | services/geminiService.ts:233-249 | One more NPC extends the fallback ballot by that NPC's vote, if it casts one. |
| Oracle.FallbackBallot | services/geminiService.ts:230-250 | The fallback ballot: each NPC's vote, if it casts one, in NPC order. `Oracle.BallotStep`, `Oracle.BallotCastBy`, `Oracle.BallotInNpcOrder` and `Oracle.FallbackBallotValid` state its meaning, and `Oracle.FallbackVotes` computes it. |
| Oracle.FallbackVotes | services/geminiService.ts:230-250 | The `forEach` loop builds exactly the fallback ballot of the live NPCs, in roster order. |
| Oracle.BallotCastBy | services/geminiService.ts:233-249 | Every fallback vote is the vote of one of the NPCs. |
| Oracle.VoterOfFallback | services/geminiService.ts:243-245 | An NPC's fallback contributes no voter or exactly that NPC. |
| Oracle.BallotInNpcOrder | services/geminiService.ts:233-249 | The fallback voters are a subsequence of the NPC names: at most one vote per NPC, in NPC order. |
| Oracle.FallbackBallotValid | services/geminiService.ts:230-250 | Every fallback vote comes from a live NPC, names a live character, and does not name the player's votee. |
| Oracle.FallbackVoteNotSelf | services/geminiService.ts:235-241 | Suppose names are unique and the player is a live colleague other than the votee. Then an NPC's fallback vote is never for itself, the villain's included. |
| Oracle.FallbackNeverSelfVote | services/geminiService.ts:230-250 | Under the same conditions, no fallback vote is cast for oneself. |
| Oracle.NpcVotes | services/geminiService.ts:181-251 | getNpcVotes returns the filtered reply or the fallback ballot. Either way every vote comes from a live NPC and names a live character. |
| Session.PlayerName | App.tsx:98-104 | On a roster with one player, the player's ballot is cast in the name of that player, whichever index holds them. With no player the name is empty. |
| Session.SpeechesFromLiving | App.tsx:189-193 | Every line spoken in the day intro is a key of the dialogue map that names a live character, with that key's text. |
| Session.SpeechesInclude | App.tsx:189-193 | Every key of the map that names a live character gets its line spoken. |
| Session.FallbackIntroEveryoneSpeaks | App.tsx:185-193 | When the day-intro call fails, every live character speaks its fallback line and nobody else speaks. |
| Session.SpeakLines | App.tsx:189-193 | The `forEach` over `Object.entries` appends exactly the speeches of the map's keys, in key order. |
| Session.LogVotes | App.tsx:110-114 | The `forEach` logs one line per ballot, in ballot order, with voter, votee and reason. |
| Session.StepKeepsRoster | App.tsx:144 | Deaths keep the roster invariant. A roster whose game goes on has a live villain and a live player. |
| Session.TakeVote | App.tsx:104-156 | All of the following hold: (1) the ballots are the player's followed by the NPCs'; (2) each is logged; (3) the strict winner, if any, is dismissed and is a live character; (4) the log gains the dismissal and last words, or the tie notice; (5) only the dismissed one dies. |
| Session.EndCheckRepeats | App.tsx:65-84 | A second end check on an unchanged roster leads to the same phase. |
| Session.StaleNightNeverEnds | App.tsx:213-220 | From any consistent night, the end check as written leads to the next morning, whoever the night takes: the game never ends at night. |
| Session.WinnerIsLiving | App.tsx:133-141 | Every ballot names a live character, so whoever the vote dismisses is alive. |
| Session.VoteResultConsistent | App.tsx:143-154 | Dismissing (or not) keeps the session invariant at VOTE_RESULT, with the selection cleared. |
| Session.DiscussionConsistent | App.tsx:177-196 | The morning keeps the invariant into the discussion, with the questioned list emptied. |
| Session.QuestionConsistent | App.tsx:159-175 | Questioning a selection not yet questioned keeps the invariant, and the questioned list keeps no duplicates. |
| Session.MorningConsistent | App.tsx:209-224 | After the night, whichever way the end check goes, the invariant holds in the next phase and on the next day. |
| Session.Session.constructor | App.tsx:12-20 | The initial state: welcome screen, nobody, empty log, day 1, no selection, nobody questioned. |
| Session.Session.StartGame | App.tsx:37-40 | Starting the game moves to the setup screen and changes nothing else. |
| Session.Session.CompleteSetup | App.tsx:41-62 | The setup reply, or the fallback, is assigned with the drawn villain seat and the computed player seat. Everyone is alive, the villain and the player are where drawn, and the log is the background followed by the player's introduction. The first morning follows. |
| Session.Session.RunDayIntro | App.tsx:177-197 | The questioned list is emptied. The log gains the day header, the incident and each live named character's line. The discussion opens, and nothing else changes. |
| Session.Session.SelectCharacter | App.tsx:86-93 | A name is selected only while discussing or voting, and only when the character found by that name is alive and not the player. Otherwise nothing changes. |
| Session.Session.AskQuestion | App.tsx:159-175 | Nothing changes without a selection (the empty name counts as none, since `""` is falsy), for a blank question, or for a selection already questioned today. Otherwise the log gains the question and the answer (or its fallback), and the selection joins the questioned list. |
| Session.Session.BeginVoting | App.tsx:286 | The "start voting" button moves the discussion to voting and changes nothing else. |
| Session.Session.ConfirmVote | App.tsx:95-157 | Without a selection, or with the empty name selected, nothing changes. Otherwise the vote is taken as TakeVote states, the selection is cleared and the phase is VOTE_RESULT. |
| Session.Session.VoteOnSelection | App.tsx:101-156 | With a non-empty selection: the vote as TakeVote states, then VOTE_RESULT with the selection cleared. |
| Session.Session.CheckEndCondition | App.tsx:65-84 | Reports "over" exactly when the verdict is not Continue, and moves to the verdict's end screen. It changes nothing else. |
| Session.Session.AfterVoteResult | App.tsx:199-204 | After a vote result the end check runs on the current roster, and the night follows if the game goes on. |
| Session.Session.RunNight | App.tsx:205-227 | The night is logged. The victim of getNightResult, if any, dies, and nothing else in the roster changes. The end check runs on the roster after the kill. If the game goes on, the day advances and the next morning follows. |
| Session.Session.Reset | App.tsx:26-35 | From an end screen, the game returns to the initial state. |

## Left out

- The oracle calls, their prompts, JSON schemas and `JSON.parse` are not modelled. Their results are `Option` parameters, and `None` is the failure path.
- The `API_KEY` check at start-up is not modelled.
- `Math.random` is not modelled. Every draw is an index parameter below the length it scales, as in `getNightResult`, the fallback votes and setup.
- The `setTimeout` delays and the `async`/`await` sequencing are not modelled. Each timed step is one atomic transition, and the React effects on DAY_INTRO, VOTE_RESULT and NIGHT are the methods `RunDayIntro`, `AfterVoteResult` and `RunNight`.
- The loading flag and its message, the avatar URL, and the `question` input field are not modelled. The question is a parameter of `AskQuestion`, so the field's reset after an ask is not modelled either.
- The rendering and the `components/` files are not modelled.
- The Korean log sentences become `Note` tags that carry their data. Recording the reason in a vote line only when it is present is not modelled: an empty reason stands for "none".
- The recent-dialogue slice that `getNpcVotes` puts into its prompt is not modelled. It only feeds the oracle.
- Session.Session.CompleteSetup: it requires at least two recruits. With one recruit the source makes that character both villain and player, and `Roster.SoloSetupCoincides` shows this on the pure functions. With none, `villainIndex` is 0 and `playerIndex` is `0 % 0`, which is `NaN`. The roster is then empty and has no player, yet the source still goes on to DAY_INTRO.
- Session.Session.RunDayIntro: it requires phase DAY_INTRO. The source runs it from the effect on that phase.
- Session.Session.RunDayIntro: it requires the reply's dialogue map to be a valid JavaScript object: each key listed once, with a line for each key. `JSON.parse` always gives such an object, so this excludes only values the source cannot receive.
- Session.Session.AskQuestion: it requires phase DAY_DISCUSSION. The handler has no phase test, but its button is rendered only in that phase (App.tsx:269-288).
- Session.Session.BeginVoting: it requires phase DAY_DISCUSSION. Its button is rendered only in that phase.
- Session.Session.ConfirmVote: it requires phase VOTING. Its button is rendered only in that phase (App.tsx:290-296).
- Session.Session.AfterVoteResult: it requires phase VOTE_RESULT. The source runs it from the effect on that phase.
- Session.Session.RunNight: it requires phase NIGHT. The source runs it from the effect on that phase.
- Session.Session.RunNight: it judges the roster after the kill, not the stale roster the source reads at App.tsx:220. See "Findings".
- Tally.Tally: it treats the count as a plain map. In the source the count starts as `{}`, so a votee named like a member of `Object.prototype` goes wrong. For `constructor` or `toString`, the inherited function is truthy and `+ 1` turns the count into a string, which never passes `>` or `===`. For `__proto__`, no key is created at all. Such a name is never a top target, and the rest are counted as modelled. For example, with votes A→constructor, B→constructor and C→X, the source dismisses X, while the model dismisses `constructor`.
- Oracle.Put: it places every new key after the existing ones. JavaScript lists array-index keys ("0", "42") first, in ascending numeric order. For characters whose names are array indices, the key order of the fallback dialogue map, and with it the order of the day-intro speeches, differs from the model.
- Oracle.NightSparesVillainAndPlayer: it assumes unique names. The source reaches characters only by name, so two characters sharing a name die together; the rest of the model does not assume unique names.
- Oracle.FallbackVoteNotSelf: it assumes unique names. The source reaches characters only by name, so two characters sharing a name die together; the rest of the model does not assume unique names.
- Oracle.FallbackNeverSelfVote: it assumes unique names. The source reaches characters only by name, so two characters sharing a name die together; the rest of the model does not assume unique names.
- Roster.EliminateColleagueCount: it assumes unique names. The source reaches characters only by name, so two characters sharing a name die together; the rest of the model does not assume unique names.
- Roster.NightKillDecides: it assumes unique names. The source reaches characters only by name, so two characters sharing a name die together; the rest of the model does not assume unique names.
- Oracle.DayIntro and Oracle.ReplyOr are plain selections between the reply and the fallback. They have no row of their own: `Session.FallbackIntroEveryoneSpeaks` and `Session.Session.AskQuestion` state their effect.

## Findings

| source | as written | input that shows it | evidently intended | confidence | as-written member | corrected member |
|---|---|---|---|---|---|---|
| App.tsx:220 | The night's end check is the `checkEndCondition` closure captured when the NIGHT effect began, so it reads the roster from before the kill at line 215. A night never ends the game. | The villain V, the player P and one other colleague C are alive, and the night takes C. The old roster has two live colleagues, so the game goes on to the next morning, although the villain now faces the player alone. | The end check judges the roster after the kill, which is END_LOSE here. | high; not executed | Roster.NightVerdictAsWritten, Roster.StaleNightCheckMissesLoss, Session.StaleNightNeverEnds | Roster.NightVerdict, Roster.NightKillDecides, Session.Session.RunNight |
