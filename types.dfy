/** The game's vocabulary (types.ts). */
module GameTypes {

  /** The two roles. The source stores them as the strings 'Office Villain'
      and 'Good Colleague' and compares those strings; here they are
      constructors, so every comparison is exact. */
  datatype Role = Villain | Colleague

  datatype GamePhase =
    | Welcome
    | Setup
    | DayIntro
    | DayDiscussion
    | Voting
    | VoteResult
    | Night
    | EndWin
    | EndLose

  /** One member of the roster. The avatar URL has no effect on the rules
      and is not modelled. */
  datatype Character = Character(
    name: string,
    title: string,
    role: Role,
    isPlayer: bool,
    isAlive: bool)

  /** A ballot: who votes for whom, with the free-text reason ("" when none). */
  datatype Vote = Vote(voter: string, votee: string, reason: string)

  /** What a system line of the dialogue log announces. The source writes
      these as Korean sentences; the model keeps only what each one says. */
  datatype Note =
    | Background(text: string)
    | PlayerIntro(name: string, title: string, role: Role)
    | DayHeader(day: nat)
    | Incident(text: string)
    | Question(target: string, question: string)
    | VoteHeader
    | VoteLine(voter: string, votee: string, reason: string)
    | Dismissed(name: string)
    | HungVote
    | NightFalls
    | Vanished(name: string, reason: string)
    | QuietNight

  /** An entry of the dialogue log: spoken by the system or by a character. */
  datatype Dialogue = System(note: Note) | Said(speaker: string, text: string)
}
