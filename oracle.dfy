/** The deterministic logic around each call to the narrative oracle
    (services/geminiService.ts): what the game does with a reply, and what it
    substitutes when the call fails. A reply is a parameter; `None` stands
    for the `catch` path (the call or its JSON parse failed). Every
    `Math.floor(Math.random() * len)` is an index parameter below `len`. */
module Oracle {
  import opened Collections
  import opened GameTypes
  import Roster

  // ---------------------------------------------------------------------
  // setupGame
  // ---------------------------------------------------------------------

  datatype SetupReply = SetupReply(background: string, recruits: seq<Roster.Recruit>)

  const FallbackBackground: string :=
    "혁신적인 IT 솔루션을 제공하는 스타트업 '넥스트코드'의 사무실입니다. 최근 중요한 프로젝트 마감을 앞두고 팀원들 사이에 미묘한 긴장감이 흐르고 있습니다."

  const FallbackRecruits: seq<Roster.Recruit> := [
    Roster.Recruit("김민준", "프로젝트 매니저"),
    Roster.Recruit("이서연", "UX/UI 디자이너"),
    Roster.Recruit("박도현", "백엔드 개발자"),
    Roster.Recruit("최지우", "프론트엔드 개발자"),
    Roster.Recruit("정하윤", "QA 엔지니어"),
    Roster.Recruit("강태호", "데이터 분석가")
  ]

  /** The setup reply, or the built-in company of six with distinct names. */
  function SetupGame(reply: Option<SetupReply>): (r: SetupReply)
    ensures reply.None? ==> |r.recruits| == 6
    ensures reply.None? ==> forall i, j :: 0 <= i < j < |r.recruits| ==> r.recruits[i].name != r.recruits[j].name
  {
    match reply
    case Some(given) => given
    case None => SetupReply(FallbackBackground, FallbackRecruits)
  }

  // ---------------------------------------------------------------------
  // generateDayIntro
  // ---------------------------------------------------------------------

  /** A JavaScript object from names to lines: its keys in insertion order
      (the order `Object.entries` lists them) and its values. */
  datatype Lines = Lines(keys: seq<string>, text: map<string, string>)

  ghost predicate LinesValid(d: Lines) {
    NoDuplicates(d.keys) && forall k :: k in d.text <==> k in d.keys
  }

  /** `{...d, [key]: value}`: an existing key keeps its place and takes the
      new value; a new key goes last. */
  function Put(d: Lines, key: string, value: string): (r: Lines)
    requires LinesValid(d)
    ensures LinesValid(r)
    ensures r.text == d.text[key := value]
    ensures key in d.text ==> r.keys == d.keys
    ensures key !in d.text ==> r.keys == d.keys + [key]
  {
    if key in d.text then Lines(d.keys, d.text[key := value])
    else Lines(d.keys + [key], d.text[key := value])
  }

  datatype DayIntroReply = DayIntroReply(incident: string, dialogues: Lines)

  const FallbackIncident: string := "누군가 사무실 공용 냉장고에 있던 간식을 전부 먹어버렸습니다!"

  function FallbackLine(name: string): string {
    name + ": 아, 내 간식..."
  }

  /** `characters.filter(c => c.isAlive)`. */
  function AliveCharacters(cs: seq<Character>): (alive: seq<Character>)
    ensures forall c :: c in alive <==> c in cs && c.isAlive
    ensures IsSubsequence(alive, cs)
  {
    Filter(cs, (c: Character) => c.isAlive)
  }

  /** The fallback `reduce` over `characters`: one entry per name, keyed by
      the name, holding that speaker's fallback line. */
  function FallbackLinesOf(characters: seq<Character>): (d: Lines)
    ensures LinesValid(d)
    ensures forall k :: k in d.text <==> exists c :: c in characters && c.name == k
    ensures forall k :: k in d.text ==> d.text[k] == FallbackLine(k)
  {
    if characters == [] then Lines([], map[])
    else
      var prefix := characters[..|characters| - 1];
      var last := characters[|characters| - 1];
      assert characters == prefix + [last];
      Put(FallbackLinesOf(prefix), last.name, FallbackLine(last.name))
  }

  /** The fallback dialogue map has exactly one entry for each live
      character's name and no other key. */
  function FallbackDialogues(cs: seq<Character>): (d: Lines)
    ensures LinesValid(d)
    ensures forall k :: k in d.text <==> Roster.AliveNamed(cs, k)
    ensures forall k :: k in d.text ==> d.text[k] == FallbackLine(k)
  {
    FallbackLinesOf(AliveCharacters(cs))
  }

  /** generateDayIntro: the reply, or the fallback incident and lines. */
  function DayIntro(cs: seq<Character>, reply: Option<DayIntroReply>): DayIntroReply {
    match reply
    case Some(given) => given
    case None => DayIntroReply(FallbackIncident, FallbackDialogues(cs))
  }

  // ---------------------------------------------------------------------
  // getPlayerQuestionResponse, getVoteResult
  // ---------------------------------------------------------------------

  const QuestionFallback: string := "지금은 대답하기 곤란합니다."
  const FarewellFallback: string := "할 말이 없습니다..."

  function ReplyOr(reply: Option<string>, fallback: string): string {
    match reply
    case Some(text) => text
    case None => fallback
  }

  // ---------------------------------------------------------------------
  // getNightResult
  // ---------------------------------------------------------------------

  datatype NightReply = NightReply(eliminated: string, reason: string)

  /** What the night resolves to; an empty name means nobody is taken. */
  datatype NightOutcome = NightOutcome(eliminated: string, reason: string)

  const QuietReason: string := "아무 일도 일어나지 않았습니다."

  function TipReason(name: string): string {
    name + "의 성과가 저조하다는 익명의 투서가 발견되었습니다."
  }

  /** The villain's possible victims: live colleagues other than the player. */
  function NightTargets(cs: seq<Character>): (targets: seq<Character>)
    ensures forall c :: c in targets <==> c in cs && c.role == Colleague && c.isAlive && !c.isPlayer
    ensures IsSubsequence(targets, cs)
  {
    Filter(cs, (c: Character) => c.role == Colleague && c.isAlive && !c.isPlayer)
  }

  /** Some possible victim is called `name` (`colleagues.some(c => c.name === name)`). */
  predicate Eligible(cs: seq<Character>, name: string) {
    exists c :: c in NightTargets(cs) && c.name == name
  }

  predicate NightPickFits(cs: seq<Character>, pick: nat) {
    |NightTargets(cs)| > 0 ==> pick < |NightTargets(cs)|
  }

  /** getNightResult: nobody when the villain is dead or has no possible
      victim; otherwise the proposed victim if it is a possible victim, else
      the possible victim at the random index. */
  function NightResult(cs: seq<Character>, reply: Option<NightReply>, pick: nat): (o: NightOutcome)
    requires NightPickFits(cs, pick)
    ensures !Roster.Exists(cs, Roster.AliveVillain) || |NightTargets(cs)| == 0 ==> o == NightOutcome("", QuietReason)
    ensures Roster.Exists(cs, Roster.AliveVillain) && |NightTargets(cs)| > 0 ==> Eligible(cs, o.eliminated)
    ensures Roster.Exists(cs, Roster.AliveVillain) && reply.Some? && Eligible(cs, reply.value.eliminated)
            ==> o == NightOutcome(reply.value.eliminated, reply.value.reason)
    ensures Roster.Exists(cs, Roster.AliveVillain) && |NightTargets(cs)| > 0 &&
            !(reply.Some? && Eligible(cs, reply.value.eliminated))
            ==> o == NightOutcome(NightTargets(cs)[pick].name, TipReason(NightTargets(cs)[pick].name))
  {
    var targets := NightTargets(cs);
    Roster.CountPositive(cs, Roster.AliveVillain);
    if Roster.Count(cs, Roster.AliveVillain) == 0 || |targets| == 0 then
      NightOutcome("", QuietReason)
    else
      var fallback := NightOutcome(targets[pick].name, TipReason(targets[pick].name));
      assert targets[pick] in targets;
      match reply
      case Some(proposal) =>
        if Eligible(cs, proposal.eliminated)
        then NightOutcome(proposal.eliminated, proposal.reason)
        else fallback
      case None => fallback
  }

  /** With unique names, whoever the night takes is a live colleague and not
      the player: the villain and the player survive the night. */
  lemma NightSparesVillainAndPlayer(cs: seq<Character>, reply: Option<NightReply>, pick: nat)
    requires NightPickFits(cs, pick) && Roster.UniqueNames(cs)
    ensures var o := NightResult(cs, reply, pick);
      o.eliminated != "" ==>
        forall i :: 0 <= i < |cs| && cs[i].name == o.eliminated ==>
          cs[i].role == Colleague && cs[i].isAlive && !cs[i].isPlayer
  {
    var o := NightResult(cs, reply, pick);
    if o.eliminated != "" {
      var c :| c in cs && c.role == Colleague && c.isAlive && !c.isPlayer && c.name == o.eliminated;
      var j :| 0 <= j < |cs| && cs[j] == c;
      assert forall i :: 0 <= i < |cs| && cs[i].name == o.eliminated ==> i == j;
    }
  }

  // ---------------------------------------------------------------------
  // getNpcVotes: the filter on the oracle's votes
  // ---------------------------------------------------------------------

  /** `aliveCharacters.filter(c => !c.isPlayer)`, as one filter over the
      roster: the live non-players, in roster order. */
  function Npcs(cs: seq<Character>): (npcs: seq<Character>)
    ensures forall c :: c in npcs <==> c in cs && c.isAlive && !c.isPlayer
    ensures IsSubsequence(npcs, cs)
  {
    Filter(cs, (c: Character) => c.isAlive && !c.isPlayer)
  }
  /** Every live non-player appears as often as in the roster, nobody else. */
  lemma NpcsCounts(cs: seq<Character>)
    ensures forall c :: multiset(Npcs(cs))[c] == if c.isAlive && !c.isPlayer then multiset(cs)[c] else 0
  {
    FilterCounts(cs, (c: Character) => c.isAlive && !c.isPlayer);
  }


  predicate IsNpcName(cs: seq<Character>, name: string) {
    exists c :: c in cs && c.isAlive && !c.isPlayer && c.name == name
  }

  /** A proposed vote survives when its voter is a live non-player, its
      votee is alive, and nobody votes for themself. */
  predicate Acceptable(cs: seq<Character>, v: Vote) {
    && IsNpcName(cs, v.voter)
    && Roster.AliveNamed(cs, v.votee)
    && v.voter != v.votee
  }

  /** The vote filter: keeps exactly the acceptable proposals, in their
      order, and adds nothing in place of the ones it drops. */
  function AcceptedVotes(cs: seq<Character>, proposed: seq<Vote>): (kept: seq<Vote>)
    ensures forall v :: v in kept <==>
      v in proposed && IsNpcName(cs, v.voter) && Roster.AliveNamed(cs, v.votee) && v.voter != v.votee
    ensures IsSubsequence(kept, proposed)
  {
    if proposed == [] then []
    else
      var rest := AcceptedVotes(cs, proposed[1..]);
      if Acceptable(cs, proposed[0]) then [proposed[0]] + rest else rest
  }
  /** The filter keeps every copy of an acceptable vote and none of the rest. */
  lemma {:induction false} AcceptedVotesCounts(cs: seq<Character>, proposed: seq<Vote>)
    ensures forall v ::
              multiset(AcceptedVotes(cs, proposed))[v] == if Acceptable(cs, v) then multiset(proposed)[v] else 0
  {
    if proposed != [] {
      AcceptedVotesCounts(cs, proposed[1..]);
      assert proposed == [proposed[0]] + proposed[1..];
    }
  }


  // ---------------------------------------------------------------------
  // getNpcVotes: the fallback ballot
  // ---------------------------------------------------------------------

  const FallbackVoteReason: string := "왠지 의심스러워서요."

  /** `aliveCharacters.filter(c => c.name !== playerVote.votee)`, as one
      filter over the roster: the live characters other than the one the
      player voted for, in roster order. */
  function PotentialTargets(cs: seq<Character>, playerVotee: string): (pool: seq<Character>)
    ensures forall c :: c in pool <==> c in cs && c.isAlive && c.name != playerVotee
    ensures IsSubsequence(pool, cs)
  {
    Filter(cs, (c: Character) => c.isAlive && c.name != playerVotee)
  }
  /** Every potential target appears as often as in the roster, nobody else. */
  lemma PotentialTargetsCounts(cs: seq<Character>, playerVotee: string)
    ensures forall c :: multiset(PotentialTargets(cs, playerVotee))[c] ==
              if c.isAlive && c.name != playerVotee then multiset(cs)[c] else 0
  {
    FilterCounts(cs, (c: Character) => c.isAlive && c.name != playerVotee);
  }


  /** Some live colleague other than the player's votee and `npc` exists. */
  predicate ColleagueToBlame(cs: seq<Character>, playerVotee: string, npc: Character) {
    exists c :: c in cs && c.isAlive && c.role == Colleague && c.name != playerVotee && c.name != npc.name
  }

  /** Whom `npc` may vote for in the fallback: the villain picks among the
      colleagues left in the pool when there are any and else the whole
      pool; anyone else picks among the pool without themself. */
  function FallbackPool(cs: seq<Character>, playerVotee: string, npc: Character): (pool: seq<Character>)
    ensures forall c :: c in pool ==> c in cs && c.isAlive && c.name != playerVotee
    ensures IsSubsequence(pool, PotentialTargets(cs, playerVotee))
    ensures npc.role == Colleague ==>
      forall c :: c in pool <==> c in PotentialTargets(cs, playerVotee) && c.name != npc.name
    ensures npc.role == Villain && ColleagueToBlame(cs, playerVotee, npc) ==>
      forall c :: c in pool <==> c in PotentialTargets(cs, playerVotee) && c.role == Colleague && c.name != npc.name
    ensures npc.role == Villain && ColleagueToBlame(cs, playerVotee, npc) ==> |pool| > 0
    ensures npc.role == Villain && !ColleagueToBlame(cs, playerVotee, npc) ==> pool == PotentialTargets(cs, playerVotee)
  {
    var potential := PotentialTargets(cs, playerVotee);
    if npc.role == Villain then
      var colleagues := Filter(potential, (c: Character) => c.role == Colleague && c.name != npc.name);
      if |colleagues| > 0 then colleagues
      else
        SubsequenceOfSelf(potential);
        potential
    else
      Filter(potential, (c: Character) => c.name != npc.name)
  }

  predicate PickFits(cs: seq<Character>, playerVotee: string, npc: Character, pick: nat) {
    |FallbackPool(cs, playerVotee, npc)| > 0 ==> pick < |FallbackPool(cs, playerVotee, npc)|
  }

  /** One NPC's fallback vote: none when it has nobody to vote for. */
  function FallbackVote(cs: seq<Character>, playerVotee: string, npc: Character, pick: nat): (v: Option<Vote>)
    requires PickFits(cs, playerVotee, npc, pick)
    ensures v.None? <==> |FallbackPool(cs, playerVotee, npc)| == 0
    ensures v.Some? ==> v.value == Vote(npc.name, FallbackPool(cs, playerVotee, npc)[pick].name, FallbackVoteReason)
  {
    var pool := FallbackPool(cs, playerVotee, npc);
    if |pool| == 0 then None
    else Some(Vote(npc.name, pool[pick].name, FallbackVoteReason))
  }

  /** Whom a fallback vote names: a live character other than the player's
      votee; never oneself for a non-villain; and for the villain, a live
      colleague other than itself whenever there is one to blame. */
  lemma FallbackVoteTarget(cs: seq<Character>, playerVotee: string, npc: Character, pick: nat)
    requires PickFits(cs, playerVotee, npc, pick)
    ensures var v := FallbackVote(cs, playerVotee, npc, pick);
      v.Some? ==> Roster.AliveNamed(cs, v.value.votee) && v.value.votee != playerVotee
    ensures var v := FallbackVote(cs, playerVotee, npc, pick);
      v.Some? && npc.role == Colleague ==> v.value.votee != npc.name
    ensures var v := FallbackVote(cs, playerVotee, npc, pick);
      v.Some? && npc.role == Villain && ColleagueToBlame(cs, playerVotee, npc) ==>
        v.value.votee != npc.name && exists c :: c in cs && c.isAlive && c.role == Colleague && c.name == v.value.votee
  {
    var pool := FallbackPool(cs, playerVotee, npc);
    if |pool| > 0 {
      assert pool[pick] in pool;
    }
  }

  /** When an NPC casts a fallback vote: a colleague whenever some live
      character other than the player's votee and itself is left, and the
      villain whenever any live character other than the votee is left. */
  lemma FallbackVoteCast(cs: seq<Character>, playerVotee: string, npc: Character, pick: nat)
    requires PickFits(cs, playerVotee, npc, pick)
    ensures npc.role == Colleague ==>
      (FallbackVote(cs, playerVotee, npc, pick).Some? <==>
        exists c :: c in cs && c.isAlive && c.name != playerVotee && c.name != npc.name)
    ensures npc.role == Villain ==>
      (FallbackVote(cs, playerVotee, npc, pick).Some? <==> exists c :: c in cs && c.isAlive && c.name != playerVotee)
  {
    var pool := FallbackPool(cs, playerVotee, npc);
    if |pool| > 0 {
      assert pool[0] in pool;
    }
  }

  predicate PicksFor(cs: seq<Character>, playerVotee: string, npcs: seq<Character>, picks: seq<nat>) {
    |picks| == |npcs| && forall i :: 0 <= i < |npcs| ==> PickFits(cs, playerVotee, npcs[i], picks[i])
  }

  /** The fallback `forEach` as a fold: each NPC in turn adds its vote, if
      it has one. */
  function FallbackBallot(cs: seq<Character>, playerVotee: string, npcs: seq<Character>, picks: seq<nat>): seq<Vote>
    requires PicksFor(cs, playerVotee, npcs, picks)
  {
    if npcs == [] then []
    else
      var k := |npcs| - 1;
      FallbackBallot(cs, playerVotee, npcs[..k], picks[..k]) + AsSeq(FallbackVote(cs, playerVotee, npcs[k], picks[k]))
  }

  /** One more NPC extends the ballot by that NPC's vote, if any. */
  lemma BallotStep(cs: seq<Character>, playerVotee: string, npcs: seq<Character>, picks: seq<nat>, i: nat)
    requires PicksFor(cs, playerVotee, npcs, picks) && i < |npcs|
    ensures PicksFor(cs, playerVotee, npcs[..i], picks[..i])
    ensures FallbackBallot(cs, playerVotee, npcs[..i + 1], picks[..i + 1])
      == FallbackBallot(cs, playerVotee, npcs[..i], picks[..i]) + AsSeq(FallbackVote(cs, playerVotee, npcs[i], picks[i]))
  {
    assert npcs[..i + 1][..i] == npcs[..i] && picks[..i + 1][..i] == picks[..i];
  }

  /** getNpcVotes' fallback loop: one pass over the live NPCs in roster
      order, pushing each one's vote. */
  method FallbackVotes(cs: seq<Character>, playerVotee: string, picks: seq<nat>) returns (votes: seq<Vote>)
    requires PicksFor(cs, playerVotee, Npcs(cs), picks)
    ensures votes == FallbackBallot(cs, playerVotee, Npcs(cs), picks)
  {
    var npcs := Npcs(cs);
    votes := [];
    var i := 0;
    while i < |npcs|
      invariant i <= |npcs|
      invariant votes == FallbackBallot(cs, playerVotee, npcs[..i], picks[..i])
    {
      BallotStep(cs, playerVotee, npcs, picks, i);
      var vote := FallbackVote(cs, playerVotee, npcs[i], picks[i]);
      if vote.Some? {
        votes := votes + [vote.value];
      }
      i := i + 1;
    }
    assert npcs[..i] == npcs && picks[..i] == picks;
  }

  /** Every fallback vote is the vote of one of the NPCs. */
  lemma {:induction false} BallotCastBy(cs: seq<Character>, playerVotee: string, npcs: seq<Character>, picks: seq<nat>)
    requires PicksFor(cs, playerVotee, npcs, picks)
    ensures forall v :: v in FallbackBallot(cs, playerVotee, npcs, picks) ==>
      exists i :: 0 <= i < |npcs| && FallbackVote(cs, playerVotee, npcs[i], picks[i]) == Some(v)
  {
    if npcs != [] {
      var k := |npcs| - 1;
      BallotCastBy(cs, playerVotee, npcs[..k], picks[..k]);
      forall v | v in FallbackBallot(cs, playerVotee, npcs, picks)
        ensures exists i :: 0 <= i < |npcs| && FallbackVote(cs, playerVotee, npcs[i], picks[i]) == Some(v)
      {
        if v in FallbackBallot(cs, playerVotee, npcs[..k], picks[..k]) {
          var i :| 0 <= i < k && FallbackVote(cs, playerVotee, npcs[..k][i], picks[..k][i]) == Some(v);
          assert npcs[..k][i] == npcs[i] && picks[..k][i] == picks[i];
        } else {
          assert FallbackVote(cs, playerVotee, npcs[k], picks[k]) == Some(v);
        }
      }
    }
  }

  function Voters(votes: seq<Vote>): (names: seq<string>)
    ensures |names| == |votes|
  {
    seq(|votes|, i requires 0 <= i < |votes| => votes[i].voter)
  }

  function Names(cs: seq<Character>): (names: seq<string>)
    ensures |names| == |cs|
  {
    seq(|cs|, i requires 0 <= i < |cs| => cs[i].name)
  }

  /** The fallback voters follow the NPC order, each NPC at most once. */
  lemma {:induction false} BallotInNpcOrder(cs: seq<Character>, playerVotee: string, npcs: seq<Character>, picks: seq<nat>)
    requires PicksFor(cs, playerVotee, npcs, picks)
    ensures IsSubsequence(Voters(FallbackBallot(cs, playerVotee, npcs, picks)), Names(npcs))
  {
    if npcs != [] {
      var k := |npcs| - 1;
      BallotStep(cs, playerVotee, npcs, picks, k);
      assert npcs[..k + 1] == npcs && picks[..k + 1] == picks;
      var before := FallbackBallot(cs, playerVotee, npcs[..k], picks[..k]);
      var extra := AsSeq(FallbackVote(cs, playerVotee, npcs[k], picks[k]));
      BallotInNpcOrder(cs, playerVotee, npcs[..k], picks[..k]);
      NamesLast(npcs);
      VotersConcat(before, extra);
      VoterOfFallback(cs, playerVotee, npcs[k], picks[k]);
      SubsequenceAppendMaybe(Voters(before), Names(npcs[..k]), Voters(extra), npcs[k].name);
    }
  }

  /** A fallback vote, if any, is cast by the NPC it was drawn for. */
  lemma VoterOfFallback(cs: seq<Character>, playerVotee: string, npc: Character, pick: nat)
    requires PickFits(cs, playerVotee, npc, pick)
    ensures Voters(AsSeq(FallbackVote(cs, playerVotee, npc, pick))) == [] ||
      Voters(AsSeq(FallbackVote(cs, playerVotee, npc, pick))) == [npc.name]
  {
  }

  lemma VotersConcat(a: seq<Vote>, b: seq<Vote>)
    ensures Voters(a + b) == Voters(a) + Voters(b)
  {
  }

  lemma NamesLast(cs: seq<Character>)
    requires cs != []
    ensures Names(cs) == Names(cs[..|cs| - 1]) + [cs[|cs| - 1].name]
  {
  }

  /** Every fallback vote comes from a live NPC, names a live character and
      avoids the player's votee. */
  lemma FallbackBallotValid(cs: seq<Character>, playerVotee: string, picks: seq<nat>)
    requires PicksFor(cs, playerVotee, Npcs(cs), picks)
    ensures forall v :: v in FallbackBallot(cs, playerVotee, Npcs(cs), picks) ==>
      IsNpcName(cs, v.voter) && Roster.AliveNamed(cs, v.votee) && v.votee != playerVotee
  {
    var npcs := Npcs(cs);
    BallotCastBy(cs, playerVotee, npcs, picks);
    forall v | v in FallbackBallot(cs, playerVotee, npcs, picks)
      ensures IsNpcName(cs, v.voter) && Roster.AliveNamed(cs, v.votee) && v.votee != playerVotee
    {
      var i :| 0 <= i < |npcs| && FallbackVote(cs, playerVotee, npcs[i], picks[i]) == Some(v);
      assert npcs[i] in npcs;
      FallbackVoteTarget(cs, playerVotee, npcs[i], picks[i]);
    }
  }

  /** One NPC's fallback vote is never for itself while the player, a live
      colleague, is not the player's own votee: a non-villain leaves itself
      out, and the villain has at least the player to blame. */
  lemma FallbackVoteNotSelf(cs: seq<Character>, playerVotee: string, npc: Character, pick: nat, p: nat)
    requires PickFits(cs, playerVotee, npc, pick)
    requires Roster.UniqueNames(cs) && npc in cs && !npc.isPlayer
    requires p < |cs| && cs[p].isPlayer && cs[p].isAlive && cs[p].role == Colleague && cs[p].name != playerVotee
    ensures var v := FallbackVote(cs, playerVotee, npc, pick); v.Some? ==> v.value.voter != v.value.votee
  {
    FallbackVoteTarget(cs, playerVotee, npc, pick);
    if npc.role == Villain {
      var j :| 0 <= j < |cs| && cs[j] == npc;
      assert j != p;
      assert cs[p] in cs;
      assert ColleagueToBlame(cs, playerVotee, npc);
    }
  }

  /** While the player is alive and voted for someone else, no fallback
      vote is cast for oneself. */
  lemma FallbackNeverSelfVote(cs: seq<Character>, playerVotee: string, picks: seq<nat>)
    requires PicksFor(cs, playerVotee, Npcs(cs), picks)
    requires Roster.UniqueNames(cs)
    requires exists p :: 0 <= p < |cs| && cs[p].isPlayer && cs[p].isAlive && cs[p].role == Colleague && cs[p].name != playerVotee
    ensures forall v :: v in FallbackBallot(cs, playerVotee, Npcs(cs), picks) ==> v.voter != v.votee
  {
    var npcs := Npcs(cs);
    var p :| 0 <= p < |cs| && cs[p].isPlayer && cs[p].isAlive && cs[p].role == Colleague && cs[p].name != playerVotee;
    BallotCastBy(cs, playerVotee, npcs, picks);
    forall v | v in FallbackBallot(cs, playerVotee, npcs, picks)
      ensures v.voter != v.votee
    {
      var i :| 0 <= i < |npcs| && FallbackVote(cs, playerVotee, npcs[i], picks[i]) == Some(v);
      assert npcs[i] in npcs;
      FallbackVoteNotSelf(cs, playerVotee, npcs[i], picks[i], p);
    }
  }

  // ---------------------------------------------------------------------
  // getNpcVotes as a whole
  // ---------------------------------------------------------------------

  function NpcBallot(cs: seq<Character>, playerVotee: string, reply: Option<seq<Vote>>, picks: seq<nat>): seq<Vote>
    requires reply.None? ==> PicksFor(cs, playerVotee, Npcs(cs), picks)
  {
    match reply
    case Some(proposed) => AcceptedVotes(cs, proposed)
    case None => FallbackBallot(cs, playerVotee, Npcs(cs), picks)
  }

  /** getNpcVotes: the filtered reply, or the fallback ballot when the call
      fails. Either way every vote comes from a live NPC and names a live
      character. */
  method NpcVotes(cs: seq<Character>, playerVotee: string, reply: Option<seq<Vote>>, picks: seq<nat>)
    returns (votes: seq<Vote>)
    requires reply.None? ==> PicksFor(cs, playerVotee, Npcs(cs), picks)
    ensures votes == NpcBallot(cs, playerVotee, reply, picks)
    ensures forall v :: v in votes ==> IsNpcName(cs, v.voter) && Roster.AliveNamed(cs, v.votee)
  {
    match reply {
      case Some(proposed) =>
        votes := AcceptedVotes(cs, proposed);
      case None =>
        votes := FallbackVotes(cs, playerVotee, picks);
        FallbackBallotValid(cs, playerVotee, picks);
    }
  }
}
