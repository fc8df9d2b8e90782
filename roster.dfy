/** The rules App.tsx applies to the roster as a whole: the role and player
    assignment of setup, the end-of-game verdict, the elimination update and
    the lookups by name. */
module Roster {
  import opened Collections
  import opened GameTypes

  /** A character as the setup oracle returns it: a name and a title. */
  datatype Recruit = Recruit(name: string, title: string)

  // ---------------------------------------------------------------------
  // Counting
  // ---------------------------------------------------------------------

  /** The properties of a character that the rules count. */
  datatype Trait = VillainRole | PlayerFlag | AliveVillain | AlivePlayer | AliveColleague

  predicate Has(c: Character, t: Trait) {
    match t
    case VillainRole => c.role == Villain
    case PlayerFlag => c.isPlayer
    case AliveVillain => c.isAlive && c.role == Villain
    case AlivePlayer => c.isAlive && c.isPlayer
    case AliveColleague => c.isAlive && c.role == Colleague
  }

  /** How many characters of `cs` have trait `t` (`filter(...).length`). */
  function Count(cs: seq<Character>, t: Trait): nat {
    if cs == [] then 0 else (if Has(cs[0], t) then 1 else 0) + Count(cs[1..], t)
  }

  /** Some character of `cs` has trait `t` (`find(...)` is not undefined). */
  predicate Exists(cs: seq<Character>, t: Trait) {
    exists i :: 0 <= i < |cs| && Has(cs[i], t)
  }

  lemma {:induction false} CountPositive(cs: seq<Character>, t: Trait)
    ensures Count(cs, t) > 0 <==> Exists(cs, t)
  {
    if cs != [] {
      CountPositive(cs[1..], t);
      if Exists(cs[1..], t) {
        var i :| 0 <= i < |cs[1..]| && Has(cs[1..][i], t);
        assert Has(cs[i + 1], t);
      }
      if Exists(cs, t) && !Has(cs[0], t) {
        var i :| 0 <= i < |cs| && Has(cs[i], t);
        assert Has(cs[1..][i - 1], t);
      }
    }
  }

  /** A trait held at exactly one index is counted once. */
  lemma {:induction false} CountSingle(cs: seq<Character>, t: Trait, k: nat)
    requires k < |cs|
    requires forall i :: 0 <= i < |cs| ==> (Has(cs[i], t) <==> i == k)
    ensures Count(cs, t) == 1
  {
    if k == 0 {
      CountPositive(cs[1..], t);
      assert !Exists(cs[1..], t) by {
        forall i | 0 <= i < |cs[1..]| ensures !Has(cs[1..][i], t) {
          assert cs[1..][i] == cs[i + 1];
        }
      }
    } else {
      CountSingle(cs[1..], t, k - 1);
    }
  }

  /** Two characters with the trait make a count of at least two. */
  lemma {:induction false} CountAtLeastTwo(cs: seq<Character>, t: Trait, i: nat, j: nat)
    requires i < j < |cs| && Has(cs[i], t) && Has(cs[j], t)
    ensures Count(cs, t) >= 2
  {
    if i == 0 {
      CountPositive(cs[1..], t);
      assert Has(cs[1..][j - 1], t);
    } else {
      CountAtLeastTwo(cs[1..], t, i - 1, j - 1);
    }
  }

  /** Rosters that agree index by index on a trait count it alike. */
  lemma {:induction false} CountAgree(a: seq<Character>, b: seq<Character>, t: Trait)
    requires |a| == |b|
    requires forall i :: 0 <= i < |a| ==> (Has(a[i], t) <==> Has(b[i], t))
    ensures Count(a, t) == Count(b, t)
  {
    if a != [] {
      CountAgree(a[1..], b[1..], t);
    }
  }

  /** Losing the trait at one index, and nowhere else, lowers the count by one. */
  lemma {:induction false} CountDropOne(a: seq<Character>, b: seq<Character>, t: Trait, k: nat)
    requires |a| == |b| && k < |a|
    requires Has(a[k], t) && !Has(b[k], t)
    requires forall i :: 0 <= i < |a| && i != k ==> (Has(a[i], t) <==> Has(b[i], t))
    ensures Count(b, t) == Count(a, t) - 1
  {
    if k == 0 {
      CountAgree(a[1..], b[1..], t);
    } else {
      CountDropOne(a[1..], b[1..], t, k - 1);
    }
  }

  // ---------------------------------------------------------------------
  // Setup (App.tsx, handleStartGame)
  // ---------------------------------------------------------------------

  /** The player's seat: `(villain + 1 + offset) % n`, where `offset` is the
      second random draw, `floor(random * (n - 1))`. For a roster of one the
      draw is 0 and the player is the villain. */
  function PlayerIndex(villain: nat, offset: nat, n: nat): (player: nat)
    requires villain < n
    requires if n == 1 then offset == 0 else offset < n - 1
    ensures player < n
    ensures n >= 2 ==> player != villain
  {
    var s := villain + 1 + offset;
    WrapOnce(s, n);
    s % n
  }

  /** A seat number below twice the roster size wraps around at most once. */
  lemma WrapOnce(s: nat, n: nat)
    requires 0 < n && s < 2 * n
    ensures s % n == if s < n then s else s - n
  {
    if s >= n {
      assert (s - n) % n == s - n;
      assert (s - n) % n == (s - n + n) % n;
    }
  }

  /** Every seat other than the villain's is the player's seat for exactly
      one value of the offset draw, so a uniform draw seats the player
      uniformly among the others. */
  lemma PlayerIndexCoversOthers(villain: nat, n: nat, seat: nat)
    requires villain < n && seat < n && seat != villain
    ensures exists offset: nat :: offset < n - 1 && PlayerIndex(villain, offset, n) == seat
  {
    var offset := if seat > villain then seat - villain - 1 else seat + n - villain - 1;
    WrapOnce(villain + 1 + offset, n);
    assert PlayerIndex(villain, offset, n) == seat;
  }

  /** The seat without the `%`: one wrap-around at most. */
  lemma PlayerIndexWraps(villain: nat, offset: nat, n: nat)
    requires villain < n && offset < n - 1
    ensures var s := villain + 1 + offset;
      PlayerIndex(villain, offset, n) == if s < n then s else s - n
  {
    WrapOnce(villain + 1 + offset, n);
  }

  lemma PlayerIndexInjective(villain: nat, n: nat, o1: nat, o2: nat)
    requires villain < n && o1 < n - 1 && o2 < n - 1 && o1 != o2
    ensures PlayerIndex(villain, o1, n) != PlayerIndex(villain, o2, n)
  {
    PlayerIndexWraps(villain, o1, n);
    PlayerIndexWraps(villain, o2, n);
  }

  /** The setup `map`: every recruit becomes a live character; the one at
      `villain` is the villain, the one at `player` is the player. */
  function Assign(recruits: seq<Recruit>, villain: nat, player: nat): (roster: seq<Character>)
    ensures |roster| == |recruits|
  {
    seq(|recruits|, i requires 0 <= i < |recruits| =>
      Character(recruits[i].name, recruits[i].title,
                if i == villain then Villain else Colleague, i == player, true))
  }

  /** The roster invariant: at least two characters, exactly one villain,
      exactly one player, and the player is a colleague. Deaths never break
      it, since they change only `isAlive`. */
  predicate WellFormed(cs: seq<Character>) {
    && |cs| >= 2
    && Count(cs, VillainRole) == 1
    && Count(cs, PlayerFlag) == 1
    && forall i :: 0 <= i < |cs| && cs[i].isPlayer ==> cs[i].role == Colleague
  }

  predicate AllAlive(cs: seq<Character>) {
    forall i :: 0 <= i < |cs| ==> cs[i].isAlive
  }

  /** After setup with distinct villain and player seats, the roster keeps
      every recruit's name and title, everyone is alive, there is exactly one
      villain and one player, and the player is a colleague. */
  lemma SetupWellFormed(recruits: seq<Recruit>, villain: nat, offset: nat)
    requires |recruits| >= 2 && villain < |recruits| && offset < |recruits| - 1
    ensures var roster := Assign(recruits, villain, PlayerIndex(villain, offset, |recruits|));
      && WellFormed(roster)
      && AllAlive(roster)
      && roster[villain].role == Villain
      && roster[PlayerIndex(villain, offset, |recruits|)].isPlayer
      && forall i :: 0 <= i < |roster| ==> roster[i].name == recruits[i].name && roster[i].title == recruits[i].title
  {
    var player := PlayerIndex(villain, offset, |recruits|);
    var roster := Assign(recruits, villain, player);
    CountSingle(roster, VillainRole, villain);
    CountSingle(roster, PlayerFlag, player);
  }

  /** With a roster of one, the single character is both villain and player. */
  lemma SoloSetupCoincides(recruit: Recruit)
    ensures var roster := Assign([recruit], 0, PlayerIndex(0, 0, 1));
      roster[0].role == Villain && roster[0].isPlayer
  {
  }

  // ---------------------------------------------------------------------
  // Eliminations
  // ---------------------------------------------------------------------

  /** `b` is `a` with nothing but `isAlive` possibly changed. */
  predicate SameCast(a: seq<Character>, b: seq<Character>) {
    && |a| == |b|
    && forall i :: 0 <= i < |a| ==>
         b[i].name == a[i].name && b[i].title == a[i].title &&
         b[i].role == a[i].role && b[i].isPlayer == a[i].isPlayer
  }

  /** `b` follows `a`: the same cast, and nobody dead in `a` lives in `b`. */
  predicate Descends(a: seq<Character>, b: seq<Character>) {
    SameCast(a, b) && forall i :: 0 <= i < |a| ==> b[i].isAlive ==> a[i].isAlive
  }

  /** The roster invariant survives any change that keeps the cast. */
  lemma CastKeepsWellFormed(a: seq<Character>, b: seq<Character>)
    requires WellFormed(a) && SameCast(a, b)
    ensures WellFormed(b)
  {
    CountAgree(a, b, VillainRole);
    CountAgree(a, b, PlayerFlag);
  }

  /** `chars.map(c => c.name === name ? {...c, isAlive: false} : c)`:
      the characters called `name` die, and nothing else changes. */
  function Eliminate(cs: seq<Character>, name: string): (after: seq<Character>)
    ensures Descends(cs, after)
    ensures forall i :: 0 <= i < |cs| ==> (after[i].isAlive <==> cs[i].isAlive && cs[i].name != name)
  {
    seq(|cs|, i requires 0 <= i < |cs| =>
      if cs[i].name == name then cs[i].(isAlive := false) else cs[i])
  }

  predicate UniqueNames(cs: seq<Character>) {
    forall i, j :: 0 <= i < j < |cs| ==> cs[i].name != cs[j].name
  }

  /** With unique names, eliminating a live colleague by name leaves exactly
      one live colleague fewer. */
  lemma EliminateColleagueCount(cs: seq<Character>, k: nat)
    requires UniqueNames(cs) && k < |cs| && Has(cs[k], AliveColleague)
    ensures Count(Eliminate(cs, cs[k].name), AliveColleague) == Count(cs, AliveColleague) - 1
  {
    CountDropOne(cs, Eliminate(cs, cs[k].name), AliveColleague, k);
  }

  // ---------------------------------------------------------------------
  // End condition (App.tsx, checkEndCondition)
  // ---------------------------------------------------------------------

  datatype Verdict = Win | Lose | Continue

  /** checkEndCondition's three tests, in order, on the counts of the
      live characters. */
  function EndVerdict(cs: seq<Character>): Verdict {
    if Count(cs, AliveVillain) == 0 then Win
    else if Count(cs, AlivePlayer) == 0 then Lose
    else if Count(cs, AliveColleague) <= 1 then Lose
    else Continue
  }

  /** What the verdict means: no live villain is a win (whatever else
      holds); otherwise a dead player, or at most one live colleague, is a
      loss; otherwise the game goes on. */
  lemma EndVerdictCases(cs: seq<Character>)
    ensures EndVerdict(cs) == Win <==> !Exists(cs, AliveVillain)
    ensures EndVerdict(cs) == Lose <==> Exists(cs, AliveVillain) && (!Exists(cs, AlivePlayer) || Count(cs, AliveColleague) <= 1)
    ensures EndVerdict(cs) == Continue <==> Exists(cs, AliveVillain) && Exists(cs, AlivePlayer) && Count(cs, AliveColleague) >= 2
  {
    CountPositive(cs, AliveVillain);
    CountPositive(cs, AlivePlayer);
  }

  /** Once the villain is gone, further deaths cannot turn the win around. */
  lemma WinIsFinal(a: seq<Character>, b: seq<Character>)
    requires Descends(a, b) && EndVerdict(a) == Win
    ensures EndVerdict(b) == Win
  {
    EndVerdictCases(a);
    EndVerdictCases(b);
  }

  /** A freshly set-up roster of three or more plays on: the villain and
      the player are alive and so are at least two colleagues. */
  lemma FreshRosterContinues(recruits: seq<Recruit>, villain: nat, offset: nat)
    requires |recruits| >= 3 && villain < |recruits| && offset < |recruits| - 1
    ensures EndVerdict(Assign(recruits, villain, PlayerIndex(villain, offset, |recruits|))) == Continue
  {
    var player := PlayerIndex(villain, offset, |recruits|);
    var roster := Assign(recruits, villain, player);
    EndVerdictCases(roster);
    assert Has(roster[villain], AliveVillain);
    assert Has(roster[player], AlivePlayer);
    var i, j := if villain == 0 then 1 else 0, if villain == 2 then 1 else 2;
    CountAtLeastTwo(roster, AliveColleague, i, j);
  }

  // ---------------------------------------------------------------------
  // The end check after a night (App.tsx, runNight)
  // ---------------------------------------------------------------------

  /** The roster after the night: the named victim is eliminated, and an
      empty name leaves everyone as they were. */
  function NightAfter(before: seq<Character>, victim: string): (after: seq<Character>)
    ensures Descends(before, after)
    ensures victim == "" ==> after == before
    ensures forall i :: 0 <= i < |before| ==> (after[i].isAlive <==> before[i].isAlive && (victim == "" || before[i].name != victim))
  {
    if victim == "" then before else Eliminate(before, victim)
  }

  /** The night's end check as written: `runNight` calls the
      `checkEndCondition` captured when the night began, which reads the
      roster from before the kill. A night that began with the game going
      on can therefore never end it. */
  function NightVerdictAsWritten(before: seq<Character>, victim: string): (v: Verdict)
    ensures EndVerdict(before) == Continue ==> v == Continue
  {
    EndVerdict(before)
  }

  /** The night's end check as intended: the verdict on the roster after
      the kill. */
  function NightVerdict(before: seq<Character>, victim: string): Verdict {
    EndVerdict(NightAfter(before, victim))
  }

  /** With unique names, a night that takes a live colleague other than the
      player, from a game that was going on, ends in a loss exactly when it
      leaves the villain facing a single colleague, and otherwise goes on. */
  lemma NightKillDecides(before: seq<Character>, k: nat)
    requires UniqueNames(before) && EndVerdict(before) == Continue
    requires k < |before| && Has(before[k], AliveColleague) && !before[k].isPlayer
    ensures before[k].name != "" ==>
      NightVerdict(before, before[k].name) == (if Count(before, AliveColleague) == 2 then Lose else Continue)
  {
    var victim := before[k].name;
    if victim != "" {
      var after := NightAfter(before, victim);
      EndVerdictCases(before);
      EndVerdictCases(after);
      EliminateColleagueCount(before, k);
      var v :| 0 <= v < |before| && Has(before[v], AliveVillain);
      var p :| 0 <= p < |before| && Has(before[p], AlivePlayer);
      assert v != k && p != k;
      assert Has(after[v], AliveVillain);
      assert Has(after[p], AlivePlayer);
    }
  }

  /** The night's end check as written misses a loss: villain, player and
      one other colleague are alive, the night takes the colleague, and the
      villain now faces the player alone, yet the stale check lets the game
      go on. */
  lemma StaleNightCheckMissesLoss()
    ensures var before := [
        Character("V", "", Villain, false, true),
        Character("P", "", Colleague, true, true),
        Character("C", "", Colleague, false, true),
        Character("D", "", Colleague, false, false)];
      NightVerdictAsWritten(before, "C") == Continue && NightVerdict(before, "C") == Lose
  {
    var before := [
        Character("V", "", Villain, false, true),
        Character("P", "", Colleague, true, true),
        Character("C", "", Colleague, false, true),
        Character("D", "", Colleague, false, false)];
    assert Has(before[0], AliveVillain) && Has(before[1], AlivePlayer);
    CountAtLeastTwo(before, AliveColleague, 1, 2);
    assert UniqueNames(before);
    NightKillDecides(before, 2);
    assert Count(before, AliveColleague) == 2;
  }

  // ---------------------------------------------------------------------
  // Lookups by name (`characters.find(c => c.name === name)`)
  // ---------------------------------------------------------------------

  function FindNamed(cs: seq<Character>, name: string): (r: Option<nat>)
    ensures r.Some? ==> r.value < |cs| && cs[r.value].name == name
    ensures r.Some? ==> forall j :: 0 <= j < r.value ==> cs[j].name != name
    ensures r.None? ==> forall i :: 0 <= i < |cs| ==> cs[i].name != name
  {
    if cs == [] then None
    else if cs[0].name == name then Some(0)
    else match FindNamed(cs[1..], name)
      case Some(k) => Some(k + 1)
      case None => None
  }

  /** `characters.find(c => c.isPlayer)`. */
  function FindPlayer(cs: seq<Character>): (r: Option<nat>)
    ensures r.Some? ==> r.value < |cs| && cs[r.value].isPlayer
    ensures r.Some? ==> forall j :: 0 <= j < r.value ==> !cs[j].isPlayer
    ensures r.None? <==> Count(cs, PlayerFlag) == 0
  {
    if cs == [] then None
    else if cs[0].isPlayer then Some(0)
    else match FindPlayer(cs[1..])
      case Some(k) => Some(k + 1)
      case None => None
  }

  /** A character may be selected when the first one of that name is alive
      and is not the player. */
  predicate Selectable(cs: seq<Character>, name: string) {
    match FindNamed(cs, name)
    case Some(i) => cs[i].isAlive && !cs[i].isPlayer
    case None => false
  }

  /** Some live character is called `name`. */
  predicate AliveNamed(cs: seq<Character>, name: string) {
    exists c :: c in cs && c.name == name && c.isAlive
  }
}
