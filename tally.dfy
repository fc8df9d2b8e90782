/** The vote count of App.tsx (handleConfirmVote): the `reduce` that counts
    the votes per name, the loop that collects the names at the top, and the
    rule that only a single top name is dismissed. */
module Tally {
  import opened Collections
  import opened GameTypes

  /** How many of `votes` name `name`: the reference count. */
  function Occurrences(votes: seq<Vote>, name: string): nat {
    if votes == [] then 0
    else (if votes[0].votee == name then 1 else 0) + Occurrences(votes[1..], name)
  }

  lemma {:induction false} OccurrencesAppend(votes: seq<Vote>, v: Vote, name: string)
    ensures Occurrences(votes + [v], name) == Occurrences(votes, name) + (if v.votee == name then 1 else 0)
  {
    if votes != [] {
      assert (votes + [v])[1..] == votes[1..] + [v];
      OccurrencesAppend(votes[1..], v, name);
    }
  }

  /** A name is counted at all exactly when some vote names it. */
  lemma {:induction false} OccurrencesPositive(votes: seq<Vote>, name: string)
    ensures Occurrences(votes, name) > 0 <==> exists i :: 0 <= i < |votes| && votes[i].votee == name
  {
    if votes != [] {
      OccurrencesPositive(votes[1..], name);
      if exists i :: 0 <= i < |votes[1..]| && votes[1..][i].votee == name {
        var i :| 0 <= i < |votes[1..]| && votes[1..][i].votee == name;
        assert votes[i + 1].votee == name;
      }
      if exists i :: 0 <= i < |votes| && votes[i].votee == name {
        var i :| 0 <= i < |votes| && votes[i].votee == name;
        if i > 0 {
          assert votes[1..][i - 1].votee == name;
        }
      }
    }
  }

  /** `allVotes.reduce((acc, vote) => { acc[vote.votee] = (acc[vote.votee] || 0) + 1; ... }, {})`:
      a left fold over the votes. The result holds exactly the names that
      some vote names, each with its number of votes. */
  function Tally(votes: seq<Vote>): (counts: map<string, nat>)
    ensures forall name :: name in counts <==> Occurrences(votes, name) > 0
    ensures forall name :: name in counts ==> counts[name] == Occurrences(votes, name)
  {
    if votes == [] then map[]
    else
      var prefix := votes[..|votes| - 1];
      var last := votes[|votes| - 1];
      assert votes == prefix + [last];
      var acc := Tally(prefix);
      assert forall name :: Occurrences(votes, name) == Occurrences(prefix, name) + (if last.votee == name then 1 else 0) by {
        forall name ensures Occurrences(votes, name) == Occurrences(prefix, name) + (if last.votee == name then 1 else 0) {
          OccurrencesAppend(prefix, last, name);
        }
      }
      acc[last.votee := (if last.votee in acc then acc[last.votee] else 0) + 1]
  }

  /** The loop over the tally's keys, visited in any order (the order of
      `for ... in` is left open): `maxVotes` ends as the largest count and
      `targets` as exactly the names holding it, each once. */
  method TopTargets(counts: map<string, nat>) returns (maxVotes: nat, targets: seq<string>)
    ensures forall name :: name in counts ==> counts[name] <= maxVotes
    ensures maxVotes > 0 ==> exists name :: name in counts && counts[name] == maxVotes
    ensures forall name :: name in targets <==> name in counts && counts[name] == maxVotes && maxVotes > 0
    ensures NoDuplicates(targets)
  {
    maxVotes := 0;
    targets := [];
    var pending := counts.Keys;
    while pending != {}
      invariant pending <= counts.Keys
      invariant forall name :: name in counts && name !in pending ==> counts[name] <= maxVotes
      invariant maxVotes > 0 ==> exists name :: name in counts && name !in pending && counts[name] == maxVotes
      invariant forall name :: name in targets <==> name in counts && name !in pending && counts[name] == maxVotes && maxVotes > 0
      invariant NoDuplicates(targets)
      decreases pending
    {
      var target :| target in pending;
      if counts[target] > maxVotes {
        maxVotes := counts[target];
        targets := [target];
      } else if counts[target] == maxVotes && maxVotes > 0 {
        targets := targets + [target];
      }
      pending := pending - {target};
    }
  }

  /** `name` has more votes than any other name, and at least one. */
  ghost predicate StrictWinner(votes: seq<Vote>, name: string) {
    && Occurrences(votes, name) > 0
    && forall other :: other != name ==> Occurrences(votes, other) < Occurrences(votes, name)
  }

  lemma StrictWinnerUnique(votes: seq<Vote>, a: string, b: string)
    requires StrictWinner(votes, a) && StrictWinner(votes, b)
    ensures a == b
  {
  }

  /** Who a vote dismisses: its strict winner, if it has one. */
  ghost function Dismissal(votes: seq<Vote>): (d: Option<string>)
    ensures d.Some? ==> StrictWinner(votes, d.value)
    ensures d.None? ==> forall name :: !StrictWinner(votes, name)
  {
    if exists name :: StrictWinner(votes, name) then
      var name :| StrictWinner(votes, name);
      Some(name)
    else None
  }

  /** The decision of handleConfirmVote: count, collect the top names, and
      dismiss the one name if it stands alone at the top. Someone is
      dismissed exactly when one name has strictly the most votes; on a tie
      nobody is. */
  method Decide(votes: seq<Vote>) returns (dismissed: Option<string>)
    ensures dismissed.Some? ==> StrictWinner(votes, dismissed.value)
    ensures dismissed.None? ==> forall name :: !StrictWinner(votes, name)
    ensures dismissed == Dismissal(votes)
  {
    var counts := Tally(votes);
    var maxVotes, targets := TopTargets(counts);
    if |targets| == 1 {
      var top := targets[0];
      assert top in targets;
      forall other | other != top
        ensures Occurrences(votes, other) < Occurrences(votes, top)
      {
        if other in counts {
          assert other !in targets;
        }
      }
      dismissed := Some(top);
      assert StrictWinner(votes, top);
      StrictWinnerUnique(votes, top, Dismissal(votes).value);
    } else {
      dismissed := None;
      forall name
        ensures !StrictWinner(votes, name)
      {
        if targets == [] {
          // Nothing reached the top, so nothing was counted at all.
          assert Occurrences(votes, name) == 0 by {
            assert name !in targets;
          }
        } else {
          // Two names share the top: one of them outvotes or ties `name`.
          var rival := if targets[0] != name then targets[0] else targets[1];
          assert rival in targets && rival != name;
          assert Occurrences(votes, rival) >= Occurrences(votes, name);
        }
      }
    }
  }

  /** Three votes, two of them for B: B is dismissed. */
  lemma ClearMajority()
    ensures StrictWinner([Vote("A", "B", ""), Vote("C", "B", ""), Vote("D", "C", "")], "B")
  {
    var votes := [Vote("A", "B", ""), Vote("C", "B", ""), Vote("D", "C", "")];
    assert votes[1..] == [Vote("C", "B", ""), Vote("D", "C", "")];
    assert votes[1..][1..] == [Vote("D", "C", "")];
    assert votes[1..][1..][1..] == [];
    assert Occurrences(votes, "B") == 2;
    forall other | other != "B"
      ensures Occurrences(votes, other) < 2
    {
      assert Occurrences(votes[1..][1..], other) <= 1;
      assert Occurrences(votes[1..], other) <= 1;
    }
  }

  /** One vote each for B and A: nobody is dismissed. */
  lemma HungVote()
    ensures forall name :: !StrictWinner([Vote("A", "B", ""), Vote("C", "A", "")], name)
  {
    var votes := [Vote("A", "B", ""), Vote("C", "A", "")];
    assert votes[1..] == [Vote("C", "A", "")];
    assert votes[1..][1..] == [];
    forall name
      ensures !StrictWinner(votes, name)
    {
      assert Occurrences(votes, "A") == 1 && Occurrences(votes, "B") == 1;
      if name != "A" {
        assert Occurrences(votes[1..], name) == 0;
        assert Occurrences(votes, name) <= 1;
      }
    }
  }
}
