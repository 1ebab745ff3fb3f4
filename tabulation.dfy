/**
 * The vote table of `VoteCounter` over `Vote` objects: `removeLowestChoice`
 * and the round loop of `main`, which move votes between buckets and
 * advance the cursors of the votes they move. Each method is proved
 * against the value-level functions of `Rounds` applied to a snapshot of
 * the table.
 */
module Tabulation {
  import opened Wrappers
  import opened Candidates
  import opened Ballots
  import opened Rounds

  /** The `Hashtable<Choice, LinkedList<Vote>>`: the remaining candidates and their votes. */
  type Table = map<Choice, seq<Vote>>

  /** Every vote object in the table. */
  ghost function Votes(t: Table): set<Vote>
  {
    set c, v | c in t && v in t[c] :: v
  }

  /** The votes of one bucket as values. */
  function Views(vs: seq<Vote>): (r: seq<Ballot>)
    reads set v | v in vs
    ensures |r| == |vs|
  {
    if vs == [] then [] else [vs[0].View()] + Views(vs[1..])
  }

  /** The table as values, read from the current state of its votes. */
  function Snapshot(t: Table): (b: Buckets)
    reads Votes(t)
    ensures b.Keys == t.Keys
  {
    map c | c in t :: Views(t[c])
  }

  /** No vote object sits twice in the table. */
  predicate Disjoint(t: Table)
  {
    forall c, d, i, j :: c in t && d in t && 0 <= i < |t[c]| && 0 <= j < |t[d]| && t[c][i] == t[d][j] ==>
      c == d && i == j
  }

  lemma ViewsAt(vs: seq<Vote>, i: int)
    requires 0 <= i < |vs|
    ensures Views(vs)[i] == vs[i].View()
  {
    if i > 0 {
      ViewsAt(vs[1..], i - 1);
    }
  }

  lemma ViewsAll(vs: seq<Vote>)
    ensures forall j :: 0 <= j < |vs| ==> vs[j].View() == Views(vs)[j]
  {
    forall j | 0 <= j < |vs| ensures vs[j].View() == Views(vs)[j] {
      ViewsAt(vs, j);
    }
  }

  lemma {:induction false} ViewsAppend(vs: seq<Vote>, v: Vote)
    ensures Views(vs + [v]) == Views(vs) + [v.View()]
  {
    if vs == [] {
      assert vs + [v] == [v];
    } else {
      assert (vs + [v])[1..] == vs[1..] + [v];
      ViewsAppend(vs[1..], v);
    }
  }

  lemma TallySnapshot(t: Table)
    ensures Tally(Snapshot(t)) == Tally(t)
  {
  }

  /**
   * The scan of `removeLowestChoice` (lines 94-109) over the candidates in
   * declaration order: whether every bucket has the same size, and the
   * first candidate with the fewest votes.
   */
  method ScanBuckets<T>(t: map<Choice, seq<T>>) returns (allEqual: bool, lowest: Option<Choice>, lowestVotes: int)
    ensures allEqual == AllEqual(Tally(t))
    ensures lowest == Lowest(Tally(t))
    ensures lowest.None? <==> t == map[]
    ensures lowest.Some? ==> lowest.value in t && lowestVotes == |t[lowest.value]|
    ensures lowest.Some? ==> forall c :: c in t ==> lowestVotes <= |t[c]|
    ensures lowest.None? ==> lowestVotes == -1
  {
    ghost var m := Tally(t);
    allEqual := true;
    var lastVoteCount := -1;
    lowest := None;
    lowestVotes := -1;
    for i := 0 to |AllChoices|
      invariant allEqual == EqualAmong(m, AllChoices[..i])
      invariant lastVoteCount == LastCount(m, AllChoices[..i])
      invariant lowest == LowestAmong(m, AllChoices[..i])
      invariant lowest.Some? ==> lowest.value in t && lowestVotes == |t[lowest.value]|
      invariant lowest.None? ==> lowestVotes == -1
    {
      var c := AllChoices[i];
      assert AllChoices[..i + 1] == AllChoices[..i] + [c];
      if c in t {
        var n := |t[c]|;
        LastCountIsAKey(m, AllChoices[..i]);
        if lastVoteCount != -1 && lastVoteCount != n {
          allEqual := false;
        }
        if lowestVotes == -1 {
          lowest := Some(c);
          lowestVotes := n;
        } else if n < lowestVotes {
          lowest := Some(c);
          lowestVotes := n;
        }
        lastVoteCount := n;
      }
    }
    assert AllChoices[..|AllChoices|] == AllChoices;
    EqualAmongAll(m);
    LowestIsFirstMinimum(m);
  }

  /** The counts of the candidates of `cs` present in `m` are all equal. */
  predicate EqualAmong(m: map<Choice, nat>, cs: seq<Choice>)
  {
    forall c, d :: c in cs && d in cs && c in m && d in m ==> m[c] == m[d]
  }

  /** The count of the last candidate of `cs` present in `m`, or -1 when none is. */
  function LastCount(m: map<Choice, nat>, cs: seq<Choice>): int
  {
    if cs == [] then -1
    else if cs[|cs| - 1] in m then m[cs[|cs| - 1]]
    else LastCount(m, cs[..|cs| - 1])
  }

  lemma {:induction false} LastCountIsAKey(m: map<Choice, nat>, cs: seq<Choice>)
    ensures LastCount(m, cs) == -1 <==> forall c :: c in cs ==> c !in m
    ensures LastCount(m, cs) != -1 ==> exists c :: c in cs && c in m && m[c] == LastCount(m, cs)
  {
    if cs != [] {
      var init := cs[..|cs| - 1];
      assert cs == init + [cs[|cs| - 1]];
      LastCountIsAKey(m, init);
    }
  }

  lemma EqualAmongAll(m: map<Choice, nat>)
    ensures EqualAmong(m, AllChoices) == AllEqual(m)
  {
    forall c | c in m ensures c in AllChoices {
      AllChoicesComplete(c);
    }
  }

  /**
   * The transfer of one orphaned vote (lines 115-116): step the cursor
   * until it reaches a candidate still in the table or runs off the end.
   */
  method AdvancePast(v: Vote, live: set<Choice>) returns (n: Next)
    modifies v
    ensures v.choiceIndex == NextLive(v.choices, old(v.choiceIndex) + 1, live)
    ensures n.NextChoice? <==> v.choiceIndex < |v.choices|
    ensures n.NextChoice? ==> n.choice == v.CurrentChoice() && n.choice in live
  {
    n := v.GetNextChoice();
    while n.NextChoice? && n.choice !in live
      invariant old(v.choiceIndex) < v.choiceIndex
      invariant NextLive(v.choices, old(v.choiceIndex) + 1, live) == NextLive(v.choices, v.choiceIndex, live)
      invariant n.NextChoice? <==> v.choiceIndex < |v.choices|
      invariant n.NextChoice? ==> n.choice == v.CurrentChoice()
      decreases |v.choices| - v.choiceIndex
    {
      n := v.GetNextChoice();
    }
  }

  lemma VotesAppend(t: Table, c: Choice, v: Vote)
    requires c in t
    ensures Votes(t[c := t[c] + [v]]) == Votes(t) + {v}
  {
    var t' := t[c := t[c] + [v]];
    forall w | w in Votes(t') ensures w in Votes(t) + {v} {
      var d :| d in t' && w in t'[d];
      if d == c && w != v {
        assert w in t[c];
      }
    }
    forall w | w in Votes(t) ensures w in Votes(t') {
      var d :| d in t && w in t[d];
      assert w in t'[d];
    }
    assert v in t'[c];
  }

  lemma InVotes(t: Table, c: Choice, i: int)
    requires c in t && 0 <= i < |t[c]|
    ensures t[c][i] in Votes(t)
  {
    assert t[c][i] in t[c];
  }

  lemma DisjointAppend(t: Table, c: Choice, v: Vote)
    requires c in t && Disjoint(t) && v !in Votes(t)
    ensures Disjoint(t[c := t[c] + [v]])
  {
    var t' := t[c := t[c] + [v]];
    forall d, e, i, j | d in t' && e in t' && 0 <= i < |t'[d]| && 0 <= j < |t'[e]| && t'[d][i] == t'[e][j]
      ensures d == e && i == j
    {
      if (d != c || i < |t[c]|) && (e != c || j < |t[c]|) {
        assert t'[d][i] == t[d][i] && t'[e][j] == t[e][j];
      } else if d == c && i == |t[c]| && e == c && j == |t[c]| {
      } else if d == c && i == |t[c]| {
        assert t'[e][j] == t[e][j];
        InVotes(t, e, j);
      } else {
        assert t'[d][i] == t[d][i];
        InVotes(t, d, i);
      }
    }
  }

  /**
   * One pass of the redistribution loop (lines 114-118): advance the
   * vote and, unless its preferences are used up, append it to the bucket
   * of the candidate it now points at.
   */
  method MoveVote(t: Table, v: Vote) returns (t': Table)
    requires Disjoint(t) && v !in Votes(t)
    modifies v
    ensures Disjoint(t') && Votes(t') <= Votes(t) + {v}
    ensures Snapshot(t') == PlaceOne(old(Snapshot(t)), old(v.View()))
  {
    ghost var before, x := Snapshot(t), v.View();
    var n := AdvancePast(v, t.Keys);
    assert Snapshot(t) == before;
    assert Transfer(x, before.Keys) == if n.NextChoice? then Some(v.View()) else None;
    t' := t;
    if n.NextChoice? {
      VotesAppend(t, n.choice, v);
      DisjointAppend(t, n.choice, v);
      SnapshotAppend(t, n.choice, v);
      t' := t[n.choice := t[n.choice] + [v]];
    }
  }

  lemma SnapshotAppend(t: Table, c: Choice, v: Vote)
    requires c in t
    ensures Snapshot(t[c := t[c] + [v]]) == Snapshot(t)[c := Snapshot(t)[c] + [v.View()]]
  {
    ViewsAppend(t[c], v);
  }

  /** Taking a bucket out of a table leaves a table without its votes. */
  lemma DisjointRemove(t: Table, c: Choice)
    requires c in t && Disjoint(t)
    ensures Disjoint(t - {c})
    ensures Votes(t - {c}) + (set v | v in t[c]) <= Votes(t)
    ensures forall j :: 0 <= j < |t[c]| ==> t[c][j] !in Votes(t - {c})
    ensures forall i, j :: 0 <= i < j < |t[c]| ==> t[c][i] != t[c][j]
  {
    forall j | 0 <= j < |t[c]| ensures t[c][j] !in Votes(t - {c}) {
      forall d | d in t - {c} ensures t[c][j] !in t[d] {
        forall k | 0 <= k < |t[d]| ensures t[d][k] != t[c][j] {
        }
      }
    }
  }

  /** The orphans not yet moved stay out of the table when one more is moved. */
  lemma StillPending(before: set<Vote>, after: set<Vote>, orphans: seq<Vote>, i: nat)
    requires i < |orphans| && after <= before + {orphans[i]}
    requires forall j :: i <= j < |orphans| ==> orphans[j] !in before
    requires forall k, j :: 0 <= k < j < |orphans| ==> orphans[k] != orphans[j]
    ensures forall j :: i + 1 <= j < |orphans| ==> orphans[j] !in after
  {
  }

  /**
   * One pass of the redistribution loop (lines 114-118) over the orphan
   * with index `i`: the orphans before it are placed, the ones after it
   * are still out of the table and unchanged.
   */
  method MoveNext(t: Table, orphans: seq<Vote>, i: nat, ghost s0: Buckets, ghost views: seq<Ballot>) returns (t': Table)
    requires i < |orphans| == |views|
    requires forall k, j :: 0 <= k < j < |orphans| ==> orphans[k] != orphans[j]
    requires Disjoint(t) && forall j :: i <= j < |orphans| ==> orphans[j] !in Votes(t)
    requires forall j :: i <= j < |orphans| ==> orphans[j].View() == views[j]
    requires Snapshot(t) == Redistribute(s0, views[..i])
    modifies orphans[i]
    ensures Disjoint(t') && Votes(t') <= Votes(t) + {orphans[i]}
    ensures forall j :: i + 1 <= j < |orphans| ==> orphans[j] !in Votes(t')
    ensures forall j :: i + 1 <= j < |orphans| ==> orphans[j].View() == views[j]
    ensures Snapshot(t') == Redistribute(s0, views[..i + 1])
  {
    RedistributeSnoc(s0, views, i);
    ghost var before := Votes(t);
    t' := MoveVote(t, orphans[i]);
    StillPending(before, Votes(t'), orphans, i);
  }

  /**
   * The redistribution loop (lines 113-119): each orphaned vote in turn
   * is advanced and appended to its new bucket, or dropped.
   */
  method MoveOrphans(t: Table, orphans: seq<Vote>) returns (t': Table)
    requires Disjoint(t)
    requires forall j :: 0 <= j < |orphans| ==> orphans[j] !in Votes(t)
    requires forall i, j :: 0 <= i < j < |orphans| ==> orphans[i] != orphans[j]
    modifies set v | v in orphans
    ensures Disjoint(t') && Votes(t') <= Votes(t) + (set v | v in orphans)
    ensures Snapshot(t') == Redistribute(old(Snapshot(t)), old(Views(orphans)))
  {
    ghost var s0, views := Snapshot(t), Views(orphans);
    ViewsAll(orphans);
    ghost var moved := set v | v in orphans;
    t' := t;
    for i := 0 to |orphans|
      invariant Disjoint(t') && Votes(t') <= Votes(t) + moved
      invariant forall j :: i <= j < |orphans| ==> orphans[j] !in Votes(t')
      invariant forall j :: i <= j < |orphans| ==> orphans[j].View() == views[j]
      invariant Snapshot(t') == Redistribute(s0, views[..i])
    {
      assert orphans[i] in moved;
      t' := MoveNext(t', orphans, i, s0, views);
    }
    assert views[..|orphans|] == views;
  }

  /**
   * `removeLowestChoice` (lines 93-120): when every remaining candidate has
   * the same number of votes it reports a tie and changes nothing;
   * otherwise it removes the first candidate with the fewest votes and
   * moves each of its votes, in order, to the end of the bucket of the
   * vote's next preference still in the table, dropping the votes whose
   * preferences are used up. As values this is one `Round`.
   */
  method RemoveLowestChoice(t: Table) returns (step: Step, t': Table)
    requires Disjoint(t)
    modifies Votes(t)
    ensures Disjoint(t') && Votes(t') <= Votes(t)
    ensures step == Round(old(Snapshot(t))).0
    ensures Snapshot(t') == Round(old(Snapshot(t))).1
  {
    var allEqual, lowest, lowestVotes := ScanBuckets(t);
    if allEqual {
      RoundOfSnapshotTies(t);
      return Tied, t;
    }
    var loser := lowest.value;
    step := Removed(loser, lowestVotes);
    RoundOfSnapshotRemoves(t, loser);
    t' := RemoveCandidate(t, loser);
  }

  lemma RoundOfSnapshotTies(t: Table)
    requires AllEqual(Tally(t))
    ensures Round(Snapshot(t)) == (Tied, Snapshot(t))
  {
    TallySnapshot(t);
  }

  lemma RoundOfSnapshotRemoves(t: Table, loser: Choice)
    requires !AllEqual(Tally(t)) && Lowest(Tally(t)) == Some(loser) && loser in t
    ensures Round(Snapshot(t)) == (Removed(loser, |t[loser]|), Eliminate(Snapshot(t), loser))
  {
    TallySnapshot(t);
    RoundRemovesLowest(Snapshot(t), loser);
  }

  /** Lines 112-119: the bucket of `loser` leaves the table and its votes are moved on. */
  method RemoveCandidate(t: Table, loser: Choice) returns (t': Table)
    requires Disjoint(t) && loser in t
    modifies Votes(t)
    ensures Disjoint(t') && Votes(t') <= Votes(t)
    ensures Snapshot(t') == Eliminate(old(Snapshot(t)), loser)
  {
    DisjointRemove(t, loser);
    SnapshotRemove(t, loser);
    t' := MoveOrphans(t - {loser}, t[loser]);
  }

  lemma SnapshotRemove(t: Table, c: Choice)
    requires c in t
    ensures Snapshot(t - {c}) == Snapshot(t) - {c}
    ensures Views(t[c]) == Snapshot(t)[c]
  {
  }

  /**
   * The round loop of `main` (lines 64-86): one round unconditionally,
   * then further rounds while more than one candidate is left. A round that
   * reports a tie ends the count with the candidates still in the table;
   * otherwise the only candidate left wins with the votes in its bucket.
   */
  method Tabulate(t: Table) returns (outcome: Outcome, t': Table)
    requires Disjoint(t)
    modifies Votes(t)
    ensures Disjoint(t') && Votes(t') <= Votes(t)
    ensures outcome == Run(old(Snapshot(t))).0
    ensures Snapshot(t') == Run(old(Snapshot(t))).1
  {
    ghost var s0 := Snapshot(t);
    RunUnfold(s0);
    var step;
    step, t' := RemoveLowestChoice(t);
    while step.Removed? && |t'.Keys| != 1
      invariant Disjoint(t') && Votes(t') <= Votes(t)
      invariant Continue(step, Snapshot(t')) == Run(s0)
      decreases |t'.Keys|, if step.Removed? then 1 else 0
    {
      ghost var before := Snapshot(t');
      ContinueRuns(step, before);
      RunUnfold(before);
      step, t' := RemoveLowestChoice(t');
    }
    ghost var last := Snapshot(t');
    ContinueStops(step, last);
    if step.Tied? {
      outcome := Tie(t'.Keys);
    } else {
      var winner := OnlyKey(t');
      OnlyKeySame(t', last);
      outcome := Winner(winner, |t'[winner]|);
    }
  }
}
