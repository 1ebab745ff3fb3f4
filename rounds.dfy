/**
 * The elimination rounds as values: the table of buckets (candidate to the
 * ballots currently counting for it), one round of `removeLowestChoice`,
 * and the round loop of `main` up to a winner or a tie. The imperative
 * methods over `Vote` objects are proved against these functions.
 */
module Rounds {
  import opened Wrappers
  import opened Candidates
  import opened Ballots

  /** The vote table: every remaining candidate with the ballots counting for it. */
  type Buckets = map<Choice, seq<Ballot>>

  // ---------------------------------------------------------------------
  // Tallies, the tie test and the lowest candidate

  /** The size of every bucket (what `printCurrentResults` shows). */
  function Tally<T>(t: map<Choice, seq<T>>): (m: map<Choice, nat>)
    ensures m.Keys == t.Keys
    ensures forall c :: c in t ==> m[c] == |t[c]|
  {
    map c | c in t :: |t[c]|
  }

  /** Every remaining candidate has the same number of ballots. */
  predicate AllEqual(m: map<Choice, nat>)
  {
    forall c, d :: c in m && d in m ==> m[c] == m[d]
  }

  /**
   * The scan of `removeLowestChoice` over the candidates `cs`, in order:
   * the first candidate seen with a strictly smaller count replaces the
   * current one, so among equal counts the earliest is kept.
   */
  function LowestAmong(m: map<Choice, nat>, cs: seq<Choice>): (r: Option<Choice>)
    ensures r.Some? ==> r.value in m && r.value in cs
  {
    if cs == [] then None
    else
      var best := LowestAmong(m, cs[..|cs| - 1]);
      var c := cs[|cs| - 1];
      if c !in m then best
      else if best.None? || m[c] < m[best.value] then Some(c)
      else best
  }

  /** The candidate `removeLowestChoice` removes, scanning in declaration order. */
  function Lowest(m: map<Choice, nat>): Option<Choice>
  {
    LowestAmong(m, AllChoices)
  }

  /** The candidate `LowestAmong` picks has the fewest ballots, and every candidate tied with it comes later in `cs`. */
  lemma {:induction false} LowestAmongIsFirstMinimum(m: map<Choice, nat>, cs: seq<Choice>)
    ensures LowestAmong(m, cs).None? <==> forall c :: c in cs ==> c !in m
    ensures LowestAmong(m, cs).Some? ==>
              var l := LowestAmong(m, cs).value;
              (forall c :: c in cs && c in m ==> m[l] <= m[c]) &&
              (forall i :: 0 <= i < |cs| && cs[i] in m && cs[i] != l && m[cs[i]] == m[l] ==> l in cs[..i])
  {
    if cs != [] {
      var init, c := cs[..|cs| - 1], cs[|cs| - 1];
      assert cs == init + [c];
      LowestAmongIsFirstMinimum(m, init);
      var best := LowestAmong(m, init);
      if LowestAmong(m, cs).Some? {
        var l := LowestAmong(m, cs).value;
        forall i | 0 <= i < |cs| && cs[i] in m && cs[i] != l && m[cs[i]] == m[l]
          ensures l in cs[..i]
        {
          if i < |cs| - 1 {
            assert init[i] == cs[i];
            assert init[..i] == cs[..i];
          } else {
            assert cs[..i] == init;
          }
        }
      }
    }
  }

  /**
   * The removed candidate: some candidate remains exactly when there is one;
   * it then has the fewest ballots, and every candidate declared before it
   * has strictly more.
   */
  lemma LowestIsFirstMinimum(m: map<Choice, nat>)
    ensures Lowest(m).None? <==> m == map[]
    ensures Lowest(m).Some? ==>
              var l := Lowest(m).value;
              l in m &&
              (forall c :: c in m ==> m[l] <= m[c]) &&
              (forall c :: c in m && Ordinal(c) < Ordinal(l) ==> m[l] < m[c])
  {
    AllChoicesComplete(Narwhals);
    LowestAmongIsFirstMinimum(m, AllChoices);
    if m != map[] {
      var c :| c in m;
      AllChoicesComplete(c);
    }
    if Lowest(m).Some? {
      var l := Lowest(m).value;
      forall c | c in m && Ordinal(c) < Ordinal(l) ensures m[l] < m[c] {
        OrdinalBefore(l, Ordinal(c));
      }
    }
  }

  // ---------------------------------------------------------------------
  // Moving the ballots of the removed candidate

  /** Every position from `k` up to `j` holds a candidate no longer in `live`. */
  predicate Skipped(prefs: seq<Choice>, k: nat, j: nat, live: set<Choice>)
  {
    forall i :: k <= i < j ==> i < |prefs| && prefs[i] !in live
  }

  /**
   * The first position at or after `k` whose preference is still a
   * candidate in `live`, or a position past the end when there is none:
   * what repeated `getNextChoice` calls reach (lines 115-116).
   */
  function NextLive(prefs: seq<Choice>, k: nat, live: set<Choice>): (j: nat)
    ensures k <= j
    ensures j < |prefs| ==> prefs[j] in live
    ensures Skipped(prefs, k, j, live)
    ensures j >= |prefs| ==> forall i :: k <= i < |prefs| ==> prefs[i] !in live
    decreases |prefs| - k
  {
    if k >= |prefs| then k
    else if prefs[k] in live then k
    else NextLive(prefs, k + 1, live)
  }

  /**
   * A ballot of the removed candidate moved on to its next preference that
   * is still live, or `None` when its preferences are exhausted.
   */
  function Transfer(x: Ballot, live: set<Choice>): Option<Ballot>
  {
    var j := NextLive(x.prefs, x.cursor + 1, live);
    if j < |x.prefs| then Some(x.(cursor := j)) else None
  }

  /** The candidate a ballot counts for. */
  function Holder(x: Ballot): Choice
    requires x.cursor < |x.prefs|
  {
    x.prefs[x.cursor]
  }

  /** Places one ballot of the removed candidate into the bucket of its next live preference. */
  function PlaceOne(b: Buckets, x: Ballot): (r: Buckets)
    ensures r.Keys == b.Keys
  {
    match Transfer(x, b.Keys)
    case None => b
    case Some(y) => b[Holder(y) := b[Holder(y)] + [y]]
  }

  /** Places the ballots `xs`, in order. */
  function Redistribute(b: Buckets, xs: seq<Ballot>): (r: Buckets)
    ensures r.Keys == b.Keys
  {
    if xs == [] then b
    else PlaceOne(Redistribute(b, xs[..|xs| - 1]), xs[|xs| - 1])
  }

  lemma RedistributeSnoc(b: Buckets, xs: seq<Ballot>, i: nat)
    requires i < |xs|
    ensures Redistribute(b, xs[..i + 1]) == PlaceOne(Redistribute(b, xs[..i]), xs[i])
  {
    assert xs[..i + 1][..i] == xs[..i];
  }

  /** Removes `loser` and hands each of its ballots to the next live preference. */
  function Eliminate(b: Buckets, loser: Choice): Buckets
    requires loser in b
  {
    Redistribute(b - {loser}, b[loser])
  }

  /** What one call of `removeLowestChoice` reports. */
  datatype Step = Tied | Removed(loser: Choice, votes: nat)

  /** One call of `removeLowestChoice`: the report and the table afterwards. */
  function Round(b: Buckets): (Step, Buckets)
  {
    var m := Tally(b);
    if AllEqual(m) then (Tied, b)
    else
      LowestIsFirstMinimum(m);
      var l := Lowest(m).value;
      (Removed(l, |b[l]|), Eliminate(b, l))
  }

  /**
   * A round reports a tie exactly when all counts are equal, and then
   * changes nothing; otherwise it removes one candidate, one with the
   * fewest ballots while some other candidate has more, and nothing else.
   */
  lemma RoundFacts(b: Buckets)
    ensures Round(b).0.Tied? <==> AllEqual(Tally(b))
    ensures Round(b).0.Tied? ==> Round(b).1 == b
    ensures Round(b).0.Removed? ==>
              var l := Round(b).0.loser;
              l in b && Round(b).0.votes == |b[l]| && Round(b).1 == Eliminate(b, l) &&
              Round(b).1.Keys == b.Keys - {l} && |Round(b).1.Keys| == |b.Keys| - 1 &&
              (forall c :: c in b ==> |b[l]| <= |b[c]|) &&
              (exists c :: c in b && |b[l]| < |b[c]|)
  {
    var m := Tally(b);
    if !AllEqual(m) {
      LowestIsFirstMinimum(m);
      EliminateShrinks(b, Lowest(m).value);
    }
  }

  lemma RoundRemovesLowest(b: Buckets, l: Choice)
    requires !AllEqual(Tally(b)) && Lowest(Tally(b)) == Some(l)
    ensures Round(b) == (Removed(l, |b[l]|), Eliminate(b, l))
  {
  }

  /** The end of the count: a winner with its ballots, or a tie among the candidates left. */
  datatype Outcome = Winner(winner: Choice, votes: nat) | Tie(tied: set<Choice>)

  /** The first candidate of `cs` that is a key of `b`. */
  function FirstKey<V>(b: map<Choice, V>, cs: seq<Choice>): (c: Choice)
    requires exists c :: c in cs && c in b
    ensures c in cs && c in b
  {
    if cs[0] in b then cs[0] else FirstKey(b, cs[1..])
  }

  /** The only candidate of a one-candidate table. */
  function OnlyKey<V>(b: map<Choice, V>): (c: Choice)
    requires |b.Keys| == 1
    ensures b.Keys == {c}
  {
    var k :| k in b;
    AllChoicesComplete(k);
    var c := FirstKey(b, AllChoices);
    SingletonSet(b.Keys, c);
    c
  }

  /** Two one-candidate tables over the same candidate have the same only key. */
  lemma OnlyKeySame<V, W>(a: map<Choice, V>, b: map<Choice, W>)
    requires |a.Keys| == 1 && a.Keys == b.Keys
    ensures OnlyKey(a) == OnlyKey(b)
  {
  }

  lemma SingletonSet(s: set<Choice>, c: Choice)
    requires |s| == 1 && c in s
    ensures s == {c}
  {
    var rest := s - {c};
    assert |rest| == 0;
  }

  /**
   * The round loop of `main` (lines 64-86): rounds go on while they
   * remove a candidate and more than one candidate is left. The result
   * carries the table the loop stops at.
   */
  function Run(b: Buckets): (r: (Outcome, Buckets))
    decreases |b.Keys|, 0
  {
    var (step, next) := Round(b);
    if step.Tied? then (Tie(b.Keys), b)
    else
      RoundFacts(b);
      Finish(next)
  }

  /** The loop test after a round that removed a candidate. */
  function Finish(b: Buckets): (r: (Outcome, Buckets))
    decreases |b.Keys|, 1
  {
    if |b.Keys| == 1 then
      var w := OnlyKey(b);
      (Winner(w, |b[w]|), b)
    else Run(b)
  }

  /** What is left of the round loop once a round has reported `step` and left `b`. */
  function Continue(step: Step, b: Buckets): (Outcome, Buckets)
  {
    if step.Tied? then (Tie(b.Keys), b) else Finish(b)
  }

  /** The round loop is one round followed by the rest of the loop; a removal shrinks the table. */
  lemma RunUnfold(b: Buckets)
    ensures Run(b) == Continue(Round(b).0, Round(b).1)
    ensures Round(b).0.Removed? ==> |Round(b).1.Keys| < |b.Keys|
  {
    RoundFacts(b);
  }

  /** After a removal that leaves several candidates, the loop goes round again. */
  lemma ContinueRuns(step: Step, b: Buckets)
    requires step.Removed? && |b.Keys| != 1
    ensures Continue(step, b) == Run(b)
  {
  }

  /** When the loop stops: a tie, or a winner that is the only candidate left. */
  lemma ContinueStops(step: Step, b: Buckets)
    requires step.Tied? || |b.Keys| == 1
    ensures step.Tied? ==> Continue(step, b) == (Tie(b.Keys), b)
    ensures step.Removed? ==> Continue(step, b) == (Winner(OnlyKey(b), |b[OnlyKey(b)]|), b)
  {
  }

  /** A removed candidate is gone and nobody else is. */
  lemma EliminateShrinks(b: Buckets, loser: Choice)
    requires loser in b
    ensures Eliminate(b, loser).Keys == b.Keys - {loser}
    ensures |Eliminate(b, loser).Keys| == |b.Keys| - 1
  {
  }

  // ---------------------------------------------------------------------
  // What a ballot transfer does

  /**
   * A transfer succeeds exactly when a later preference is still live; it
   * then moves the cursor to the first such preference, skipping only
   * candidates that are gone, and changes nothing else.
   */
  lemma TransferMeaning(x: Ballot, live: set<Choice>)
    ensures Transfer(x, live).Some? <==> exists j :: x.cursor < j < |x.prefs| && x.prefs[j] in live
    ensures Transfer(x, live).Some? ==>
              var y := Transfer(x, live).value;
              y.id == x.id && y.prefs == x.prefs &&
              x.cursor < y.cursor < |y.prefs| && Holder(y) in live &&
              forall i :: x.cursor < i < y.cursor ==> x.prefs[i] !in live
  {
    var j := NextLive(x.prefs, x.cursor + 1, live);
    if j < |x.prefs| {
      assert x.cursor < j < |x.prefs| && x.prefs[j] in live;
    }
  }

  // ---------------------------------------------------------------------
  // Ballots are conserved: every ballot is in a bucket or was exhausted

  /** The ballots of the removed candidate whose preferences are exhausted. */
  function Dropped(xs: seq<Ballot>, live: set<Choice>): seq<Ballot>
  {
    if xs == [] then []
    else
      var x := xs[|xs| - 1];
      Dropped(xs[..|xs| - 1], live) + (if Transfer(x, live).None? then [x] else [])
  }

  /** The ballots of `xs` that land in the bucket of `c`, after their transfer. */
  function Arrivals(xs: seq<Ballot>, c: Choice, live: set<Choice>): seq<Ballot>
  {
    if xs == [] then []
    else
      var t := Transfer(xs[|xs| - 1], live);
      Arrivals(xs[..|xs| - 1], c, live) + (if t.Some? && Holder(t.value) == c then [t.value] else [])
  }

  /** The voter ids of a sequence of ballots, with multiplicity. */
  function Ids(xs: seq<Ballot>): multiset<string>
  {
    multiset(IdList(xs))
  }

  function IdList(xs: seq<Ballot>): (r: seq<string>)
    ensures |r| == |xs|
  {
    if xs == [] then [] else [xs[0].id] + IdList(xs[1..])
  }

  function BucketOf(b: Buckets, c: Choice): seq<Ballot>
  {
    if c in b then b[c] else []
  }

  /** The voter ids in the buckets of the candidates `cs`. */
  function BucketIds(b: Buckets, cs: seq<Choice>): multiset<string>
  {
    if cs == [] then multiset{} else Ids(BucketOf(b, cs[0])) + BucketIds(b, cs[1..])
  }

  /** The voter ids of every ballot that is still counted. */
  function TableIds(b: Buckets): multiset<string>
  {
    BucketIds(b, AllChoices)
  }

  /** The number of ballots still counted. */
  function Counted(b: Buckets): nat
  {
    |TableIds(b)|
  }

  lemma {:induction false} IdListAppend(xs: seq<Ballot>, ys: seq<Ballot>)
    ensures IdList(xs + ys) == IdList(xs) + IdList(ys)
  {
    if xs != [] {
      assert (xs + ys)[1..] == xs[1..] + ys;
      IdListAppend(xs[1..], ys);
    } else {
      assert xs + ys == ys;
    }
  }

  lemma IdsAppend(xs: seq<Ballot>, ys: seq<Ballot>)
    ensures Ids(xs + ys) == Ids(xs) + Ids(ys)
  {
    IdListAppend(xs, ys);
  }

  lemma {:induction false} IdsHas(xs: seq<Ballot>, x: Ballot)
    requires x in xs
    ensures x.id in Ids(xs)
  {
    if xs[0] != x {
      IdsHas(xs[1..], x);
    }
  }

  lemma MultisetSwap(x: multiset<string>, p: multiset<string>, q: multiset<string>)
    ensures (x + p) + q == (x + q) + p
  {
  }

  lemma MultisetAssoc(x: multiset<string>, p: multiset<string>, q: multiset<string>)
    ensures (x + p) + q == x + (p + q)
  {
  }

  lemma MultisetCancel(p: multiset<string>, q: multiset<string>, a: multiset<string>, e: multiset<string>)
    requires p + a == q + (a + e)
    ensures p == q + e
  {
    forall id ensures p[id] == (q + e)[id] {
      assert (p + a)[id] == (q + (a + e))[id];
    }
  }

  lemma MultisetCombine(p: multiset<string>, q: multiset<string>, t: multiset<string>,
                        d0: multiset<string>, dx: multiset<string>, i: multiset<string>, e: multiset<string>)
    requires q + d0 == t + i && p + dx == q + e
    ensures p + (d0 + dx) == t + (i + e)
  {
    forall id ensures (p + (d0 + dx))[id] == (t + (i + e))[id] {
      assert (q + d0)[id] == (t + i)[id];
      assert (p + dx)[id] == (q + e)[id];
    }
  }

  lemma NoDuplicatesTail<T>(cs: seq<T>)
    requires cs != [] && NoDuplicates(cs)
    ensures NoDuplicates(cs[1..]) && cs[0] !in cs[1..]
  {
    var rest := cs[1..];
    forall i | 0 <= i < |rest| ensures rest[i] != cs[0] {
      assert rest[i] == cs[i + 1];
    }
    forall i, j | 0 <= i < j < |rest| ensures rest[i] != rest[j] {
      assert rest[i] == cs[i + 1] && rest[j] == cs[j + 1];
    }
  }

  lemma {:induction false} BucketIdsAgree(b: Buckets, b': Buckets, cs: seq<Choice>)
    requires forall c :: c in cs ==> BucketOf(b, c) == BucketOf(b', c)
    ensures BucketIds(b, cs) == BucketIds(b', cs)
  {
    if cs != [] {
      BucketIdsAgree(b, b', cs[1..]);
    }
  }

  /** Removing the bucket of `c` removes its ids and no others. */
  lemma {:induction false} BucketIdsRemove(b: Buckets, c: Choice, cs: seq<Choice>)
    requires c in b && c in cs && NoDuplicates(cs)
    ensures BucketIds(b - {c}, cs) + Ids(b[c]) == BucketIds(b, cs)
  {
    NoDuplicatesTail(cs);
    if cs[0] == c {
      BucketIdsRemoveFirst(b, c, cs);
    } else {
      assert c in cs[1..];
      BucketIdsRemove(b, c, cs[1..]);
      BucketIdsRemoveLater(b, c, cs);
    }
  }

  lemma BucketIdsRemoveFirst(b: Buckets, c: Choice, cs: seq<Choice>)
    requires c in b && cs != [] && cs[0] == c && c !in cs[1..]
    ensures BucketIds(b - {c}, cs) + Ids(b[c]) == BucketIds(b, cs)
  {
    BucketIdsAgree(b - {c}, b, cs[1..]);
  }

  lemma BucketIdsRemoveLater(b: Buckets, c: Choice, cs: seq<Choice>)
    requires c in b && cs != [] && cs[0] != c
    requires BucketIds(b - {c}, cs[1..]) + Ids(b[c]) == BucketIds(b, cs[1..])
    ensures BucketIds(b - {c}, cs) + Ids(b[c]) == BucketIds(b, cs)
  {
    var h := Ids(BucketOf(b, cs[0]));
    assert BucketOf(b - {c}, cs[0]) == BucketOf(b, cs[0]);
    MultisetAssoc(h, BucketIds(b - {c}, cs[1..]), Ids(b[c]));
  }

  /** Replacing the bucket of `c` by `s` replaces its ids and no others. */
  lemma BucketIdsUpdate(b: Buckets, c: Choice, s: seq<Ballot>, cs: seq<Choice>)
    requires c in b && c in cs && NoDuplicates(cs)
    ensures BucketIds(b[c := s], cs) + Ids(b[c]) == BucketIds(b, cs) + Ids(s)
  {
    var b' := b[c := s];
    assert b' - {c} == b - {c};
    BucketIdsRemove(b, c, cs);
    BucketIdsRemove(b', c, cs);
    MultisetSwap(BucketIds(b - {c}, cs), Ids(s), Ids(b[c]));
  }

  /** Appending a ballot to a bucket adds its id to the table. */
  lemma AppendIds(b: Buckets, h: Choice, y: Ballot)
    requires h in b
    ensures TableIds(b[h := b[h] + [y]]) == TableIds(b) + multiset{y.id}
  {
    AllChoicesComplete(h);
    BucketIdsUpdate(b, h, b[h] + [y], AllChoices);
    IdsAppend(b[h], [y]);
    assert IdList([y]) == [y.id];
    MultisetCancel(TableIds(b[h := b[h] + [y]]), TableIds(b), Ids(b[h]), multiset{y.id});
  }

  /** Placing a ballot adds its id to the table, or puts it with the dropped ones. */
  lemma PlaceOneIds(b: Buckets, x: Ballot)
    ensures TableIds(PlaceOne(b, x)) + (if Transfer(x, b.Keys).None? then multiset{x.id} else multiset{})
         == TableIds(b) + multiset{x.id}
  {
    var t := Transfer(x, b.Keys);
    if t.Some? {
      AppendIds(b, Holder(t.value), t.value);
    }
  }

  lemma {:induction false} RedistributeIds(b: Buckets, xs: seq<Ballot>)
    ensures TableIds(Redistribute(b, xs)) + Ids(Dropped(xs, b.Keys)) == TableIds(b) + Ids(xs)
  {
    if xs == [] {
      assert Ids(xs) == multiset{};
    } else {
      var init, x := xs[..|xs| - 1], xs[|xs| - 1];
      assert xs == init + [x];
      RedistributeIds(b, init);
      var b1 := Redistribute(b, init);
      PlaceOneIds(b1, x);
      var dx := if Transfer(x, b.Keys).None? then [x] else [];
      IdsAppend(Dropped(init, b.Keys), dx);
      IdsAppend(init, [x]);
      assert IdList([x]) == [x.id];
      assert Ids(dx) == if Transfer(x, b.Keys).None? then multiset{x.id} else multiset{};
      MultisetCombine(TableIds(PlaceOne(b1, x)), TableIds(b1), TableIds(b),
                      Ids(Dropped(init, b.Keys)), Ids(dx), Ids(init), multiset{x.id});
    }
  }

  /**
   * Removing a candidate loses no ballot and invents none: the ballots
   * still counted together with the exhausted ones are the ballots
   * counted before.
   */
  lemma EliminateConserves(b: Buckets, loser: Choice)
    requires loser in b
    ensures TableIds(Eliminate(b, loser)) + Ids(Dropped(b[loser], b.Keys - {loser})) == TableIds(b)
    ensures Counted(Eliminate(b, loser)) + |Dropped(b[loser], b.Keys - {loser})| == Counted(b)
  {
    AllChoicesComplete(loser);
    BucketIdsRemove(b, loser, AllChoices);
    RedistributeIds(b - {loser}, b[loser]);
  }

  /** No voter id is counted twice. */
  predicate NoRepeatedIds(b: Buckets)
  {
    forall id :: id in TableIds(b) ==> TableIds(b)[id] == 1
  }

  /**
   * Removing a candidate keeps every voter counted at most once, and an
   * exhausted ballot is counted nowhere afterwards.
   */
  lemma EliminateKeepsIdsUnique(b: Buckets, loser: Choice)
    requires loser in b && NoRepeatedIds(b)
    ensures NoRepeatedIds(Eliminate(b, loser))
    ensures forall x :: x in Dropped(b[loser], b.Keys - {loser}) ==> x.id !in TableIds(Eliminate(b, loser))
  {
    EliminateConserves(b, loser);
    var d := Dropped(b[loser], b.Keys - {loser});
    var e := TableIds(Eliminate(b, loser));
    forall id | id in e ensures e[id] == 1 {
      assert (e + Ids(d))[id] == TableIds(b)[id];
    }
    forall x | x in d ensures x.id !in e {
      IdsHas(d, x);
      assert (e + Ids(d))[x.id] == TableIds(b)[x.id];
    }
  }

  // ---------------------------------------------------------------------
  // Where the moved ballots go

  /**
   * Every surviving candidate keeps its ballots, in order, followed by the
   * ballots of the removed candidate whose next live preference it is.
   */
  lemma {:induction false} RedistributeBuckets(b: Buckets, xs: seq<Ballot>, c: Choice)
    requires c in b
    ensures Redistribute(b, xs)[c] == b[c] + Arrivals(xs, c, b.Keys)
  {
    if xs != [] {
      RedistributeBuckets(b, xs[..|xs| - 1], c);
    }
  }

  lemma EliminateBuckets(b: Buckets, loser: Choice, c: Choice)
    requires loser in b && c in b && c != loser
    ensures Eliminate(b, loser)[c] == b[c] + Arrivals(b[loser], c, b.Keys - {loser})
  {
    RedistributeBuckets(b - {loser}, b[loser], c);
  }

  /** Every ballot sits in the bucket of the candidate its cursor points at. */
  predicate WellPlaced(b: Buckets)
  {
    forall c, i :: c in b && 0 <= i < |b[c]| ==>
      b[c][i].cursor < |b[c][i].prefs| && Holder(b[c][i]) == c
  }

  lemma {:induction false} RedistributeWellPlaced(b: Buckets, xs: seq<Ballot>)
    requires WellPlaced(b)
    ensures WellPlaced(Redistribute(b, xs))
  {
    if xs != [] {
      RedistributeWellPlaced(b, xs[..|xs| - 1]);
      var b1: Buckets := Redistribute(b, xs[..|xs| - 1]);
      var t := Transfer(xs[|xs| - 1], b1.Keys);
      if t.Some? {
        var h := Holder(t.value);
        var r: Buckets := PlaceOne(b1, xs[|xs| - 1]);
        forall c: Choice, i: int | c in r && 0 <= i < |r[c]|
          ensures r[c][i].cursor < |r[c][i].prefs| && Holder(r[c][i]) == c
        {
          if c == h && i == |b1[h]| {
            assert r[c][i] == t.value;
          } else {
            assert r[c][i] == b1[c][i];
          }
        }
      }
    }
  }

  /** Removing a candidate keeps every ballot in the bucket of its current choice. */
  lemma EliminateWellPlaced(b: Buckets, loser: Choice)
    requires loser in b && WellPlaced(b)
    ensures WellPlaced(Eliminate(b, loser))
  {
    RedistributeWellPlaced(b - {loser}, b[loser]);
  }

  // ---------------------------------------------------------------------
  // The end of the count

  /** A bucket never holds more ballots than the whole table. */
  lemma BucketWithinTable(b: Buckets, c: Choice)
    requires c in b
    ensures |b[c]| <= Counted(b)
  {
    AllChoicesComplete(c);
    BucketIdsRemove(b, c, AllChoices);
  }

  /** After a round that removed a candidate, some candidate still has a ballot. */
  lemma RemovedLeavesBallots(b: Buckets)
    requires Round(b).0.Removed?
    ensures exists c :: c in Round(b).1 && |Round(b).1[c]| > 0
  {
    RoundFacts(b);
    var l := Round(b).0.loser;
    var c :| c in b && |b[l]| < |b[c]|;
    EliminateBuckets(b, l, c);
    assert c in Round(b).1;
  }

  /**
   * What the round loop ends with: it stops at a table with no more
   * candidates than it started with and no ballot it did not start with;
   * a tie names exactly the candidates left, all with equal counts; a winner
   * is the only candidate left, holding every ballot still counted, at
   * least one and no more than were counted at the start. The placement
   * of ballots and the uniqueness of voter ids are kept throughout.
   */
  lemma {:induction false} RunOutcome(b: Buckets)
    ensures var (o, f) := Run(b);
      f.Keys <= b.Keys && TableIds(f) <= TableIds(b) &&
      (b != map[] ==> f != map[]) &&
      (o.Tie? ==> o.tied == f.Keys && AllEqual(Tally(f))) &&
      (o.Winner? ==> f.Keys == {o.winner} && o.votes == |f[o.winner]| && 0 < o.votes <= Counted(b)) &&
      (WellPlaced(b) ==> WellPlaced(f)) &&
      (NoRepeatedIds(b) ==> NoRepeatedIds(f))
    decreases |b.Keys|, 0
  {
    var (step, next) := Round(b);
    RoundFacts(b);
    if step.Removed? {
      var l := step.loser;
      EliminateConserves(b, l);
      if WellPlaced(b) {
        EliminateWellPlaced(b, l);
      }
      if NoRepeatedIds(b) {
        EliminateKeepsIdsUnique(b, l);
      }
      RemovedLeavesBallots(b);
      FinishOutcome(next);
      var f := Run(b).1;
      assert TableIds(f) <= TableIds(next);
    }
  }

  lemma {:induction false} FinishOutcome(b: Buckets)
    requires exists c :: c in b && |b[c]| > 0
    ensures var (o, f) := Finish(b);
      f.Keys <= b.Keys && TableIds(f) <= TableIds(b) &&
      f != map[] &&
      (o.Tie? ==> o.tied == f.Keys && AllEqual(Tally(f))) &&
      (o.Winner? ==> f.Keys == {o.winner} && o.votes == |f[o.winner]| && 0 < o.votes <= Counted(b)) &&
      (WellPlaced(b) ==> WellPlaced(f)) &&
      (NoRepeatedIds(b) ==> NoRepeatedIds(f))
    decreases |b.Keys|, 1
  {
    if |b.Keys| == 1 {
      var w := OnlyKey(b);
      var c :| c in b && |b[c]| > 0;
      assert c == w;
      BucketWithinTable(b, w);
    } else {
      RunOutcome(b);
    }
  }

  /**
   * The ballots the round loop exhausts, round after round: in each round
   * that removes a candidate, the loser's ballots with no live preference left.
   */
  function RunDropped(b: Buckets): seq<Ballot>
    decreases |b.Keys|, 0
  {
    var (step, next) := Round(b);
    if step.Tied? then []
    else
      RoundFacts(b);
      Dropped(b[step.loser], b.Keys - {step.loser}) + FinishDropped(next)
  }

  /** The ballots exhausted from the loop test on. */
  function FinishDropped(b: Buckets): seq<Ballot>
    decreases |b.Keys|, 1
  {
    if |b.Keys| == 1 then [] else RunDropped(b)
  }

  /**
   * The whole round loop loses no ballot and invents none: the ballots
   * counted at the end together with every ballot exhausted on the way
   * are the ballots counted at the start.
   */
  lemma {:induction false} RunConserves(b: Buckets)
    ensures TableIds(Run(b).1) + Ids(RunDropped(b)) == TableIds(b)
    ensures Counted(Run(b).1) + |RunDropped(b)| == Counted(b)
    decreases |b.Keys|, 0
  {
    var (step, next) := Round(b);
    RoundFacts(b);
    if step.Removed? {
      var l := step.loser;
      var d := Dropped(b[l], b.Keys - {l});
      EliminateConserves(b, l);
      FinishConserves(next);
      IdsAppend(d, FinishDropped(next));
      assert RunDropped(b) == d + FinishDropped(next);
      assert Run(b).1 == Finish(next).1;
      var f := Finish(next).1;
      assert TableIds(f) + Ids(FinishDropped(next)) == TableIds(next);
      assert TableIds(next) + Ids(d) == TableIds(b);
      assert |Ids(RunDropped(b))| == |RunDropped(b)|;
    }
  }

  lemma {:induction false} FinishConserves(b: Buckets)
    ensures TableIds(Finish(b).1) + Ids(FinishDropped(b)) == TableIds(b)
    ensures Counted(Finish(b).1) + |FinishDropped(b)| == Counted(b)
    decreases |b.Keys|, 1
  {
    if |b.Keys| != 1 {
      RunConserves(b);
    }
  }
}
