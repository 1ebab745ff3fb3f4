/**
 * Reading the ballot file (lines 23-56 of `main`): the registry of eligible
 * voters, the vote table with every candidate in it, and one vote per
 * eligible voter, taken from their first row. `CountVotes` then runs the
 * round loop over that table.
 */
module Ingestion {
  import opened Wrappers
  import opened Candidates
  import opened Ballots
  import opened Rounds
  import opened Tabulation

  /**
   * One data row of the ballot file: the exact blank spreadsheet row
   * `,,,,`, or any other row as the fields `split(",")` gives (field 0 is
   * ignored, field 1 is the voter id, fields 2-4 the preferences).
   */
  datatype Row = BlankRow | Fields(fields: seq<string>)

  /** Why reading the ballot file aborts the count. */
  datatype IngestError =
    | MissingVoterId(row: nat)
    | BadChoice(row: nat, reason: BallotError)

  /** What reading the ballot file builds: the registry, the count of accepted votes, the votes in order. */
  datatype Intake = Intake(hasVoted: map<string, bool>, totalVotes: nat, ballots: seq<Ballot>)

  /** The end result: how the count ended and how many votes were accepted. */
  datatype Report = Report(outcome: Outcome, totalVotes: nat)

  /** The registry after reading the roll: every eligible id, none has voted. */
  function Registry(roll: seq<string>): map<string, bool>
  {
    map id | id in roll :: false
  }

  /** Field `k` of a row, or `None` (Java's `null`) past the fields `split` kept. */
  function Field(fields: seq<string>, k: nat): Option<string>
  {
    if k < |fields| then Some(fields[k]) else None
  }

  /** `Arrays.copyOfRange(options, 2, 5)`: the three preference fields. */
  function ChoiceTokens(fields: seq<string>): seq<Option<string>>
  {
    [Field(fields, 2), Field(fields, 3), Field(fields, 4)]
  }

  /** The rows that carry a voter id, and that id. */
  predicate HasId(row: Row)
  {
    row.Fields? && |row.fields| >= 2
  }

  /** One pass of the reading loop (lines 47-55) over the row with index `index`. */
  function AcceptRow(st: Intake, row: Row, index: nat): Result<Intake, IngestError>
  {
    match row
    case BlankRow => Ok(st)
    case Fields(fs) =>
      if |fs| < 2 then Err(MissingVoterId(index))
      else
        var id := fs[1];
        if id !in st.hasVoted || st.hasVoted[id] then Ok(st)
        else
          match UniqueChoices(ChoiceTokens(fs))
          case Err(e) => Err(BadChoice(index, e))
          case Ok(prefs) =>
            Ok(Intake(st.hasVoted[id := true], st.totalVotes + 1, st.ballots + [Ballot(id, prefs, 0)]))
  }

  /** Reading the first `n` rows, starting from `registry`; the first error aborts. */
  function Accept(registry: map<string, bool>, rows: seq<Row>, n: nat): Result<Intake, IngestError>
    requires n <= |rows|
  {
    if n == 0 then Ok(Intake(registry, 0, []))
    else
      match Accept(registry, rows, n - 1)
      case Err(e) => Err(e)
      case Ok(st) => AcceptRow(st, rows[n - 1], n - 1)
  }

  /** The ballots that start in the bucket of `c`, in order. */
  function FirstChoosers(xs: seq<Ballot>, c: Choice): seq<Ballot>
  {
    if xs == [] then []
    else
      var x := xs[|xs| - 1];
      FirstChoosers(xs[..|xs| - 1], c) + (if |x.prefs| > 0 && x.prefs[0] == c then [x] else [])
  }

  /** The vote table right after reading: every candidate, each with the votes naming it first. */
  function Bucketed(xs: seq<Ballot>): (b: Buckets)
    ensures forall c :: c in b
  {
    AllChoicesCover();
    map c | c in AllChoices :: FirstChoosers(xs, c)
  }

  /** The whole program on a roll and the data rows of a ballot file. */
  function Election(roll: seq<string>, rows: seq<Row>): Result<Report, IngestError>
  {
    match Accept(Registry(roll), rows, |rows|)
    case Err(e) => Err(e)
    case Ok(st) => Ok(Report(Run(Bucketed(st.ballots)).0, st.totalVotes))
  }

  // ---------------------------------------------------------------------
  // What reading the ballot file accepts

  /** Once reading has failed, later rows do not change the error. */
  lemma {:induction false} AcceptErrPrefix(registry: map<string, bool>, rows: seq<Row>, n: nat, m: nat)
    requires n <= m <= |rows| && Accept(registry, rows, n).Err?
    ensures Accept(registry, rows, m) == Accept(registry, rows, n)
    decreases m - n
  {
    if n < m {
      AcceptErrPrefix(registry, rows, n, m - 1);
    }
  }

  /** The ids of a sequence of votes. */
  function Voters(xs: seq<Ballot>): set<string>
  {
    if xs == [] then {} else Voters(xs[..|xs| - 1]) + {xs[|xs| - 1].id}
  }

  /** The ids carried by the first `n` rows. */
  function RowIds(rows: seq<Row>, n: nat): set<string>
    requires n <= |rows|
  {
    if n == 0 then {}
    else RowIds(rows, n - 1) + (if HasId(rows[n - 1]) then {rows[n - 1].fields[1]} else {})
  }

  /**
   * The reference reading of the first `n` rows: one vote per id the
   * registry holds unvoted, made from the first row with that id.
   */
  function Expected(registry: map<string, bool>, rows: seq<Row>, n: nat): seq<Ballot>
    requires n <= |rows|
  {
    if n == 0 then []
    else
      var row := rows[n - 1];
      Expected(registry, rows, n - 1) +
      if HasId(row) && row.fields[1] in registry && !registry[row.fields[1]] && row.fields[1] !in RowIds(rows, n - 1)
      then
        match UniqueChoices(ChoiceTokens(row.fields))
        case Ok(prefs) => [Ballot(row.fields[1], prefs, 0)]
        case Err(_) => []
      else []
  }

  /** The registry after the first `n` rows: an id has voted once a row carries it. */
  function Marked(registry: map<string, bool>, rows: seq<Row>, n: nat): map<string, bool>
    requires n <= |rows|
  {
    map id | id in registry :: registry[id] || id in RowIds(rows, n)
  }

  lemma {:induction false} VotersMeaning(xs: seq<Ballot>, id: string)
    ensures id in Voters(xs) <==> exists i :: 0 <= i < |xs| && xs[i].id == id
  {
    if xs != [] {
      var ys := xs[..|xs| - 1];
      VotersMeaning(ys, id);
      if id in Voters(ys) {
        var i :| 0 <= i < |ys| && ys[i].id == id;
        assert xs[i].id == id;
      }
      if exists i :: 0 <= i < |xs| && xs[i].id == id {
        var i :| 0 <= i < |xs| && xs[i].id == id;
        if i < |ys| { assert ys[i].id == id; }
      }
    }
  }

  lemma {:induction false} RowIdsMeaning(rows: seq<Row>, n: nat, id: string)
    requires n <= |rows|
    ensures id in RowIds(rows, n) <==> exists k :: 0 <= k < n && HasId(rows[k]) && rows[k].fields[1] == id
  {
    if n > 0 {
      RowIdsMeaning(rows, n - 1, id);
    }
  }

  lemma VotersAppend(xs: seq<Ballot>, x: Ballot)
    ensures Voters(xs + [x]) == Voters(xs) + {x.id}
  {
    assert (xs + [x])[..|xs|] == xs;
  }

  lemma VotersHas(xs: seq<Ballot>, i: nat)
    requires i < |xs|
    ensures xs[i].id in Voters(xs)
  {
    VotersMeaning(xs, xs[i].id);
  }

  /**
   * Reading the first `n` rows, if it does not fail, builds the reference
   * votes and registry, and counts every vote it accepts.
   */
  lemma {:induction false} AcceptMatches(registry: map<string, bool>, rows: seq<Row>, n: nat)
    requires n <= |rows|
    ensures Accept(registry, rows, n).Ok? ==>
              Accept(registry, rows, n).value ==
              Intake(Marked(registry, rows, n), |Expected(registry, rows, n)|, Expected(registry, rows, n))
  {
    if n > 0 && Accept(registry, rows, n).Ok? {
      AcceptMatches(registry, rows, n - 1);
      var row := rows[n - 1];
      if HasId(row) {
        var id := row.fields[1];
        assert Marked(registry, rows, n) ==
          if id in registry && !registry[id] && id !in RowIds(rows, n - 1)
          then Marked(registry, rows, n - 1)[id := true]
          else Marked(registry, rows, n - 1);
      } else {
        assert Marked(registry, rows, n) == Marked(registry, rows, n - 1);
      }
    }
  }

  /**
   * A vote fit to come out of reading the first `n` rows: its id is held
   * unvoted by the registry and carried by one of the rows, it starts at its
   * first preference and holds one to three distinct candidates.
   */
  predicate Admissible(registry: map<string, bool>, rows: seq<Row>, n: nat, x: Ballot)
    requires n <= |rows|
  {
    x.id in registry && !registry[x.id] && x.id in RowIds(rows, n) && x.cursor == 0 && WellFormed(x.prefs)
  }

  /** Every reference vote is admissible. */
  lemma {:induction false} ExpectedAdmissible(registry: map<string, bool>, rows: seq<Row>, n: nat)
    requires n <= |rows|
    ensures forall i :: 0 <= i < |Expected(registry, rows, n)| ==>
              Admissible(registry, rows, n, Expected(registry, rows, n)[i])
  {
    if n > 0 {
      ExpectedAdmissible(registry, rows, n - 1);
      var xs := Expected(registry, rows, n - 1);
      var row := rows[n - 1];
      var ys := Expected(registry, rows, n);
      forall i | 0 <= i < |xs| ensures Admissible(registry, rows, n, xs[i]) {
        assert Admissible(registry, rows, n - 1, xs[i]);
      }
      if HasId(row) && row.fields[1] in registry && !registry[row.fields[1]] && row.fields[1] !in RowIds(rows, n - 1)
         && UniqueChoices(ChoiceTokens(row.fields)).Ok? {
        UniqueChoicesWellFormed(ChoiceTokens(row.fields));
        var x := Ballot(row.fields[1], UniqueChoices(ChoiceTokens(row.fields)).value, 0);
        assert ys == xs + [x];
        assert Admissible(registry, rows, n, x);
        forall i | 0 <= i < |ys| ensures Admissible(registry, rows, n, ys[i]) {
          if i < |xs| { assert ys[i] == xs[i]; }
        }
      } else {
        assert ys == xs;
      }
    }
  }

  /** The reference votes have distinct ids. */
  lemma {:induction false} ExpectedDistinct(registry: map<string, bool>, rows: seq<Row>, n: nat)
    requires n <= |rows|
    ensures var xs := Expected(registry, rows, n);
            Voters(xs) <= RowIds(rows, n) &&
            forall i, j :: 0 <= i < j < |xs| ==> xs[i].id != xs[j].id
  {
    if n > 0 {
      ExpectedDistinct(registry, rows, n - 1);
      var xs := Expected(registry, rows, n - 1);
      var row := rows[n - 1];
      if HasId(row) && row.fields[1] in registry && !registry[row.fields[1]] && row.fields[1] !in RowIds(rows, n - 1)
         && UniqueChoices(ChoiceTokens(row.fields)).Ok? {
        var x := Ballot(row.fields[1], UniqueChoices(ChoiceTokens(row.fields)).value, 0);
        var ys := xs + [x];
        assert Expected(registry, rows, n) == ys;
        VotersAppend(xs, x);
        forall i, j | 0 <= i < j < |ys| ensures ys[i].id != ys[j].id {
          if j == |xs| { VotersHas(xs, i); } else { assert ys[i] == xs[i] && ys[j] == xs[j]; }
        }
      } else {
        assert Expected(registry, rows, n) == xs;
      }
    }
  }

  /** The ids the registry holds unvoted that one of the first `n` rows carries. */
  function Eligible(registry: map<string, bool>, rows: seq<Row>, n: nat): set<string>
    requires n <= |rows|
  {
    set id | id in registry && !registry[id] && id in RowIds(rows, n)
  }

  lemma EligibleNext(registry: map<string, bool>, rows: seq<Row>, n: nat)
    requires 0 < n <= |rows|
    ensures Eligible(registry, rows, n) ==
            Eligible(registry, rows, n - 1) +
            if HasId(rows[n - 1]) && rows[n - 1].fields[1] in registry && !registry[rows[n - 1].fields[1]]
            then {rows[n - 1].fields[1]} else {}
  {
  }

  /**
   * A reading that succeeds gives a vote to exactly the eligible ids: those
   * the registry holds unvoted that some row carries.
   */
  lemma {:induction false} ExpectedVoters(registry: map<string, bool>, rows: seq<Row>, n: nat)
    requires n <= |rows| && Accept(registry, rows, n).Ok?
    ensures Voters(Expected(registry, rows, n)) == Eligible(registry, rows, n)
  {
    if n > 0 {
      AcceptOkPrefix(registry, rows, n);
      ExpectedVoters(registry, rows, n - 1);
      EligibleNext(registry, rows, n);
      var xs := Expected(registry, rows, n - 1);
      var row := rows[n - 1];
      if HasId(row) && row.fields[1] in registry && !registry[row.fields[1]] && row.fields[1] !in RowIds(rows, n - 1) {
        AcceptMatches(registry, rows, n - 1);
        assert UniqueChoices(ChoiceTokens(row.fields)).Ok?;
        VotersAppend(xs, Ballot(row.fields[1], UniqueChoices(ChoiceTokens(row.fields)).value, 0));
      } else {
        assert Expected(registry, rows, n) == xs;
      }
    }
  }

  /** A reading that succeeds succeeded on every prefix. */
  lemma AcceptOkPrefix(registry: map<string, bool>, rows: seq<Row>, n: nat)
    requires 0 < n <= |rows| && Accept(registry, rows, n).Ok?
    ensures Accept(registry, rows, n - 1).Ok?
  {
  }

  // ---------------------------------------------------------------------
  // The table right after reading

  /** A new vote joins the end of the bucket of its first preference. */
  lemma BucketedSnoc(xs: seq<Ballot>, x: Ballot)
    requires |x.prefs| > 0
    ensures Bucketed(xs + [x]) == Bucketed(xs)[x.prefs[0] := Bucketed(xs)[x.prefs[0]] + [x]]
  {
    var ys := xs + [x];
    assert ys[..|xs|] == xs && ys[|ys| - 1] == x;
    var b, b' := Bucketed(xs), Bucketed(ys);
    forall c ensures b'[c] == b[x.prefs[0] := b[x.prefs[0]] + [x]][c] {
      assert b'[c] == FirstChoosers(ys, c);
    }
  }

  /** The table built from votes that start at a first preference puts each vote in the bucket its cursor points at. */
  lemma {:induction false} BucketedWellPlaced(xs: seq<Ballot>)
    requires forall i :: 0 <= i < |xs| ==> xs[i].cursor == 0 && |xs[i].prefs| > 0
    ensures WellPlaced(Bucketed(xs))
  {
    if xs != [] {
      var ys, x := xs[..|xs| - 1], xs[|xs| - 1];
      assert xs == ys + [x];
      BucketedWellPlaced(ys);
      BucketedSnoc(ys, x);
      var b: Buckets, b': Buckets := Bucketed(ys), Bucketed(xs);
      forall c: Choice, i: int | c in b' && 0 <= i < |b'[c]| ensures b'[c][i].cursor < |b'[c][i].prefs| && Holder(b'[c][i]) == c {
        if c != x.prefs[0] || i < |b[c]| { assert b'[c][i] == b[c][i]; }
      }
    }
  }

  /** The table built from a sequence of votes holds their ids, each as often as a vote carries it. */
  lemma {:induction false} BucketedIds(xs: seq<Ballot>)
    requires forall i :: 0 <= i < |xs| ==> |xs[i].prefs| > 0
    ensures TableIds(Bucketed(xs)) == Ids(xs)
  {
    if xs == [] {
      var b := Bucketed(xs);
      forall c | c in b ensures b[c] == [] { }
      EmptyTableIds(b, AllChoices);
    } else {
      var ys, x := xs[..|xs| - 1], xs[|xs| - 1];
      assert xs == ys + [x];
      BucketedIds(ys);
      BucketedSnoc(ys, x);
      AppendIds(Bucketed(ys), x.prefs[0], x);
      IdsAppend(ys, [x]);
      assert IdList([x]) == [x.id];
    }
  }

  /** A table whose buckets are all empty holds no ids. */
  lemma {:induction false} EmptyTableIds(b: Buckets, cs: seq<Choice>)
    requires forall c :: c in b ==> b[c] == []
    ensures BucketIds(b, cs) == multiset{}
  {
    if cs != [] {
      EmptyTableIds(b, cs[1..]);
    }
  }

  /** Votes with distinct ids give each id once. */
  lemma {:induction false} DistinctIds(xs: seq<Ballot>)
    requires forall i, j :: 0 <= i < j < |xs| ==> xs[i].id != xs[j].id
    ensures forall id :: id in Ids(xs) ==> Ids(xs)[id] == 1
  {
    if xs != [] {
      var ys, x := xs[..|xs| - 1], xs[|xs| - 1];
      assert xs == ys + [x];
      DistinctIds(ys);
      IdsAppend(ys, [x]);
      assert IdList([x]) == [x.id];
      if x.id in Ids(ys) {
        var i := IdsIndex(ys, x.id);
        assert xs[i].id == x.id;
      }
    }
  }

  /** Where an id in `Ids(xs)` comes from. */
  lemma {:induction false} IdsIndex(xs: seq<Ballot>, id: string) returns (i: nat)
    requires id in Ids(xs)
    ensures i < |xs| && xs[i].id == id
  {
    if xs[0].id == id {
      i := 0;
    } else {
      assert xs == [xs[0]] + xs[1..];
      IdsAppend([xs[0]], xs[1..]);
      assert IdList([xs[0]]) == [xs[0].id];
      var j := IdsIndex(xs[1..], id);
      i := j + 1;
    }
  }

  // ---------------------------------------------------------------------
  // What the count reports

  /** Distinct ids: as many ids as votes. */
  lemma {:induction false} VotersSize(xs: seq<Ballot>)
    requires forall i, j :: 0 <= i < j < |xs| ==> xs[i].id != xs[j].id
    ensures |Voters(xs)| == |xs|
  {
    if xs != [] {
      var ys, x := xs[..|xs| - 1], xs[|xs| - 1];
      VotersSize(ys);
      VotersMeaning(ys, x.id);
      forall i | 0 <= i < |ys| ensures ys[i].id != x.id {
        assert ys[i] == xs[i];
      }
    }
  }

  /**
   * The table the rounds start from, when reading succeeds: every candidate
   * has a bucket, each vote sits in the bucket of its first preference, no
   * voter is counted twice, and the table counts every accepted vote.
   */
  lemma ReadTable(registry: map<string, bool>, rows: seq<Row>)
    ensures Accept(registry, rows, |rows|).Ok? ==>
              var st := Accept(registry, rows, |rows|).value;
              var b := Bucketed(st.ballots);
              (forall c :: c in b) && WellPlaced(b) && NoRepeatedIds(b) && Counted(b) == st.totalVotes
  {
    if Accept(registry, rows, |rows|).Ok? {
      AcceptMatches(registry, rows, |rows|);
      var xs := Expected(registry, rows, |rows|);
      ExpectedAdmissible(registry, rows, |rows|);
      ExpectedDistinct(registry, rows, |rows|);
      BucketedWellPlaced(xs);
      BucketedIds(xs);
      DistinctIds(xs);
      assert |Ids(xs)| == |xs|;
    }
  }

  /**
   * What the printed result means. The count of accepted votes is the
   * number of eligible voters with a row; a winner holds at least one of
   * them and no more than all, so the printed percentage is defined and at
   * most 100; a tie names at least one candidate; and with no accepted
   * vote all nine candidates tie.
   */
  lemma ElectionFacts(roll: seq<string>, rows: seq<Row>)
    ensures Election(roll, rows).Ok? ==>
              var report := Election(roll, rows).value;
              report.totalVotes == |Eligible(Registry(roll), rows, |rows|)| &&
              (report.outcome.Winner? ==> 0 < report.outcome.votes <= report.totalVotes) &&
              (report.outcome.Tie? ==> report.outcome.tied != {}) &&
              (report.totalVotes == 0 ==> report.outcome == Tie(set c | c in AllChoices))
  {
    var registry := Registry(roll);
    if Election(roll, rows).Ok? {
      AcceptMatches(registry, rows, |rows|);
      var xs := Expected(registry, rows, |rows|);
      ExpectedAdmissible(registry, rows, |rows|);
      ExpectedDistinct(registry, rows, |rows|);
      ExpectedVoters(registry, rows, |rows|);
      VotersSize(xs);
      var b := Bucketed(xs);
      BucketedIds(xs);
      assert |Ids(xs)| == |xs|;
      AllChoicesComplete(Narwhals);
      RunOutcome(b);
      if xs == [] {
        RoundFacts(b);
        assert AllEqual(Tally(b));
        AllChoicesCover();
        assert b.Keys == set c | c in AllChoices;
      }
    }
  }

  /**
   * Every accepted vote is accounted for at the end of the count: it is
   * still in the final table or was exhausted in some round, and the
   * votes still counted plus the exhausted ones are `totalVotes`.
   */
  lemma ElectionConserves(registry: map<string, bool>, rows: seq<Row>)
    ensures Accept(registry, rows, |rows|).Ok? ==>
              var st := Accept(registry, rows, |rows|).value;
              var b := Bucketed(st.ballots);
              TableIds(Run(b).1) + Ids(RunDropped(b)) == Ids(st.ballots) &&
              Counted(Run(b).1) + |RunDropped(b)| == st.totalVotes
  {
    if Accept(registry, rows, |rows|).Ok? {
      var st := Accept(registry, rows, |rows|).value;
      ReadTable(registry, rows);
      AcceptMatches(registry, rows, |rows|);
      ExpectedAdmissible(registry, rows, |rows|);
      BucketedIds(st.ballots);
      RunConserves(Bucketed(st.ballots));
    }
  }

  // ---------------------------------------------------------------------
  // The program

  /** Lines 27-29: a table with an empty bucket for every candidate. */
  method NewVoteTable() returns (t: Table)
    ensures Disjoint(t) && Votes(t) == {}
    ensures Snapshot(t) == Bucketed([])
  {
    t := map[];
    for k := 0 to |AllChoices|
      invariant t == map c | c in AllChoices[..k] :: []
    {
      assert AllChoices[..k + 1] == AllChoices[..k] + [AllChoices[k]];
      t := t[AllChoices[k] := []];
    }
    assert AllChoices[..|AllChoices|] == AllChoices;
    assert Snapshot(t) == Bucketed([]);
  }

  /** Lines 36-41: every id on the roll is eligible and has not voted. */
  method ReadRoll(roll: seq<string>) returns (hasVoted: map<string, bool>)
    ensures hasVoted == Registry(roll)
  {
    hasVoted := map[];
    for i := 0 to |roll|
      invariant hasVoted == Registry(roll[..i])
    {
      assert roll[..i + 1] == roll[..i] + [roll[i]];
      hasVoted := hasVoted[roll[i] := false];
    }
    assert roll[..|roll|] == roll;
  }

  /** Lines 53-55: a new vote joins the bucket of its first preference. */
  method AddVote(t: Table, ghost xs: seq<Ballot>, id: string, prefs: seq<Choice>) returns (t': Table, ghost vote: Vote)
    requires Disjoint(t) && Snapshot(t) == Bucketed(xs) && |prefs| > 0
    ensures fresh(vote) && Votes(t') == Votes(t) + {vote} && Disjoint(t')
    ensures Snapshot(t') == Bucketed(xs + [Ballot(id, prefs, 0)])
  {
    var v := new Vote(id, prefs);
    var first := v.CurrentChoice();
    VotesAppend(t, first, v);
    DisjointAppend(t, first, v);
    SnapshotAppend(t, first, v);
    BucketedSnoc(xs, v.View());
    t' := t[first := t[first] + [v]];
    vote := v;
  }

  /**
   * One pass of the reading loop (lines 47-55): skip a blank row, an
   * unknown id or a repeat voter; otherwise mark the voter, count the vote
   * and put it in the bucket of its first preference.
   */
  method ReadRow(t: Table, ghost xs: seq<Ballot>, hasVoted: map<string, bool>, totalVotes: nat, row: Row, index: nat)
    returns (err: Option<IngestError>, t': Table, hasVoted': map<string, bool>, totalVotes': nat,
             ghost xs': seq<Ballot>, ghost added: set<Vote>)
    requires Disjoint(t) && Snapshot(t) == Bucketed(xs)
    ensures err.Some? ==> AcceptRow(Intake(hasVoted, totalVotes, xs), row, index) == Err(err.value)
    ensures err.None? ==> AcceptRow(Intake(hasVoted, totalVotes, xs), row, index) == Ok(Intake(hasVoted', totalVotes', xs'))
    ensures Disjoint(t') && Snapshot(t') == Bucketed(xs')
    ensures Votes(t') == Votes(t) + added && fresh(added)
  {
    err, t', hasVoted', totalVotes', xs', added := None, t, hasVoted, totalVotes, xs, {};
    ghost var st := Intake(hasVoted, totalVotes, xs);
    if row.Fields? {
      var options := row.fields;
      if |options| < 2 {
        err := Some(MissingVoterId(index));
        return;
      }
      var id := options[1];
      if id in hasVoted && !hasVoted[id] {
        var choices := FindUniqueChoices(ChoiceTokens(options));
        if choices.Err? {
          assert AcceptRow(st, row, index) == Err(BadChoice(index, choices.error));
          err := Some(BadChoice(index, choices.error));
          return;
        }
        var prefs := choices.value;
        assert AcceptRow(st, row, index) == Ok(Intake(hasVoted[id := true], totalVotes + 1, xs + [Ballot(id, prefs, 0)]));
        UniqueChoicesWellFormed(ChoiceTokens(options));
        ghost var vote;
        t', vote := AddVote(t, xs, id, prefs);
        hasVoted', totalVotes', xs', added := hasVoted[id := true], totalVotes + 1, xs + [Ballot(id, prefs, 0)], {vote};
      } else {
        assert AcceptRow(st, row, index) == Ok(st);
      }
    }
  }

  /**
   * Lines 23-56 of `main`: fill the table with an empty bucket per
   * candidate, register the roll, then read the rows in order, skipping
   * blank rows, unknown ids and repeat voters, and appending each new vote
   * to the bucket of its first preference. The first bad row aborts.
   */
  method Ingest(roll: seq<string>, rows: seq<Row>) returns (r: Result<(Table, nat), IngestError>)
    ensures r.Err? <==> Accept(Registry(roll), rows, |rows|).Err?
    ensures r.Err? ==> r.error == Accept(Registry(roll), rows, |rows|).error
    ensures r.Ok? ==> Disjoint(r.value.0) && fresh(Votes(r.value.0))
    ensures r.Ok? ==>
              Snapshot(r.value.0) == Bucketed(Accept(Registry(roll), rows, |rows|).value.ballots) &&
              r.value.1 == Accept(Registry(roll), rows, |rows|).value.totalVotes
  {
    var voteTable := NewVoteTable();
    var hasVoted := ReadRoll(roll);
    var totalVotes := 0;
    ghost var ballots: seq<Ballot> := [];
    ghost var made: set<Vote> := {};
    var n := 0;
    while n < |rows|
      invariant n <= |rows|
      invariant Accept(Registry(roll), rows, n) == Ok(Intake(hasVoted, totalVotes, ballots))
      invariant Disjoint(voteTable) && Snapshot(voteTable) == Bucketed(ballots)
      invariant Votes(voteTable) == made && forall v :: v in made ==> !old(allocated(v))
    {
      var err;
      ghost var added;
      err, voteTable, hasVoted, totalVotes, ballots, added := ReadRow(voteTable, ballots, hasVoted, totalVotes, rows[n], n);
      if err.Some? {
        AcceptErrPrefix(Registry(roll), rows, n + 1, |rows|);
        return Err(err.value);
      }
      made := made + added;
      n := n + 1;
    }
    r := Ok((voteTable, totalVotes));
  }

  /**
   * The whole of `main` after the argument check: read the files into the
   * table, then run the rounds until one candidate is left or the
   * candidates left are tied.
   */
  method CountVotes(roll: seq<string>, rows: seq<Row>) returns (r: Result<Report, IngestError>)
    ensures r == Election(roll, rows)
  {
    var read := Ingest(roll, rows);
    if read.Err? {
      return Err(read.error);
    }
    var (voteTable, totalVotes) := read.value;
    var outcome, _ := Tabulate(voteTable);
    r := Ok(Report(outcome, totalVotes));
  }
}
