# Instant-runoff vote counter, modelled in Dafny

`VoteCounter.java` counts a student election with up to three ranked
preferences per ballot.

1. It reads a roll of eligible student ids. This fills the `hasVoted`
   registry.
2. It reads the ballot rows. Blank spreadsheet rows are skipped. Rows whose
   voter is not on the roll, or has already voted, are also skipped. Every
   other row becomes a `Vote`.
3. Each `Vote` holds its distinct preferences (`findUniqueChoices`) and a
   cursor, `choiceIndex`.
4. It puts every vote in the bucket of its first choice. The vote table
   starts with all nine candidates.
5. It then repeats `removeLowestChoice` until one candidate is left.
   - Each call reports a tie when all candidates left have equal counts.
   - Otherwise it removes a candidate with the fewest votes.
   - Each orphaned vote moves on to its next preference that is still in
     the table. A vote that has no such preference is dropped.
6. The last candidate left wins. If a tie is reported, every candidate
   still in the table is named.

The model follows the program's structure in six modules:

- `Wrappers`: `Option` and `Result`.
- `Candidates`: the enum `Choice`, its declaration order and `Choice.valueOf`.
- `Ballots`: the `Vote` class, whose cursor is a mutable field. It also
  holds `findUniqueChoices` as a method over arrays. That method is proved
  equal to a value specification, `UniqueChoices`, which dedups the
  resolved tokens.
- `Rounds`: a value specification of one call of `removeLowestChoice`
  (`Round`) and of the whole round loop (`Run`). It also holds the lemmas
  about them: which candidate is eliminated, where each orphaned ballot
  goes, conservation of ballots, and what the loop's outcome is.
- `Tabulation`: the imperative round engine.
  - The vote table is a `map<Choice, seq<Vote>>`, and `Vote` objects are
    mutated in place.
  - `ScanBuckets` is the counting loop. `AdvancePast` is the inner
    `getNextChoice` loop. `MoveOrphans` is the redistribution loop.
  - `RemoveLowestChoice` and `Tabulate` run the round loop of `main`.
  - Each method is proved to compute its value specification on the
    value snapshot (`Snapshot`) of the table.
- `Ingestion`: the table set-up, the roll and the ballot-reading loop
  (`Ingest`, specified by the fold `Accept`), plus the whole program
  `CountVotes`.
  - `CountVotes` is proved equal to `Election`.
  - The facts about `Election` are proved on the value side: voter ids are
    unique, votes are counted once per eligible voter, and winner and tie
    facts hold.

Hash-table iteration is replaced by the declaration order of `Choice`. That
order decides which of several equally low candidates is removed: the first
one in declaration order. It also matches how `removeLowestChoice` is
written, with a strict `<` that keeps the first minimum it meets.

Exceptions become values:

- `TieResultsException` becomes the `Tied` step and the `Tie` outcome.
- `AllChoicesGoneException` becomes `AllChoicesGone`.
- The uncaught exceptions that end the program while ballots are read
  become an `IngestError`:
  - `options[1]` on a row that is too short gives `MissingVoterId`.
  - `Choice.valueOf(null)` gives `BadChoice` with `MissingFirstChoice`.
  - `Choice.valueOf` of an unknown string gives `BadChoice` with
    `UnknownCandidate`.

In these edge cases the model does what the code does:

- An empty preference field between two filled ones (`x,id,A,,C`) reaches
  `Choice.valueOf("")` and aborts the count. Only trailing empty fields,
  which `split` drops, count as absent preferences.
- Only the exact row `,,,,` is skipped as blank. Any other all-empty row
  splits to fewer than two fields, so `options[1]` fails (`MissingVoterId`).
- Zero accepted votes are not rejected. All nine counts are then equal,
  and the program reports a tie among all candidates
  (`Ingestion.ElectionFacts`).
- The vote table starts with every candidate. Candidates nobody ranked
  first therefore sit in the table with zero votes, and are eliminated
  first.

## Model

| member | source | states |
|---|---|---|
| Candidates.AllChoicesComplete | VoteCounter.java:170-172 | every candidate appears in the declaration-order list, which has nine distinct entries |
| Candidates.Ordinal | VoteCounter.java:170-172 | a candidate's ordinal is its position in declaration order |
| Candidates.NamesDistinct | VoteCounter.java:170-172 | two candidates with the same name are the same candidate |
| Candidates.LookupFinds | VoteCounter.java:131 | a name lookup returns a candidate with exactly that name, or fails only when no candidate has it |
| Candidates.ValueOfName | VoteCounter.java:131 | `valueOf` maps a string to a candidate exactly when the string is that candidate's name |
| Ballots.ResolveOk | VoteCounter.java:131-136 | resolving the tokens succeeds iff the first token is present and every present token names a candidate; the result starts with the first token's candidate |
| Ballots.ResolveElements | VoteCounter.java:134-136 | the resolved list holds exactly the candidates named by the present tokens |
| Ballots.ResolveErrPrefix | VoteCounter.java:131-136 | the first failing token decides the error; later tokens do not change it |
| Ballots.UniqueChoicesProperties | VoteCounter.java:127-153 | `findUniqueChoices` succeeds iff the first token is present and all present tokens are names; the result is duplicate-free, at most as long as the input, starts with the first choice, and contains exactly the named candidates |
| Ballots.UniqueChoicesOrder | VoteCounter.java:134-142 | kept candidates appear in the order the tokens first name them |
| Ballots.UniqueChoicesWellFormed | VoteCounter.java:130-141 | from three tokens the result has one to three distinct candidates |
| Ballots.DedupElements | VoteCounter.java:137-141 | dropping repeats leaves a duplicate-free list with the same elements, no longer than the input |
| Ballots.DedupFirst | VoteCounter.java:131 | the first element always survives the uniqueness filter |
| Ballots.DedupOrder | VoteCounter.java:141 | survivors keep the order of their first occurrences |
| Ballots.FirstIndexAppend | VoteCounter.java:137-141 | appending does not move the first occurrence of an element already present |
| Ballots.FindUniqueChoices | VoteCounter.java:127-153 | the array-based loop returns exactly `UniqueChoices` of its tokens, including the error of the first unparsable token |
| Ballots.NotYetChosen | VoteCounter.java:137-140 | the inner loop's `unique` is true iff the candidate is not among the first `size` choices |
| Ballots.CopyPrefix | VoteCounter.java:145-151 | the resized array is a fresh array holding exactly the first `size` choices |
| Ballots.Vote.constructor | VoteCounter.java:187-191 | a new vote keeps its id and choices and points at its first choice |
| Ballots.Vote.GetNextChoice | VoteCounter.java:205-209 | the cursor moves one step; it reports exhaustion iff the cursor runs past the end, else returns the new current choice |
| Rounds.LowestAmongIsFirstMinimum | VoteCounter.java:98-109 | the scan over a candidate list finds nothing iff no listed candidate is in the table; otherwise its pick has the least count and precedes every other listed candidate with that count |
| Rounds.LowestIsFirstMinimum | VoteCounter.java:98-109 | the lowest candidate exists iff the table is non-empty; it has the least count, and every candidate earlier in declaration order has strictly more |
| Rounds.NextLive | VoteCounter.java:115-116 | the next live preference from a position: every skipped preference is eliminated, and the one reached is live or past the end |
| Rounds.TransferMeaning | VoteCounter.java:113-118 | a vote transfers iff a later preference is still live; it then keeps id and preferences, and its cursor moves to the first live later preference, past only eliminated ones |
| Rounds.RoundFacts | VoteCounter.java:93-120 | a round reports a tie iff all counts are equal and then changes nothing; otherwise it removes exactly one candidate, one with the least count while another has more, reports its count, and leaves one key fewer |
| Rounds.EliminateShrinks | VoteCounter.java:112 | eliminating removes exactly the loser's key |
| Rounds.EliminateBuckets | VoteCounter.java:113-117 | after an elimination each surviving bucket is its old contents followed by the orphans that move to it, in order |
| Rounds.RedistributeBuckets | VoteCounter.java:113-117 | redistributing appends to each bucket exactly the ballots whose next live preference it is |
| Rounds.EliminateConserves | VoteCounter.java:112-119 | an elimination neither creates nor loses ballots: survivors plus dropped ballots equal the ballots before, as voter-id multisets and as counts |
| Rounds.RedistributeIds | VoteCounter.java:113-119 | redistributing a list adds each ballot to one bucket or drops it |
| Rounds.EliminateKeepsIdsUnique | VoteCounter.java:112-119 | no voter id sits twice in the table after an elimination, and dropped ballots leave the table |
| Rounds.EliminateWellPlaced | VoteCounter.java:113-117 | after an elimination every ballot sits in the bucket of the candidate its cursor points at |
| Rounds.RedistributeWellPlaced | VoteCounter.java:113-117 | redistribution keeps every ballot in the bucket of its current choice |
| Rounds.RemovedLeavesBallots | VoteCounter.java:110-119 | a round that removes a candidate leaves some bucket non-empty |
| Rounds.OnlyKey | VoteCounter.java:84 | the winner picked from a one-candidate table is that table's only key |
| Rounds.RunOutcome | VoteCounter.java:64-86 | the loop ends on a subset of candidates and ballots; a tie names exactly the candidates left, all with equal counts; a winner is the only one left, with between one vote and all counted ballots; placement and unique ids are preserved |
| Rounds.FinishOutcome | VoteCounter.java:72-86 | the same outcome facts hold for the loop test after a removal that left a ballot |
| Rounds.RunConserves | VoteCounter.java:64-86 | over the whole round loop no ballot is lost or invented: the final table's voter ids plus the ids of every ballot exhausted in some round (`RunDropped`) are the starting table's ids, and the counts add up the same way |
| Rounds.BucketWithinTable | VoteCounter.java:86 | a bucket never holds more ballots than the whole table |
| Rounds.BucketIdsRemove | VoteCounter.java:112 | removing a bucket removes exactly its voter ids from the table |
| Rounds.BucketIdsUpdate | VoteCounter.java:117 | replacing a bucket swaps exactly its voter ids |
| Rounds.PlaceOneIds | VoteCounter.java:114-118 | moving one ballot either adds its id to the table or drops it |
| Tabulation.ScanBuckets | VoteCounter.java:94-109 | the scan loop's `allChoicesEqual` is "all counts equal"; `lowestOption` is the first-in-order minimum, with its count, and is null iff the table is empty, in which case the count stays -1 |
| Tabulation.LastCountIsAKey | VoteCounter.java:99-108 | `lastVoteCount` is -1 iff no candidate was scanned, else it is some scanned candidate's count |
| Tabulation.EqualAmongAll | VoteCounter.java:99 | comparing neighbouring counts finds no difference iff all counts are equal |
| Tabulation.TallySnapshot | VoteCounter.java:98-108 | counting the heap table and its value snapshot gives the same counts |
| Tabulation.AdvancePast | VoteCounter.java:115-116 | `getNextChoice` is repeated until a live candidate or exhaustion; the cursor ends at the next live preference |
| Tabulation.MoveVote | VoteCounter.java:114-118 | moving one orphan changes the table exactly as `PlaceOne` does on its snapshot |
| Tabulation.MoveNext | VoteCounter.java:114-118 | one pass of the orphan loop extends the snapshot by `PlaceOne` of the next orphan's view, so the table equals `Redistribute` of the orphans handled so far; the orphans not yet moved stay outside the table and unchanged |
| Tabulation.MoveOrphans | VoteCounter.java:113-119 | the orphan loop changes the table exactly as `Redistribute` of the orphans' views |
| Tabulation.RemoveCandidate | VoteCounter.java:112-119 | removing the loser and moving its votes gives `Eliminate` of the snapshot |
| Tabulation.RemoveLowestChoice | VoteCounter.java:93-120 | the method reports what `Round` reports on the table's snapshot and leaves the table `Round` gives; votes stay in distinct buckets |
| Tabulation.Tabulate | VoteCounter.java:64-86 | the round loop of `main` yields `Run`'s outcome and final table on the initial snapshot |
| Ingestion.AcceptErrPrefix | VoteCounter.java:46-56 | the first row that throws decides the error; later rows do not change it |
| Ingestion.AcceptMatches | VoteCounter.java:46-56 | a successful read gives the registry with exactly the listed voters who appeared marked, their count, and one ballot per such voter in row order, from their first row |
| Ingestion.ExpectedAdmissible | VoteCounter.java:50-53 | every accepted ballot belongs to a listed voter who had not voted before, has its cursor at the first choice and one to three distinct choices |
| Ingestion.ExpectedDistinct | VoteCounter.java:50-51 | accepted ballots come from voters in the rows and never share a voter id |
| Ingestion.ExpectedVoters | VoteCounter.java:50-52 | the accepted voters are exactly the listed, not yet voted ids that appear in the rows |
| Ingestion.AcceptOkPrefix | VoteCounter.java:46-56 | a successful read of n rows was successful after n-1 rows |
| Ingestion.BucketedWellPlaced | VoteCounter.java:55 | every fresh vote sits in the bucket of its first choice |
| Ingestion.BucketedIds | VoteCounter.java:55 | the initial table holds exactly the accepted ballots' ids |
| Ingestion.VotersSize | VoteCounter.java:52 | distinct voters are as many as their ballots |
| Ingestion.ReadTable | VoteCounter.java:27-56 | after reading, the table has every candidate, each ballot in its first choice's bucket, no id twice, and `totalVotes` ballots |
| Ingestion.ElectionFacts | VoteCounter.java:13-86 | `totalVotes` is the number of eligible voters who cast a row; a winner has at least one vote and at most `totalVotes`; a tie names someone; with no votes the result is a tie among all nine |
| Ingestion.ElectionConserves | VoteCounter.java:46-86 | every accepted vote ends either in the final table or among the ballots exhausted on the way, and the two counts add up to `totalVotes` |
| Ingestion.NewVoteTable | VoteCounter.java:26-29 | the new table has every candidate with an empty bucket |
| Ingestion.ReadRoll | VoteCounter.java:34-41 | the registry maps every listed id to not yet voted |
| Ingestion.AddVote | VoteCounter.java:53-55 | a fresh vote is appended to its first choice's bucket |
| Ingestion.ReadRow | VoteCounter.java:47-55 | one pass of the reading loop does what `AcceptRow` says, including its errors |
| Ingestion.Ingest | VoteCounter.java:23-56 | reading fails iff `Accept` fails, with the same error; otherwise it builds a table of fresh votes whose snapshot is the bucketing of the accepted ballots, with `totalVotes` |
| Ingestion.CountVotes | VoteCounter.java:13-86 | the whole program computes `Election`: the outcome of the round loop over the bucketed ballots, or the reading error |

## Left out

- Java's 32-bit `int` (`totalVotes++` at line 52, bucket sizes from `LinkedList.size()`) is modelled as an unbounded integer. Wrap-around would need more than 2^31 distinct roll ids.
- File I/O: the `Scanner`s, the header lines they skip and the `IOException` path. The roll is given as its ids, and the ballot rows as the fields `split(",")` returns (`Row`).
- Printing: `printCurrentResults`, the removal and winner lines, and `Vote.toString`.
- The argument-count check and `System.exit`.
- The winner's percentage is a floating-point division. The model reports the winner's vote count and `totalVotes`, and `Ingestion.ElectionFacts` bounds their ratio.
- `Hashtable` iteration order is unspecified in Java. The model iterates in declaration order, so the tie-break and the winner's key follow that order, and a tie is reported as a set.
- `getCurrentChoice` is modelled as `Ballots.Vote.CurrentChoice`, a function with no contract of its own.
- Ballots.Vote: the preferences are an immutable sequence, not the `Choice[]` array, because nothing writes to that array after construction.
