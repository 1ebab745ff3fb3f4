/**
 * One voter's ballot: the preference list built from the row's three
 * candidate tokens (`findUniqueChoices`) and the `Vote` object whose cursor
 * `choiceIndex` walks forward through it (VoteCounter.java, class `Vote`).
 */
module Ballots {
  import opened Wrappers
  import opened Candidates

  /** Why building a preference list fails: the Java code throws in `Choice.valueOf`. */
  datatype BallotError =
    | MissingFirstChoice            // valueOf(null): the mandatory first token is absent
    | UnknownCandidate(token: string) // valueOf(s) for a string that names no candidate

  /** A preference list `findUniqueChoices` can build: one to three distinct candidates. */
  predicate WellFormed(prefs: seq<Choice>)
  {
    1 <= |prefs| <= 3 && NoDuplicates(prefs)
  }

  /** The value of a `Vote` at one moment: its voter, its preferences and its cursor. */
  datatype Ballot = Ballot(id: string, prefs: seq<Choice>, cursor: nat)

  /** The result of `getNextChoice`, with `AllChoicesGoneException` as a value. */
  datatype Next = NextChoice(choice: Choice) | AllChoicesGone

  // ---------------------------------------------------------------------
  // Specification of findUniqueChoices

  /** The mandatory first token resolved to a candidate. */
  function ResolveFirst(token: Option<string>): Result<Choice, BallotError>
  {
    match token
    case None => Err(MissingFirstChoice)
    case Some(s) =>
      match ValueOf(s)
      case None => Err(UnknownCandidate(s))
      case Some(c) => Ok(c)
  }

  /** One optional token: nothing when absent, its candidate when it names one. */
  function ResolveToken(token: Option<string>): Result<seq<Choice>, BallotError>
  {
    match token
    case None => Ok([])
    case Some(s) =>
      match ValueOf(s)
      case None => Err(UnknownCandidate(s))
      case Some(c) => Ok([c])
  }

  /**
   * The tokens `tokens[..n]` resolved in order: the first one is mandatory,
   * later absent ones are skipped, and the first token that fails is the error.
   */
  function Resolve(tokens: seq<Option<string>>, n: nat): Result<seq<Choice>, BallotError>
    requires 1 <= n <= |tokens|
  {
    if n == 1 then
      match ResolveFirst(tokens[0])
      case Err(e) => Err(e)
      case Ok(c) => Ok([c])
    else
      var r := Resolve(tokens, n - 1);
      var t := ResolveToken(tokens[n - 1]);
      if r.Err? then r
      else if t.Err? then Err(t.error)
      else Ok(r.value + t.value)
  }

  /** `xs` with every repetition of an earlier element dropped. */
  function Dedup(xs: seq<Choice>): seq<Choice>
  {
    if xs == [] then []
    else
      var d := Dedup(xs[..|xs| - 1]);
      if xs[|xs| - 1] in d then d else d + [xs[|xs| - 1]]
  }

  /** What `findUniqueChoices(tokens)` returns, or the error it throws. */
  function UniqueChoices(tokens: seq<Option<string>>): Result<seq<Choice>, BallotError>
    requires 1 <= |tokens|
  {
    match Resolve(tokens, |tokens|)
    case Err(e) => Err(e)
    case Ok(cs) => Ok(Dedup(cs))
  }

  /** Position of the first occurrence of `x` in `xs` (`|xs|` when there is none). */
  function FirstIndex(xs: seq<Choice>, x: Choice): (k: nat)
    ensures k <= |xs| && x !in xs[..k]
    ensures x in xs ==> k < |xs| && xs[k] == x
  {
    if xs == [] then 0
    else if xs[0] == x then 0
    else
      assert xs[..1 + FirstIndex(xs[1..], x)] == [xs[0]] + xs[1..][..FirstIndex(xs[1..], x)];
      1 + FirstIndex(xs[1..], x)
  }

  // ---------------------------------------------------------------------
  // Properties of the specification

  lemma {:induction false} FirstIndexAppend(xs: seq<Choice>, y: Choice, x: Choice)
    requires x in xs
    ensures FirstIndex(xs + [y], x) == FirstIndex(xs, x)
  {
    var ys := xs + [y];
    assert ys[0] == xs[0];
    if xs[0] != x {
      assert ys[1..] == xs[1..] + [y];
      assert x in xs[1..];
      FirstIndexAppend(xs[1..], y, x);
      assert FirstIndex(ys, x) == 1 + FirstIndex(ys[1..], x);
    }
  }

  /** Dedup appends an element exactly when it is new. */
  lemma DedupSnoc(xs: seq<Choice>, x: Choice)
    ensures Dedup(xs + [x]) == if x in Dedup(xs) then Dedup(xs) else Dedup(xs) + [x]
  {
    assert (xs + [x])[..|xs|] == xs;
  }

  /** Dedup keeps exactly the distinct elements, each once, and no more of them. */
  lemma {:induction false} DedupElements(xs: seq<Choice>)
    ensures NoDuplicates(Dedup(xs))
    ensures forall x :: x in Dedup(xs) <==> x in xs
    ensures |Dedup(xs)| <= |xs|
  {
    if xs != [] {
      var init, last := xs[..|xs| - 1], xs[|xs| - 1];
      assert xs == init + [last];
      DedupElements(init);
    }
  }

  /** Dedup starts with the first element. */
  lemma {:induction false} DedupFirst(xs: seq<Choice>)
    requires |xs| > 0
    ensures |Dedup(xs)| > 0 && Dedup(xs)[0] == xs[0]
  {
    var init := xs[..|xs| - 1];
    if init != [] {
      DedupFirst(init);
      assert init[0] == xs[0];
    }
  }

  /** Dedup lists the distinct elements in the order of their first occurrence. */
  lemma {:induction false} DedupOrder(xs: seq<Choice>)
    ensures forall i, j :: 0 <= i < j < |Dedup(xs)| ==>
              FirstIndex(xs, Dedup(xs)[i]) < FirstIndex(xs, Dedup(xs)[j])
  {
    if xs != [] {
      var init, last := xs[..|xs| - 1], xs[|xs| - 1];
      assert xs == init + [last];
      DedupOrder(init);
      DedupElements(init);
      DedupElements(xs);
      var d := Dedup(init);
      forall x | x in init ensures FirstIndex(xs, x) == FirstIndex(init, x) {
        FirstIndexAppend(init, last, x);
      }
      if last !in d {
        assert FirstIndex(xs, last) == |xs| - 1;
        forall i, j | 0 <= i < j < |Dedup(xs)|
          ensures FirstIndex(xs, Dedup(xs)[i]) < FirstIndex(xs, Dedup(xs)[j])
        {
          assert Dedup(xs)[i] == d[i] && Dedup(xs)[i] in init;
          if j < |d| {
            assert Dedup(xs)[j] == d[j];
          }
        }
      }
    }
  }

  /**
   * The tokens resolve exactly when the first is present and every present
   * one names a candidate; the result then starts with the first token's
   * candidate and has at most one candidate per token.
   */
  lemma {:induction false} ResolveOk(tokens: seq<Option<string>>, n: nat)
    requires 1 <= n <= |tokens|
    ensures Resolve(tokens, n).Ok? <==>
              tokens[0].Some? &&
              forall i :: 0 <= i < n && tokens[i].Some? ==> ValueOf(tokens[i].value).Some?
    ensures Resolve(tokens, n).Ok? ==>
              1 <= |Resolve(tokens, n).value| <= n &&
              Some(Resolve(tokens, n).value[0]) == ValueOf(tokens[0].value)
  {
    if n > 1 {
      ResolveOk(tokens, n - 1);
    }
  }

  /** The resolved tokens are exactly the candidates the present tokens name. */
  lemma {:induction false} ResolveElements(tokens: seq<Option<string>>, n: nat, c: Choice)
    requires 1 <= n <= |tokens|
    requires Resolve(tokens, n).Ok?
    ensures c in Resolve(tokens, n).value <==> Some(Name(c)) in tokens[..n]
  {
    assert tokens[..n] == tokens[..n - 1] + [tokens[n - 1]];
    if tokens[n - 1].Some? {
      ValueOfName(c, tokens[n - 1].value);
    }
    if n > 1 {
      ResolveElements(tokens, n - 1, c);
    }
  }

  /** Once the tokens up to `n` fail, all of them fail with the same error. */
  lemma {:induction false} ResolveErrPrefix(tokens: seq<Option<string>>, n: nat, m: nat)
    requires 1 <= n <= m <= |tokens|
    requires Resolve(tokens, n).Err?
    ensures Resolve(tokens, m) == Resolve(tokens, n)
  {
    if n < m {
      ResolveErrPrefix(tokens, n, m - 1);
    }
  }

  /**
   * The ballot `findUniqueChoices` builds: it fails exactly when the first
   * token is absent or some present token names no candidate; otherwise it
   * holds one to `|tokens|` distinct candidates, starts with the first
   * token's candidate, and holds exactly the candidates the tokens name.
   */
  lemma UniqueChoicesProperties(tokens: seq<Option<string>>)
    requires 1 <= |tokens|
    ensures UniqueChoices(tokens).Ok? <==>
              tokens[0].Some? &&
              forall i :: 0 <= i < |tokens| && tokens[i].Some? ==> ValueOf(tokens[i].value).Some?
    ensures UniqueChoices(tokens).Ok? ==>
              var r := UniqueChoices(tokens).value;
              1 <= |r| <= |tokens| && NoDuplicates(r) &&
              Some(r[0]) == ValueOf(tokens[0].value) &&
              (forall c :: c in r <==> Some(Name(c)) in tokens)
  {
    ResolveOk(tokens, |tokens|);
    if UniqueChoices(tokens).Ok? {
      var cs := Resolve(tokens, |tokens|).value;
      DedupElements(cs);
      DedupFirst(cs);
      assert tokens[..|tokens|] == tokens;
      forall c ensures c in UniqueChoices(tokens).value <==> Some(Name(c)) in tokens {
        ResolveElements(tokens, |tokens|, c);
      }
    }
  }

  /** Later candidates keep the order in which the tokens first name them. */
  lemma UniqueChoicesOrder(tokens: seq<Option<string>>)
    requires 1 <= |tokens|
    ensures UniqueChoices(tokens).Ok? ==>
              var cs, r := Resolve(tokens, |tokens|).value, UniqueChoices(tokens).value;
              forall i, j :: 0 <= i < j < |r| ==> FirstIndex(cs, r[i]) < FirstIndex(cs, r[j])
  {
    if UniqueChoices(tokens).Ok? {
      DedupOrder(Resolve(tokens, |tokens|).value);
    }
  }

  /** The preference lists built from three tokens are the ones a `Vote` can hold. */
  lemma UniqueChoicesWellFormed(tokens: seq<Option<string>>)
    requires 1 <= |tokens| <= 3
    ensures UniqueChoices(tokens).Ok? ==> WellFormed(UniqueChoices(tokens).value)
  {
    UniqueChoicesProperties(tokens);
  }

  // ---------------------------------------------------------------------
  // findUniqueChoices as VoteCounter writes it, over arrays

  /**
   * Fills a three-slot array with the resolved candidates, skipping absent
   * tokens and candidates already present, then copies the filled prefix
   * into an array of exactly that size.
   */
  method FindUniqueChoices(stringChoices: seq<Option<string>>) returns (r: Result<seq<Choice>, BallotError>)
    requires 1 <= |stringChoices| <= 3
    ensures r == UniqueChoices(stringChoices)
  {
    var size := 1;
    var choices := new Choice[3];
    var first := ResolveFirst(stringChoices[0]);
    if first.Err? {
      ResolveErrPrefix(stringChoices, 1, |stringChoices|);
      return Err(first.error);
    }
    choices[0] := first.value;

    ghost var seen: seq<Choice> := [first.value];
    for i := 1 to |stringChoices|
      invariant 1 <= size <= i
      invariant Resolve(stringChoices, i) == Ok(seen)
      invariant choices[..size] == Dedup(seen)
    {
      if stringChoices[i].None? {
        assert seen + [] == seen;
        continue;
      }
      var temp := ValueOf(stringChoices[i].value);
      if temp.None? {
        ResolveErrPrefix(stringChoices, i + 1, |stringChoices|);
        return Err(UnknownCandidate(stringChoices[i].value));
      }
      var unique := NotYetChosen(choices, size, temp.value);
      DedupSnoc(seen, temp.value);
      if unique {
        choices[size] := temp.value;
        size := size + 1;
      }
      seen := seen + [temp.value];
    }
    ghost var unique := choices[..size];
    assert UniqueChoices(stringChoices) == Ok(unique);

    // keep only the filled slots
    if size != 3 {
      choices := CopyPrefix(choices, size);
    }
    assert choices[..] == unique;
    return Ok(choices[..]);
  }

  /** The duplicate scan of `findUniqueChoices`: is `c` absent from the first `size` slots? */
  method NotYetChosen(choices: array<Choice>, size: nat, c: Choice) returns (unique: bool)
    requires size <= choices.Length
    ensures unique <==> c !in choices[..size]
  {
    unique := true;
    for k := 0 to size
      invariant unique <==> c !in choices[..k]
    {
      if c == choices[k] {
        unique := false;
      }
    }
  }

  /** A new array holding the first `size` slots of `a`. */
  method CopyPrefix(a: array<Choice>, size: nat) returns (b: array<Choice>)
    requires size <= a.Length
    ensures fresh(b) && b[..] == a[..size]
  {
    b := new Choice[size];
    for i := 0 to size
      invariant b[..i] == a[..i]
    {
      b[i] := a[i];
    }
  }

  // ---------------------------------------------------------------------
  // The Vote object

  /**
   * A cast vote. `choices` is fixed at construction; `choiceIndex` is the
   * cursor on the current preference and only moves forward.
   */
  class Vote {
    const id: string
    const choices: seq<Choice>
    var choiceIndex: nat

    /** A new vote points at its first preference. */
    constructor (id: string, choices: seq<Choice>)
      ensures this.id == id && this.choices == choices
      ensures choiceIndex == 0
      ensures |choices| > 0 ==> CurrentChoice() == choices[0]
    {
      this.id := id;
      this.choices := choices;
      choiceIndex := 0;
    }

    /** `getCurrentChoice`: Java indexes the array, so the cursor must be in range. */
    function CurrentChoice(): Choice
      reads this
      requires choiceIndex < |choices|
    {
      choices[choiceIndex]
    }

    /** This vote as a value. */
    function View(): (b: Ballot)
      reads this
      ensures b.id == id && b.prefs == choices && b.cursor == choiceIndex
    {
      Ballot(id, choices, choiceIndex)
    }

    /**
     * `getNextChoice`: moves the cursor one step forward and returns the
     * preference it now points at, or reports that the list is used up.
     */
    method GetNextChoice() returns (n: Next)
      modifies this
      ensures choiceIndex == old(choiceIndex) + 1
      ensures n.AllChoicesGone? <==> choiceIndex >= |choices|
      ensures n.NextChoice? ==> n.choice == CurrentChoice()
    {
      choiceIndex := choiceIndex + 1;
      if choiceIndex >= |choices| {
        return AllChoicesGone;
      }
      return NextChoice(choices[choiceIndex]);
    }
  }
}
