/**
 * The closed set of candidates of the election (the Java enum `Choice`),
 * its declaration order, which the model uses wherever VoteCounter iterates
 * its hash table, and the lookup of a candidate by its name (`Choice.valueOf`).
 */
module Candidates {
  import opened Wrappers

  datatype Choice =
    | Narwhals | Cobras | Swifts | Volts | Isotopes | Scientists | Robots | Geckos | Dingisos

  /** Every candidate, in declaration order (`Choice.values()`). */
  const AllChoices: seq<Choice> :=
    [Narwhals, Cobras, Swifts, Volts, Isotopes, Scientists, Robots, Geckos, Dingisos]

  /** The position of a candidate in declaration order (`Choice.ordinal()`). */
  function Ordinal(c: Choice): (k: nat)
    ensures k < |AllChoices| && AllChoices[k] == c
  {
    match c
    case Narwhals => 0
    case Cobras => 1
    case Swifts => 2
    case Volts => 3
    case Isotopes => 4
    case Scientists => 5
    case Robots => 6
    case Geckos => 7
    case Dingisos => 8
  }

  /** The identifier a candidate is written as in a ballot row (`Choice.name()`). */
  function Name(c: Choice): string
  {
    match c
    case Narwhals => "Narwhals"
    case Cobras => "Cobras"
    case Swifts => "Swifts"
    case Volts => "Volts"
    case Isotopes => "Isotopes"
    case Scientists => "Scientists"
    case Robots => "Robots"
    case Geckos => "Geckos"
    case Dingisos => "Dingisos"
  }

  /** No candidate is listed twice. */
  predicate NoDuplicates<T(==)>(s: seq<T>)
  {
    forall i, j :: 0 <= i < j < |s| ==> s[i] != s[j]
  }

  /** The first candidate among `cs` whose name is exactly `s`. */
  function Lookup(s: string, cs: seq<Choice>): Option<Choice>
  {
    if cs == [] then None
    else if Name(cs[0]) == s then Some(cs[0])
    else Lookup(s, cs[1..])
  }

  /**
   * `Choice.valueOf(s)`: the candidate whose name is exactly `s`; `None`
   * where Java throws IllegalArgumentException.
   */
  function ValueOf(s: string): Option<Choice>
  {
    Lookup(s, AllChoices)
  }

  /** Declaration order lists every candidate exactly once. */
  lemma AllChoicesComplete(c: Choice)
    ensures c in AllChoices
    ensures NoDuplicates(AllChoices)
    ensures |AllChoices| == 9
  {
    assert AllChoices[Ordinal(c)] == c;
  }

  /** A candidate among the first `i` in declaration order has an ordinal below `i`. */
  lemma OrdinalBefore(c: Choice, i: nat)
    requires i <= |AllChoices|
    ensures c in AllChoices[..i] ==> Ordinal(c) < i
  {
    if c in AllChoices[..i] {
      var k :| 0 <= k < i && AllChoices[k] == c;
      AllChoicesComplete(c);
    }
  }

  /** Every candidate appears in declaration order. */
  lemma AllChoicesCover()
    ensures forall c: Choice :: c in AllChoices
  {
    forall c: Choice ensures c in AllChoices {
      AllChoicesComplete(c);
    }
  }

  /** Names are distinct, so a name names one candidate. */
  lemma {:induction false} NamesDistinct(c: Choice, d: Choice)
    ensures Name(c) == Name(d) ==> c == d
  {
    if Name(c) == Name(d) {
      assert Name(c)[..2] == Name(d)[..2];
      assert |Name(c)| == |Name(d)|;
    }
  }

  lemma {:induction false} LookupFinds(s: string, cs: seq<Choice>)
    ensures Lookup(s, cs).Some? ==> Lookup(s, cs).value in cs && Name(Lookup(s, cs).value) == s
    ensures Lookup(s, cs).None? ==> forall c :: c in cs ==> Name(c) != s
  {
    if cs != [] && Name(cs[0]) != s {
      LookupFinds(s, cs[1..]);
    }
  }

  /** `valueOf` inverts `name`, and it finds a candidate only by its exact name. */
  lemma ValueOfName(c: Choice, s: string)
    ensures ValueOf(Name(c)) == Some(c)
    ensures ValueOf(s) == Some(c) <==> s == Name(c)
  {
    AllChoicesComplete(c);
    LookupFinds(Name(c), AllChoices);
    LookupFinds(s, AllChoices);
    var r := ValueOf(Name(c));
    assert r.Some?;
    NamesDistinct(r.value, c);
    if ValueOf(s).Some? {
      NamesDistinct(ValueOf(s).value, c);
    }
  }
}
