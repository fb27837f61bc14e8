/**
 The per-player round of the vocabulary game: the session record that the web
 layer carries between requests, the two word checks the game relies on, and
 the round set-up performed by the index page.
 */
module Round {

  /** The three session variables of one player's round. */
  datatype RoundState = RoundState(jumble: string, targetCount: int, matches: seq<string>)

  /** The two checks the game consults, left abstract: `has(w)` is the shared
      vocabulary's membership test and `contains(jumble, w)` says whether the
      letters of `jumble` are enough to spell `w`. */
  datatype Oracles = Oracles(has: string -> bool, contains: (string, string) -> bool)

  /** Why a round could not be started. */
  datatype StartError = TargetNotPositive(targetCount: int)

  datatype Result<+T> = Ok(value: T) | Err(error: StartError)

  predicate NoDuplicates<T(==)>(s: seq<T>)
  {
    forall i, j :: 0 <= i < j < |s| ==> s[i] != s[j]
  }

  /** The round invariant: a positive target, no word found twice, and every
      found word is a vocabulary word that the jumble can spell. */
  predicate Valid(st: RoundState, o: Oracles)
  {
    && 0 < st.targetCount
    && NoDuplicates(st.matches)
    && forall w :: w in st.matches ==> o.has(w) && o.contains(st.jumble, w)
  }

  function Min(a: int, b: int): int
  {
    if a <= b then a else b
  }

  /** Starting a round from the vocabulary list `words` and the configured
      success count. `jumbled` stands for the randomised jumble builder; the
      caller fixes its random choices. The round fails to start when the target
      count is not positive. */
  function Index(words: seq<string>, successAtCount: int,
                 jumbled: (seq<string>, int) -> string): (r: Result<RoundState>)
    ensures r.Ok? <==> 0 < |words| && 0 < successAtCount
    ensures r.Ok? ==>
      && r.value.matches == []
      && r.value.targetCount <= |words|
      && r.value.targetCount <= successAtCount
      && (r.value.targetCount == |words| || r.value.targetCount == successAtCount)
      && r.value.jumble == jumbled(words, r.value.targetCount)
    ensures r.Err? ==> r.error.targetCount <= 0
  {
    var target := Min(|words|, successAtCount);
    var st := RoundState(jumbled(words, target), target, []);
    if 0 < st.targetCount then Ok(st) else Err(TargetNotPositive(target))
  }

  /** Every round that starts satisfies the round invariant, whatever the
      vocabulary and letter checks are. */
  lemma IndexStartsValid(words: seq<string>, successAtCount: int,
                         jumbled: (seq<string>, int) -> string, o: Oracles)
    requires Index(words, successAtCount, jumbled).Ok?
    ensures Valid(Index(words, successAtCount, jumbled).value, o)
  {
  }
}
