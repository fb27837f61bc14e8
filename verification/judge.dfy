/**
 Judging one submitted word against a player's round: the four-way
 classification of the `check` handler, the append on a new match, and the
 "success" override once the target count is reached.
 */
module Judge {
  import opened Round

  /** The message tag of a reply to a submission. */
  datatype Outcome = MatchFound | AlreadyFound | NotInList | CantBeMade | Success

  /** The tag as it appears in the reply's "message" field. */
  function Message(oc: Outcome): string
  {
    match oc
    case MatchFound => "match found"
    case AlreadyFound => "already found"
    case NotInList => "not in list"
    case CantBeMade => "cant be made"
    case Success => "success"
  }

  /** Distinct outcomes are told apart by their message alone. */
  lemma MessageInjective(a: Outcome, b: Outcome)
    requires Message(a) == Message(b)
    ensures a == b
  {
  }

  /** The `if/elif` chain of the handler, in its own order. `matched` is the
      vocabulary verdict and `inJumble` the letter verdict on `text`. Its last
      branch is the one the handler guards with a failing assertion; here it
      is proved dead. */
  function Classify(text: string, matches: seq<string>, matched: bool, inJumble: bool): (r: Outcome)
    ensures r != Success
    ensures r == MatchFound <==> matched && inJumble && text !in matches
    ensures r == AlreadyFound <==> text in matches
    ensures r == NotInList <==> text !in matches && !matched
    ensures r == CantBeMade <==> text !in matches && matched && !inJumble
  {
    if matched && inJumble && text !in matches then MatchFound
    else if text in matches then AlreadyFound
    else if !matched then NotInList
    else if !inJumble then CantBeMade
    else assert false; CantBeMade
  }

  /** The rules as a strict precedence order: a repeat first, then a word
      outside the vocabulary, then a word the jumble cannot spell, and only
      then a new match. */
  function ByPrecedence(text: string, matches: seq<string>, matched: bool, inJumble: bool): Outcome
  {
    if text in matches then AlreadyFound
    else if !matched then NotInList
    else if !inJumble then CantBeMade
    else MatchFound
  }

  /** The handler's order of tests gives the same verdict as the precedence
      order, for every combination of the three facts. */
  lemma ClassifyFollowsPrecedence(text: string, matches: seq<string>, matched: bool, inJumble: bool)
    ensures Classify(text, matches, matched, inJumble) == ByPrecedence(text, matches, matched, inJumble)
  {
  }

  /** A submission that becomes a new match. */
  predicate Accepts(o: Oracles, st: RoundState, text: string)
  {
    o.has(text) && o.contains(st.jumble, text) && text !in st.matches
  }

  /** The reply to a submission and the round as saved afterwards. */
  datatype Verdict = Verdict(outcome: Outcome, state: RoundState)

  /** The `check` handler on the submitted `text`. */
  function Check(text: string, st: RoundState, o: Oracles): (v: Verdict)
    ensures v.state.jumble == st.jumble && v.state.targetCount == st.targetCount
    ensures Accepts(o, st, text) ==> v.state.matches == st.matches + [text]
    ensures !Accepts(o, st, text) ==> v.state == st
    ensures v.outcome == Success <==> |v.state.matches| >= st.targetCount
    ensures v.outcome != Success ==>
      v.outcome == Classify(text, st.matches, o.has(text), o.contains(st.jumble, text))
  {
    var inJumble := o.contains(st.jumble, text);
    var matched := o.has(text);
    var tag := Classify(text, st.matches, matched, inJumble);
    var matches := if tag == MatchFound then st.matches + [text] else st.matches;
    var outcome := if |matches| >= st.targetCount then Success else tag;
    Verdict(outcome, st.(matches := matches))
  }

  /** Appending a word not yet present keeps a sequence free of duplicates. */
  lemma AppendFreshKeepsNoDuplicates(s: seq<string>, w: string)
    requires NoDuplicates(s)
    requires w !in s
    ensures NoDuplicates(s + [w])
  {
    var t := s + [w];
    forall i, j | 0 <= i < j < |t|
      ensures t[i] != t[j]
    {
      if j == |s| {
        assert t[i] == s[i] && s[i] in s;
      } else {
        assert t[i] == s[i] && t[j] == s[j];
      }
    }
  }

  /** Judging a submission preserves the round invariant. */
  lemma CheckPreservesValid(text: string, st: RoundState, o: Oracles)
    requires Valid(st, o)
    ensures Valid(Check(text, st, o).state, o)
  {
    if Accepts(o, st, text) {
      AppendFreshKeepsNoDuplicates(st.matches, text);
    }
  }

  /** A rejected submission leaves the round as it was, so submitting it again
      gives the same reply and the same round. */
  lemma RejectionIsIdempotent(text: string, st: RoundState, o: Oracles)
    requires !Accepts(o, st, text)
    ensures Check(text, st, o).state == st
    ensures Check(text, Check(text, st, o).state, o) == Check(text, st, o)
  {
  }

  /** A word just matched is reported as already found when it is submitted
      again (unless the target is reached), although it is still a vocabulary
      word the jumble can spell, and the round does not change. */
  lemma ResubmittedMatchIsAlreadyFound(text: string, st: RoundState, o: Oracles)
    requires Accepts(o, st, text)
    ensures var st' := Check(text, st, o).state;
      && Check(text, st', o).state == st'
      && Check(text, st', o).outcome ==
         (if |st'.matches| >= st.targetCount then Success else AlreadyFound)
  {
  }

  /** Once the target count is reached every submission, whatever its
      classification, is answered with "success"; a new valid word is still
      appended to the matches. */
  lemma SuccessOverridesAnyClassification(text: string, st: RoundState, o: Oracles)
    requires |st.matches| >= st.targetCount
    ensures Check(text, st, o).outcome == Success
    ensures Accepts(o, st, text) ==> Check(text, st, o).state.matches == st.matches + [text]
  {
  }
}
