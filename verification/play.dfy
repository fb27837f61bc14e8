/**
 A round played out: the sequence of requests one player makes against the
 same round state, each a word submitted to the `check` handler or a
 `keep_going` page load, with the session saved between requests.
 */
module Play {
  import opened Round
  import opened Judge

  /** One request of a player within a round. */
  datatype Action = Submit(text: string) | KeepGoing

  /** What a request answers: the game page again, or a judged submission. */
  datatype Reply = Page | Judged(outcome: Outcome)

  /** The replies to a run of requests and the round state saved at its end. */
  datatype Trace = Trace(replies: seq<Reply>, final: RoundState)

  /** One request. The `keep_going` handler only reads the vocabulary list, so
      the round passes through it untouched. */
  function Step(a: Action, st: RoundState, o: Oracles): (Reply, RoundState)
  {
    match a
    case KeepGoing => (Page, st)
    case Submit(text) =>
      var v := Check(text, st, o);
      (Judged(v.outcome), v.state)
  }

  /** The requests in order, each seeing the state the previous one saved. */
  function Replay(actions: seq<Action>, st: RoundState, o: Oracles): (t: Trace)
    ensures |t.replies| == |actions|
    ensures forall i :: 0 <= i < |actions| ==> (t.replies[i] == Page <==> actions[i].KeepGoing?)
    ensures t.final.jumble == st.jumble && t.final.targetCount == st.targetCount
    ensures st.matches <= t.final.matches
    ensures |t.final.matches| <= |st.matches| + |actions|
    decreases |actions|
  {
    if actions == [] then Trace([], st)
    else
      var step := Step(actions[0], st, o);
      var rest := Replay(actions[1..], step.1, o);
      Trace([step.0] + rest.replies, rest.final)
  }

  /** Only the submissions of a run, in order. */
  function Submissions(actions: seq<Action>): seq<Action>
  {
    if actions == [] then []
    else (if actions[0].Submit? then [actions[0]] else []) + Submissions(actions[1..])
  }

  /** Only the judged replies of a run, in order. */
  function Judgements(replies: seq<Reply>): seq<Reply>
  {
    if replies == [] then []
    else (if replies[0].Judged? then [replies[0]] else []) + Judgements(replies[1..])
  }

  /** Every word submitted in order, without page loads in between. */
  function SubmitAll(texts: seq<string>): seq<Action>
  {
    seq(|texts|, i requires 0 <= i < |texts| => Submit(texts[i]))
  }

  /** The round invariant holds at the end of every run that starts from it. */
  lemma {:induction false} ReplayPreservesValid(actions: seq<Action>, st: RoundState, o: Oracles)
    requires Valid(st, o)
    ensures Valid(Replay(actions, st, o).final, o)
    decreases |actions|
  {
    if actions != [] {
      var step := Step(actions[0], st, o);
      if actions[0].Submit? {
        CheckPreservesValid(actions[0].text, st, o);
      }
      ReplayPreservesValid(actions[1..], step.1, o);
    }
  }

  /** Page loads through `keep_going` are invisible to the game: dropping them
      leaves the same judged replies and the same final round. */
  lemma {:induction false} KeepGoingIsInvisible(actions: seq<Action>, st: RoundState, o: Oracles)
    ensures Replay(Submissions(actions), st, o).final == Replay(actions, st, o).final
    ensures Replay(Submissions(actions), st, o).replies == Judgements(Replay(actions, st, o).replies)
    decreases |actions|
  {
    if actions != [] {
      var step := Step(actions[0], st, o);
      var rest := Replay(actions[1..], step.1, o);
      var whole := Replay(actions, st, o);
      KeepGoingIsInvisible(actions[1..], step.1, o);
      assert whole.replies == [step.0] + rest.replies;
      assert whole.replies[1..] == rest.replies;
      if actions[0].Submit? {
        var subs := Submissions(actions);
        assert subs == [actions[0]] + Submissions(actions[1..]);
        assert subs[0] == actions[0] && subs[1..] == Submissions(actions[1..]);
        assert Judgements(whole.replies) == [step.0] + Judgements(rest.replies);
      } else {
        assert Submissions(actions) == Submissions(actions[1..]);
        assert Judgements(whole.replies) == Judgements(rest.replies);
      }
    }
  }

  /** Once the target is reached, every later submission is answered with
      "success", whatever it is, and the round stays won. */
  lemma {:induction false} SuccessIsSticky(actions: seq<Action>, st: RoundState, o: Oracles)
    requires |st.matches| >= st.targetCount
    ensures |Replay(actions, st, o).final.matches| >= st.targetCount
    ensures forall i :: 0 <= i < |actions| && actions[i].Submit? ==>
      Replay(actions, st, o).replies[i] == Judged(Success)
    decreases |actions|
  {
    if actions != [] {
      var step := Step(actions[0], st, o);
      var rest := Replay(actions[1..], step.1, o);
      SuccessIsSticky(actions[1..], step.1, o);
      forall i | 0 <= i < |actions| && actions[i].Submit?
        ensures Replay(actions, st, o).replies[i] == Judged(Success)
      {
        if i > 0 {
          assert actions[i] == actions[1..][i - 1];
          assert Replay(actions, st, o).replies[i] == rest.replies[i - 1];
        }
      }
    }
  }

  /** Distinct words, each a vocabulary word the jumble spells and none of
      them found yet: every one of them would be a new match. */
  predicate FreshWords(texts: seq<string>, st: RoundState, o: Oracles)
  {
    && NoDuplicates(texts)
    && forall w :: w in texts ==> o.has(w) && o.contains(st.jumble, w) && w !in st.matches
  }

  /** Accepting the first of a run of fresh words leaves the rest fresh. */
  lemma FreshWordsTail(texts: seq<string>, st: RoundState, o: Oracles)
    requires FreshWords(texts, st, o)
    requires texts != []
    ensures FreshWords(texts[1..], st.(matches := st.matches + [texts[0]]), o)
  {
    var tail := texts[1..];
    forall i, j | 0 <= i < j < |tail|
      ensures tail[i] != tail[j]
    {
      assert tail[i] == texts[i + 1] && tail[j] == texts[j + 1];
    }
    forall v | v in tail
      ensures v in texts && v != texts[0]
    {
      var k :| 0 <= k < |tail| && tail[k] == v;
      assert texts[k + 1] == v;
    }
  }

  /** Submitting a list of words is judging the first and then submitting
      the rest against the round that judgement saved. */
  lemma SubmitAllUnfolds(texts: seq<string>, st: RoundState, o: Oracles)
    requires texts != []
    ensures var v := Check(texts[0], st, o);
      var rest := Replay(SubmitAll(texts[1..]), v.state, o);
      Replay(SubmitAll(texts), st, o) == Trace([Judged(v.outcome)] + rest.replies, rest.final)
  {
    assert SubmitAll(texts)[1..] == SubmitAll(texts[1..]);
  }

  /** The reply to a new match that brings the number of matches to `count`. */
  function NewMatchReply(count: int, target: int): Reply
  {
    Judged(if count >= target then Success else MatchFound)
  }

  /** Accepting the first of a run of fresh words appends it and gives the
      reply that the count of matches then calls for. */
  lemma FirstFreshWord(texts: seq<string>, st: RoundState, o: Oracles)
    requires FreshWords(texts, st, o)
    requires texts != []
    ensures Check(texts[0], st, o).state == st.(matches := st.matches + [texts[0]])
    ensures Judged(Check(texts[0], st, o).outcome) == NewMatchReply(|st.matches| + 1, st.targetCount)
  {
    assert texts[0] in texts;
  }

  /** Prepending the reply to the first new match to those of the rest. */
  lemma NewMatchRepliesShift(whole: seq<Reply>, rest: seq<Reply>, count: int, target: int)
    requires whole == [NewMatchReply(count + 1, target)] + rest
    requires forall i :: 0 <= i < |rest| ==> rest[i] == NewMatchReply(count + 1 + i + 1, target)
    ensures forall i :: 0 <= i < |whole| ==> whole[i] == NewMatchReply(count + i + 1, target)
  {
    forall i | 0 < i < |whole|
      ensures whole[i] == NewMatchReply(count + i + 1, target)
    {
      assert whole[i] == rest[i - 1];
    }
  }

  /** Appending the head of `t` and then its tail is appending `t`. */
  lemma AppendHeadThenTail(s: seq<string>, t: seq<string>)
    requires t != []
    ensures (s + [t[0]]) + t[1..] == s + t
  {
    assert t == [t[0]] + t[1..];
  }

  /** Submitting distinct new words that the vocabulary holds and the jumble
      spells appends each of them in turn; each is answered "match found"
      until the match that reaches the target, from which on the answer is
      "success". */
  lemma {:induction false} NewWordsAreMatchedInOrder(texts: seq<string>, st: RoundState, o: Oracles)
    requires FreshWords(texts, st, o)
    ensures Replay(SubmitAll(texts), st, o).final.matches == st.matches + texts
    ensures forall i :: 0 <= i < |texts| ==>
      Replay(SubmitAll(texts), st, o).replies[i] == NewMatchReply(|st.matches| + i + 1, st.targetCount)
    decreases |texts|
  {
    if texts != [] {
      var next := st.(matches := st.matches + [texts[0]]);
      FirstFreshWord(texts, st, o);
      FreshWordsTail(texts, st, o);
      NewWordsAreMatchedInOrder(texts[1..], next, o);
      SubmitAllUnfolds(texts, st, o);
      AppendHeadThenTail(st.matches, texts);
      NewMatchRepliesShift(Replay(SubmitAll(texts), st, o).replies,
        Replay(SubmitAll(texts[1..]), next, o).replies, |st.matches|, st.targetCount);
    }
  }

  /** A round over the vocabulary "cat", "bat", "cab" with a success count of
      two: "cat" is a new match, "cat" again is already found, and "bat" wins
      the round, provided the jumble spells both words. */
  lemma CatBatRound(jumbled: (seq<string>, int) -> string, o: Oracles)
    requires o.has("cat") && o.has("bat")
    requires o.contains(jumbled(["cat", "bat", "cab"], 2), "cat")
    requires o.contains(jumbled(["cat", "bat", "cab"], 2), "bat")
    ensures Index(["cat", "bat", "cab"], 2, jumbled).Ok?
    ensures var st := Index(["cat", "bat", "cab"], 2, jumbled).value;
      var t := Replay([Submit("cat"), Submit("cat"), Submit("bat")], st, o);
      && t.replies == [Judged(MatchFound), Judged(AlreadyFound), Judged(Success)]
      && t.final.matches == ["cat", "bat"]
  {
    var st := Index(["cat", "bat", "cab"], 2, jumbled).value;
    var actions := [Submit("cat"), Submit("cat"), Submit("bat")];
    var v1 := Check("cat", st, o);
    assert v1.state.matches == ["cat"];
    var v2 := Check("cat", v1.state, o);
    assert v2.state == v1.state;
    assert "bat" != "cat";
    var v3 := Check("bat", v2.state, o);
    assert v3.state.matches == ["cat", "bat"];
    var t3 := Replay(actions[2..], v2.state, o);
    assert actions[2..][1..] == [];
    assert t3.replies == [Judged(Success)];
    var t2 := Replay(actions[1..], v1.state, o);
    assert actions[1..][1..] == actions[2..];
    assert t2.replies == [Judged(AlreadyFound), Judged(Success)];
  }
}
