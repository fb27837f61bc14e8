# Vocabulary jumble game: round state and submission judging

A Dafny model of the game logic of a small web word game. At the start of a
round the player is shown a jumble of letters built from some words of a fixed
vocabulary, and a target number of words to find. Each word the player submits
is judged: it is a new match (and is remembered), was already found, is not in
the vocabulary, or cannot be made from the jumble's letters. Once the player has
as many matches as the target, every reply is "success".

The model has three modules:

- `Round` (round.dfy): the per-player session record `RoundState(jumble,
  targetCount, matches)`, the round invariant `Valid`, and `Index`, the round
  set-up of the index page.
- `Judge` (judge.dfy): the `check` handler. `Classify` is its `if/elif` chain,
  `Check` adds the append on a new match and the "success" override.
- `Play` (play.dfy): a round played as a sequence of requests (submissions and
  `keep_going` page loads), each seeing the session the previous one saved.

The vocabulary test `Vocab.has` and the letter test `LetterBag.contains` are
not part of this model; they are abstract function values bundled in
`Round.Oracles(has, contains)`, and every property holds for every choice of
them. The randomised jumble builder `jumbled` is likewise a function value that
the caller of `Index` supplies.

The handler tests a submission in the order new match, already found, not in
list, cannot be made. `ByPrecedence` states the rules as a strict precedence
order instead (already found, then not a word, then not spellable, then new
match), and `ClassifyFollowsPrecedence` proves the two agree on all inputs.

A win is not only the result of a new match: the handler replaces whatever
reply it computed by "success" whenever the number of matches has reached the
target. A submission made after the round is won is therefore also answered
"success" (`SuccessOverridesAnyClassification`, `SuccessIsSticky`), and a new
valid word submitted then is still appended to the matches
(`SuccessOverridesAnyClassification`, following from `Check`).

## Model

| member | source | states |
|---|---|---|
| Round.Index | vocab/flask_vocab.py:38-48 | the target is the smaller of the vocabulary size and the success count; matches start empty; the jumble is built for that target; the round starts exactly when both the vocabulary and the success count are positive, and otherwise fails with the non-positive target |
| Round.IndexStartsValid | vocab/flask_vocab.py:41-48 | a started round satisfies the round invariant (positive target, no duplicate matches, every match a spellable vocabulary word) for any vocabulary and letter tests |
| Judge.Message | vocab/flask_vocab.py:99-123 | the "message" string of each reply: "match found", "already found", "not in list", "cant be made", "success"; its distinctness is stated by `MessageInjective` |
| Judge.MessageInjective | vocab/flask_vocab.py:95-123 | the five reply message tags are pairwise distinct, so the tag identifies the outcome |
| Judge.Classify | vocab/flask_vocab.py:95-119 | never "success"; "match found" iff the word is in the vocabulary, spellable and not yet found; "already found" iff it was found before; "not in list" iff not found before and not in the vocabulary; "cant be made" iff not found before, in the vocabulary and not spellable; the final failing-assertion branch is unreachable |
| Judge.ClassifyFollowsPrecedence | vocab/flask_vocab.py:95-115 | the handler's order of tests gives the same verdict as the order already found, not in list, cannot be made, new match |
| Judge.Check | vocab/flask_vocab.py:88-123 | jumble and target are never changed; an accepted word is appended to the matches and nothing else changes; a rejected word leaves the round exactly as it was; the reply is "success" iff the matches after the step reach the target, and otherwise the classification |
| Judge.CheckPreservesValid | vocab/flask_vocab.py:95-98 | judging a submission keeps the matches free of duplicates and made only of spellable vocabulary words |
| Judge.RejectionIsIdempotent | vocab/flask_vocab.py:102-115 | a rejected submission leaves the round unchanged, so resubmitting it gives the same reply and round |
| Judge.ResubmittedMatchIsAlreadyFound | vocab/flask_vocab.py:95-105 | a word just matched, submitted again, is reported "already found" (or "success" once the target is reached) and changes nothing, though it is still a spellable vocabulary word |
| Judge.SuccessOverridesAnyClassification | vocab/flask_vocab.py:95-123 | once the matches reach the target, every submission is answered "success" whatever its classification, and a new valid word submitted then is still appended to the matches |
| Play.Replay | vocab/flask_vocab.py:76-126 | a run of requests gives one reply per request, a page exactly for each `keep_going`; the jumble and target are kept; the saved matches only grow by appending, by at most one word per request |
| Play.ReplayPreservesValid | vocab/flask_vocab.py:89-98 | the round invariant holds at the end of every run of requests that starts from it |
| Play.KeepGoingIsInvisible | vocab/flask_vocab.py:54-60 | `keep_going` is the `KeepGoing` case of `Play.Step`, which answers a page and passes the round through; dropping the `keep_going` page loads from a run gives the same judged replies, in order, and the same final round |
| Play.SuccessIsSticky | vocab/flask_vocab.py:121-123 | once the target is reached, every later submission in the run is answered "success" and the round stays at or above the target |
| Play.NewWordsAreMatchedInOrder | vocab/flask_vocab.py:95-123 | distinct, unfound, spellable vocabulary words submitted in turn are appended in that order; each is answered "match found" until the one that reaches the target, and "success" from then on |
| Play.CatBatRound | vocab/flask_vocab.py:41-123 | with vocabulary "cat", "bat", "cab" and success count two, submitting "cat", "cat", "bat" gives "match found", "already found", "success" and leaves the matches "cat", "bat" |

## Left out

- Flask routing, request argument parsing, cookie transport of the session, `flask.g`, `jsonify` and template rendering: web plumbing. The session is the explicit `RoundState` value passed into and returned from each step.
- The human-readable `response` strings of each reply (the joined matches, the formatted refusals, the `/success` link): only the message tag is modelled.
- Internals of `LetterBag.contains`, `Vocab.has`, `Vocab.as_list` and `jumbled`: those modules are not part of this model; they are abstract parameters.
- Logging and configuration loading (`config.configuration()`, secret key, port, debug flag): environment. The success count and the vocabulary list are parameters of `Index`.
- A `check` request made before any `index` request (the session then has no jumble or target, and the handler fails with a missing key) and a request without a `text` argument: the model assumes a started round and a submitted string.
- Round.Index: when the target is not positive the handler has already written the session before its assertion fails; the model only reports the error and does not describe that partly written session.
- The `/success` page, the `/_example` handler, the `filt` template filter and the 404/403/500 error handlers: scaffolding with no game logic.
