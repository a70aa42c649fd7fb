# Verification model of SIMON

SIMON shares language-model inference between machines. A client signs an order, coordinators race to
take it, the winner draws a node, the node computes and signs a receipt, and the client checks the
receipt before it shows anything. Around that stand a redactor that takes personal data out of texts
before they leave the machine and puts them back afterwards, a map-reduce for texts too long for one
node, several rate limits, an audit of the tokens a node returned, and a monitor that follows the log.

This project models the parts with state or non-trivial loops and proves what they promise, for every
input and over every run. One module per component:

| file | module | what it models |
|---|---|---|
| `Basics.dfy` | `Basics` | optional values and facts about sequences that several modules share |
| `Substitution.dfy` | `Substitution` | single-pass replacement of placeholders, for any placeholder grammar |
| `Placeholders.dfy` | `Placeholders` | the placeholder grammar, character by character |
| `Redaction.dfy`, `Anonymizer.dfy` | `Redaction`, `Anonymizer` | redaction and its inverse: as functions, and as the object that is mutated |
| `TaxNumbers.dfy` | `TaxNumbers` | the rule for tax numbers, and a text its redaction does not give back |
| `Numbering.dfy` | `Numbering` | in which order the placeholders of one rule are numbered |
| `Grouping.dfy` | `Grouping` | cutting into chunks, greedy packing into groups |
| `MapReduce.dfy` | `MapReduce` | halving rejected chunks, level-by-level reduction, the run from file to answer |
| `NonceWindow.dfy`, `TokenBucket.dfy` | `NonceWindow`, `TokenBucket` | anti-replay window, token bucket |
| `PeerLimit.dfy`, `HourlyLimit.dfy` | `PeerLimit`, `HourlyLimit` | the node's limit per peer, the demo's limit per hour |
| `Admission.dfy` | `Admission` | the node's semaphores, tasks and reply channel as interleaved steps |
| `Intake.dfy` | `Intake` | version check, limit per peer and admission together |
| `Lex.dfy`, `Protocol.dfy` | `Lex`, `Protocol` | string order; messages, digests, signatures, the gate for orders |
| `Registry.dfy`, `Coordinator.dfy` | `NodeRegistry`, `Coordinator` | registry, draw of a node, the coordinator against arbitrary senders |
| `CoordinatorRuns.dfy` | `CoordinatorRuns` | particular runs of the coordinator from the beginning |
| `OrderRace.dfy` | `OrderRace` | the client: race of coordinators, check of the result |
| `Audit.dfy`, `LogTail.dfy` | `Audit`, `LogTail` | scoring an audit, following a growing log |

Where the code changes an object or a list step by step, the model has a class or a method with a loop,
and its contract equates the new state with a function of the old one; the lemmas are about those
functions and about runs of them.

## Modelling choices

- **Cryptography is ideal.** A digest is the content it is taken of, so it is injective. A signature
  names its signer and the digest. In the runs of `Coordinator` a message can only carry signatures
  that were made earlier in the run; anyone may sign anything with a key of their own and send anything
  built from existing signatures.
- **Other hashes are arbitrary functions** (the draw, the race, job names). Where a lemma needs one to
  be injective, or to have 64 characters, it says so.
- **Signatures travel decoded.** White space around them and bad hexadecimal digits are the case of no signature.
- **Nodes, models, matchers are arbitrary.** A node replies to a request by any function of its number
  and its text; a redaction rule is any function that returns ordered, disjoint, non-empty spans, with
  any check on the fragment.
- **White space and digits** of the placeholder pattern are parameters; only what all versions of the
  Unicode tables agree on is assumed.
- **Floating point is modelled by real numbers.** Log probabilities have an extra non-finite case.
- **Integer width** is explicit where it matters: the deadline sum wraps at 64 bits as in a release
  build, the context limit is cut to 32 bits, subtractions of clocks saturate.
- **Iteration order of hash maps** is arbitrary: the loops pick any remaining key.

## Where the code does not do what is said about it

Each of these is proved: the condition for all inputs where one is named, and the failure itself at an
instance unless it is stated for every input.

- *Redaction is undone by restoring.* Only the NFC-normalised text comes back, and it comes back under
  every map and every list of rules if and only if it spells out no placeholder that could be issued, a
  label and a number from one on (`Redaction.ComesBackExactly`). For a given map it comes back if and
  only if that map, at the time of restoring, resolves none of the text's own placeholders
  (`Redaction.RoundTripExactly`); a text the map resolves before the call is lost for certain
  (`Redaction.ResolvedBeforeIsLost`). `[NIP#1] 1234563218` is such a text: the number is a valid tax
  number, is issued as `[NIP#1]`, and both places are restored to it (`TaxNumbers.RoundTripFails`).
  None of the patterns listed before that of tax numbers matches in it.
- *Placeholders are numbered in the order of the text*, as a comment says. Among new texts of one label
  the number falls as the position of the last occurrence rises (`Numbering.NumbersFall`). They are
  numbered in the order in which they first appear if and only if they last appear in the opposite
  order (`Numbering.RuleNumbersExactly`), so without repetitions only if each label has at most one new
  text (`Numbering.DistinctFallExactly`). Of two different tax numbers the first becomes `[NIP#2]`; with
  the first repeated behind the second the order is kept (`Numbering.TwoAreReversed`,
  `Numbering.ThreeKeepTheOrder`, `Numbering.TwoNumbersExist`).
- *Nobody can degrade somebody else's node.* A result's digest leaves out the signature of the receipt
  that comes with it, so anyone can take that signature off a good result and send it on; it still
  counts, and degrades the node. A result that counts degrades its node if and only if its signed
  content is not good or the receipt is not signed by the node (`Coordinator.DegradedExactly`); a node
  that signs only good content is degraded by such a message and by nothing else
  (`Coordinator.StrippedResultDegrades`, `Coordinator.HonestNodeIsDegradedOnlyByStripping`), and for
  good, since the coordinator hears no heartbeats (`Coordinator.DegradedForGood`). There are runs from
  the beginning in which it happens (`CoordinatorRuns.HonestNodeIsDegraded`,
  `CoordinatorRuns.HonestRunExists`).
- *A registration is what the node signed.* The signature leaves out what was attested. Anyone who sees
  a registration first can send it without the attestation: it is taken, the node's own is refused from
  then on, and the node gets no job in any continuation (`Coordinator.UnattestedIsForGood`). A node can
  be given jobs if and only if it was registered with an attestation and is not degraded
  (`Coordinator.UsableExactly`).
- *A job stays with its node.* The job is named after the first 16 characters of an order name that the
  sender chooses and the coordinator does not check, so an order can move another's job. An order that
  passes the gate and for which a node is drawn leaves all assignments alone if and only if its job name
  is free or already with that node (`Coordinator.AcceptanceDisturbsExactly`). There are runs from the
  beginning in which a second client's order takes a job from the node that has it
  (`CoordinatorRuns.JobIsMoved`, `CoordinatorRuns.CollidingExists`).
- *A request that finds the node busy can be tried again later*, as its answer says. The limit per peer
  has remembered the job by then, so it is refused as repeated for exactly as long as it is among the
  last 4096 that passed the limit (`Intake.BusyIsNotRetried`, with an instance in
  `Intake.FirstIsBusyThenRepeated`).
- *Client and coordinator agree on job names.* The coordinator uses the first 16 characters of the order
  name, the client expects a digest. An order can be shown if and only if nobody has won its race or the
  winner uses the client's name for the job (`OrderRace.ShowableExactly`), so one won by an acceptance
  as the coordinator issues it is lost (`OrderRace.OrderIsLost`, with an instance in
  `OrderRace.LostOrderExists`).
- *Only registered coordinators that sign take part in the race.* The filter exists, but the client's
  event loop does not call it; only tests do. There an acceptance takes over exactly by its rank, signed
  or not (`OrderRace.TakesOverExactly`), and the outcome is that of the filtered race if and only if
  somebody admitted is beaten by nobody who is not (`OrderRace.FilterMattersExactly`). An acceptance that
  nobody signed takes an order from a registered coordinator that did (`OrderRace.OutsiderWins`,
  `OrderRace.OutsiderExists`).
- *The client's orders are for coordinators to take.* As the client publishes them they carry no
  authorisation and are refused; they pass the gate if and only if a valid one for the same terms is
  added (`OrderRace.PublishedNeedsAuthorisation`).
- *The context filter compares the requirement with the declared limit.* The limit is cut to 32 bits
  first (`NodeRegistry.ContextFilterExactly`, with an instance in `NodeRegistry.LargeLimitRefused`).
- *A deadline far in the future is in time.* Adding the tolerance wraps around for deadlines within a
  minute of the largest 64-bit number, and they count as expired (`Protocol.DeadlineExactly`).
- *The log reader restarts if the file was rotated.* It does so exactly if the new file is shorter than
  what was read, or no line was complete yet and the new file starts with the bytes buffered
  (`LogTail.RotationIsNoticedExactly`, with an instance in `LogTail.RotationMissed`).
- *The rank of a token depends on the log probabilities alone.* Ties keep the order of the list. The
  order matters for a token if and only if another token is listed with its best value
  (`Audit.OrderMattersExactly`, with an instance in `Audit.TiesKeepTheListOrder`).
- The documentation of the audit decision lists `HardFail`; the code never returns it
  (`Audit.DecisionIsFair`).
- A failed publication drops what was queued behind it: the queue is emptied, and an order is neither
  published nor tried if and only if one before it fails (`OrderRace.DroppedExactly`, with an instance
  in `OrderRace.TwoDropped`).
- An order that nobody can serve still uses up its authorisation: exactly those of the orders that have
  passed the gate are used up (`Coordinator.UsedExactly`). With no node registered an order is served by
  nobody and, sent again, refused as a repetition (`CoordinatorRuns.SpentForNothing`).
- The hourly limiter raises an uncaught error instead of refusing if and only if the limit is zero or
  less and no call of the last hour is on file (`HourlyLimit.VerdictExactly`, with instances in
  `HourlyLimit.ZeroLimitCrashes`).

## Model

| member | source | states |
|---|---|---|
| Placeholders.ScanSound | tools/simon-guard/pii_pl.py:157 | what the pattern matches is a label, optional white space around `#`, and a number, in brackets |
| Placeholders.ScanComplete | tools/simon-guard/pii_pl.py:157 | every such text is matched whatever follows it, and in one way only |
| Placeholders.PatternIsGrammar | tools/simon-guard/pii_pl.py:157 | the pattern meets all that restoring relies on: bracketed matches that depend on the matched text only, and every key the redactor writes is matched as itself |
| Substitution.KeyInjective | tools/simon-guard/pii_pl.py:177 | different labels or numbers are written as different placeholders |
| Substitution.NumberIsDecimal | tools/simon-guard/pii_pl.py:177 | the number in a placeholder is the decimal one: read back it is the same, and only zero begins with a zero |
| Substitution.FindAllExact | tools/simon-guard/pii_pl.py:194 | the left-to-right search that continues behind each match misses no placeholder of the text and finds nothing else |
| Substitution.RestoreCut | tools/simon-guard/pii_pl.py:222-230 | restoring distributes over any cut no placeholder reaches across |
| Redaction.NextKeyIsFresh | tools/simon-guard/pii_pl.py:175-177 | the next placeholder with a label is not in the map, although the counters are kept per label |
| Redaction.PlaceKeepsValid | tools/simon-guard/pii_pl.py:170-180 | issuing a placeholder keeps the map's invariant (keys are exactly those numbered so far, originals distinct, non-empty, free of placeholders) and every entry, and books the value |
| Redaction.SelectExactly | tools/simon-guard/pii_pl.py:187-209 | a rule takes exactly those matches that overlap no placeholder and pass its check |
| Redaction.ReplaceAllExchanges | tools/simon-guard/pii_pl.py:211-212 | replacing last one first exchanges exactly the selected spans, all at their original places, and nothing else |
| Redaction.ReplaceAllBooks | tools/simon-guard/pii_pl.py:211-212 | each inserted placeholder is booked for the fragment that stood there |
| Redaction.ReplaceAllRestores | tools/simon-guard/pii_pl.py:211-230 | the text with placeholders and the text before restore to the same, under this map and every later one |
| Redaction.RuleTakesOutWhatItAccepts | tools/simon-guard/pii_pl.py:187-212 | one rule: every accepted fragment is gone from its place, booked, and the rest of the text is unchanged |
| Redaction.OneMoreRule | tools/simon-guard/pii_pl.py:186-212 | the rules are applied one after the other in the order of the list, each to the text and the map the ones before it left |
| Redaction.HitsCountReplacements | tools/simon-guard/pii_pl.py:173-179 | the statistics count each replacement under its label, repetitions included |
| Redaction.RedactionRestoresAlike | tools/simon-guard/pii_pl.py:182-230 | for any rules and any text, redacted and original text restore alike under this map and every later one |
| Redaction.RoundTrip | tools/simon-guard/pii_pl.py:182-230 | a text without placeholders comes back, from this map and from every later one |
| Redaction.RoundTripExactly | tools/simon-guard/pii_pl.py:182-230 | for a given map: a text comes back if and only if it holds no placeholder the map resolves when it is restored |
| Redaction.ResolvedBeforeIsLost | tools/simon-guard/pii_pl.py:182-230 | a text with a placeholder the map resolves before the call does not come back |
| Redaction.ComesBackExactly | tools/simon-guard/pii_pl.py:157-230 | a text comes back under every valid map, every list of rules and every later map if and only if it spells out no placeholder that could be issued |
| Numbering.NumbersFall | tools/simon-guard/pii_pl.py:210-212 | among new texts of one label the number falls as the position of the last occurrence rises |
| Numbering.SameTextSameKey | tools/simon-guard/pii_pl.py:171-174 | fragments of the same text get the same placeholder |
| Numbering.RuleNumbersExactly | tools/simon-guard/pii_pl.py:187-212 | one rule numbers the new texts of each label in the order of the text if and only if those that appear first are the last to be repeated |
| Numbering.DistinctFallExactly | tools/simon-guard/pii_pl.py:210-212 | without repetitions, if and only if no label has more than one new text |
| Numbering.TwoAreReversed | tools/simon-guard/pii_pl.py:187-212 | of two different tax numbers the one that stands first is called `[NIP#2]` |
| Numbering.ThreeKeepTheOrder | tools/simon-guard/pii_pl.py:187-212 | with the first repeated behind the second the order is kept |
| Numbering.TwoNumbersExist | tools/simon-guard/pii_pl.py:49-55 | there are two such numbers |
| Redaction.EveryEarlierTextComesBack | tools/simon-guard/pii_pl.py:160-230 | after any number of redactions on one instance every earlier text without placeholders still comes back |
| Anonymizer.Anonimizer.constructor | tools/simon-guard/pii_pl.py:163-166 | a new instance starts with an empty map and counters, which satisfy the invariant |
| Anonymizer.Anonimizer.Find | tools/simon-guard/pii_pl.py:171-174 | the scan for a known value finds one whenever there is one, in whatever order the map is visited |
| Anonymizer.Anonimizer.Placeholder | tools/simon-guard/pii_pl.py:170-180 | the in-place operation: new state and returned placeholder |
| Anonymizer.Anonimizer.Choose | tools/simon-guard/pii_pl.py:188-209 | the selection loop computes the selection `SelectExactly` speaks about |
| Anonymizer.Anonimizer.Substitute | tools/simon-guard/pii_pl.py:211-212 | the replacement loop computes the replacement the lemmas speak about |
| Anonymizer.Anonimizer.Redact | tools/simon-guard/pii_pl.py:182-218 | the whole redaction in place: empty text changes nothing; otherwise all rules in order, the report, no entry lost, and restoring gives the normalised text if that holds no placeholder |
| Anonymizer.Anonimizer.Undo | tools/simon-guard/pii_pl.py:222-230 | what a redaction on this instance left, now or earlier, comes back as the text it was made from if that held no placeholder; a text in which the map resolves nothing is left as it is |
| TaxNumbers.FindNipsExactly | tools/simon-guard/pii_pl.py:128 | the search finds exactly the numbers of both forms, ten digits or groups with separators, that no digit and no hyphen touches; no two of them overlap |
| TaxNumbers.NipRuleIsValid | tools/simon-guard/pii_pl.py:128 | so the rule is one the redaction lemmas speak about |
| TaxNumbers.NumberIsValid | tools/simon-guard/pii_pl.py:49-55 | the number of the sample has the right check digit |
| TaxNumbers.DigitsAppend | tools/simon-guard/pii_pl.py:26-27 | the digits of a text are those of its parts in order |
| TaxNumbers.DigitsOfOne | tools/simon-guard/pii_pl.py:26-27 | a digit counts with its value and any other character not at all |
| TaxNumbers.NipOkExactly | tools/simon-guard/pii_pl.py:49-55 | ten digits are a valid number if and only if eleven divides their weighted sum less the check digit |
| TaxNumbers.WrongDigitIsNoticed | tools/simon-guard/pii_pl.py:53-55 | changing any one digit, the check digit included, leaves a sum eleven does not divide |
| TaxNumbers.SwappedDigitsAreNoticed | tools/simon-guard/pii_pl.py:53-55 | so does exchanging two different neighbouring digits |
| TaxNumbers.ChangedNumberIsInvalid | tools/simon-guard/pii_pl.py:49-55 | a text whose digits differ in one place from a valid number is not valid |
| TaxNumbers.RoundTripFails | tools/simon-guard/pii_pl.py:182-230 | the sample text is restored to something else, whatever the other rules are, as long as none before that of tax numbers takes anything from it |
| TaxNumbers.RoundTripFailsAlone | tools/simon-guard/pii_pl.py:182-230 | for instance with that rule alone |
| Grouping.ChunksPartition | crates/simon-cli/src/mapreduce.rs:41-50 | chunks concatenate to the text, none is empty or too long, all but the last are full |
| Grouping.ChunksCount | crates/simon-cli/src/mapreduce.rs:41-50 | there are as many chunks as the length divided by the budget, rounded up |
| Grouping.EstimateExactly | crates/simon-cli/src/mapreduce.rs:57-66 | the token estimate is the least number covering four characters each and one per word |
| Grouping.WordsExactly | crates/simon-cli/src/mapreduce.rs:61-65 | the words are counted by their first characters: those that are no white space and follow some or the beginning |
| Grouping.SolidIsOneWord | crates/simon-cli/src/mapreduce.rs:61-65 | the empty text has no word and any other stretch without white space is one |
| Grouping.SpaceSeparatesWords | crates/simon-cli/src/mapreduce.rs:61-65 | white space between two texts adds up their words |
| Grouping.GroupBy | crates/simon-cli/src/mapreduce.rs:97-115 | the packing loop with its running sum computes greedy packing, for any weight |
| Grouping.GroupByCharacters | crates/simon-cli/src/mapreduce.rs:97-115 | the groups flatten to the elements in order, each is within budget or a single element, and no contiguous grouping with that property has fewer |
| Grouping.GroupByTokens | crates/simon-cli/src/mapreduce.rs:70-88 | the same loop with estimated tokens as the weight |
| Grouping.GreedyPartitions | crates/simon-cli/src/mapreduce.rs:97-115 | greedy packing loses nothing, keeps the order, and every group is admissible |
| Grouping.GreedyIsOptimal | crates/simon-cli/src/mapreduce.rs:97-115 | no admissible contiguous grouping has fewer groups |
| Grouping.GreedyExactly | crates/simon-cli/src/mapreduce.rs:97-115 | greedy packing is the one admissible grouping in which every group is followed by an element it had no room for |
| Grouping.CharactersAddUp | crates/simon-cli/src/mapreduce.rs:100-112 | what a group weighs is its length in characters |
| Grouping.NoShrinkExactly | crates/simon-cli/src/agent.rs:357-367 | grouping fails to shrink a level exactly when every two neighbours exceed the budget together |
| Grouping.GreedyShrinks | crates/simon-cli/src/agent.rs:355-357 | if the budget holds `k` of the largest results, `n` results become at most `n/k` rounded up |
| MapReduce.SendChunk | crates/simon-cli/src/agent.rs:411-451 | the deque loop ends and yields, for any node, exactly what the recursive halving yields (answers, failure, number of requests, rejections in order), and the ratio it leaves |
| MapReduce.HalvingCovers | crates/simon-cli/src/agent.rs:411-451 | the fragments finally answered, in order, are exactly the chunk, and every one has the node's answer |
| MapReduce.HalvingRequests | crates/simon-cli/src/agent.rs:411-451 | at most `2^(d+1) - 1` requests from depth `d`; on success exactly two per answered fragment less one |
| MapReduce.HalvingAscends | crates/simon-cli/src/agent.rs:411-451 | the fragments are sent in the order in which they stand in the text, so the answers come in that order |
| MapReduce.HalvingLogs | crates/simon-cli/src/agent.rs:411-451 | what sharpens the ratio are rejections met on the way, for an answered chunk one fewer than there are answers |
| MapReduce.HalvingGivesUp | crates/simon-cli/src/agent.rs:411-451 | a chunk is given up at its last request and only because that was refused, or rejected with no halvings left or at a single character |
| MapReduce.HalvingSucceedsExactly | crates/simon-cli/src/agent.rs:411-451 | against a node with a fixed limit, zero included, a chunk is answered if and only if `d` halvings can bring it down to the limit |
| MapReduce.HalvedAnswer | crates/simon-cli/src/agent.rs:443-451 | the answer for a halved chunk is the answers for its halves, first half first, joined by a line break |
| MapReduce.SharpenAllDecreases | crates/simon-cli/src/agent.rs:421-431 | the characters-per-token ratio never grows and never becomes negative |
| MapReduce.SharpenAllMeans | crates/simon-cli/src/agent.rs:421-431 | the ratio is within every measurement met, has stayed if and only if the start was within all of them, and is otherwise nine tenths of one of them |
| MapReduce.SendAll | crates/simon-cli/src/agent.rs:317-339 | the loop over the chunks computes the map phase that `MapReduce.MapIsPerChunk` and `MapReduce.MapFailsExactly` describe, and the ratio is carried through all of them |
| MapReduce.MapIsPerChunk | crates/simon-cli/src/agent.rs:317-339 | the chunks are sent one after the other, in order, and the i-th partial result is the answers to the i-th chunk, line by line |
| MapReduce.MapFailsExactly | crates/simon-cli/src/agent.rs:317-339 | the map phase fails if and only if sending some chunk fails when all before it have been answered |
| MapReduce.AnswerAt | crates/simon-cli/src/agent.rs:448-451 | the answers are those of the parts, in order |
| MapReduce.JoinConcat | crates/simon-cli/src/agent.rs:451 | answers are joined by line breaks in order |
| MapReduce.JoinOne | crates/simon-cli/src/agent.rs:451 | a single answer stands as it is |
| MapReduce.MapCovers | crates/simon-cli/src/agent.rs:317-339 | after a successful map phase the answered fragments of all chunks together are the concatenated chunks |
| MapReduce.WholeTextIsAnswered | crates/simon-cli/src/agent.rs:298-339 | and so the whole file, each character once and in order |
| MapReduce.CombineGroups | crates/simon-cli/src/agent.rs:368-380 | the loop over the groups computes the round as a function: a group of one stays, several go to the model together and in order, the first failure ends it |
| MapReduce.CombineFailure | crates/simon-cli/src/agent.rs:373-377 | a round fails only because the model failed on one of its groups of several |
| MapReduce.CombineGrows | crates/simon-cli/src/agent.rs:368-380 | a round accounts for every text of the level, in order |
| MapReduce.CombineRequests | crates/simon-cli/src/agent.rs:368-380 | a round takes one request for each group of several texts and none for a single one |
| MapReduce.Reduce | crates/simon-cli/src/agent.rs:352-385 | the loop over the levels ends and computes the reduction as a function, for any model |
| MapReduce.ReductionMeans | crates/simon-cli/src/agent.rs:352-385 | a result is the value of a tree whose leaves are the partial results in order and whose requests each combine at least two texts within the budget; it is stuck only on a level it came to on which no two neighbours fit; it fails only because the model failed on neighbours of such a level that do fit |
| MapReduce.Reduction | crates/simon-cli/src/agent.rs:354-381 | a result takes fewer rounds than there are partial results |
| MapReduce.StuckAtOnce | crates/simon-cli/src/agent.rs:357-367 | the first level is given up if and only if no two neighbours fit the budget together |
| MapReduce.ReductionSucceeds | crates/simon-cli/src/agent.rs:352-385 | when the budget holds `k >= 2` of the longest texts it is never stuck, and with a model that never fails it ends in a result within the announced number of rounds |
| MapReduce.RoundsIsLogarithm | crates/simon-cli/src/agent.rs:352-381 | that number of rounds is the logarithm to base `k`, rounded up |
| MapReduce.AnswerFile | crates/simon-cli/src/agent.rs:279-386 | from file to answer: the run computes the function the two lemmas below speak about; a blank file is turned away |
| MapReduce.FileAnswerMeans | crates/simon-cli/src/agent.rs:279-386 | a result is the value of a tree over one partial result per chunk, in order; each is the answers to its chunk, line by line, and the fragments answered are the whole chunk |
| MapReduce.FileAnswerExactly | crates/simon-cli/src/agent.rs:279-386 | only a blank file gives no answer; if sending a chunk fails the node has failed; otherwise the outcome is accounted for over the partial results, and a single one is the result as it stands |
| MapReduce.FileIsAnswered | crates/simon-cli/src/agent.rs:279-386 | under conditions on node, model, budget and file that can be checked beforehand the run ends in a result, in logarithmically many rounds |
| NonceWindow.OknoNonce.constructor | crates/simon-core/src/protokol.rs:33-39 | a new window has an empty history |
| NonceWindow.OknoNonce.Accept | crates/simon-core/src/protokol.rs:42-59 | the pruned set answers as the full history would, the kind of refusal included, and never exceeds the window |
| NonceWindow.SizeBound | crates/simon-core/src/protokol.rs:54-57 | what has to be remembered is never more than the window |
| NonceWindow.AcceptedExactly | crates/simon-core/src/protokol.rs:42-59 | over any run a call is accepted if and only if its nonce was not accepted before and exceeds every accepted nonce less the window; so none is accepted twice |
| NonceWindow.RefusedExactly | crates/simon-core/src/protokol.rs:42-59 | a nonce is too old if and only if it is zero behind any accepted one or lies the window or more below one, and repeated if and only if it is not too old and was accepted before |
| TokenBucket.Kubelek.constructor | crates/simon-core/src/protokol.rs:81-88 | a new bucket is full |
| TokenBucket.Kubelek.Allow | crates/simon-core/src/protokol.rs:91-101 | one call: answer and new state, with a clock that may jump back |
| TokenBucket.AccruedFormula | crates/simon-core/src/protokol.rs:92-94 | the refill per microsecond adds up to seconds times rate |
| TokenBucket.RateBound | crates/simon-core/src/protokol.rs:91-101 | over any run, accepted calls plus tokens left are at most the tokens at the start plus the rate times the advance of the bucket's clock |
| TokenBucket.BurstBound | crates/simon-core/src/protokol.rs:91-101 | counted from the first call, at most the burst plus the refill since then |
| TokenBucket.BurstExactly | crates/simon-core/src/protokol.rs:91-101 | of calls at one moment as many are let through as the bucket then holds whole tokens, no more and no fewer |
| TokenBucket.NewHoldsCapacity | crates/simon-core/src/protokol.rs:81-88 | a new bucket holds its whole capacity |
| TokenBucket.PatientCallerIsServed | crates/simon-core/src/protokol.rs:91-101 | a caller that waits the time of one token between calls is never refused |
| PeerLimit.PeerLimiter.Limit | crates/simon-cli/src/node.rs:843-870 | one request: verdict and new state; a repeated job changes nothing, and only an admitted one is remembered |
| PeerLimit.MemoryIsLatestAdmissions | crates/simon-cli/src/node.rs:865-868 | over any run the bounded memory is the last 4096 admissions |
| PeerLimit.RepeatExactly | crates/simon-cli/src/node.rs:851-853 | a request is refused as repeated if and only if the same peer and job is among the last 4096 admitted |
| PeerLimit.MemoryIsBounded | crates/simon-cli/src/node.rs:854-868 | at most 4096 jobs are remembered and at most 10001 buckets kept |
| PeerLimit.AdmissionsAreDistinct | crates/simon-cli/src/node.rs:851-868 | any 4097 consecutive admissions are pairwise different |
| PeerLimit.AlwaysHasRate | crates/simon-cli/src/node.rs:854-860 | in every memory a run comes to, clears included, each bucket has the configured rate and burst |
| PeerLimit.NewPeerIsAdmittedExactly | crates/simon-cli/src/node.rs:854-864 | a new peer's first call is let through if and only if the rate is no limit or at least a quarter |
| PeerLimit.PeersAreIndependent | crates/simon-cli/src/node.rs:854-864 | while there are no more than 10000 buckets a peer is admitted exactly what a token bucket of its own lets through at the times of its calls |
| PeerLimit.PeerRateBound | crates/simon-cli/src/node.rs:854-864 | in any part of a run that clears the buckets at most with its first call a peer is admitted at most four times the rate plus rate times elapsed time, whatever the others do |
| HourlyLimit.Counter.Check | demo/limity.py:25-47 | one call: verdict, advice, and the file afterwards, also when it is missing or cannot be written |
| HourlyLimit.YoungExactly | demo/limity.py:27-28 | what is kept are the stamps of the last hour, each once and in order, and no others |
| HourlyLimit.OldestIsLeast | demo/limity.py:35 | the oldest stamp is one of the list and no other is smaller |
| HourlyLimit.VerdictExactly | demo/limity.py:34-47 | when a call passes, is refused, and ends in an uncaught error |
| HourlyLimit.ZeroLimitCrashes | demo/limity.py:29-35 | a limit of zero with no file, or only an expired stamp, ends in that error |
| HourlyLimit.FileKeepsTheHour | demo/limity.py:26-47 | the pruned file holds exactly the accepted calls of the last hour, never more than the limit |
| HourlyLimit.AtMostLimitPerHour | demo/limity.py:25-47 | with a clock that does not run back no half-open hour, wherever it starts, holds more accepted calls than the limit |
| HourlyLimit.AdviceExactly | demo/limity.py:35 | the advice is the next whole minute after the time until the oldest stamp expires |
| HourlyLimit.AdviceWorks | demo/limity.py:34-40 | after a refusal a later call is accepted if and only if the oldest stamp has expired; waiting the advised minutes is enough, and the advice is at most a minute too long |
| Admission.ReachableInv | crates/simon-cli/src/node.rs:145-233 | in every reachable state the permits of both semaphores are conserved and every request taken in is in exactly one stage, so answered at most once |
| Admission.BusyExactlyWhenFull | crates/simon-cli/src/node.rs:214-225 | at most `maxJobs` requests run and at most four times as many are admitted; an arrival is answered busy if and only if it passes the gate while all admissions are held. What every request is told over a run is in the rows that follow |
| Admission.TurnedAwayExactly | crates/simon-cli/src/node.rs:197-225 | over every run a request is told the node is busy if and only if it passed the gate when all admissions were held, and is refused at the gate if and only if it did not pass it |
| Admission.TurnedAwayHoldsNothing | crates/simon-cli/src/node.rs:197-225 | a request turned away never waits, runs, has a reply under way or holds an admission |
| Admission.RepliedExactly | crates/simon-cli/src/node.rs:172-178 | over every run a request has its reply if and only if its computation finished and the reply is no longer under way |
| Admission.RepliesInOrder | crates/simon-cli/src/node.rs:172-178 | replies are delivered in the order in which the computations finished, none lost and none made up |
| Admission.FinishedExactly | crates/simon-cli/src/node.rs:226-232 | the finished requests are those whose task finished while it was running |
| Admission.CrashedExactly | crates/simon-cli/src/node.rs:212-232 | exactly the requests whose task died are lost |
| Admission.InternalStepsRunOut | crates/simon-cli/src/node.rs:171-233 | every step that is not a new request uses up some of the finitely many that remain |
| Admission.NeverStuck | crates/simon-cli/src/node.rs:171-233 | in every reachable state some step is possible, or every request is answered or crashed and all permits are back |
| Admission.DrainIsBounded | crates/simon-cli/src/node.rs:171-233 | once no requests come in, every way of continuing ends within a bound known beforehand |
| Intake.MemoryOfRun | crates/simon-cli/src/node.rs:197-211 | in the whole way in the limit sees exactly the requests of the right version |
| Intake.TasksOfRun | crates/simon-cli/src/node.rs:197-233 | and the admission those the limit lets through |
| Intake.BusyExactly | crates/simon-cli/src/node.rs:197-225 | a request is told the node is busy if and only if version and limit let it through and all admissions are held |
| Intake.ToldAsTreated | crates/simon-cli/src/node.rs:197-232 | what a request is told is what is done with it: taken in it waits for a slot, and otherwise it is answered at once, busy or at the gate |
| Intake.RepeatedExactly | crates/simon-cli/src/node.rs:201-211 | it is refused as repeated if and only if the job is among the last 4096 that passed the limit, whatever became of them |
| Intake.BusyIsNotRetried | crates/simon-cli/src/node.rs:201-225 | so a busy request tried again is refused as repeated, in any case until 4096 others have passed |
| Intake.FirstIsBusyThenRepeated | crates/simon-cli/src/node.rs:201-225 | with no slots the first request is busy and its second try repeated |
| Protocol.GateMeaning | crates/simon-harness/src/client_protocol.rs:190-203 | an order that passes the gate carries the signature of the client's key over exactly its payload digest, model, fee, timeout, nonce and key, and is within its deadline plus tolerance |
| Protocol.GateExactly | crates/simon-harness/src/client_protocol.rs:324-357 | the gate passes exactly an order with an authorisation of version 1 that repeats its terms, signed by the key the order names, and in time by the wrapped sum |
| Protocol.ReceiptExactly | crates/simon-core/src/receipt.rs:369-405 | a receipt passes if and only if it is about this job and node, names the registered key, and that key signed its content |
| Protocol.AcceptanceCovers | crates/simon-harness/src/client_protocol.rs:407-411 | the digest of an acceptance covers everything but its signature |
| Protocol.ResultCovers | crates/simon-node/src/lib.rs:186-196 | the digest of a result covers everything but the output, the receipt's signature and its own |
| Protocol.RegistrationCovers | crates/simon-node/src/lib.rs:73-82 | the digest of a registration covers everything but what was attested and the two signatures |
| Protocol.DeadlineExactly | crates/simon-harness/src/client_protocol.rs:190-192 | when the 64-bit sum makes the deadline check differ from the comparison it stands for |
| NodeRegistry.Registry.Register | crates/simon-node/src/lib.rs:232-242 | registers a new name under the right protocol version, or changes nothing |
| NodeRegistry.Registry.RegisterVerified | crates/simon-node/src/lib.rs:246-266 | also demands the node's own signature, and the operator's voucher if one is set |
| NodeRegistry.Registry.CandidatesFor | crates/simon-node/src/lib.rs:278-308 | exactly the usable nodes with the model and enough context, in ascending order, whatever order the map is visited in |
| NodeRegistry.ContextFilterExactly | crates/simon-node/src/lib.rs:287-297 | the filter never lets a too small node through, and agrees with the plain comparison if and only if the low 32 bits of the limit decide the same |
| NodeRegistry.UnlimitedFits | crates/simon-node/src/lib.rs:287-297 | without a requirement, or without a declared limit, every node fits |
| NodeRegistry.FreshExactly | crates/simon-node/src/lib.rs:447-459 | a node never heard of is fresh, and so is every node without a timeout; otherwise up to and including the timeout since it was last heard of |
| NodeRegistry.LargeLimitRefused | crates/simon-node/src/lib.rs:287-297 | a limit of `2^32 + 100` refuses 512 and admits 100 |
| NodeRegistry.Registry.AssignJob | crates/simon-node/src/lib.rs:310-326 | assigns, also over an earlier assignment, exactly to nodes attested and in good standing |
| NodeRegistry.Registry.Complete | crates/simon-node/src/lib.rs:332-360 | ends an assignment only for the node that holds it, a success only with a receipt that verifies under the registered key |
| NodeRegistry.Registry.EvictNode | crates/simon-node/src/lib.rs:378-393 | returns exactly the jobs it takes away, each once, and touches no other job |
| NodeRegistry.Registry.SetState | crates/simon-node/src/lib.rs:396-411 | degrading and plain heartbeat change the state of a registered node and nothing else |
| NodeRegistry.Registry.RecordHeartbeat | crates/simon-node/src/lib.rs:414-421 | makes a registered node healthy, an evicted one too, and notes the time |
| NodeRegistry.Registry.CompleteJob | crates/simon-node/src/lib.rs:429-431 | takes one assignment away and returns its former holder |
| NodeRegistry.Registry.PickCandidate | crates/simon-node/src/lib.rs:439-483 | the loop returns the fresh candidate with the least pair of pick digest and name, and nothing exactly when there is no fresh candidate |
| NodeRegistry.PickIsUnique | crates/simon-node/src/lib.rs:439-483 | only one node can be the pick, so the draw does not depend on iteration order |
| NodeRegistry.LosingANodeKeepsTheDraw | crates/simon-node/src/lib.rs:439-483 | degrading or evicting a node that was not drawn changes no draw |
| NodeRegistry.NewcomerWinsOrNothingChanges | crates/simon-node/src/lib.rs:439-483 | after a registration every draw is the old one or the new node |
| NodeRegistry.RunKeepsConsistent | crates/simon-node/src/lib.rs:232-431 | over every run of all operations: states and nodes have the same names, every job is held by a registered, attested node that is not evicted, and what a node registered never changes |
| NodeRegistry.StateStepExactly | crates/simon-node/src/lib.rs:232-431 | a registered node's state follows the one operation that names it |
| NodeRegistry.NewNodeExactly | crates/simon-node/src/lib.rs:232-266 | a new node comes with its own registration of the right version, begins as registered, and changes nothing else |
| NodeRegistry.HeardStepExactly | crates/simon-node/src/lib.rs:414-421 | the time a node was last heard of follows its timed heartbeats alone |
| NodeRegistry.JobStepExactly | crates/simon-node/src/lib.rs:310-431 | an assignment holds after a step if and only if it was just made, to a usable node, or held before and was not completed, taken by eviction, or given to another |
| NodeRegistry.UsableMeans | crates/simon-node/src/lib.rs:310-323 | usable is exactly attested and registered, healthy or busy |
| NodeRegistry.CompletesExactly | crates/simon-node/src/lib.rs:332-360 | a result ends an assignment if and only if it names the node that holds the job and, claiming success, comes with a receipt that node's key signed for the two |
| NodeRegistry.EvictionTakesExactly | crates/simon-node/src/lib.rs:378-393 | an eviction takes all jobs of the node and no other |
| NodeRegistry.EvictedHoldsNothing | crates/simon-node/src/lib.rs:310-431 | after an eviction, over every run of operations without a heartbeat of the node, it holds no job, is assigned none and is drawn for none |
| NodeRegistry.HeartbeatRevives | crates/simon-node/src/lib.rs:414-458 | a heartbeat makes an evicted node a candidate again, for exactly the timeout, without its former jobs |
| Coordinator.HandleRegistration | crates/simon-cli/src/coord.rs:111-141 | a registration is taken exactly if it is verified, with the operator's voucher where one is demanded |
| Coordinator.HandleResult | crates/simon-cli/src/coord.rs:143-203 | a result's effect on the registry in place, all branches |
| Coordinator.SettlementExactly | crates/simon-cli/src/coord.rs:143-203 | the registry changes if and only if the job is assigned to that node and its registered key signed a digest naming job, node and outcome; then exactly that job ends, and the state stays for a good result and becomes degraded otherwise |
| Coordinator.GoodResultMeans | crates/simon-cli/src/coord.rs:172-203 | a result is good if and only if it claims success with a receipt over a non-empty output, for this job and node, signed by the registered key |
| Coordinator.ProcessOrder | crates/simon-cli/src/coord.rs:205-256 | the handler computes the function whose outcome `Coordinator.OutcomeExactly` gives in every case and `Coordinator.AcceptedIsProper` for an acceptance |
| Coordinator.OutcomeExactly | crates/simon-cli/src/coord.rs:205-256 | refused, replayed, served by nobody or accepted, each if and only if: the gate fails; it passes with a used authorisation; with a new one but no node serves the model at any context; with a new one and some node does, asking for 512 tokens exactly if some node has them |
| Coordinator.DrawExactly | crates/simon-cli/src/coord.rs:224-234 | the draw finds nobody if and only if no node serves the model at all |
| Coordinator.JobNameExactly | crates/simon-cli/src/coord.rs:222 | two orders share a job name if and only if their names begin with the same 16 characters |
| Coordinator.UsedAuthorisations.Take | crates/simon-harness/src/client_protocol.rs:370-377 | takes an authorisation and says whether it was new |
| Coordinator.AssignmentNeverFails | crates/simon-cli/src/coord.rs:236-241 | the error branch after the draw cannot be reached |
| Coordinator.AcceptedIsProper | crates/simon-cli/src/coord.rs:205-256 | an accepted order had a new authorisation for its own terms, and leaves its job with the drawn node, attested, in good standing and declaring the model |
| Coordinator.AcceptanceDisturbsExactly | crates/simon-cli/src/coord.rs:222-242 | an order that passes the gate with a new authorisation and for which a node is drawn is accepted, and leaves all assignments as they were if and only if its job name is free or already with that node |
| CoordinatorRuns.JobIsMoved | crates/simon-cli/src/coord.rs:205-256 | in a run from the beginning a second client's order takes a job from the node that has it |
| CoordinatorRuns.CollidingExists | crates/simon-cli/src/coord.rs:205-256 | there are such runs |
| Coordinator.RunIsAuthentic | crates/simon-cli/src/coord.rs:62-110 | over any run against arbitrary senders the registry is consistent and every registered key has signed its registration |
| Coordinator.RegistrationIsAuthorised | crates/simon-cli/src/coord.rs:111-141 | nobody is registered under a key that did not sign this node, key, region and declaration earlier, nor without the operator's signature in voucher mode |
| Coordinator.UnattestedIsForGood | crates/simon-node/src/lib.rs:73-82 | at any point of any run a registration sent first without its attestation is taken, and in every continuation the node's own is refused and the node gets no job |
| Coordinator.UsableExactly | crates/simon-node/src/lib.rs:310-323 | over any run a node can be given jobs if and only if it was registered with an attestation and is not degraded |
| Coordinator.SettlementIsAuthorised | crates/simon-cli/src/coord.rs:143-203 | over any run a result has an effect only if the key registered for the assigned node signed it earlier in the run |
| Coordinator.DegradedNodeSignedAResult | crates/simon-cli/src/coord.rs:143-203 | a degraded node has signed some result about itself, not necessarily a bad one |
| Coordinator.DegradedExactly | crates/simon-cli/src/coord.rs:172-203 | a result that counts degrades its node if and only if its signed content is not good or its receipt lacks the node's signature |
| Coordinator.StrippedResultDegrades | crates/simon-node/src/lib.rs:186-196 | at any point of any run a good result, sent on without its receipt's signature, counts and degrades the node, where the original would only end the job |
| Coordinator.HonestNodeIsDegradedOnlyByStripping | crates/simon-cli/src/coord.rs:143-203 | over any run, a node whose key signs results only for good content is degraded only by such a message |
| Coordinator.DegradedForGood | crates/simon-cli/src/coord.rs:62-110 | a degraded node stays degraded and gets no job in any continuation |
| CoordinatorRuns.HonestNodeIsDegraded | crates/simon-cli/src/coord.rs:111-256 | a run of seven events from the beginning that degrades such a node |
| CoordinatorRuns.HonestRunExists | crates/simon-cli/src/coord.rs:111-256 | such runs exist |
| Coordinator.AssignmentIsKept | crates/simon-cli/src/coord.rs:143-256 | an assignment ends only by a result whose digest the node's key signed or by an accepted order of the same job name |
| Coordinator.UsedStaysUsed | crates/simon-cli/src/coord.rs:217-220 | an authorisation that passed the gate is used up for the rest of the run, whether or not the order was served |
| Coordinator.UsedExactly | crates/simon-cli/src/coord.rs:212-220 | an authorisation is used up if and only if an earlier order of the run passed the gate with it |
| CoordinatorRuns.SpentForNothing | crates/simon-cli/src/coord.rs:212-234 | with no node registered an order is served by nobody and, sent again, refused as a repetition |
| Coordinator.OneAcceptancePerAuthorisation | crates/simon-cli/src/coord.rs:205-256 | over any run an authorisation leads to at most one acceptance |
| Coordinator.AcceptanceIsAuthorised | crates/simon-cli/src/coord.rs:205-256 | over any run every acceptance is for terms the client's key signed earlier, in time, and assigns a proper node |
| OrderRace.WinnerIsLeast | crates/simon-harness/src/client_protocol.rs:454-475 | the winner is one of the candidates and none has a smaller pair of rank and job name |
| Lex.LessExactly | crates/simon-harness/src/client_protocol.rs:454-475 | strings are compared where they first differ |
| OrderRace.WinnerIsFirst | crates/simon-harness/src/client_protocol.rs:454-475 | of several least candidates the first to arrive wins |
| OrderRace.WinnerIgnoresOrder | crates/simon-harness/src/client_protocol.rs:454-475 | rank and job name of the winner do not depend on the order of arrival |
| OrderRace.OnlyAdmittedCount | crates/simon-harness/src/client_protocol.rs:547-572 | of the filter, which the running client does not call: the winner is registered and has signed, is least among those, and an acceptance that is not admitted influences nothing, wherever it arrives |
| OrderRace.FilterMattersExactly | crates/simon-harness/src/acp_server.rs:293-301 | the race without the filter has the filtered outcome if and only if somebody admitted is beaten by nobody who is not |
| OrderRace.TakesOverExactly | crates/simon-harness/src/acp_server.rs:284-315 | in the running race an acceptance takes over if and only if no result is there and it is the first or ranks lower, signed or not |
| OrderRace.OutsiderWins | crates/simon-harness/src/acp_server.rs:284-315 | an acceptance nobody signed takes an order from a registered coordinator that did sign |
| OrderRace.OutsiderExists | crates/simon-harness/src/acp_server.rs:284-315 | there are such acceptances |
| OrderRace.IssuedIsAdmitted | crates/simon-cli/src/coord.rs:244-255 | what a coordinator issues passes the filter of a client that has it registered |
| OrderRace.AcpServer.Place | crates/simon-harness/src/acp_server.rs:222-258 | a request becomes a queued order only if its user's key signed this very request and it carries a fee |
| OrderRace.OrdersAreAuthorised | crates/simon-harness/src/acp_server.rs:133-258 | over any run every order stems from a request with a fee, whose model, fee, timeout and content, under the order's nonce, its user's key signed |
| OrderRace.QueueExactly | crates/simon-harness/src/acp_server.rs:222-258 | until it is published every authorised request with a fee is queued once, in order, and nothing else is |
| OrderRace.AcpServer.PublishAll | crates/simon-harness/src/acp_server.rs:263-277 | publishes what stands in front of the first failure and leaves the queue empty either way |
| OrderRace.DroppedExactly | crates/simon-harness/src/acp_server.rs:263-277 | an order is published if and only if it and all before it can be, and neither published nor tried if and only if one before it fails |
| OrderRace.TwoDropped | crates/simon-harness/src/acp_server.rs:263-277 | of two orders of which the first fails neither is published |
| OrderRace.AcpServer.TakeAcceptance | crates/simon-harness/src/acp_server.rs:284-315 | an acceptance against the winner so far; nothing happens for unknown orders or once a result has arrived |
| OrderRace.AcpServer.TakeCompletion | crates/simon-harness/src/acp_server.rs:316-328 | a completion puts a known order into verification, also one already shown |
| OrderRace.AcpServer.Show | crates/simon-harness/src/acp_server.rs:342-426 | the checks before a result is shown, and that only the phase of that order changes |
| OrderRace.OnlineIsBatch | crates/simon-harness/src/acp_server.rs:282-331 | for every order of events the acceptance stored is the batch winner over all that came in before the result, and the phase follows from it |
| OrderRace.RaceStaysDecided | crates/simon-harness/src/acp_server.rs:306-313 | from the first result on the winner is frozen and the phase never goes back to waiting or taken |
| OrderRace.FreshNonceFreshName | crates/simon-harness/src/client_protocol.rs:243-272 | an order with a new nonce gets a name no active order has |
| OrderRace.ShownIsSigned | crates/simon-harness/src/acp_server.rs:342-426 | what is shown was signed by the node's key for the job of this order, the ordered model and this very text, under the coordinator that won |
| OrderRace.ShownExactly | crates/simon-harness/src/acp_server.rs:342-414 | field by field, when a result may be shown |
| OrderRace.ReadyExactly | crates/simon-harness/src/acp_server.rs:316-328 | over any run an order is ready if and only if the last that happened to it is that its text was shown, and in verification if and only if it is that its result came in |
| OrderRace.ShowableExactly | crates/simon-harness/src/acp_server.rs:364-413 | an active order can be shown if and only if nobody has won its race or the winner uses the job name the client derives |
| OrderRace.JobNamesDiffer | crates/simon-harness/src/transport.rs:253-261 | the coordinator's and the client's job name for an order are never the same |
| OrderRace.OrderIsLost | crates/simon-harness/src/acp_server.rs:364-388 | placed, taken by an acceptance as the coordinator issues it and completed, an order can never be shown |
| OrderRace.LostOrderExists | crates/simon-harness/src/acp_server.rs:364-388 | there are such orders |
| OrderRace.PublishedNeedsAuthorisation | crates/simon-harness/src/client_protocol.rs:253-264 | an order as the client publishes it is refused by every coordinator; exactly a valid authorisation for its terms makes it pass |
| Audit.RankFormula | crates/simon-core/src/m3.rs:105-116 | for every list, sorting and searching gives one more than the entries strictly above the token's best one and the equal ones listed before it, and fails exactly when the token is not listed |
| Audit.RankOfDistinct | crates/simon-core/src/m3.rs:105-116 | with distinct values the rank is one plus the number of strictly larger entries |
| Audit.RankOfUntied | crates/simon-core/src/m3.rs:105-116 | the same for every token that is not tied with another at its best value |
| Audit.PlaceIgnoresOrder | crates/simon-core/src/m3.rs:105-116 | rank and log probability of a token that is not tied do not depend on the order of the list |
| Audit.OrderMattersExactly | crates/simon-core/src/m3.rs:105-116 | the place is the same for every order of the list if and only if the token is not tied |
| Audit.ExamineMeaning | crates/simon-core/src/m3.rs:93-150 | one step: unusable exactly if some value is not finite, not listed exactly if the token is absent, otherwise its place in the list and the distance of its value to the largest |
| Audit.GoodExactly | crates/simon-core/src/m3.rs:93-142 | a step is within the policy if and only if all values are finite, the token is listed, fewer than `k` entries stand before its best one and none is better by more than the margin |
| Audit.Assess | crates/simon-core/src/m3.rs:82-175 | the scoring loop computes the verdict; what its counters count is in `Audit.CountsExactly` |
| Audit.CountsExactly | crates/simon-core/src/m3.rs:82-175 | the three counters are the numbers of steps within the policy, outside it, and without a listed token |
| Audit.VerdictCounts | crates/simon-core/src/m3.rs:82-175 | the counters add up to the number of steps, unlisted steps are among those outside, and the reason of a failed audit is its first step outside |
| Audit.WorstRankIsLargest | crates/simon-core/src/m3.rs:123-125 | the worst rank is the largest rank of a listed step |
| Audit.WorstMarginIsLargest | crates/simon-core/src/m3.rs:126-128 | the worst margin is the largest margin of a listed step |
| Audit.MeanNllIsBetween | crates/simon-core/src/m3.rs:117-118 | the mean surprise lies between any bounds of the listed steps' surprises and is zero if none is listed |
| Audit.MeanNllExactly | crates/simon-core/src/m3.rs:117-118 | the mean surprise times the number of listed steps is the sum of their surprises |
| Audit.OkExactly | crates/simon-core/src/m3.rs:154-162 | an audit passes if and only if it has steps and the number of steps outside the policy is no more than the tolerated share of them |
| Audit.LenientKeepsOk | crates/simon-core/src/m3.rs:82-175 | raising `k`, the margin or the tolerated share never fails a passed audit |
| Audit.VerdictIgnoresOrder | crates/simon-core/src/m3.rs:82-175 | if no audited token is tied no field of the verdict depends on the order of the lists |
| Audit.TiesKeepTheListOrder | crates/simon-core/src/m3.rs:106 | of two tokens tied for the best the one listed first has rank one |
| Audit.DecisionIsFair | crates/simon-core/src/m3.rs:256-272 | the decision is never the hard one; no basis, too little evidence and a pass each if and only if; and a more lenient policy never takes a pass back |
| LogTail.SplitUnsplit | tools/simon-monitor/simon_monitor.py:108 | splitting at line breaks loses nothing, and no line contains one |
| LogTail.SplitContinues | tools/simon-monitor/simon_monitor.py:108 | splitting may be interrupted anywhere if the rest is carried over |
| LogTail.ParsedAppends | tools/simon-monitor/simon_monitor.py:109-115 | handing out parsed lines read by read is handing out those of all lines |
| LogTail.ParsedExactly | tools/simon-monitor/simon_monitor.py:109-115 | each line that parses is handed out once, in the order of the lines, and nothing else is |
| LogTail.JobTail.ReadNew | tools/simon-monitor/simon_monitor.py:98-115 | one read: what is handed out and the new state; a missing file changes nothing. What that is over a run is in `LogTail.JobsAgreeWithWholeFile` |
| LogTail.TailAgreesWithWholeFile | tools/simon-monitor/simon_monitor.py:92-115 | for every interleaving of appends and reads, also appends during a read, the lines handed out are exactly the complete lines of the bytes read, each once and in order |
| LogTail.JobsAgreeWithWholeFile | tools/simon-monitor/simon_monitor.py:92-115 | for every interleaving the jobs handed out are the complete lines read so far that parse, each once and in order; after a read, those of the whole file |
| LogTail.RotationIsNoticedExactly | tools/simon-monitor/simon_monitor.py:101-108 | a replaced file is read as a new reader would if and only if it is shorter than what was read, or nothing but its own beginning was buffered |
| LogTail.RotationMissed | tools/simon-monitor/simon_monitor.py:93-108 | a file replaced by one of the same length yields nothing |

## Left out

- The other patterns and checksums of the redactor and Unicode normalisation: a rule is any matcher with any check, normalisation any function.
- Rounding, signed zero and not-a-number of floating point, in the token bucket, the audit and the time stamps of the hourly limiter; the order of non-finite values in a sort is never reached, since such a list is not sorted.
- SHA-256, Ed25519 (RFC 8032) and the JSON canonical form: digests and signatures are ideal.
- Coordinator.ProcessOrder: does not model the panic when byte 16 of an order name is not a character boundary; names are sequences of one-byte characters.
- Protocol.GateMeaning: the deadline sum wraps as in a release build; a debug build stops with an error instead.
- Fairness and queue order of the semaphores, and the choice between channel and network in the main loop: any enabled step may happen, so what is proved holds for every schedule.
- PeerLimit.PeerRateBound: does not bound a run across several clears of the bucket map, because a clear forgets what each peer has used.
- HourlyLimit.AtMostLimitPerHour: assumes that writing the file succeeds; if it fails the code lets calls through without counting them, by design. Damage to the file during a run is modelled only for the single call.
- Grouping.GroupByTokens: optimality is stated for every weight by `Grouping.GreedyIsOptimal` and not repeated.
- How the two budgets are computed from token counts, the files with partial results, and all printed output.
- MapReduce.SendChunk: the ratio is modelled, but it has no effect on later chunks, as in the code.
- Transport: swarm, gossipsub, request-response, HTTP, waiting for a completion with a time limit, and the phase an order is given on a transport error.
- Burn proofs and fees as value: synthetic or switched off in the code. Only that a fee is not zero is modelled.
- `verify_result_from_assigned_node`, the audit fingerprint, the JSON entry point of the audit, the running totals and the feed of the monitor: they would only add easy members.
- Errors of the file system in the log reader, and a file that shrinks between asking for its size and reading it being noticed only by the next read.
