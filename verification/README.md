# Verified model of the Delphi, threshold and key-generation core

This project models, in Dafny, the parts of an asynchronous distributed key
generation system that decide its correctness, and proves what they promise.

* **The checkpoint engine.** Each level of the Delphi protocol runs one Binary
  Approximate Agreement (BinAA) instance for every point of the i64 line. The
  program stores them as a map of intervals which it cuts, clones and steps on
  demand. `BinAA` holds the step functions of one instance and `RoundValsBin`
  the mutable object that refines them; `Intervals`, `LevelSteps`, `LevelStart`
  and `Level` prove that the map always agrees, point by point, with one
  instance per point, although a freshly cut piece is visited by two loops.
* **Quorum arguments.** `BinAARuns` says when one instance sends and on what it
  terminates. `RoundSafety` puts n nodes, at most t of them faulty, around one
  instance and proves what honest nodes send and decide in every run, and for
  which settings at all (`BinAARuns` also covers runs with any number of values);
  `RoundRange` says for which settings decisions stay
  between honest inputs. `LevelSafety` lifts both to nodes that run whole
  interval maps and exchange run-length lists: at every point of the line a
  round is as safe as one instance for that point alone. From round to round
  honest values of a point stay within its honest inputs as long as, in each
  round, faulty values for it lie within those inputs or two values are in play.
* **Wire and output.** `Wire` covers `coalesce`, `expand` and what exactly a
  transmission turns lists into, `FirstRound` the first broadcast of all levels
  end to end, `Aggregate` the final weighted mean.
* **The polynomial layer.** `Field` is an arbitrary prime field with inverses
  from Bezout's identity, `Poly` evaluation and root counting. On them stand
  Neville interpolation (`Interpolation`), Lagrange evaluation (`Lagrange`),
  long division and sampling (`Division`), Feldman, KZG and vector commitments
  (`Commitments`) and threshold signatures (`ThresholdSig`). A group element is
  written as its discrete logarithm and the pairing as a product.
* **The glue.** `Transcripts` is the partition check of a sharing transcript,
  `Aacs` the agreement on a common subset, `Choice` the choice among its
  transcripts, `Dkg` the completion and summation of shares, and `KeyAgreement`
  carries agreement on the subset through to one public key. `SetFacts` and
  `Types` are shared helpers.

Imperative code is modelled imperatively: `Level`, `RoundStateBin`,
`SignatureSet`, `Context`, `Node`, `Feldman`, `KZG` and `KZGVec` are classes,
the two Neville loops work in place on an array, and the other loops of the
program are loops here, each proved against a specification.

## Findings

* Applying an echo twice is harmless exactly for separated thresholds
  (`BinAARuns.DoublingHarmlessIff`): both at least 2 and different. For the
  thresholds t + 1 and n - t this means t >= 1, n - t >= 2 and n != 2t + 1, which
  n >= 3t + 1 with t >= 1 implies.
* Against t faulty nodes, honest nodes send and decide only honest start values
  and midpoints in all runs exactly when faulty nodes can only repeat honest
  start values or at most two values are in play (`RoundSafety.SafeIff`): the
  second slot absorbs every further value. Decisions lie between honest inputs
  in all runs exactly when faulty values do or at most two values are in play
  (`RoundRange.RangeIff`); otherwise some honest node decides a faulty value.
* The second slot of a round counts the senders of all values but the first
  message's together: with these two groups in place of two values, when it sends
  and ends is exact in all runs (`BinAARuns.AnyEmissionExact`,
  `BinAARuns.AnyTerminationExact`).
* Two values do not stay two: one round with a faulty node that only repeats
  honest values can end on three (`RoundRange.ThreeOutcomes`). From then on the
  two-valued case no longer applies, and range validity rests on faulty values
  lying within the range of the first honest inputs (`LevelSafety.RangeKept`).
* What a transmission turns lists into is `Wire.RoundTrip`. It keeps them exactly
  when none has the coalesced shape, or the lists before the first that has are
  of lower levels and it and the rest are, without a gap, the three-part lists
  around its middle point (`Wire.UnchangedIff`). For lists around a common value that is
  so exactly above minus the separation of the first coalesced level
  (`Wire.CommonValueIff`). A level without a list of its own gets one at the
  receiver (`Wire.MissingLevel`).
* The sum in `aggregate`'s midpoint overflows i64 for the topmost interval as
  soon as its start is positive, and the midpoint comes out negative
  (`Aggregate.MidExact`). One such interval with weight makes a level's result
  negative (`Aggregate.TopIntervalSpoils`); with no negative values, the result
  stays within its bounds as long as no interval with a positive value overflows
  (`Aggregate.AggregateLevels`).
* `aggregate` divides by zero exactly when every level has a negative value over
  a checkpoint or more and no positive one (`Aggregate.AggregateLevels`, while
  widths fit in i64); such values can be decided, as `RoundRange.FaultyValueDecided`
  shows.
* Two nodes sort the same transcripts into the same order, whatever order they
  came in, exactly when no two different ones share certificate length and
  dealer id (`Choice.SortDeterminedIff`), and choose the same list exactly when no
  two different valid ones tie for one of the first f + 1 places
  (`Choice.ChoiceDeterminedIff`).
  The chosen dealers are the same in any case (`Choice.SameDealers`), which is all
  the sums depend on.
* A transcript's id is neither signed nor checked. Under a foreign id every
  signer without a share for it finds no supplementary share and panics:
  `handle_acs_result` completes exactly when some transcript and none such is chosen
  (`Dkg.Node.HandleAcsResult`, with an instance in `Dkg.ForeignIdPanics`).
* Under the id of another dealer, who dealt as well, nobody need notice: signers
  keep the named dealer's shares, the others take those they are served, and the
  broadcast values no longer interpolate to the key (`Dkg.ForeignIdSpoilsKey`). A
  node's completed shares are the named dealers' values exactly when, for each
  chosen dealer, the share it held, or else its own in the first chosen transcript
  under the id, is (`Dkg.HoldsIff`; for sound held shares `Dkg.HoldsWhenServed`);
  `KeyAgreement.KeyAgreed` says what that means for the key.
* Broadcast key shares go into the reconstruction unchecked. If it interpolates
  all received values, the key is right exactly when the errors interpolate to 0
  (`Dkg.PublicKeyRightIff`), and a single wrong value always spoils it
  (`Dkg.OneWrongShare`). The reconstruction itself is not part of this model, and
  may return nothing instead.
* The comment on `Level` announces a middle interval of one separation to each
  side of the value; the code spans from one bucket below to two above, and the
  model follows the code.

## Model

| member | source | states |
|---|---|---|
| RoundValsBin.RoundStateBin.NewWithEcho | consensus/delphi/src/node/roundvals_bin.rs:24-41 | a fresh round counts the first ECHO1 sender of its one value |
| RoundValsBin.RoundStateBin.NewWithEcho2 | consensus/delphi/src/node/roundvals_bin.rs:43-59 | the same for a first ECHO2 |
| RoundValsBin.RoundStateBin.AddEcho | consensus/delphi/src/node/roundvals_bin.rs:61-129 | the object's new state and both outputs are those of the step function about which the run theorems are proved |
| RoundValsBin.RoundStateBin.Count | consensus/delphi/src/node/roundvals_bin.rs:73-125 | the arm for either slot crosses at most one threshold and decides the midpoint only on the second sent ECHO2 |
| RoundValsBin.RoundStateBin.AddEcho2 | consensus/delphi/src/node/roundvals_bin.rs:131-159 | refines the ECHO2 step and logs the value exactly when the quorum is there |
| BinAA.StepKeepsGood | consensus/delphi/src/node/roundvals_bin.rs:61-159 | in every reachable state a sent flag is set exactly when its count has reached its threshold |
| BinAA.StepIdempotent | consensus/delphi/src/node/roundvals_bin.rs:61-159 | in such states a repeated message changes nothing and sends nothing |
| BinAA.MidpointOfPair | consensus/delphi/src/node/roundvals_bin.rs:90-95 | the midpoint of the two sent values does not depend on the iteration order of the hash set |
| BinAA.TruncDivIs | consensus/delphi/src/node/roundvals_bin.rs:92 | i64 division leaves a remainder smaller than the divisor and on the dividend's side of zero |
| BinAARuns.DoublingHarmlessIff | consensus/delphi/src/node/level.rs:64-129 | processing every message twice is harmless after all runs if and only if both thresholds are at least 2 and differ |
| BinAARuns.StepSets | consensus/delphi/src/node/roundvals_bin.rs:61-159 | with two values in play and any thresholds, a message touches only its own value's record, and whatever is sent is backed by its count |
| BinAARuns.StepView | consensus/delphi/src/node/roundvals_bin.rs:61-159 | in reachable states it is sent at the exact crossing of a threshold |
| BinAARuns.StepTerm1 | consensus/delphi/src/node/roundvals_bin.rs:85-97 | an ECHO1 terminates a round exactly when it triggers the second value's ECHO2, and on the truncated midpoint |
| BinAARuns.StepTerm2 | consensus/delphi/src/node/roundvals_bin.rs:131-159 | an ECHO2 terminates exactly at n-t distinct senders, on its value |
| BinAARuns.RunInvariant | consensus/delphi/src/node/roundvals_bin.rs:61-159 | after every two-valued run the sets are the distinct senders so far and a termination value is backed by a quorum |
| BinAARuns.TerminationExact | consensus/delphi/src/node/roundvals_bin.rs:85-97 | an instance has terminated if and only if some value has n-t ECHO2 senders or both have n-t ECHO1 senders, and only on a backed value |
| BinAARuns.EmissionExact | consensus/delphi/src/node/roundvals_bin.rs:77-98 | ECHO1 and ECHO2 for a value go out exactly with the message that brings its distinct senders to t+1 and to n-t |
| BinAARuns.EmissionOnce | consensus/delphi/src/node/roundvals_bin.rs:81-97 | each is sent at most once per run and value |
| BinAARuns.AnyRun | consensus/delphi/src/node/roundvals_bin.rs:61-159 | for any number of values, in every run the first slot records the distinct senders of the first message's value and the second slot those of all other values together |
| BinAARuns.AnyTerminationExact | consensus/delphi/src/node/roundvals_bin.rs:61-159 | for any number of values, an instance has terminated if and only if the first value has n-t ECHO2 senders, or all others together have, or both have n-t ECHO1 senders |
| BinAARuns.AnyEmissionExact | consensus/delphi/src/node/roundvals_bin.rs:73-126 | for any number of values, an echo of the very value received goes out exactly with the message that brings the first value's senders, or those of all others together, to t+1 or n-t |
| BinAARuns.StepAny | consensus/delphi/src/node/roundvals_bin.rs:61-159 | in reachable states any message adds its sender to the slot of its value or else to the second slot, which keeps the value it was created with |
| BinAARuns.StepAnyTerm | consensus/delphi/src/node/roundvals_bin.rs:85-159 | an ECHO2 decides its slot's value with the n-t-th sender, replacing an earlier decision; an ECHO1 decides the midpoint of the two values whose ECHO2 was sent |
| RoundSafety.DeliverKeeps | consensus/delphi/src/node/baainit.rs:12-104 | one delivery keeps a node's invariant, and whatever it sends in reply is some honest node's start value |
| RoundSafety.NextKeeps | consensus/delphi/src/node/baainit.rs:12-137 | every protocol step, faulty injections included, keeps the system invariant when two values are in play |
| RoundSafety.RunClosed | consensus/delphi/src/node/baainit.rs:12-137 | in every run, with any number of values, only values in play are sent and only these or midpoints of two are decided |
| RoundSafety.TwoValuedSafe | consensus/delphi/src/node/roundvals_bin.rs:61-159 | in every run with n >= 3t+1, t = 0 included, and two values, honest nodes amplify, send and terminate only on honest start values or midpoints of two of them |
| RoundSafety.SendsAt | consensus/delphi/src/node/roundvals_bin.rs:73-159 | at a node of the system these numbers are t + 1 and n - t |
| RoundRange.TerminationInRange | consensus/delphi/src/node/roundvals_bin.rs:90-95 | every termination value lies between two honest start values, in all runs in which faulty values do or two values are in play |
| RoundRange.RangeIff | consensus/delphi/src/node/roundvals_bin.rs:100-159 | against t faulty nodes all decisions of all runs lie between honest start values if and only if faulty values do or at most two values are in play |
| RoundRange.FaultyValueDecided | consensus/delphi/src/node/roundvals_bin.rs:143-157 | otherwise an honest node decides any given faulty value no honest node holds, in some run for every n, t and inputs |
| RoundRange.UnanimousIff | consensus/delphi/src/node/roundvals_bin.rs:131-159 | unanimous honest nodes decide nothing but their value in all runs if and only if at most two values are in play |
| RoundRange.ThreeOutcomes | consensus/delphi/src/node/roundvals_bin.rs:85-97 | four nodes, two values and a faulty node that repeats them: a run ends on 0, 100 and 50 |
| RoundSafety.SafeIff | consensus/delphi/src/node/roundvals_bin.rs:100-127 | against t faulty nodes all runs are safe if and only if faulty nodes can only repeat honest values or at most two values are in play |
| RoundSafety.ThreeValuesUnsafe | consensus/delphi/src/node/roundvals_bin.rs:107-126 | otherwise there is a run in which an honest node amplifies a value no honest node holds |
| RoundSafety.ThirdValueUnsafe | consensus/delphi/src/node/roundvals_bin.rs:107-126 | a concrete setting of four nodes with such a run |
| Intervals.StepAtIdempotent | consensus/delphi/src/node/interval.rs:83-104 | the same idempotence for all rounds of a checkpoint |
| Intervals.StepAtOthers | consensus/delphi/src/node/interval.rs:82-104 | a message for one round leaves every other round of a checkpoint as it was, present or absent |
| Intervals.CutTiles | consensus/delphi/src/node/interval.rs:57-64 | cutting an interval keeps the partition of the line and every point's state |
| Intervals.SteppedCorrect | consensus/delphi/src/node/level.rs:95-128 | stepping whole intervals steps exactly the points of the range |
| Intervals.Compress | consensus/delphi/src/node/level.rs:188-204 | a list compressed up to its last entry becomes compressed and keeps its coverage |
| Intervals.PushCorrect | consensus/delphi/src/node/level.rs:188-204 | push and compress add exactly the entry's coverage and leave no two touching neighbours of equal value |
| LevelSteps.KeysBetween | consensus/delphi/src/node/level.rs:95-96 | ordered map iteration over a range of keys |
| LevelSteps.SplitPhaseCorrect | consensus/delphi/src/node/level.rs:65-94 | the first loop's insertions keep the partition and step exactly the straddled points of the entry |
| LevelSteps.RangePhaseCorrect | consensus/delphi/src/node/level.rs:95-131 | the second loop's updates and cut step exactly the points from start to end |
| LevelSteps.StepTwiceIsOnce | consensus/delphi/src/node/level.rs:64-131 | the points both loops visit are stepped once |
| LevelSteps.EmitTwiceIsOnce | consensus/delphi/src/node/level.rs:64-131 | and what they send is sent once |
| LevelSteps.Emit | consensus/delphi/src/node/level.rs:73-80 | what one interval sends is added to a list that stays compressed |
| LevelSteps.RefinesStep | consensus/delphi/src/node/level.rs:62-134 | one more entry extends the pointwise refinement |
| LevelSteps.BroadcastsStep | consensus/delphi/src/node/level.rs:62-134 | and the pointwise meaning of the lists |
| LevelSteps.RefinesOthers | consensus/delphi/src/node/level.rs:57-182 | a whole message leaves all rounds but its own alone, at every point of the line |
| DelphiLevel.Level.constructor | consensus/delphi/src/node/level.rs:20-39 | a new level is a partition of the line exactly when its two bounds, computed with i64 wrap-around, are in order and below the maximum |
| DelphiLevel.Level.SplitPhase | consensus/delphi/src/node/level.rs:64-94 | cuts at start, steps exactly the straddled points and sends exactly their messages |
| DelphiLevel.Level.RangePhase | consensus/delphi/src/node/level.rs:95-131 | steps exactly the points of the range, cutting at end, and sends exactly their messages |
| DelphiLevel.Level.ApplyEntry | consensus/delphi/src/node/level.rs:62-133 | both loops together step every covered point exactly once and no other |
| DelphiLevel.Level.AddEcho | consensus/delphi/src/node/level.rs:57-136 | every point holds what its own instance would after one step per covering entry, every other round of it stays as it was, and the two lists cover a point with a value if and only if that instance sends it; refused exactly for lists with a backward entry |
| DelphiLevel.Level.AddEcho2 | consensus/delphi/src/node/level.rs:141-182 | the same refinement for ECHO2 lists, other rounds included |
| DelphiLevel.Level.TerminatedRound | consensus/delphi/src/node/level.rs:41-52 | true if and only if every point of the line has terminated the round |
| DelphiLevel.Level.StartRound | consensus/delphi/src/node/level.rs:208-221 | refused until the previous round has ended everywhere, else starts every interval, leaves every other round as it was and returns the run-length encoding of the whole line |
| LevelStart.StartIsPointwise | consensus/delphi/src/node/interval.rs:109-114 | a later round's list gives every point its own previous termination value and nothing else |
| LevelStart.FirstStartIsPointwise | consensus/delphi/src/node/interval.rs:116-128 | the first round's list gives the points of an interval the maximum if the interval holds the node's value, its end included, and 0 otherwise |
| LevelStart.ChainUnique | consensus/delphi/src/node/level.rs:188-215 | the encoding is canonical: equal values at all points make equal lists |
| LevelStart.StartedValid | consensus/delphi/src/node/level.rs:211-213 | starting a round keeps the partition and the reachable-state invariant |
| LevelStart.ValInside | consensus/delphi/src/node/level.rs:22-23 | a node's value lies strictly inside the middle interval, negative values included |
| LevelStart.FirstRoundList | consensus/delphi/src/node/interval.rs:116-128 | the first round of a new level sends exactly the three-part list around the value |
| LevelSafety.StartRoundStarts | consensus/delphi/src/node/level.rs:208-215 | what starting a round does to a map is the net's starting step at every point |
| LevelSafety.OtherRoundElsewhere | consensus/delphi/src/node/baainit.rs:12-104 | handling a message for another round, or starting another, is a step of the net that leaves this round alone |
| LevelSafety.StartProjects | consensus/delphi/src/node/level.rs:208-215 | at every point, starting a round of a whole map is the one-instance start |
| LevelSafety.Receive1Projects | consensus/delphi/src/node/baainit.rs:28-41 | at every point that a list from another node covers once, as a list of the whole line does, receiving it is exactly the one-instance delivery, replies included |
| LevelSafety.Receive2Projects | consensus/delphi/src/node/baainit.rs:88-95 | the same for ECHO2 lists |
| LevelSafety.ListKeeps | consensus/delphi/src/node/baainit.rs:28-41 | a whole list received keeps each point's invariant, and all replies for the point are honest start values |
| LevelSafety.NetNextKeeps | consensus/delphi/src/node/baainit.rs:12-137 | every step of nodes with compressed maps keeps every two-valued point's single-instance invariant |
| LevelSafety.ListClosed | consensus/delphi/src/node/baainit.rs:28-41 | for any number of values, a list of values in play leaves a point's state and replies in play |
| LevelSafety.NetRunClosed | consensus/delphi/src/node/baainit.rs:12-137 | in all runs, at every point, only the point's values in play are sent and only these or midpoints of two decided |
| LevelSafety.LevelSafe | consensus/delphi/src/node/baainit.rs:12-137 | in all runs, at every point where faulty nodes only repeat honest values or two values are in play, honest lists cover it only with honest start values and honest maps end the round there only on these or midpoints of two |
| LevelSafety.LevelInRange | consensus/delphi/src/node/baainit.rs:12-137 | where faulty values lie between honest ones or two values are in play, a point ends between two honest start values of it |
| LevelSafety.UnanimousPoint | consensus/delphi/src/node/baainit.rs:12-137 | a point all honest nodes start alike ends on that value at all of them, when faulty nodes have one value besides |
| LevelSafety.RangeKept | consensus/delphi/src/node/baainit.rs:111-137 | through any number of rounds, in each of which all values in play for the point lie between the least and the greatest honest input or two values are in play, every honest value stays between these |
| LevelSafety.BetweenPlaysWithin | consensus/delphi/src/node/baainit.rs:111-137 | they do in a round whose faulty values lie between honest ones |
| Wire.Expand | consensus/delphi/src/node/baainit.rs:142-161 | one three-part list around the point's bucket for each level of the tuple |
| Wire.Coalesce | consensus/delphi/src/node/baainit.rs:168-196 | the tuple names the first level of the coalescible shape and the truncated midpoint of its middle entry; lists of lower levels remain |
| Wire.CoalescibleIs | consensus/delphi/src/node/baainit.rs:172-182 | the first list of that shape is the first one of exactly three entries, from MIN to MAX, with the maximum in the middle |
| Wire.BelowSplits | consensus/delphi/src/node/baainit.rs:184-194 | what remains is decided list by list, in order |
| Wire.Receive | consensus/delphi/src/node/baainit.rs:20-29 | the expansion is appended only when it starts below the number of levels, and unknown levels are dropped |
| Wire.HalfBucket | consensus/delphi/src/node/baainit.rs:146-147 | truncating division by nested separations nests, for negative values too |
| Wire.MidBucket | consensus/delphi/src/node/baainit.rs:180 | the midpoint of a bucket's interval falls back into the bucket unless the bucket is negative, then into the next |
| Wire.PointBuckets | consensus/delphi/src/node/baainit.rs:142-161 | expansion around that midpoint restores the lists of all coarser levels exactly for values above minus the separation |
| Wire.RoundTrip | consensus/delphi/src/node/baainit.rs:142-196 | for any lists of known levels, several for one level included, exactly what comes back; all of it unchanged when no list is three entries from MIN to MAX with the maximum in the middle |
| Wire.ImageOf | consensus/delphi/src/node/baainit.rs:142-196 | otherwise, from the level of the first list that is, exactly the three-part lists around its middle point come back, and below it exactly those sent |
| Wire.UnchangedIff | consensus/delphi/src/node/baainit.rs:142-196 | that is what was sent if and only if nothing was coalesced, or lower levels come before the first coalescible list and the lists from it on are, without a gap, the three-part ones around its middle point |
| Wire.CommonValueIff | consensus/delphi/src/node/baainit.rs:142-196 | for lists of all levels around one value that is so if and only if nothing was coalesced or the value exceeds minus the separation of the first coalesced level |
| Wire.MissingLevel | consensus/delphi/src/node/baainit.rs:168-196 | a coalesced message makes the receiver process a list for every later level, sent or not |
| FirstRound.FirstRound | consensus/delphi/src/node/baainit.rs:111-196 | from new levels through start, coalesce and expand: what arrives is what every level started with if and only if the value exceeds minus the finest separation |
| FirstRound.FirstRoundSteps | consensus/delphi/src/node/baainit.rs:125-137 | what a receiver then processes for a level is a list that level's net holds as sent, so the net's safety covers it |
| Aggregate.MidExact | consensus/delphi/src/node/baainit.rs:215 | the wrapped i64 midpoint is right if and only if the sum of the ends fits; for a topmost interval with positive start it is negative |
| Aggregate.WeightCounts | consensus/delphi/src/node/baainit.rs:220 | an interval's weight is its termination value times the number of whole checkpoints in it |
| Aggregate.QuotTruncates | consensus/delphi/src/node/baainit.rs:230 | i128 division truncates towards zero for divisors of either sign |
| Aggregate.TotalsSplit | consensus/delphi/src/node/baainit.rs:212-222 | every interval enters the two totals with its own midpoint and weight, wherever it stands |
| Aggregate.TopIsGreatest | consensus/delphi/src/node/baainit.rs:217-219 | a level's weight bounds all its values, and is one of them unless it is 0 |
| Aggregate.MeanWithin | consensus/delphi/src/node/baainit.rs:230 | a truncated mean of numbers within integer bounds stays within them, negative sums included |
| Aggregate.LevelAverage | consensus/delphi/src/node/baainit.rs:206-233 | for any termination values a level's divisor is never zero; its mean is over exactly the intervals of the map, with the fallback, and its weight is the greatest value, at least 0 |
| Aggregate.ZeroWeightIff | consensus/delphi/src/node/baainit.rs:214-231 | that weight is 0 if and only if some interval of a checkpoint or more has a negative value and none has a positive one |
| Aggregate.OuterZeroIff | consensus/delphi/src/node/baainit.rs:237-251 | the outer divisor is 0 if and only if the weights of all levels are |
| Aggregate.OuterStep | consensus/delphi/src/node/baainit.rs:238-251 | the first level enters the outer mean with its weight, each later one with its weight times the distance to the weight before, rising or falling |
| Aggregate.TwoLevels | consensus/delphi/src/node/baainit.rs:238-253 | the result of two levels, written out |
| Aggregate.ContributionWithin | consensus/delphi/src/node/baainit.rs:206-233 | without overflow and negative values a level's mean lies within any bounds of the midpoints of its weighted intervals |
| Aggregate.AggregateLevels | consensus/delphi/src/node/baainit.rs:203-255 | for any termination values, fails by a zero divisor exactly when all levels have weight 0, said in terms of their intervals; otherwise the result is the outer mean of the levels' contributions; with non-negative values and no overflow it never fails and lies within every pair of bounds all levels' weighted midpoints share |
| Aggregate.OuterWithin | consensus/delphi/src/node/baainit.rs:234-253 | an outer mean weighted by differences between neighbouring levels stays within bounds the levels share |
| Aggregate.TopIntervalSpoils | consensus/delphi/src/node/baainit.rs:203-255 | a single level whose only value but 0 is positive and belongs to a topmost interval with positive start, a checkpoint or more wide, aggregates to a negative number, outside that interval |
| Field.MulIsModular | crypto_blstrs/src/crypto/mod.rs:65-80 | the field product of the model is multiplication modulo the prime |
| Field.AddIsModular | crypto_blstrs/src/crypto/mod.rs:65-80 | sums and differences are those of integers modulo the prime |
| Field.Inv | crypto_blstrs/src/lib.rs:54-56 | every nonzero scalar has an inverse |
| Field.NoZeroDivisors | crypto_blstrs/src/lib.rs:54-56 | a product is zero only if a factor is |
| Poly.TooManyRoots | crypto_blstrs/src/lib.rs:58-66 | root counting: as many distinct roots as coefficients make a polynomial zero |
| Poly.PointsDetermine | crypto_blstrs/src/crypto/mod.rs:82-118 | a polynomial is determined by as many points as it has coefficients |
| Interpolation.Horner | crypto_blstrs/src/crypto/mod.rs:65-80 | the loop from the leading coefficient computes the polynomial's value, zero for no coefficients |
| Interpolation.MulPoly | crypto_blstrs/src/crypto/mod.rs:91-99 | the in-place closure multiplies by (x - X) |
| Interpolation.ScaledDifference | crypto_blstrs/src/crypto/mod.rs:106-109 | the zipped update subtracts and scales every coefficient |
| Interpolation.MergeAt | crypto_blstrs/src/crypto/mod.rs:101-109 | a merged interpolant takes the right value at every point either half takes it |
| Interpolation.NevilleInterpolates | crypto_blstrs/src/crypto/mod.rs:100-111 | the recurrence on points i..j has j-i+1 coefficients and interpolates all of them |
| Interpolation.Interpolate | crypto_blstrs/src/crypto/mod.rs:82-118 | for distinct xs the in-place loops return exactly as many coefficients as points, and the values at xs are ys |
| Interpolation.InterpolateAt | crypto_blstrs/src/crypto/mod.rs:120-144 | the scalar loops return the value at x of every interpolant of the points |
| Lagrange.WeightAt | crypto_blstrs/src/lib.rs:58-66 | the weight of an index is 1 there and 0 at every other |
| Lagrange.LagrangeReproduces | crypto_blstrs/src/lib.rs:54-80 | evaluation by weights reproduces, everywhere, each polynomial with no more coefficients than points |
| Lagrange.InterpolantIsLagrange | crypto_blstrs/src/lib.rs:68-80 | the coefficient form, and so the scalar form, agrees with the Lagrange form at every x |
| Lagrange.NevilleIsLagrange | crypto_blstrs/src/lib.rs:68-80 | so does the recurrence itself |
| Lagrange.WeightZeroIff | crypto_blstrs/src/lib.rs:58-66 | a weight vanishes exactly at the other indices |
| Lagrange.ErrorsCancelIff | crypto_blstrs/src/lib.rs:68-80 | wrong values give the right result if and only if their errors evaluate to zero |
| Lagrange.GroupEval | crypto_blstrs/src/lib.rs:18-52 | running powers and one multi-exponentiation agree with Horner evaluation |
| Division.New | crypto_blstrs/src/polynomial.rs:19-24 | trimming keeps the polynomial and leaves no leading zero |
| Division.AddPolynomials | crypto_blstrs/src/polynomial.rs:104-112 | a trimmed sum whose value is the sum of the values everywhere |
| Division.DivRef | crypto_blstrs/src/polynomial.rs:57-82 | an error exactly for a zero divisor; otherwise terminates with dividend = quotient * divisor + remainder and a shorter remainder |
| Division.EliminateAndTrim | crypto_blstrs/src/polynomial.rs:67-77 | one elimination makes the remainder strictly shorter |
| Division.DivisionUnique | crypto_blstrs/src/polynomial.rs:57-82 | no other trimmed quotient and remainder satisfy this |
| Division.EvalDivision | crypto_blstrs/src/polynomial.rs:57-82 | the identity holds for the values at every point |
| Division.Sample | crypto_blstrs/src/polynomial.rs:34-55 | the result passes through all fixed points and through random values at the smallest free indices, within the degree |
| Division.FillPoints | crypto_blstrs/src/polynomial.rs:41-47 | the loop ends with degree + 1 points, keeping the fixed ones |
| Commitments.Feldman.Commit | crypto_blstrs/src/poly_commit/feldman.rs:27-34 | refused exactly for more than max degree + 1 coefficients, and for the zero polynomial, whose degree wraps |
| Commitments.Feldman.VerifyFromCommitment | crypto_blstrs/src/poly_commit/feldman.rs:52-66 | the sum with running powers is the value of the committed coefficients at x |
| Commitments.Feldman.Verify | crypto_blstrs/src/poly_commit/feldman.rs:48-50 | accepts exactly when the lifted value equals it |
| Commitments.FeldmanExact | crypto_blstrs/src/poly_commit/feldman.rs:27-66 | against a commitment to p, (x, y) is accepted if and only if y = p(x) |
| Commitments.PowersOfTau | crypto_blstrs/src/poly_commit/kzg.rs:63-71 | exactly max degree + 1 lifted powers |
| Commitments.EvalAtTauCorrect | crypto_blstrs/src/poly_commit/kzg.rs:73-76 | the fold over the zip is the lifted value at tau |
| Commitments.KZG.constructor | crypto_blstrs/src/poly_commit/kzg.rs:20-25 | a setup whose powers and second generator belong to one tau |
| Commitments.KZG.Commit | crypto_blstrs/src/poly_commit/kzg.rs:35-38 | refused exactly above the degree limit, otherwise commits to the value at tau |
| Commitments.KZG.Open | crypto_blstrs/src/poly_commit/kzg.rs:40-47 | returns the value and a proof whose logarithm times (tau - x) is p(tau) - p(x) |
| Commitments.PairingExact | crypto_blstrs/src/poly_commit/kzg.rs:58-60 | with such a proof the pairing check passes if and only if the value is right |
| Commitments.KZG.CommitOpenVerify | crypto_blstrs/src/poly_commit/kzg.rs:35-60 | end to end, for every polynomial, tau and x, tau = x included, exactly the true value verifies |
| Commitments.KZGVec.VecPoly | crypto_blstrs/src/vector_commit.rs:43-46 | the vector's polynomial takes the items' hashes at their indices |
| Commitments.KZGVec.Commit | crypto_blstrs/src/vector_commit.rs:42-48 | succeeds exactly when that polynomial is within the degree limit |
| Commitments.KZGVec.Open | crypto_blstrs/src/vector_commit.rs:50-56 | succeeds under the same condition with a quotient witness |
| Commitments.KZGVec.CommitOpenVerify | crypto_blstrs/src/vector_commit.rs:42-60 | every in-range index of a committed vector opens and verifies exactly for items with the committed hash |
| ThresholdSig.VerifyExact | crypto_blstrs/src/threshold_sig.rs:89-93 | a signature verifies under a key if and only if it is that key's own |
| ThresholdSig.Share | crypto_blstrs/src/threshold_sig.rs:206-209 | shares 1..n are values of one polynomial with the secret at 0 and random values at 1..threshold-1 |
| ThresholdSig.CombineCorrect | crypto_blstrs/src/threshold_sig.rs:219-224 | any threshold or more signatures under distinct shares combine to the signature under the secret |
| ThresholdSig.SignatureSet.Insert | crypto_blstrs/src/crypto/threshold_sig.rs:110-119 | accepts exactly the own signatures, under the same index, of keys not used before |
| ThresholdSig.SignatureSet.CombineSet | crypto_blstrs/src/crypto/threshold_sig.rs:122-129 | succeeds exactly with threshold or more signatures, yields the signature under the shared secret, and starts over with used keys still spent |
| ThresholdSig.SignatureSet.CollectedCombine | crypto_blstrs/src/crypto/threshold_sig.rs:110-129 | whatever was inserted in whatever order, the collected signatures combine correctly |
| Transcripts.IsIdValid | types/src/msg/dkg/trans.rs:48-84 | true if and only if certificate and supplementary ids are duplicate-free and partition the nodes |
| Transcripts.PartitionCounts | types/src/msg/dkg/trans.rs:48-84 | this holds if and only if every node below n occurs exactly once among certificate and supplementary ids together, and nothing else does |
| Transcripts.SizesCover | types/src/msg/dkg/trans.rs:74-83 | pigeonhole: disjoint ids in range cover all nodes exactly when their sizes add up |
| Transcripts.UniqueReplicas | types/src/msg/dkg/trans.rs:49-56 | first loop: accepts exactly distinct replicas in range |
| Transcripts.UniqueIds | types/src/msg/dkg/trans.rs:58-65 | second loop: accepts exactly distinct ids from 1 to n |
| Transcripts.Verify | types/src/msg/dkg/trans.rs:20-45 | accepts exactly a partition all of whose signatures and shares check |
| Transcripts.FindMissing | ladkg/src/node/context.rs:599-603 | exactly the nodes without a certificate entry |
| Transcripts.GenTranscript | ladkg/src/node/context.rs:465-499 | a transcript built from distinct signers below n and a full store of ciphers passes the check |
| Aacs.Context.constructor | consensus/aacs/src/node/context.rs:94-135 | a node starts with the invariants and no output |
| Aacs.Context.HandleTranscript | consensus/aacs/src/node/context.rs:190-213 | stores the transcript, sends a leader's index set exactly when the buffer reaches n - f, joins high exactly the instances that became complete, outputs if it can; an output is never changed |
| Aacs.Context.StoreTranscript | consensus/aacs/src/node/context.rs:192-201 | at most one index set goes out, of n - f senders heard |
| Aacs.Context.JoinReady | consensus/aacs/src/node/context.rs:203-209 | joins high exactly the leaders whose buffered index set is complete |
| Aacs.Context.HandleIndexSet | consensus/aacs/src/node/context.rs:214-226 | accepts only full-size sets of leaders not joined, and joins high at once exactly if complete |
| Aacs.Context.HandleDelphiResult | consensus/aacs/src/node/context.rs:231-245 | a result above the midpoint decides the leader and joins low every other instance not joined |
| Aacs.Context.CheckTermination | consensus/aacs/src/node/context.rs:248-262 | the final set is there exactly when all instances have ended and the decided index sets have arrived, and holds exactly the members of all of these |
| Aacs.Context.CheckFinalSet | consensus/aacs/src/node/context.rs:265-274 | outputs exactly once, the final set's transcripts, as soon as all are there |
| Aacs.Agreement | consensus/aacs/src/node/context.rs:187-274 | two nodes that have output have each output once, the same transcripts, at least n - f of them |
| Aacs.OutputExactly | consensus/aacs/src/node/context.rs:248-274 | a node has output if and only if all instances ended there, the index set of every leader above the midpoint arrived, not all of them empty, and so did all the transcripts they name |
| Aacs.OutputIs | consensus/aacs/src/node/context.rs:248-274 | what it has output are the transcripts, each once, of exactly the senders that some leader above the midpoint has in its index set |
| Aacs.AboveIsSupported | consensus/aacs/src/node/context.rs:203-240 | if an instance's result is above the midpoint and at most the greatest value the honest nodes joined it with, one of them holds its index set, of full size, and all the transcripts it names, as every node will |
| Choice.SortCorrect | ladkg/src/node/context.rs:605-610 | the stable sort permutes, and puts longer certificates first and smaller ids first among equally long ones |
| Choice.SortStable | ladkg/src/node/context.rs:605-610 | it keeps the order of transcripts that tie |
| Choice.SortTranscripts | ladkg/src/node/context.rs:605-610 | the insertion loop computes that sort: a permutation, longer certificates first, then smaller ids |
| Choice.OrderedKeys | ladkg/src/node/context.rs:605-610 | two ordered arrangements of the same transcripts agree in every key, ties or not |
| Choice.OrderUnique | ladkg/src/node/context.rs:605-610 | without ties there is one ordered arrangement |
| Choice.SortDeterminedIff | ladkg/src/node/context.rs:605-610 | all delivery orders sort alike if and only if no two different transcripts tie |
| Choice.SelectValid | ladkg/src/node/context.rs:354-363 | the loop takes the first f + 1 valid transcripts |
| Choice.TakeValidIsPrefix | ladkg/src/node/context.rs:354-363 | these are the beginning of the list of all valid ones, all of them if there are fewer |
| Choice.ChoosesBest | ladkg/src/node/context.rs:350-363 | f + 1 valid transcripts are chosen, or all, and no valid one left over has a longer certificate than a chosen one, or an equally long one and a smaller id |
| Choice.SameDealers | ladkg/src/node/context.rs:350-363 | nodes given the same transcripts in any order choose the same dealers in the same order, ties or not |
| Choice.ChoiceAgreement | ladkg/src/node/context.rs:350-363 | and the same transcripts, if different valid ones that tie come too late to be chosen |
| Choice.ChoiceDeterminedIff | ladkg/src/node/context.rs:350-363 | all delivery orders lead to the same choice if and only if that is so |
| Dkg.FindSupple | ladkg/src/node/context.rs:369-373 | the search returns what the first-share function about which the completion theorems are proved says |
| Dkg.FirstShareIff | ladkg/src/node/context.rs:369-373 | there is such a share if and only if some supplementary share is numbered for the node, and it is the first of these |
| Dkg.Node.FillShares | ladkg/src/node/context.rs:365-387 | completes if and only if every chosen dealer's share is held, or taken from an earlier chosen transcript under its id, or the node has not signed its transcript; then every chosen dealer has a share, kept if held, else the node's own in the first chosen transcript under its id |
| Dkg.ForeignIdPanics | ladkg/src/node/context.rs:365-373 | a transcript under an id nobody dealt under, signed by all four nodes, passes the id check, is chosen, and stops every node |
| Dkg.HoldsIff | ladkg/src/node/context.rs:365-387 | the completed shares are the named dealers' values if and only if, for each chosen dealer, the share held, or else the node's own in the first chosen transcript under the id, is that dealer's value |
| Dkg.HoldsWhenServed | ladkg/src/node/context.rs:365-387 | if the held ones are, the completed shares are if and only if every share taken from a chosen transcript is |
| Dkg.ForeignIdSpoilsKey | ladkg/src/node/context.rs:350-405 | a transcript under another dealer's id passes the id check and is chosen, all four nodes complete their shares, and the values they broadcast do not interpolate to the key |
| Dkg.SumSecretKey | ladkg/src/node/context.rs:548-565 | the accumulator is the sum of the chosen dealers' shares |
| Dkg.SumAdds | ladkg/src/node/context.rs:548-565 | every chosen dealer's share is added in, component by component |
| Dkg.SumLinear | ladkg/src/node/context.rs:548-565 | summed shares are shares of the summed polynomials |
| Dkg.SumDegree | ladkg/src/node/context.rs:548-565 | which have degree at most f |
| Dkg.PublicShareOnPoly | ladkg/src/node/context.rs:400-404 | b_i = beta - (s0 + a * s1) is the value of one polynomial at the node's point |
| Dkg.Node.HandleAcsResult | ladkg/src/node/context.rs:350-411 | the whole step: choice, completed shares, their sum, and the broadcast value beta - (s0 + a * s1), recorded once; it completes if and only if something is chosen and all shares can be completed |
| Dkg.KeyShares | ladkg/src/node/context.rs:388-405 | the node's key is the summed polynomials at its point, and b_i lies on the polynomial whose value at 0 is beta - (s0 + a * s1) |
| Dkg.PublicKeyReconstructs | ladkg/src/node/context.rs:400-404 | f + 1 or more right values at distinct points interpolate at 0 to the public key |
| Dkg.PublicKeyRightIff | ladkg/src/node/context.rs:323-330 | the values handed to the reconstruction, which the program does not check, interpolate to the public key if and only if their errors interpolate to 0; whether the foreign reconstruction interpolates all of them or returns nothing is not stated |
| Dkg.OneWrongShare | ladkg/src/node/context.rs:323-330 | with a single wrong value among them they never do |
| Dkg.SumsById | ladkg/src/node/context.rs:548-565 | the sums depend on the chosen dealers only, not on their transcripts |
| KeyAgreement.OwnIdsNoTies | ladkg/src/node/context.rs:605-610 | transcripts that carry their senders' ids never tie |
| KeyAgreement.SameChoice | ladkg/src/node/context.rs:350-363 | two nodes that have output choose the same dealers in the same order, whatever ids the transcripts carry, and the same transcripts if these carry their senders' ids |
| KeyAgreement.NodeHoldsIff | ladkg/src/node/context.rs:350-405 | a node that has output holds its share of the common secrets and broadcasts its value of the common polynomial exactly if what it has of each chosen dealer is that dealer's value |
| KeyAgreement.KeyAgreed | ladkg/src/node/context.rs:323-405 | from common subset to key, for any transcripts and ids: there is one pair of secrets such that each node holds its share of them if and only if what it has of each chosen dealer is that dealer's value; the values of any f + 1 or more nodes interpolate at 0 to its public key if and only if their errors interpolate to 0, as they do when all these nodes are so |

## Left out

- Networking, channels, MAC checks, the syncer, configuration and benchmarks: a broadcast is the set of messages sent under their authentic senders.
- Curve arithmetic, pairings, hash-to-curve, Dilithium, the lattice sharing scheme and its proofs: a group element is its discrete logarithm, hashes and cryptographic checks are parameters, and a supplementary share holds its decrypted content.
- The ring in which the key generation sums shares: the model uses the scalar field, of which only linearity and inverses of point differences are used, and share vectors of length two.
- Consistent broadcast, the common coin and the two sides of a Delphi result: `Aacs` takes equal leaders, equal broadcast contents and equal sides of the midpoint at all nodes as its environment; `select_set` is not modelled.
- The interval object: its map of rounds is a value owned by the level's map, cloned by cutting as in the program; `RoundStateBin` is modelled as an object and tied to that value.
- The two message handlers of a Delphi node appear as protocol steps of one level; discarding old rounds is not modelled.
- LevelSafety.LevelSafe: takes lists to arrive as sent, which FirstRound.FirstRoundSteps proves for first rounds; for replies Wire.RoundTrip says exactly what arrives instead.
- Liveness: starting a round replaces what was buffered for it, and an index set that arrives after its leader was joined low is ignored; only safety is proved.
- Halving of the distance per round: two honest nodes may end a round on either value, so no such bound is claimed.
- Level, number of rounds and maximal input are integer parameters, and the exponent is 2: floating point is not modelled.
- Overflow of i64 in the midpoint of two echoed values and in `coalesce` and `expand`, and of i128 sums; the bounds of a new level and the i64 sums and widths of intervals in `Aggregate` do wrap.
- DelphiLevel.Level.AddEcho: for a list with a backward entry, where the ordered map's range panics after part of the list was processed, only the refusal is stated.
- Dkg.PublicKeyRightIff: speaks of interpolating all received values at 0; `shamir_reconstruct_r` is not part of this model, so what it does with more than f + 1 or wrong values, and when it returns nothing, is not stated.
- Dkg.OneWrongShare: the same.
- Aggregate.AggregateLevels: where the width of an interval with a negative value overflows i64, when the divisor is zero is said in terms of the levels' weights only.
- Division.Sample: random scalars are a parameter; more fixed points than degree + 1 is a panic and excluded.
- The echo2 log and the start, end and level fields of a round are never read by the logic and are not part of state equality.
- Random ranges and coins from signatures, discrete-log-equality proofs, Feldman's and KZG's `open_commit`, erasure coding: they would only add easy members.
