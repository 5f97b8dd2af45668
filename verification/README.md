# Quorumcrypt: a verified model

Quorumcrypt is a threshold-cryptography service. A group of servers holds the shares of a key;
each answers a request with a partial result, collects the partial results of the others, and
combines any quorum of them. This project models the algorithms of the service in Dafny and
proves them against independent definitions: fields and groups for the algebra, integers for the
machine arithmetic, specifications of whole runs for the state machines.

The model follows the layers of the service.

* **Secret sharing.** One interpolation theorem for every field (`Fields`, `Interpolation`) has
  three instances: residues modulo a group order with shares "in the exponent" (`Residues`,
  `DlSharing`), the rationals behind the integer weights of threshold RSA (`ThresholdRsa`, `RsaCast`,
  `Sh00`), and bytes (`LogTables`, `Gf256`, `ByteSharing`). `Secrecy` is the other half: fewer shares
  fit every secret. Groups are values with named laws (`Groups`).
* **Protocols.** The FROST scheme and its two-round machine (`FrostScheme`, `FrostProtocol`,
  `FrostOutcome`, `FrostEndToEnd`, `FrostAcceptance`, `FrostHonest`), the one-round share collectors
  (`Collector`), both under the executor, and the instance manager around them (`InstanceManager`,
  `InstanceSystem`, `InstanceAnswers`). Channels are arbitrary sequences of messages, so every statement holds for
  every order, loss and duplication.
* **Multi-limb integers.** Signed 58-bit limbs with lazy carries refine the integers: `Limbs`,
  `Reduction`, `Columns`, `LimbProduct`, `LimbSquare`, `Montgomery`, `LimbArithmetic`,
  `BinaryInverse`. Machine words are functions whose preconditions exclude overflow.
* **Algorithms on top.** Scalar multiplication in any abelian group (`Digits`, `LinearForms`,
  `ScalarMul`, `Pippenger`, `SignPivot`), the lazily reduced transform of NewHope and the
  multiplication it is for (`LazyNtt`, `NegacyclicNtt`, `NttTables`), the paddings OAEP and PSS
  (`Masks`, `Oaep`, `Pss`), and GHASH and counter mode (`Ghash`, `Gcm`, `GcmStandard`).

`dafny verify dfyconfig.toml` checks the whole project.

## Where the code and its promises differ

The code is modelled as it is. Where a promise does not hold of it, a lemma gives an input and another
the exact condition; where a call stops, its contract says for exactly which arguments.

* The RSA combiner casts ids to eight bits (`src/core/schemes/src/rsa_schemes/common.rs:276`). A quorum
  is combined correctly exactly if all its ids are at most 255 (`RsaCast.CastRightIff`,
  `RsaCast.CombinesRightIff`, `RsaCast.CastInput`).
* The executor tests for finalization before a round, not after it, so a FROST node can hold every
  commitment and share and still wait for a message. `FrostProtocol.WaitsWithAllSharesIff` says
  exactly when, `FrostProtocol.FullDeliveryMayWait` shows a run.
* `FrostProtocol::update` rejects a share only when verification returns an error; a negative answer
  is taken as acceptance (`src/core/protocols/src/frost/protocol.rs:76` and `:109`). So a share is rejected
  exactly if no collected commitment has its id, and never for its value (`FrostAcceptance.RejectedIff`,
  `FrostAcceptance.ValueIsNotChecked`, `FrostAcceptance.BadShareInput`). The id inside a message is not
  compared with the sender (`FrostAcceptance.ForeignIdInput`). The signature of a finished run is valid
  exactly if the deviations of the collected shares cancel (`FrostEndToEnd.FinishedRunSignature`).
* The documentation of the instance cache speaks of ejecting the oldest terminated instance
  (`src/core/orchestration/src/instance_manager/instance_manager.rs:36-37`); the code ejects up to 5000 at
  once (`InstanceSystem.EjectsSeveralIff`, `InstanceSystem.SeveralEjectedInput`).
* `horner` returns a single coefficient unreduced while `eval_pol` always reduces
  (`DlSharing.HornerReducedIff`, `DlSharing.HornerInput`).
* `powmod` returns 1 for a zero exponent even modulo 1 (`LimbArithmetic.PowModRightIff`,
  `LimbArithmetic.PowModInput`).
* `oaep_decode` returns 0 both for an error and for an encoded empty message (`Oaep.ZeroLengthIff`,
  `Oaep.ZeroLengthInput`), and its branch for buffers shorter than the modulus writes past their end:
  `Oaep.OaepDecode` states exactly when the call stops.
* `mul` and `mul2` write past their digit arrays for the largest scalars of the big-number type
  (`ScalarMul.Mul` and `ScalarMul.Mul2` state exactly which).

The backlog keeps the promise of its comment, which is about entries: an entry waits at least one tick
interval. The promise does not extend to single messages: one that joins an old entry goes with it
(`InstanceSystem.NextTickDropsIff`, `InstanceSystem.SecondMessageDroppedEarly`).

## Hypotheses

* The group order is prime, ids are smaller than it, and k is at least one.
* Hash functions, block ciphers and random generators are arbitrary functions or values; the hashes
  of the paddings return as many bytes as their length says.
* `Collector.Sound`: a share that passes verification is u to the value of the sharing polynomial at
  an id in 1..n.
* For threshold RSA, the order of the base divides m, and n! is invertible modulo m.
* The sampler of the FROST signer group returns as many distinct ids as the threshold
  (`FrostProtocol.GoodConfig`).
* Additions of machine words outside the modelled ranges wrap around as in a build without overflow
  checks (GCM counters, PSS).

## Model

| member | source | states |
|---|---|---|
| `Interpolation.InterpolatesAtZero` | src/core/schemes/src/dl_schemes/common.rs:114-160 | in every field, for every list of distinct points and every polynomial with at most as many coefficients, the Lagrange weights of `lagrange_coeff` sum the values at the points to the value at zero |
| `Interpolation.EvalAtZero` | src/core/schemes/src/dl_schemes/common.rs:22-53 | the last coefficient, where the sharing puts the secret, is the value at zero |
| `Interpolation.PartitionOfUnity` | src/core/schemes/src/dl_schemes/common.rs:133-160 | the weights of distinct points sum to one |
| `Residues.ModFieldLawful` | src/core/schemes/src/dl_schemes/common.rs:55-87 | the residues modulo a prime group order are a field, with inverses by extended Euclid |
| `Residues.ExtEuclid` | src/core/schemes/src/rsa_schemes/common.rs:308-319 | the recursion returns coefficients of a Bezout identity for the greatest common divisor |
| `Residues.GcdGreatest` | src/core/schemes/src/rsa_schemes/common.rs:308-319 | every common divisor divides what that identity gives |
| `DlSharing.Horner` | src/core/schemes/src/dl_schemes/common.rs:78-87 | the value of the integer polynomial modulo q for more than one coefficient; a single coefficient comes back unreduced |
| `DlSharing.EvalPol` | src/core/schemes/src/dl_schemes/common.rs:55-76 | the value of the same integer polynomial modulo q, always reduced |
| `DlSharing.HornerReducedIff` | src/core/schemes/src/dl_schemes/common.rs:55-87 | `horner` returns the reduced value, as `eval_pol` does, if and only if there is more than one coefficient or the single one is reduced |
| `DlSharing.HornerInput` | src/core/schemes/src/dl_schemes/common.rs:78-87 | a single coefficient for which the two differ |
| `DlSharing.ShamirShare` | src/core/schemes/src/dl_schemes/common.rs:22-53 | share j is the value at j + 1 of the polynomial with the secret as constant term, over the field of residues, and its verification key is g to that share |
| `DlSharing.LagrangeCoeff` | src/core/schemes/src/dl_schemes/common.rs:133-160 | the loop with its two cases for the sign of j - i computes the field weight of point i |
| `DlSharing.Interpolate` | src/core/schemes/src/dl_schemes/common.rs:114-131 | the product of all shares raised to their weights |
| `DlSharing.Reconstructs` | src/core/schemes/src/dl_schemes/common.rs:114-160 | any shares u^f(i) with distinct ids, at least as many as f has coefficients, combine to u^f(0) |
| `DlSharing.AnyQuorumReconstructs` | src/core/schemes/src/dl_schemes/common.rs:22-160 | any k or more parties of a (k, n) sharing of x, in any order, reconstruct u^x from u to their dealt shares |
| `Secrecy.Interpolant` | src/core/schemes/src/dl_schemes/common.rs:22-53 | through points with distinct abscissas there is a polynomial with as many coefficients as points |
| `Secrecy.OnlyInterpolant` | src/core/schemes/src/dl_schemes/common.rs:22-53 | and only one |
| `Secrecy.EverySecretOnce` | src/core/schemes/src/dl_schemes/common.rs:22-53 | in every field, for any k - 1 shares, every secret is dealt by exactly one choice of the random coefficients |
| `Secrecy.DlSharesHide` | src/core/schemes/src/dl_schemes/common.rs:22-53 | k - 1 shares of any secret modulo a prime are also shares of any other secret |
| `ThresholdRsa.FacProductDivides` | src/core/schemes/src/rsa_schemes/common.rs:267-272 | a! b! divides (a + b)! |
| `ThresholdRsa.LagCoeff` | src/core/schemes/src/rsa_schemes/common.rs:290-306 | the loop returns twice the truncated quotient of d times the product of -j by the product of i - j |
| `ThresholdRsa.DivisionExact` | src/core/schemes/src/rsa_schemes/common.rs:290-306 | with d = n! that division leaves no remainder, for every selection of distinct ids in 1..n |
| `ThresholdRsa.IntegerInterpolation` | src/core/schemes/src/rsa_schemes/common.rs:274-306 | the integer weights sum the values of every integer polynomial to n! times its constant term |
| `ThresholdRsa.ShamirShareRsa` | src/core/schemes/src/rsa_schemes/common.rs:133-173 | party i is dealt f(i)/n! modulo m, and its verification key is v to that exponent modulo N |
| `ThresholdRsa.InterpolateRsa` | src/core/schemes/src/rsa_schemes/common.rs:274-288 | the product modulo N of the shares raised to weights taken among the ids cast to eight bits |
| `ThresholdRsa.RsaReconstructs` | src/core/schemes/src/rsa_schemes/common.rs:133-173 | in any abelian group, shares c^(s_i) with distinct ids combine to c^(2d) when the order of c divides m and n! is invertible modulo m |
| `ThresholdRsa.AnyRsaQuorumReconstructs` | src/core/schemes/src/rsa_schemes/common.rs:133-306 | whatever the number of parties, every quorum with ids up to 255 interpolates to c^(2d) modulo N |
| `RsaCast.CastRightIff` | src/core/schemes/src/rsa_schemes/common.rs:274-306 | for every quorum, each share gets its own weight among the ids cast to eight bits if and only if every id is at most 255 |
| `RsaCast.CombinesRightIff` | src/core/schemes/src/rsa_schemes/common.rs:274-306 | the product with those weights is the right one for all data, in the group of the integers, if and only if every id of the quorum is at most 255 |
| `RsaCast.CastInput` | src/core/schemes/src/rsa_schemes/common.rs:274-306 | a quorum for which the cast gives the wrong weight |
| `Sh00.PartialSign` | src/core/schemes/src/rsa_schemes/signatures/sh00.rs:516-551 | the share x^(2 s_i) with the challenge and the response of its proof |
| `Sh00.VerifyShare` | src/core/schemes/src/rsa_schemes/signatures/sh00.rs:553-575 | for the commitments v1 and x1 with v1 vi^c = v^z and x1 xi^(2c) = x^(4z), accepts if and only if H2 over v, x^4, vi, xi^2, v1 and x1 is c |
| `Sh00.AcceptedIff` | src/core/schemes/src/rsa_schemes/signatures/sh00.rs:553-575 | the same in any abelian group |
| `Sh00.CommitmentsExist` | src/core/schemes/src/rsa_schemes/signatures/sh00.rs:553-575 | there are such commitments for every answer |
| `Sh00.SpecialSoundness` | src/core/schemes/src/rsa_schemes/signatures/sh00.rs:553-575 | two answers (z, c) and (y, d) to the same commitments give vi^(c-d) = v^(z-y) and xi^(2(c-d)) = x^(4(z-y)) |
| `Sh00.HonestProofAccepted` | src/core/schemes/src/rsa_schemes/signatures/sh00.rs:516-575 | for every hash function and randomness, `verify_share` accepts what `partial_sign` makes |
| `Sh00.Assemble` | src/core/schemes/src/rsa_schemes/signatures/sh00.rs:577-596 | w^a x^b for the Bezout coefficients of 4 and e, divided by u for Jacobi symbol -1 |
| `Sh00.RootOfBase` | src/core/schemes/src/rsa_schemes/signatures/sh00.rs:577-596 | that value is an e-th root of the base |
| `Sh00.AssembledSignatureVerifies` | src/core/schemes/src/rsa_schemes/signatures/sh00.rs:510-596 | from any quorum of shares with ids up to 255, for either Jacobi symbol, the e-th power of the assembled signature is the hashed message |
| `FrostScheme.SortCanonical` | src/core/schemes/src/dl_schemes/signatures/frost.rs:622-667 | two commitment lists with the same elements sort to the same list, so all participants hash the same encoding |
| `FrostScheme.ComputeBindingFactors` | src/core/schemes/src/dl_schemes/signatures/frost.rs:877-904 | one factor per commitment, in the order of the list, hashed over the whole list |
| `FrostScheme.FindFactor` | src/core/schemes/src/dl_schemes/signatures/frost.rs:960-971 | the first factor with an id, otherwise an error |
| `FrostScheme.FindCommitment` | src/core/schemes/src/dl_schemes/signatures/frost.rs:973-984 | the first commitment with an id, otherwise an error |
| `FrostScheme.ComputeGroupCommitment` | src/core/schemes/src/dl_schemes/signatures/frost.rs:906-932 | the product of all hiding commitments and binding commitments to their factors |
| `FrostScheme.PartialSign` | src/core/schemes/src/dl_schemes/signatures/frost.rs:622-667 | the response d + e rho + lambda c s modulo q over the sorted list, or the error for a missing id |
| `FrostScheme.VerifyShare` | src/core/schemes/src/dl_schemes/signatures/frost.rs:705-762 | an error without a commitment of the id, otherwise the truth of the share equation for its first commitment, also in lists with repeated ids |
| `FrostScheme.HonestResponseIs` | src/core/schemes/src/dl_schemes/signatures/frost.rs:622-667 | the response is d + e rho + lambda x c modulo q, reduced, as in section 5.2 of RFC 9591 |
| `FrostScheme.GroupCommitmentPower` | src/core/schemes/src/dl_schemes/signatures/frost.rs:906-932 | the group commitment is g to the sum of d + e rho over the nonces |
| `FrostScheme.SpecialSoundness` | src/core/schemes/src/dl_schemes/signatures/frost.rs:764-770 | two signatures z and y with the same R under challenges c and d give Y^(c-d) = g^(z-y) for the public key Y |
| `FrostScheme.Assemble` | src/core/schemes/src/dl_schemes/signatures/frost.rs:687-703 | the group commitment and the sum of the first k responses modulo q |
| `FrostScheme.HonestShareVerifies` | src/core/schemes/src/dl_schemes/signatures/frost.rs:622-762 | every response made by `partial_sign` with a matching key and commitment satisfies its share equation |
| `FrostScheme.AggregateVerifiesIff` | src/core/schemes/src/dl_schemes/signatures/frost.rs:687-772 | for any quorum in any order, the assembled signature passes `verify` if and only if the deviations of the shares multiply to the unit |
| `FrostScheme.VerifiedSharesAggregate` | src/core/schemes/src/dl_schemes/signatures/frost.rs:687-772 | if every share satisfies its equation, the assembled signature passes `verify` |
| `FrostScheme.OneBadShareIsCaught` | src/core/schemes/src/dl_schemes/signatures/frost.rs:687-772 | if exactly one share does not, the assembled signature fails `verify` |
| `Collector.ShareCollector.DoRound` | src/core/protocols/src/threshold_cipher/protocol.rs:119-144 | the own share becomes the first valid share and its id a received one |
| `Collector.ShareCollector.Update` | src/core/protocols/src/threshold_cipher/protocol.rs:53-117 | the new state of lists and flags for duplicates, invalid shares, errors and valid shares |
| `Collector.ShareCollector.Finalize` | src/core/protocols/src/threshold_cipher/protocol.rs:40-51 | hands the valid shares over to be assembled; success marks the collector finished, an error leaves it as it is |
| `Collector.Execute` | src/core/orchestration/src/instance_manager/protocol_executor.rs:47-185 | the driver loop returns what the specification of a run returns, for every sequence of deliveries |
| `Collector.FinalizedIsQuorum` | src/core/protocols/src/threshold_signature/protocol.rs:34-115 | over every run, a node that comes to assemble holds its own share and verified, delivered shares of distinct parties, exactly the threshold in number when that is at least two; it finalizes if and only if these assemble |
| `Collector.FinalizesIff` | src/core/orchestration/src/instance_manager/protocol_executor.rs:62-151 | a node comes to assemble if and only if something arrived and its own share with the parties whose first share verifies reaches the threshold |
| `Collector.EveryOutcome` | src/core/orchestration/src/instance_manager/protocol_executor.rs:47-185 | how every run ends: failed initial round, assembly, crash at a default message or closed channel, with the exact condition of each |
| `Collector.GoodIdsAreFirst` | src/core/protocols/src/threshold_cipher/protocol.rs:53-117 | an id counts if and only if the first share delivered under it verifies |
| `Collector.FinishedStays` | src/core/protocols/src/threshold_cipher/protocol.rs:53-117 | a finished collector takes in nothing more |
| `Collector.FinalizedValue` | src/core/protocols/src/threshold_cipher/protocol.rs:32-144 | under sound verification a finalizing node interpolates u^x |
| `Collector.Agreement` | src/core/protocols/src/threshold_cipher/protocol.rs:32-144 | any two nodes that finalize a request, after any deliveries, assemble the same group element |
| `FrostProtocol.Protocol.Update` | src/core/protocols/src/frost/protocol.rs:48-153 | new commitments, shares and unverified ids for every kind of message, with the errors for strangers and failed verification |
| `FrostProtocol.Protocol.DoRound` | src/core/protocols/src/frost/protocol.rs:198-276 | first round: nonce and own commitment; second round: own share with that nonce; otherwise the round error |
| `FrostProtocol.Protocol.Finalize` | src/core/protocols/src/frost/protocol.rs:296-315 | the commitments and shares of the state are what is aggregated, unless the scheme reports an error |
| `FrostProtocol.Receive` | src/core/orchestration/src/instance_manager/protocol_executor.rs:84-153 | one message: update, finalize if ready, otherwise the next round if ready |
| `FrostProtocol.Execute` | src/core/orchestration/src/instance_manager/protocol_executor.rs:47-185 | the driver loop returns result, error, signings and last state as the specification of a run says |
| `FrostProtocol.ReadinessMeaning` | src/core/protocols/src/frost/protocol.rs:155-191 | in reachable states readiness to finalize is one commitment and one share per signer, and readiness in the second round implies it |
| `FrostProtocol.UpdateKeeps` | src/core/protocols/src/frost/protocol.rs:48-153 | `update` keeps the invariant, never replaces a commitment or a share, and leaves round and nonce alone |
| `FrostProtocol.RoundKeeps` | src/core/protocols/src/frost/protocol.rs:198-276 | the second round keeps the invariant and signs with the own nonce over the commitments of exactly the signer group |
| `FrostProtocol.EveryRunIsSafe` | src/core/protocols/src/frost/protocol.rs:198-315 | over every run `partial_sign` happens at most once, with the own nonce, over a map whose domain is the signer group; `finalize` aggregates that identical map with one share per signer; neither `InvalidRound` nor a missing nonce occurs |
| `FrostProtocol.OneMoreMessageFinalizes` | src/core/orchestration/src/instance_manager/protocol_executor.rs:84-153 | with everything collected, any further accepted message ends the run with the aggregate |
| `FrostProtocol.WaitsWithAllSharesIff` | src/core/orchestration/src/instance_manager/protocol_executor.rs:84-153 | a run goes on with everything collected if and only if the message is accepted, only the own share is missing with it, and signing succeeds; all of that is visible before the step |
| `FrostProtocol.FullDeliveryMayWait` | src/core/orchestration/src/instance_manager/protocol_executor.rs:84-153 | a two-signer run that has received everything and waits |
| `FrostOutcome.RunOutcome` | src/core/protocols/src/frost/protocol.rs:48-315 | for every inbox without faults: error, aggregation, the signing and the state of a run that goes on, through the first commitment and the first share of every signer |
| `FrostOutcome.FinishesIff` | src/core/protocols/src/frost/protocol.rs:48-315 | a run finishes if and only if every signer has sent a commitment and a share by the last message, the own share counting from the message after the commitments are complete, and signing and aggregation succeed |
| `FrostOutcome.FaultStops` | src/core/protocols/src/frost/protocol.rs:48-153 | a run that has not ended stops at the first fault with its error: a default message, an empty precomputation, or a share that fails its check when share and commitment of a signer are there |
| `FrostOutcome.IgnoredKeepsState` | src/core/protocols/src/frost/protocol.rs:57-86 | a commitment or share that the node holds, or one of a stranger, leaves the state as it is |
| `FrostOutcome.InsertedChangesNothing` | src/core/protocols/src/frost/protocol.rs:57-120 | inserted between the first and the last message of any inbox without faults, it changes neither error nor result |
| `FrostEndToEnd.FinishedRunSignature` | src/core/protocols/src/frost/protocol.rs:278-315 | whoever sent what: if the ids inside the collected commitments and shares match, the signature of a finished run passes `verify` if and only if the deviations of the shares multiply to the unit |
| `FrostEndToEnd.TaggedRunMatches` | src/core/protocols/src/frost/protocol.rs:48-153 | the ids match in every run whose messages carry the id of their sender |
| `FrostAcceptance.ListedInOrder` | src/core/schemes/src/dl_schemes/signatures/frost.rs:705-762 | some collected commitment has the id of a share if and only if `verify_share` finds one in the list, in whatever order the map is listed |
| `FrostAcceptance.RejectedIff` | src/core/protocols/src/frost/protocol.rs:48-153 | `update` answers `InvalidShare` if and only if the message is an empty precomputation, or a share meets its commitment and no collected commitment has the id of the share |
| `FrostAcceptance.ValueIsNotChecked` | src/core/protocols/src/frost/protocol.rs:65-120 | the value of a share makes no difference to its acceptance |
| `FrostAcceptance.TaggedRejectedIff` | src/core/protocols/src/frost/protocol.rs:48-153 | among messages with the id of their sender, only the empty precomputation is answered with `InvalidShare` |
| `FrostAcceptance.NoShareIsEverRejected` | src/core/protocols/src/frost/protocol.rs:48-153 | over every run of such messages without an empty precomputation `InvalidShare` does not occur |
| `FrostAcceptance.TaggedFaultFree` | src/core/protocols/src/frost/protocol.rs:48-153 | inboxes of messages with the id of their sender, without default messages and empty precomputations, have no faults |
| `FrostAcceptance.BadShareFinalizes` | src/core/protocols/src/frost/protocol.rs:48-315 | with two signers a share that fails its equation is accepted, the run finalizes, and the signature fails `verify` |
| `FrostAcceptance.BadShareInput` | src/core/protocols/src/frost/protocol.rs:48-315 | such a run with numbers |
| `FrostAcceptance.ForeignIdInput` | src/core/protocols/src/frost/protocol.rs:48-153 | a run that finalizes with a commitment and a share under the id of another signer |
| `FrostHonest.HonestRunAggregates` | src/core/protocols/src/frost/protocol.rs:198-315 | with honest signers a finished run aggregates exactly their commitments and shares, whatever is delivered when |
| `FrostHonest.HonestRunVerifies` | src/core/protocols/src/frost/protocol.rs:198-315 | and its signature passes `verify`, when shares are made by `partial_sign` |
| `InstanceManager.InstanceCache.AttemptEject` | src/core/orchestration/src/instance_manager/instance_manager.rs:99-132 | removes the oldest terminated instances, at most 5000, and no others |
| `InstanceManager.InstanceCache.Insert` | src/core/orchestration/src/instance_manager/instance_manager.rs:64-72 | makes room at capacity and stores the instance |
| `InstanceManager.InstanceCache.Terminate` | src/core/orchestration/src/instance_manager/instance_manager.rs:74-97 | stores the result, closes the channel, takes the responder and queues the id |
| `InstanceManager.EventLoop.Start` | src/core/orchestration/src/instance_manager/instance_manager.rs:666-746 | stores the instance with its responder and hands over its backlog |
| `InstanceManager.EventLoop.HandleTerminal` | src/core/orchestration/src/instance_manager/instance_manager.rs:309-339 | the terminal command of an instance |
| `InstanceManager.EventLoop.Incoming` | src/core/orchestration/src/instance_manager/instance_manager.rs:349-389 | a message is handed over, dropped or backlogged |
| `InstanceManager.EventLoop.Tick` | src/core/orchestration/src/instance_manager/instance_manager.rs:391-406 | unchecked entries are marked, marked ones dropped |
| `InstanceSystem.EveryRunLifecycle` | src/core/orchestration/src/instance_manager/instance_manager.rs:309-339 | over every run the termination queue is duplicate-free and holds exactly the finished instances, every unfinished instance has exactly one outstanding task or command, and ejection follows termination order |
| `InstanceSystem.UnfinishedStays` | src/core/orchestration/src/instance_manager/instance_manager.rs:99-132 | no step ejects an unfinished instance, and only its own terminal command finishes it |
| `InstanceSystem.EveryRunResponders` | src/core/orchestration/src/instance_manager/instance.rs:65-83 | over every run each synchronous responder is used at most once, even when ids are ejected and reused |
| `InstanceAnswers.EveryRunAnswers` | src/core/orchestration/src/instance_manager/instance_manager.rs:74-97 | over every run each responder of an accepted synchronous start is held by its own instance until the terminal command of that instance, and answered then; stored results and statuses are those reported |
| `InstanceAnswers.TerminalAnswers` | src/core/orchestration/src/instance_manager/instance_manager.rs:74-97 | a terminal command answers exactly the responder of its own instance, with the result it carries |
| `InstanceAnswers.NobodyIsForgotten` | src/core/orchestration/src/instance_manager/instance_manager.rs:74-97 | when nothing is outstanding, every accepted responder has been answered exactly once |
| `InstanceAnswers.IncomingGoes` | src/core/orchestration/src/instance_manager/instance_manager.rs:349-389 | a message is handed over if and only if its instance is running, dropped if and only if it has terminated, and backlogged otherwise |
| `InstanceAnswers.ArrivalDecides` | src/core/orchestration/src/instance_manager/instance_manager.rs:349-389 | over every run: dropped late if and only if the instance had terminated on arrival, handed over if it was running |
| `InstanceAnswers.StartHandsOver` | src/core/orchestration/src/instance_manager/instance_manager.rs:716-746 | a start hands over exactly the backlogged messages of its id, in order of arrival |
| `InstanceSystem.EveryRunCacheBound` | src/core/orchestration/src/instance_manager/instance_manager.rs:64-132 | over every run from the start the cache holds at most the maximum of its capacity and the peak number of simultaneously unfinished instances |
| `InstanceSystem.EjectsExactly` | src/core/orchestration/src/instance_manager/instance_manager.rs:64-132 | at capacity an insertion ejects the terminated instances, at most 5000, and otherwise none |
| `InstanceSystem.EjectsSeveralIff` | src/core/orchestration/src/instance_manager/instance_manager.rs:64-132 | an insertion ejects more than one instance if and only if the cache is at capacity and at least two have terminated |
| `InstanceSystem.SeveralEjectedInput` | src/core/orchestration/src/instance_manager/instance_manager.rs:64-132 | a run with room for two instances in which the third ejects both |
| `InstanceSystem.EveryRunBacklog` | src/core/orchestration/src/instance_manager/instance_manager.rs:349-406 | over every run each message is in exactly one of backlog, handed over, dropped late and dropped by a tick; entries keep arrival order; backlog and cache share no id |
| `InstanceSystem.InitialOk` | src/core/orchestration/src/instance_manager/instance_manager.rs:221-242 | the initial state satisfies all three invariants |
| `InstanceSystem.TickDropsOldEntries` | src/core/orchestration/src/instance_manager/instance_manager.rs:391-406 | a tick drops a message if and only if its entry existed at an earlier tick |
| `InstanceSystem.NextTickDropsIff` | src/core/orchestration/src/instance_manager/instance_manager.rs:349-406 | a message that is backlogged is dropped at the very next tick if and only if its id already had a checked entry |
| `InstanceSystem.SecondMessageDroppedEarly` | src/core/orchestration/src/instance_manager/instance_manager.rs:391-406 | a run in which that happens |
| `Limbs.Norm` | src/core/schemes/mcore/src/bls12381/big.rs:178-188 | normal form of the same value, from limbs up to 2^62 in magnitude, without overflow |
| `Limbs.NormExcess` | src/core/schemes/mcore/src/bls12381/big.rs:178-188 | the excess that `norm` returns is the value divided by 2^384, rounded down |
| `Limbs.ReducedIff` | src/core/schemes/mcore/src/bls12381/big.rs:178-188 | a number in normal form has all limbs in range if and only if its value is in the range of the limbs |
| `Limbs.Comp` | src/core/schemes/mcore/src/bls12381/big.rs:474-482 | the branch-free comparison returns the sign of the difference of the values |
| `Limbs.ShiftLeft` | src/core/schemes/mcore/src/bls12381/big.rs:233-242 | the double, in normal form |
| `Limbs.ShiftLeftBy` | src/core/schemes/mcore/src/bls12381/big.rs:233-242 | the product with 2^k, in normal form, and the excess of it, for every k below 58 for which the top limb has room |
| `Limbs.ShiftRight` | src/core/schemes/mcore/src/bls12381/big.rs:209-217 | the half, rounded down |
| `Limbs.ShiftRightBy` | src/core/schemes/mcore/src/bls12381/big.rs:209-217 | the quotient by 2^k rounded down, and the remainder as the part shifted out, for every k below 58 |
| `Limbs.Sub` | src/core/schemes/mcore/src/bls12381/big.rs:363-367 | the difference of the values, in lazy limbs whose bound is the sum of the bounds |
| `Limbs.Add` | src/core/schemes/mcore/src/bls12381/big.rs:320-324 | the sum of the values, likewise |
| `Reduction.RMod` | src/core/schemes/mcore/src/bls12381/big.rs:596-624 | the remainder of the value modulo a positive modulus, in reduced form, from any lazy form |
| `Reduction.Div` | src/core/schemes/mcore/src/bls12381/big.rs:627-657 | the quotient rounded down, in place |
| `Reduction.DMod` | src/core/schemes/mcore/src/bls12381/dbig.rs:196-229 | the remainder of a double-length number |
| `Reduction.DDiv` | src/core/schemes/mcore/src/bls12381/dbig.rs:232-264 | the quotient of a double-length number that has room in a single-length one |
| `Columns.ColumnsValue` | src/core/schemes/mcore/src/bls12381/big.rs:808-844 | the column sums of two limb sequences have the product of their values as value |
| `Columns.ColumnByPairs` | src/core/schemes/mcore/src/bls12381/big.rs:808-844 | each column is its diagonal products plus one product (a_i - a_j)(b_j - b_i) per pair |
| `LimbProduct.Mul` | src/core/schemes/mcore/src/bls12381/big.rs:808-844 | exactly the integer product, reduced, with every intermediate in 128 bits |
| `LimbSquare.Sqr` | src/core/schemes/mcore/src/bls12381/big.rs:847-914 | exactly the integer square, reduced, with every intermediate in 128 bits |
| `LimbSquare.ReducedUnique` | src/core/schemes/mcore/src/bls12381/big.rs:847-914 | reduced limbs are determined by their value, so `sqr(a)` and `mul(a, a)` agree limb by limb |
| `Montgomery.DigitClears` | src/core/schemes/mcore/src/bls12381/big.rs:917-959 | with mc m_0 = -1 modulo 2^58, the digit computed with wrap-around clears the lowest limb |
| `Montgomery.Monty` | src/core/schemes/mcore/src/bls12381/big.rs:917-959 | for d below m R the result is below 2m and its product with R is congruent to d modulo m, R the range of m |
| `LimbArithmetic.ModMul` | src/core/schemes/mcore/src/bls12381/big.rs:980-987 | the product modulo m |
| `LimbArithmetic.ModSqr` | src/core/schemes/mcore/src/bls12381/big.rs:990-995 | the square modulo m |
| `LimbArithmetic.IsZilch` | src/core/schemes/mcore/src/bls12381/big.rs:124-130 | true exactly for the value zero |
| `LimbArithmetic.PowMod` | src/core/schemes/mcore/src/bls12381/big.rs:1018-1037 | the power modulo m, and 1 for a zero exponent |
| `LimbArithmetic.PowModRightIff` | src/core/schemes/mcore/src/bls12381/big.rs:1018-1037 | that is the power modulo m if and only if the exponent is positive or m is not 1 |
| `LimbArithmetic.PowModInput` | src/core/schemes/mcore/src/bls12381/big.rs:1018-1037 | the exponent zero modulo 1 |
| `BinaryInverse.InvModP` | src/core/schemes/mcore/src/bls12381/big.rs:758-805 | for odd p the inverse of extended Euclid if the number is coprime to p, and 0 for a multiple of p |
| `BinaryInverse.Round` | src/core/schemes/mcore/src/bls12381/big.rs:766-802 | one round keeps both congruences and coprimality, and the sum u + v falls |
| `Digits.RecodeMeaning` | src/core/schemes/mcore/src/bls12381/ecp.rs:1119-1128 | the signed windows of an odd number are odd, in table range, have the number as value and end in one |
| `ScalarMul.SelectMultiple` | src/core/schemes/mcore/src/bls12381/ecp.rs:280-300 | for every odd digit below 16 in magnitude the table entry, negated if need be, is that multiple of the point |
| `ScalarMul.Mul` | src/core/schemes/mcore/src/bls12381/ecp.rs:1048-1142 | e.P in any abelian group for every scalar up to 2^404 - 2; an index past the digit array for exactly the larger ones, unless P is the unit |
| `ScalarMul.JointSelect` | src/core/schemes/mcore/src/bls12381/ecp.rs:1227-1254 | every joint digit 4a + b selects a.P + b.Q |
| `ScalarMul.Mul2` | src/core/schemes/mcore/src/bls12381/ecp.rs:1202-1307 | e.P + f.Q in any abelian group; an index past the digit array exactly when the scalars made odd sum to 2^404 or more |
| `ScalarMul.PinMul` | src/core/schemes/mcore/src/bls12381/ecp.rs:1023-1044 | the ladder returns the multiple of P by the low bits of e, for negative e too |
| `Pippenger.MulN` | src/core/schemes/mcore/src/bls12381/ecp.rs:1145-1198 | the sum of all e_j.X_j, for any number of points and scalars of any size |
| `Pippenger.WeighBuckets` | src/core/schemes/mcore/src/bls12381/ecp.rs:1187-1191 | the running sums weigh bucket b with b |
| `SignPivot.SignsValue` | src/core/schemes/mcore/src/bls12381/ecp2.rs:746-752 | the signs of an odd number have the number as value |
| `SignPivot.AlignedValue` | src/core/schemes/mcore/src/bls12381/ecp2.rs:754-766 | every scalar is used up after nb positions and its digits have it as value |
| `SignPivot.PivotSelect` | src/core/schemes/mcore/src/bls12381/ecp2.rs:768-774 | the packed digit with its sign is an index of the table and selects s.Q0 + a.Q1 + b.Q2 + c.Q3 |
| `SignPivot.Mul4` | src/core/schemes/mcore/src/bls12381/ecp2.rs:679-782 | u0.Q0 + u1.Q1 + u2.Q2 + u3.Q3 in any abelian group, for all scalars of the big-number width |
| `LazyNtt.Redc` | src/core/schemes/mcore/src/nhs.rs:226-229 | the result times 2^32 is congruent to the argument modulo q, and exceeds q by at most the argument over 2^32 |
| `LazyNtt.ForwardLevel` | src/core/schemes/mcore/src/nhs.rs:250-263 | one level stands for the exact level modulo q, and values grow by at most 2q |
| `LazyNtt.NttInPlace` | src/core/schemes/mcore/src/nhs.rs:240-264 | from inputs up to 2q all values stay below 22q and within 32 bits, and the outputs stand for the exact transform |
| `LazyNtt.InverseLevel` | src/core/schemes/mcore/src/nhs.rs:272-288 | one level stands for the exact level, values at most double, and no difference becomes negative |
| `LazyNtt.InttInPlace` | src/core/schemes/mcore/src/nhs.rs:268-304 | from inputs up to 2q values entering a level stay within 1024q, nothing overflows, and the outputs are the exact inverse transform in [0, q) |
| `LazyNtt.HardReduce` | src/core/schemes/mcore/src/nhs.rs:509-516 | every entry becomes its residue |
| `LazyNtt.InverseUndoes` | src/core/schemes/mcore/src/nhs.rs:240-304 | the exact inverse level after the exact forward level doubles every entry |
| `LazyNtt.TransformsInvert` | src/core/schemes/mcore/src/nhs.rs:240-304 | from any representatives of the transform of x the exact inverse gives the residues of x |
| `LazyNtt.NttRoundTrip` | src/core/schemes/mcore/src/nhs.rs:240-304 | `ntt`, full reduction and `intt` in a row give back every polynomial, in normal form |
| `NegacyclicNtt.BlockEvaluates` | src/core/schemes/mcore/src/nhs.rs:250-263 | after any number of levels each block has the value of the whole polynomial at every point whose power is the root of the block |
| `NegacyclicNtt.NttEvaluates` | src/core/schemes/mcore/src/nhs.rs:240-264 | entry j of `ntt` is the value of the polynomial at the j-th root, in Montgomery form |
| `NegacyclicNtt.PointIsRoot` | src/core/schemes/mcore/src/nhs.rs:38-124 | those points are roots of x^1024 + 1 |
| `NegacyclicNtt.NegacyclicValue` | src/core/schemes/mcore/src/nhs.rs:483-487 | at a root of x^n + 1 the product modulo x^n + 1, given by its coefficients, has the product of the values |
| `NegacyclicNtt.TransformOfProduct` | src/core/schemes/mcore/src/nhs.rs:483-487 | the entrywise product of two transforms is the transform of the product modulo x^n + 1 |
| `NegacyclicNtt.PolyMul` | src/core/schemes/mcore/src/nhs.rs:483-487 | the Montgomery product entry by entry, below 2q from entries up to 22q |
| `NegacyclicNtt.TransformsMultiply` | src/core/schemes/mcore/src/nhs.rs:240-304 | the inverse transform of the entrywise product is the product modulo x^1024 + 1 and modulo q |
| `NegacyclicNtt.Multiply` | src/core/schemes/mcore/src/nhs.rs:483-487 | `ntt` of both factors, `poly_mul` and `intt` leave that product in [0, q) |
| `NttTables.EveryInverse` | src/core/schemes/mcore/src/nhs.rs:38-212 | `ROOTS` and `IROOTS` are inverse to each other, entry by entry |
| `NttTables.EveryRoot` | src/core/schemes/mcore/src/nhs.rs:38-124 | entry 2k of `ROOTS` is a square root of entry k |
| `NttTables.EveryNegatedRoot` | src/core/schemes/mcore/src/nhs.rs:38-124 | entry 2k + 1 is a square root of its negation |
| `NttTables.TablesLawful` | src/core/schemes/mcore/src/nhs.rs:35-212 | the tables and constants of the source satisfy every hypothesis of the transforms |
| `NttTables.RoundTripWithTables` | src/core/schemes/mcore/src/nhs.rs:240-304 | so with them `ntt`, full reduction and `intt` give back every polynomial |
| `NttTables.MultiplyWithTables` | src/core/schemes/mcore/src/nhs.rs:483-487 | and `ntt`, `poly_mul` and `intt` multiply modulo x^1024 + 1 and modulo q |
| `LogTables.TableFieldLawful` | src/core/schemes/mcore/src/share.rs:66-88 | tables of powers and logarithms of a generator with a linear step make a field |
| `Gf256.TableOfPowers` | src/core/schemes/mcore/src/share.rs:28-42 | entry i + 1 of `PTAB` is 3 times entry i |
| `Gf256.TableOfLogs` | src/core/schemes/mcore/src/share.rs:44-58 | every non-zero byte is the power that `LTAB` says |
| `Gf256.BytesLawful` | src/core/schemes/mcore/src/share.rs:66-88 | exclusive or with `mul` and `inv` is a field on the bytes |
| `ByteSharing.ShareElement` | src/core/schemes/mcore/src/share.rs:119-125 | the inner loop evaluates the polynomial with the drawn coefficients at the id |
| `ByteSharing.NewShare` | src/core/schemes/mcore/src/share.rs:114-128 | one polynomial value per byte, or the empty share for ids and thresholds out of range |
| `ByteSharing.Interpolate` | src/core/schemes/mcore/src/share.rs:91-103 | for distinct points, the sum of the values times the field weights |
| `ByteSharing.Recover` | src/core/schemes/mcore/src/share.rs:130-151 | nothing for shares that do not fit together, otherwise the interpolated bytes |
| `ByteSharing.BytesRoundTrip` | src/core/schemes/mcore/src/share.rs:114-151 | every message comes back from any k shares with distinct ids made with the same random bytes |
| `Secrecy.FewSharesHide` | src/core/schemes/mcore/src/share.rs:114-128 | any k - 1 shares of a byte string are also shares of any other string of its length, made with other random bytes |
| `Masks.Mgf1` | src/core/schemes/mcore/src/hmac.rs:389-418 | the buffer holds the first n bytes of the hash stream and zeros |
| `Masks.Mgf1Xor` | src/core/schemes/mcore/src/hmac.rs:420-444 | the first n bytes are combined with the hash stream and the rest is unchanged |
| `Masks.MaskAt` | src/core/schemes/mcore/src/hmac.rs:389-444 | byte i of the mask is byte i % hlen of the hash with counter i / hlen |
| `Oaep.OaepEncode` | src/core/schemes/mcore/src/hmac.rs:680-736 | stops exactly when no message has room or the encoded message does not fit a buffer, refuses exactly the messages over the capacity, and otherwise leaves the encoded message and zeros |
| `Oaep.OaepDecode` | src/core/schemes/mcore/src/hmac.rs:739-823 | the length and the bytes of the message in an encoded message, zero for anything else; stops exactly for the length zero and when an encoded message of the length does not fit a buffer |
| `Oaep.RoundTrip` | src/core/schemes/mcore/src/hmac.rs:680-823 | for every hash, message, label and seed, decoding the encoded message gives the message |
| `Oaep.EncodedSeedAt` | src/core/schemes/mcore/src/hmac.rs:680-736 | byte by byte: the leading zero and the seed combined with the hash of the masked block |
| `Oaep.EncodedBlockAt` | src/core/schemes/mcore/src/hmac.rs:680-736 | byte by byte: label hash, zeros, marker and message combined with the hashes of the seed |
| `Oaep.OtherLabel` | src/core/schemes/mcore/src/hmac.rs:739-823 | under another label the message decodes if and only if the label hashes agree |
| `Oaep.OnlyEncodings` | src/core/schemes/mcore/src/hmac.rs:739-823 | what decodes to m is the encoding of m under the seed in it |
| `Oaep.ZeroLengthIff` | src/core/schemes/mcore/src/hmac.rs:739-823 | the returned length is zero if and only if the string is not the encoding of any non-empty message |
| `Oaep.ZeroLengthInput` | src/core/schemes/mcore/src/hmac.rs:739-823 | two strings of length zero, one of which decodes |
| `Pss.PssEncode` | src/core/schemes/mcore/src/hmac.rs:569-613 | refuses exactly the lengths that are too short, stops exactly when the encoding does not fit the buffer, and otherwise leaves the encoded message before the unchanged rest |
| `Pss.PssVerify` | src/core/schemes/mcore/src/hmac.rs:615-676 | accepts exactly the strings with the format, the trailer and the salted hash; stops exactly at blocks over 512 bytes that pass the first two tests |
| `Pss.EncodedAccepted` | src/core/schemes/mcore/src/hmac.rs:569-676 | for every hash, message and salt the encoded message is accepted, and its salt recovered |
| `Pss.AcceptedEncoded` | src/core/schemes/mcore/src/hmac.rs:615-676 | every accepted string is the encoding with the salt in it |
| `Pss.EncodedBlockAt` | src/core/schemes/mcore/src/hmac.rs:569-613 | byte by byte: zeros, marker and salt combined with the hashes of the salted hash, without the top bit |
| `Pss.EncodedEnd` | src/core/schemes/mcore/src/hmac.rs:569-613 | then the hash of eight zeros, the message hash and the salt, and the trailer |
| `Pss.AcceptedForBoth` | src/core/schemes/mcore/src/hmac.rs:615-676 | a string accepted for two messages gives equal hashes of strings that carry the two message hashes |
| `Ghash.Precompute` | src/core/schemes/mcore/src/gcm.rs:61-82 | row i is the row before it shifted, with the reduction constant for a bit that falls out |
| `Ghash.RowMultiple` | src/core/schemes/mcore/src/gcm.rs:61-82 | row i of the table is H x^i |
| `Ghash.Gf2Mul` | src/core/schemes/mcore/src/gcm.rs:84-117 | the sum of the rows that the bits of the state select, unpacked |
| `Ghash.ProductIsStandard` | src/core/schemes/mcore/src/gcm.rs:61-117 | that is the block multiplication of section 6.3 of NIST SP 800-38D |
| `Gcm.Gcm.AddPlain` | src/core/schemes/mcore/src/gcm.rs:263-311 | the text combined with the key stream of a counter that wraps around, and the state that GHASH gives; counter, length and status after it; refused after an incomplete block |
| `Gcm.Gcm.AddCipher` | src/core/schemes/mcore/src/gcm.rs:314-363 | the same with the state taking in the cipher text given |
| `Gcm.CryptTwice` | src/core/schemes/mcore/src/gcm.rs:263-363 | combining twice with the key stream of the same counter gives back the data, also where the counter wraps around |
| `Gcm.SendAndReceive` | src/core/schemes/mcore/src/gcm.rs:263-363 | from equal states `add_cipher` after `add_plain` restores the plain text, and both sides end in the same state |
| `GcmStandard.AbsorbedIsGhash` | src/core/schemes/mcore/src/gcm.rs:263-363 | the state is the GHASH chain of section 6.4 of NIST SP 800-38D over the zero-padded blocks, on numbers |
| `GcmStandard.ProductOnNumbers` | src/core/schemes/mcore/src/gcm.rs:84-117 | the block multiplication on bytes is the one on 128-bit numbers |
| `GcmStandard.CryptAt` | src/core/schemes/mcore/src/gcm.rs:263-363 | byte i is combined with byte i % 16 of the encrypted counter block i / 16 + 1, counted modulo 2^32 |
| `GcmStandard.CounterLeft` | src/core/schemes/mcore/src/gcm.rs:263-363 | the counter that is left has counted one for every block begun |

## Left out

- gRPC handlers, asynchronous channels and their fairness, networking, the blockchain stub, command line, configuration and logging: input and output around the modelled logic.
- ASN.1, JSON and base64 serialization.
- Curve addition formulas, field towers, pairings, hash-to-curve and curve constants: points are elements of an arbitrary abelian group.
- The scheme files other than FROST and SH00: their `verify_share` enters `Collector` as a function, with `Sound` as hypothesis where values are compared.
- The FROST precomputation modes; the service starts FROST without precomputation only (`src/core/orchestration/src/instance_manager/instance_manager.rs:529-535`).
- Sampling of signer groups and of primes: termination is only probabilistic.
- Liveness, timing, and secrecy beyond that of the sharings.
- The messages that `do_round` sends: they are the own commitment and the own share, which a run records in its state and its signings.
- The status updates without an error and the queries of the instance manager.
- Shifts of big numbers by a limb or more, byte conversion, `ssn`, `invmod2m`, the Jacobi symbol and random numbers: easier members of the same kind.
- `parse`, packing, compression and the key exchange of NewHope around the transform.
- `add_header`, `finish` and key set-up of GCM, and the AES and SHA functions.
- The unused part of a share buffer that is longer than the message, and what `oaep_decode` leaves behind the message.
- Residues.ExtEuclid: is modelled on non-negative arguments, the only ones its callers pass.
- ThresholdRsa.AnyRsaQuorumReconstructs: needs ids up to 255 in the quorum, because of the cast to eight bits; `RsaCast.CastRightIff` shows that the weights are wrong otherwise.
- Reduction.RMod: leaves out values at or above half the range of the limbs (2^405 for seven), where doubling the modulus leaves the range in which `comp` is specified, and negative values, on which the doubling loop does not end.
- BinaryInverse.InvModP: leaves out numbers that share a factor with p without being multiples of it; on those the loop over factors of two does not end.
- LimbSquare.Sqr: is proved for an odd number of limbs, such as the seven of the library, because its loops take columns in pairs.
- LimbProduct.Mul: is proved for at most 500 limbs, so that a column fits 128 bits; the library has seven.
- Limbs.CMove: copies or not by a branch on the flag, where the source combines limbs with a mask.
- Limbs.ShiftLeftBy: leaves out shifts that lose bits at the top of the 64-bit word of the highest limb.
- Montgomery.Monty: takes moduli up to half the range of the limbs (2^405 for seven), so that results below 2m are in range.
- FrostAcceptance.RejectedIff: a share under an inner id for which the key has no verification key stops `verify_share` at an index past a vector; the model has that as a negative answer.
- Pss.PssVerify: compares the two hashes for equality; the source takes differences of bytes, which in a build with overflow checks stops on a mismatch.
