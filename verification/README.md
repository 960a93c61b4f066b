# Chronos, modelled and proved

A Dafny model of the core of Chronos, an agent whose secret key is sealed behind a delay function and
whose run is arbitrated by a containment monitor that ends in a provable erasure. Three parts are
modelled, one module a component:

- **The time lock.** The Wesolowski delay function with its Miller-Rabin test, Fiat-Shamir scan, proof
  recurrence and cancellable evaluation (`Wesolowski`, over the number theory of `NumberTheory`); the
  validation of the modulus and its certificate file (`Modulus`); the
  provisioner's shortcut through the factors of the modulus, its own primality test and its fixed-width
  encoding (`Provision`); the field, sponge and cipher encodings (`Poseidon`, `Aead`, `Mission`); sealing by
  the provisioner and opening by the agent (`Sealing`).
- **The containment monitor.** The transition function and its order (`Containment`), the hash-chained
  ledger and whole runs of it (`Ledger`), what the log of a run can hold (`Arbitration`), the chain of
  single-use correction grants (`Correction`), what the two together bound over a run (`Humility`) and exactly
  when (`ScoreBound`), the erasure circuit as a relation next to its native check (`Circuit`), the agent's state
  machine as an object (`StateMachine`) and as one task among many (`Agent`, `AgentRuns`, `AgentErasure`, `AgentWatch`,
  `AgentMission`).
- **Exactness and encodings.** The perceptron and its overflow bound (`Mlp`), the replay window (`Replay`),
  the string a request MAC covers (`Requests`), the powers-of-tau ceremony (`Ceremony`).

What the program obtains from elsewhere is a parameter: SHA-256, the Poseidon sponge and the ceremony's two
hashes are arbitrary functions; random bases, nonces, tokens and secrets are arguments; the abort flag is an
arbitrary function of time where the delay function stands alone, and a shared variable where tasks interleave; the
clock is a move of the scheduler. Nothing is assumed about a
hash. A binding result reads: the claim holds, or two different messages that were actually hashed have one
digest (`Collides`), or one of the hashed messages is a preimage of the end marker (`HitsEnd`).

Machine integers are explicit. Saturating operations of the source are `SatAdd` and `SatSub`. The release
profile checks no overflow, so the ledger's counters and the ceremony index wrap. Encrypted 64-bit integers
are plain integers with wrapping arithmetic.

Loops of the source are methods proved against functions and predicates that mention no loop; the objects
it updates in place are classes (`ContainmentLedger`, `Lifecycle`, `NonceCache`, `CeremonyCoordinator`); the
buffers that `to_fixed_be` and `join32` fill are arrays. The interleavings of the agent are a transition
system whose moves are atomic steps, and the results about it are about every finite sequence of moves.

## Where the code and its documentation differ

The model follows the code; each difference is proved, at an input and with the condition under which the
promise does hold.

- The provisioner promises an artifact the agent can open: forcing the top bit of each prime is said to make `N`
  reach 2048 bits (`crates/chronos-provision/src/main.rs:375-376`), and a modulus from a file is taken from 2048
  bits up (`crates/chronos-provision/src/main.rs:163-168`). The agent refuses any `N` that is not of exactly 2048
  bits or has a prime factor up to 97 (`crates/chronos-core/src/mpc.rs:155-179`). So what is sealed opens exactly
  when `N` is valid: `Sealing.ProvisionerAgentAgree`, `Sealing.FileModulusExactly`. For two generated primes that
  is a matter of the product's size, `Sealing.GeneratedValidExactly`; `Sealing.NarrowProductRefused` has pairs that
  fail, `Sealing.EvenModulusSealed` a file that is sealed with and never opens.
- `force_erased` is described as wiping the identity. A mission that holds its delay output when a shutdown erases
  sets the identity up again afterwards, under every configuration: `AgentErasure.ErasureThenIdentity`. Once the
  ledger is erased, the lock free and the identity wiped, some continuation brings an identity back if and only if
  a mission is past the last point where it reads the abort flag: `AgentErasure.IdentityReturnsExactly`, with
  `AgentErasure.LastPoll` saying where that point is. A mission before it never opens the key.
- The comment at `crates/chronos-snark/src/ceremony.rs:295` promises a pairing for every power. The code checks
  power 1: `Ceremony.OnlyPowerOneChecked` accepts any other powers, `Ceremony.WrongPowerAccepted` is an accepted
  contribution whose pairing at 1 fails, and `Ceremony.BaseNotChecked` one whose pairing at 0 fails because its
  element 0 is not the generator. An accepted contribution with the generators in place satisfies the documented
  pairings if and only if its first group holds the powers of one element (`Ceremony.AcceptedPairingsExact`), and
  acceptance forces that on all of them if and only if there is no power beyond 1
  (`Ceremony.PairingsEnforcedExactly`).
- `crates/chronos-core/src/containment.rs:606-611` says that correcting more than was incurred buys no headroom.
  It does: `Humility.OverCorrectionBuysHeadroom` admits 150 in all under a threshold of 100 after an early
  grant of 50. `Containment.NetRisesByScore` says exactly when a score counts in full, and the bound that holds is
  `resolved + threshold`, `Ledger.UncertaintyBounded`. The same run
  shows the recorded peak above the highest net figure held after that admission.
- The accumulators saturate, so threshold plus amounts granted bounds the admitted scores not always, but exactly
  when it is below saturation or beyond what any operation budget reaches: `ScoreBound.BoundHoldsExactly`;
  `Humility.ThresholdMaxBoundsNothing` is a run that passes it.
- The deadline bounds nothing at `u64::MAX`, because the compared sum saturates: `Containment.InferAdmission` has
  the exact condition, `Humility.DeadlineMaxAdmitsOverrun` the run.
- A correction at a consumption count of `u64::MAX` that would move the anchor has no legal successor, and the
  ledger's refuse-to-commit branch is then taken: `Containment.StepPrecedes` says exactly when,
  `Ledger.SaturatedCountRefused` has a state, and `Ledger.FallbackUnreachable` shows that no run of fewer than
  `2^64 - 1` operations gets there.
- The shortcut through `phi(N)` equals the squarings exactly when the base is a unit modulo both primes or
  the reduced exponent is not zero (`Provision.ShortcutExact`); `3^(2^3)` modulo 15 shows the failing case
  (`Provision.ShortcutCanFail`). The program uses base 2 and odd primes, where it always holds.
- The recurrence of `prove` needs a challenge of at least 2; for 1 it returns `(1 mod N, 0)`, which
  `Wesolowski.Prove` states. The scan yields at least 3.
- `validate` accepts a model of no inputs, and evaluating it then fails: `Mlp.NoInputsAccepted` is one,
  `Mlp.Evaluate` has the condition.
- The comment on `load` promises an error for a certificate file that exists and is unreadable
  (`crates/chronos-core/src/mpc.rs:96-98`); the code falls back to the built-in modulus on every failed read. It
  does what the comment says exactly when the file is not unreadable: `Modulus.LoadDocumentedExactly`.
- Parsing a field element is documented to return an error for text that is not 32 bytes of hex
  (`crates/chronos-snark/src/mission.rs:62-64`). Text of 64 bytes can end the process instead:
  `Mission.FrFromHexPanicsExactly` says for which, those where behind pairs that are bytes a pair begins or ends
  inside a multi-byte character; `Mission.CutCharacterPanics` is one.

## Model

| member | source | states |
|---|---|---|
| Wesolowski.PowModU64 | crates/chronos-vdf/src/wesolowski.rs:69-88 | square-and-multiply through `u128` products is the true power modulo `m` for every base, exponent and modulus, 0 for moduli up to 1 |
| Wesolowski.PrimePasses | crates/chronos-vdf/src/wesolowski.rs:119-134 | no base prime to it is a Miller-Rabin witness against a prime, by Fermat and the two square roots of 1 |
| Wesolowski.PrimeAccepted | crates/chronos-vdf/src/wesolowski.rs:104-136 | the twelve-base test accepts every prime below 2^64 |
| Wesolowski.SquareToMinusOne | crates/chronos-vdf/src/wesolowski.rs:119-134 | the squaring loop of both primality tests, with its early exits, decides that `a^d` is 1 or some `a^(d 2^i)` below the two-part is -1 |
| Wesolowski.PassesBase | crates/chronos-vdf/src/wesolowski.rs:119-134 | one fixed base over `u64`: the same condition |
| Wesolowski.TrialDivision | crates/chronos-vdf/src/wesolowski.rs:104-112 | None exactly when no base divides; otherwise yes exactly for the bases themselves |
| Wesolowski.IsPrime | crates/chronos-vdf/src/wesolowski.rs:104-136 | decides the loop-free Miller-Rabin predicate, never rejects a prime, is exactly primality below 41 squared, and above 37 says yes if and only if no base divides and every base is a strong one |
| Wesolowski.PassesExactly | crates/chronos-vdf/src/wesolowski.rs:119-134 | a round with one base lets a number pass if and only if the base meets Fermat's congruence and the squarings meet no square root of 1 other than 1 and -1 |
| Wesolowski.MillerRabinExactly | crates/chronos-vdf/src/wesolowski.rs:104-136 | the test says yes to a number above 37 if and only if no base divides it and every base is strong to it in that sense |
| Wesolowski.SmallExact | crates/chronos-vdf/src/wesolowski.rs:104-136 | below 41 squared it says yes exactly to the primes |
| Wesolowski.ScanSkipsNoPrime | crates/chronos-vdf/src/wesolowski.rs:50-64 | with any test that accepts all primes the scan gives an odd number of at least 3 and steps over no prime; the fallback only when no prime is left below 2^64 |
| Wesolowski.ChallengeFacts | crates/chronos-vdf/src/wesolowski.rs:39-65 | the same for the Fiat-Shamir challenge of every statement and every hash |
| Wesolowski.FiatShamirPrime | crates/chronos-vdf/src/wesolowski.rs:39-65 | the scan loop terminates with that challenge |
| Wesolowski.CandidateExactly | crates/chronos-vdf/src/wesolowski.rs:39-49 | the scan starts from 63 bits of the digest: two digests give one candidate if and only if their first words, read little-endian, agree above the lowest bit, 0 and 1 counting as one |
| Wesolowski.ChallengeLayout | crates/chronos-vdf/src/wesolowski.rs:39-44 | what is hashed for the challenge: base, output, then the time as a little-endian word |
| Wesolowski.ChallengeMessageInjective | crates/chronos-vdf/src/wesolowski.rs:39-44 | for one base the message determines output and time |
| Wesolowski.BasesNotSeparated | crates/chronos-vdf/src/wesolowski.rs:39-44 | across bases it does not: two statements with one message |
| Wesolowski.RecurrenceStep | crates/chronos-vdf/src/wesolowski.rs:158-175 | one round carries `g^floor(2^i/ell)` and `2^i mod ell` to `i + 1`, the bit being 0 or 1 |
| Wesolowski.Prove | crates/chronos-vdf/src/wesolowski.rs:158-175 | for every challenge of at least 2 the recurrence yields `g^floor(2^T/ell) mod N` and `2^T mod ell`; for 1 it yields neither |
| Wesolowski.Evaluate | crates/chronos-vdf/src/wesolowski.rs:270-290 | the squarings and the recurrence give `g^(2^T) mod N` with the honest proof, with the two boundary cases |
| Wesolowski.ProofRecombines | crates/chronos-vdf/src/wesolowski.rs:307-317 | `pi^ell g^r` is `g^(2^T)` for every divisor `ell` |
| Wesolowski.Verify | crates/chronos-vdf/src/wesolowski.rs:295-318 | decides the Wesolowski equation, the exponent `2^T mod ell` computed in `O(log T)`; which outputs that admits is `AcceptsExactly` |
| Wesolowski.VerifyAcceptsEvaluate | crates/chronos-vdf/src/wesolowski.rs:270-318 | completeness: whatever evaluation returns is accepted, for every base, `T` and modulus above 1 |
| Wesolowski.AcceptsExactly | crates/chronos-vdf/src/wesolowski.rs:295-318 | with the proof formed as prescribed for the claimed output, the true output is accepted and no other, for every base, `T` above 0 and modulus above 1 |
| Wesolowski.UnreducedRefused | crates/chronos-vdf/src/wesolowski.rs:295-318 | an output that is not reduced modulo `N` is refused whatever the proof |
| Wesolowski.PollLatency | crates/chronos-vdf/src/wesolowski.rs:203-252 | of the iterations done after a flag went up for good at most 4096 do work, at most 4095 if it went up before a poll, across the seam of the two loops too |
| Wesolowski.LatencyReached | crates/chronos-vdf/src/wesolowski.rs:203-252 | the 4096 are reached, by a flag that goes up just after the first poll |
| Wesolowski.SquareInterruptibly | crates/chronos-vdf/src/wesolowski.rs:216-226 | the squaring loop finishes with the time-locked value, or stops at the first poll that sees the flag |
| Wesolowski.ProveInterruptibly | crates/chronos-vdf/src/wesolowski.rs:228-250 | likewise for the proof loop |
| Wesolowski.EvaluateInterruptible | crates/chronos-vdf/src/wesolowski.rs:203-252 | under every schedule of the flag, also between a poll and the work after it, an Ok is the plain evaluation, an abort is the first poll that sees the flag, and at most 4096 iterations do work after a flag that stays up |
| NumberTheory.Fermat | crates/chronos-provision/src/main.rs:432-441 | Fermat's little theorem, from the binomial theorem: what reducing an exponent modulo `p - 1` rests on |
| NumberTheory.CongModProduct | crates/chronos-provision/src/main.rs:432-441 | equality modulo a product of distinct primes is equality modulo both |
| Provision.ShortcutExact | crates/chronos-provision/src/main.rs:437-441 | for all distinct primes, bases and `T` the shortcut equals the squarings if and only if the base is a unit or the reduced exponent is not 0 |
| Provision.ShortcutIsEvaluation | crates/chronos-provision/src/main.rs:225-241 | with base 2 and odd primes the shortcut is what the agent's evaluation returns, also for `T = 0` |
| Provision.ShortcutCanFail | crates/chronos-provision/src/main.rs:437-441 | a concrete base, exponent and modulus on the failing side |
| Provision.PrimeProbable | crates/chronos-provision/src/main.rs:387-430 | no draw of bases makes the test reject a prime |
| Provision.SmallPrimeTrial | crates/chronos-provision/src/main.rs:391-400 | settled exactly for small primes (yes) and their other multiples (no) |
| Provision.PassesRandomBase | crates/chronos-provision/src/main.rs:409-428 | the inner loop decides the Miller-Rabin condition for the base drawn |
| Provision.IsProbablePrime | crates/chronos-provision/src/main.rs:387-430 | decides the loop-free condition for the bases drawn and says yes to every prime |
| Provision.ProbablePrimeExactly | crates/chronos-provision/src/main.rs:387-430 | yes to an odd number above the small primes if and only if no small prime divides it and every base drawn is strong to it |
| Provision.ToFixedBe | crates/chronos-provision/src/main.rs:347-355 | the padded buffer holds the number's digits at that width; None exactly when the minimal encoding is longer |
| Provision.FactorsFit | crates/chronos-provision/src/main.rs:358-368 | two factors of `k` bytes give outputs that fit `2k` bytes, whatever the exact bit length of the product |
| Modulus.WidthInBytes | crates/chronos-core/src/mpc.rs:155-168 | a width of `8 k` bits is a minimal encoding of `k` bytes, so the second check of the validation never fails |
| Modulus.SieveComplete | crates/chronos-core/src/mpc.rs:75-78 | the 25 sieve primes find a divisor up to 100 whenever there is one |
| Modulus.ProductWidth | crates/chronos-provision/src/main.rs:358-368 | two factors of `k` bits have a product of `2k - 1` or `2k` bits, by its size alone |
| Modulus.ValidateModulus | crates/chronos-core/src/mpc.rs:155-179 | accepts if and only if the number has exactly 2048 bits and no divisor from 2 to 100; which error when |
| Modulus.LoadCertificate | crates/chronos-core/src/mpc.rs:99-136 | a file loads if and only if it is not empty and its number is valid; one that is missing or unreadable stands for the built-in modulus |
| Modulus.FallbackValid | crates/chronos-core/src/mpc.rs:57-57 | the built-in RSA-2048 passes the validation |
| Modulus.WrittenLoads | crates/chronos-core/src/mpc.rs:99-136 | a certificate as the provisioner writes it is read back as the same number, and loads if and only if that is valid |
| Modulus.LoadDocumentedExactly | crates/chronos-core/src/mpc.rs:96-136 | loading agrees with its comment if and only if the file is not unreadable |
| Poseidon.PackInjective | crates/chronos-snark/src/poseidon.rs:163-172 | among byte strings of one length the limbs determine the bytes |
| Poseidon.PackIgnoresTrailingZero | crates/chronos-snark/src/poseidon.rs:163-172 | without the length they do not: a trailing zero is invisible |
| Poseidon.PackAt | crates/chronos-snark/src/poseidon.rs:163-172 | limb `i` is the big-endian number in bytes `16 i` to `16 i + 15`, zeros standing past the end |
| Poseidon.HashBytesInputInjective | crates/chronos-snark/src/poseidon.rs:253-258 | what `hash_bytes` absorbs determines domain and bytes |
| Poseidon.AbsorbedInjective | crates/chronos-snark/src/poseidon.rs:225-258 | what is absorbed determines the domain and the inputs, so no hash of one domain is asked for in another |
| Poseidon.KeyInputInjective | crates/chronos-snark/src/aead.rs:267-275 | what `derive_key` absorbs determines delay output and salt |
| Poseidon.LowHalf | crates/chronos-snark/src/poseidon.rs:202-215 | the low 16 bytes, refused exactly when a higher byte is set |
| Poseidon.Join32 | crates/chronos-snark/src/poseidon.rs:185-215 | returns `b` if and only if the pair is the split of `b`, so it fails exactly on pairs that are the split of nothing |
| Poseidon.Split32Injective | crates/chronos-snark/src/poseidon.rs:185-192 | the split determines the 32 bytes |
| Poseidon.Split32Value | crates/chronos-snark/src/poseidon.rs:185-192 | the two elements are the big-endian number of the 32 bytes in base `2^128`, the first 16 bytes first |
| Aead.DecryptInvertsEncrypt | crates/chronos-snark/src/aead.rs:190-253 | a ciphertext opens to a plaintext if and only if encrypting that plaintext under its nonce gives that ciphertext, tag included |
| Aead.TagBinds | crates/chronos-snark/src/aead.rs:190-253 | two ciphertexts that authenticate with one tag, under whatever keys, have the same key, nonce and body, or two different absorbed sequences squeeze alike |
| Aead.NonceReuse | crates/chronos-snark/src/aead.rs:43-48 | a nonce used twice under one key gives away the differences of the plaintexts, element by element |
| Aead.SerializeInjective | crates/chronos-snark/src/aead.rs:114-128 | the bytes determine the elements |
| Aead.ReadElements | crates/chronos-snark/src/aead.rs:152-175 | the parsing loop: the words' elements, or a word that occurs in no serialisation |
| Aead.ToBytes | crates/chronos-snark/src/aead.rs:114-128 | the growing vector is the 32-byte big-endian words of nonce, body and tag |
| Aead.FromBytes | crates/chronos-snark/src/aead.rs:136-182 | accepts exactly the serialisations of ciphertexts with a body and returns the one serialised; which errors for which lengths |
| Mission.FrFromHexExact | crates/chronos-snark/src/mission.rs:48-85 | the parser accepts exactly the printed forms, up to letter case and the optional prefix |
| Mission.FrFromHexPanicsExactly | crates/chronos-snark/src/mission.rs:65-77 | the parser ends the process if and only if the text has 64 bytes and, behind pairs that parse, a pair is cut through a multi-byte character |
| Mission.CutCharacterPanics | crates/chronos-snark/src/mission.rs:65-77 | such a text |
| Mission.HexRoundTrip | crates/chronos-snark/src/mission.rs:48-85 | parsing a printed element gives it back |
| Mission.HexDigitAt | crates/chronos-snark/src/mission.rs:48-54 | character `k` from the right of a printed element is its digit `k` in base 16 |
| Mission.DigestRoundTrip | crates/chronos-snark/src/mission.rs:195-211 | the correction anchor survives printing and parsing |
| Sealing.ProvisionMission | crates/chronos-provision/src/main.rs:143-288 | the whole sequence, from file or generated factors to every published field, and which step fails when; the grants go to the operator |
| Sealing.OpenMission | crates/chronos-agent/src/main.rs:457-547 | the agent's sequence, the certificate included, succeeds only with what the order-free `IsOpening` describes, finds it whenever there is one and the flag stays down, and never fails its self-check or the fixed width |
| Sealing.OpenKey | crates/chronos-agent/src/main.rs:524-546 | the opening of the key: exactly the key the ciphertext and the artifact's commitment agree on |
| Sealing.OutputFits | crates/chronos-agent/src/main.rs:514-516 | under a valid modulus every delay output fits the circuit's width |
| Sealing.SealedOpensExactly | crates/chronos-agent/src/main.rs:481-547 | a key sealed under the true delay output of any modulus: if it is valid the artifact opens to exactly that, if not never |
| Sealing.OpeningUnique | crates/chronos-agent/src/main.rs:515-546 | an artifact opens to at most one result |
| Sealing.OpenedIsCommitted | crates/chronos-agent/src/main.rs:536-546 | an artifact that commits to a key opens to no other, whatever ciphertext it carries, or the sponge is broken on the two keys |
| Sealing.OtherCommitmentsIgnored | crates/chronos-agent/src/main.rs:536-546 | of the four commitments the agent compares one: with any well-formed text for the other three the artifact opens to the same |
| Sealing.MalformedNeverOpens | crates/chronos-snark/src/mission.rs:216-240 | an artifact of another version or with a commitment that does not parse never opens |
| Sealing.ProvisionerAgentAgree | crates/chronos-provision/src/main.rs:225-276 | for all distinct odd primes, every `T`, salt, nonce, key and terms: the shortcut-sealed artifact opens to that key and those 256 bytes and nothing else if the product is a valid modulus, and never otherwise |
| Sealing.GeneratedValidExactly | crates/chronos-provision/src/main.rs:358-384 | for two primes of 1024 bits the product is valid if and only if it reaches `2^2047` |
| Sealing.NarrowProductRefused | crates/chronos-provision/src/main.rs:371-384 | any two 1024-bit factors up to seven fifths of `2^1023` make a modulus the agent refuses |
| Sealing.FileModulusExactly | crates/chronos-provision/src/main.rs:158-170 | for every number the file branch takes, what is sealed opens exactly when the number is valid |
| Sealing.FileSealedExactly | crates/chronos-provision/src/main.rs:158-248 | the file branch for every number: refused as too narrow exactly below 2048 bits, otherwise sealed exactly when the delay output has at most 256 bytes |
| Sealing.EvenModulusSealed | crates/chronos-provision/src/main.rs:158-170 | `2^2047` in a file is sealed with and never opens |
| Sealing.ProvisionedMonitor | crates/chronos-agent/src/main.rs:207-218 | the agent's monitor starts from the operator's terms, anchored at the operator's chain |
| Sealing.OperatorGrantsOnly | crates/chronos-provision/src/main.rs:250-260 | in every run of that monitor the admitted grants are in order a prefix of the operator's, or a collision is exhibited |
| Correction.LinkMessageInjective | crates/chronos-core/src/correction.rs:125-134 | the linked message determines token, amount and successor |
| Correction.LinkLayout | crates/chronos-core/src/correction.rs:125-134 | where domain, token, amount and successor stand in it |
| Correction.BuildChain | crates/chronos-core/src/correction.rs:146-164 | the backward loop with its final reversal gives the anchor and the grants of the front-to-back definition |
| Correction.SpentIsPrefix | crates/chronos-core/src/correction.rs:102-134 | grants that authorise one after the other from a published anchor are a prefix of those issued, or a collision is at hand |
| Correction.IssuedSpendable | crates/chronos-core/src/correction.rs:112-164 | all issued grants can be spent in order if and only if no link happens to be the end marker |
| Correction.AnchorRepeats | crates/chronos-core/src/correction.rs:125-164 | a chain that meets an anchor twice exhibits a collision or a preimage of the end marker |
| Correction.IssuedDistinct | crates/chronos-core/src/correction.rs:146-164 | no grant value is issued twice, or the same is exhibited |
| Containment.StepPrecedes | crates/chronos-core/src/containment.rs:496-697 | for every event and every `u64` state whose mark dominates, the successor keeps that and the threshold, and is a legal one if and only if the count is not saturated under an admitted correction |
| Containment.PrecedesTransitive | crates/chronos-core/src/containment.rs:496-518 | the order composes, capabilities included |
| Containment.InferAdmission | crates/chronos-core/src/containment.rs:579-636 | an inference is admitted if and only if the conditions hold in unbounded integers, with the exact exception for bounds of `u64::MAX` |
| Containment.NetRisesByScore | crates/chronos-core/src/containment.rs:603-634 | an admitted inference raises the net figure by its score if and only if no more was resolved than incurred and the accumulator has room, or the score is 0 |
| Containment.EraseAlwaysAdmitted | crates/chronos-core/src/containment.rs:534-552 | erasure and watchdog expiry are admitted in every state and land in Erased; the move is legal exactly when the mark dominates |
| Containment.OnlyGrantsResolve | crates/chronos-core/src/containment.rs:653-675 | resolved uncertainty, anchor and count move only through a grant that opens the anchor, which then becomes its successor |
| Containment.CodesTell | crates/chronos-core/src/containment.rs:379-395 | events of different kinds have different codes, and so have different verdicts |
| Ledger.EncodeWordsInjective | crates/chronos-core/src/containment.rs:748-765 | the word encoding determines the words |
| Ledger.GenesisInjective | crates/chronos-core/src/containment.rs:821-848 | the genesis message determines every provisioned parameter |
| Ledger.GenesisLayout | crates/chronos-core/src/containment.rs:821-848 | where domain, deadline, budgets, threshold and anchor stand in it |
| Ledger.RecordMessageInjective | crates/chronos-core/src/containment.rs:748-765 | a record message determines the previous digest and the record |
| Ledger.RecordLayout | crates/chronos-core/src/containment.rs:748-765 | the wire format: the previous digest, then twelve big-endian words in the order of the source |
| Ledger.DigestBinds | crates/chronos-core/src/containment.rs:899-947 | equal chain digests mean equal parameters and identical record sequences of equal length, or a collision among the messages of the two chains |
| Ledger.EqualDigestsSameRun | crates/chronos-core/src/containment.rs:899-947 | the same for the ledgers of two whole runs |
| Words.TailPush | crates/chronos-core/src/containment.rs:933-936 | evicting the oldest and pushing keeps the last `capacity` elements |
| Ledger.ContainmentLedger.constructor | crates/chronos-core/src/containment.rs:821-848 | the fresh ledger with the genesis digest; a capacity of 0 counts as 1 |
| Ledger.ContainmentLedger.SetElapsed | crates/chronos-core/src/containment.rs:887-889 | only the clock moves, and only forward |
| Ledger.ContainmentLedger.Submit | crates/chronos-core/src/containment.rs:899-947 | the whole new ledger is the specified arbitration of the old one, and the tail is the last records of its history; that the new record shows the states around it is `AdmitShows` |
| Ledger.AdmitShows | crates/chronos-core/src/containment.rs:910-947 | one arbitration appends one record, which shows the phase before it and, of the state after it, phase, capabilities, both budgets, incurred, resolved, peak and count |
| Ledger.RecordsShowStates | crates/chronos-core/src/containment.rs:910-947 | in every run every submission is shown so by its own record, with the states the run had before and after it |
| Ledger.RunReachable | crates/chronos-core/src/containment.rs:534-697 | the invariant of every run; the phase is Erased if and only if an erasing event was submitted |
| Ledger.UncertaintyBounded | crates/chronos-core/src/containment.rs:579-675 | in every reachable state net uncertainty is at most the peak, the peak at most the threshold, and incurred at most resolved plus threshold |
| Ledger.RunAscends | crates/chronos-core/src/containment.rs:496-518 | every earlier state of a run precedes every later one |
| Ledger.ConsumedBound | crates/chronos-core/src/containment.rs:653-675 | the count of grants never exceeds the operations |
| Ledger.FallbackUnreachable | crates/chronos-core/src/containment.rs:899-908 | in a run of fewer than 2^64 - 1 operations the refuse-to-commit branch is never taken |
| Ledger.SaturatedCountRefused | crates/chronos-core/src/containment.rs:899-908 | a state with the count used up, in which the next grant is recorded as admitted and the old state kept |
| Ledger.EraseAlwaysCommits | crates/chronos-core/src/containment.rs:899-947 | after a run of any length erasure commits the erased state |
| Ledger.BudgetsConserved | crates/chronos-core/src/containment.rs:579-636 | until erasure what is left plus what was admitted is what was provisioned, for operations and for disclosed bits; afterwards nothing is left and no more was ever used |
| Ledger.RunKeepsBooks | crates/chronos-core/src/containment.rs:899-947 | every submission is recorded once, in order, with its codes; sequence numbers and counters are the true counts modulo 2^64, admitted plus denied being the length |
| Ledger.Replayed | crates/chronos-core/src/containment.rs:804-947 | the object driven through a whole run ends as the specified ledger, retaining the last records of the run with consecutive numbers, each showing the states of the run around its submission |
| Arbitration.AdmittedScoresFit | crates/chronos-core/src/containment.rs:613-624 | no run admits a score above the whole threshold, whatever was corrected before |
| Arbitration.StartsOnce | crates/chronos-core/src/containment.rs:554-567 | no run admits two starts, however far apart |
| Arbitration.OnlyErasureAfterErasure | crates/chronos-core/src/containment.rs:534-697 | anywhere after an erasing event exactly erasure and the erasure attestation are admitted |
| Arbitration.RunGrants | crates/chronos-core/src/containment.rs:534-697 | after every run the capabilities are a matter of the phase alone |
| Arbitration.VerdictByPhase | crates/chronos-core/src/containment.rs:534-697 | the exact verdict on every event but an inference after every run, from phase and anchor; the reasons are only ever a wrong phase or an unauthorised grant |
| Arbitration.InferenceVerdict | crates/chronos-core/src/containment.rs:579-636 | the exact verdict on every inference after every run, from what it admitted before, its clock and its uncertainty, in unbounded integers |
| Arbitration.PhaseMoves | crates/chronos-core/src/containment.rs:534-697 | which submissions move the phase of a run, and to where |
| Arbitration.OnlyRecorded | crates/chronos-core/src/containment.rs:638-697 | attestations and the veto are recorded and change nothing else |
| Arbitration.ClockIsLatest | crates/chronos-core/src/containment.rs:523-526 | the clock of a run is the latest time it was told, in whatever order |
| Arbitration.IncurredIsSum | crates/chronos-core/src/containment.rs:579-636 | what is on record as incurred is the sum of the admitted scores, up to saturation |
| Arbitration.PeakIsHighest | crates/chronos-core/src/containment.rs:613-638 | the recorded peak is the highest level any admitted inference of the run took the net figure to |
| Arbitration.NothingComesBack | crates/chronos-core/src/containment.rs:496-518 | between any two points of a run no capability, budget, phase, clock or accumulator comes back |
| Arbitration.DigestTellsVerdicts | crates/chronos-core/src/containment.rs:899-947 | equal chain digests mean the same kinds of events with the same verdicts in the same order, or a collision |
| Arbitration.DenialsErasable | crates/chronos-core/src/containment.rs:534-697 | striking every denied submission out of a run changes neither its state nor the rest of its log |
| Humility.GrantsFollowChain | crates/chronos-core/src/containment.rs:653-675 | over every run from a published anchor the admitted grants are in order a prefix of those issued, with anchor, count and saturated sum of that prefix, or a collision is exhibited |
| Humility.CorrectionExtends | crates/chronos-core/src/containment.rs:653-675 | one admitted correction extends that prefix by one |
| Humility.GrantsSpentOnce | crates/chronos-core/src/containment.rs:653-675 | no grant value is admitted twice in a run, or the hash is broken on a known message |
| Humility.ScoresBounded | crates/chronos-core/src/containment.rs:579-636 | the true, unsaturated sum of admitted scores is at most the threshold plus the amounts granted |
| Humility.ScoresBoundedByChain | crates/chronos-core/src/correction.rs:146-164 | so the published chain fixes that bound in advance, absent a collision |
| Humility.ThresholdMaxBoundsNothing | crates/chronos-core/src/containment.rs:620-624 | at the threshold `u64::MAX` the sum passes it in two inferences |
| Humility.DeadlineMaxAdmitsOverrun | crates/chronos-core/src/containment.rs:596-600 | with the deadline `u64::MAX` a run one second old admits an overrun |
| ScoreBound.BoundHoldsExactly | crates/chronos-core/src/containment.rs:579-675 | for every threshold and every list of grants spendable from the anchor, no run and no budget passes threshold plus amounts if and only if that sum is below saturation, or at least the largest budget times the threshold |
| ScoreBound.ScoresWithinBudget | crates/chronos-core/src/containment.rs:579-636 | the true sum of admitted scores is at most their number times the threshold |
| ScoreBound.PassesBySaturating | crates/chronos-core/src/containment.rs:620-634 | the runs that pass the bound by saturating the accumulator, for every threshold and amounts that allow it |
| Humility.OverCorrectionBuysHeadroom | crates/chronos-core/src/containment.rs:603-634 | a run under threshold 100 that incurs 150 after an early grant of 50, its peak above the net figure it left |
| Circuit.ProvableIffErased | crates/chronos-snark/src/circuit.rs:215-311 | after any run the summary is terminal if and only if an erasing event was submitted |
| Circuit.ProvableForGood | crates/chronos-snark/src/circuit.rs:296-311 | and stays so under every continuation |
| Circuit.SummaryTells | crates/chronos-snark/src/circuit.rs:215-265 | the fourteen elements of a run's summary, in order, from its last state, the counts of its log and the digest of its records |
| Circuit.CommitmentBindsRun | crates/chronos-snark/src/circuit.rs:134-139 | two runs with one containment commitment had the same parameters and records, or one of the two hashes is broken on explicit inputs |
| Circuit.ComparisonsAgree | crates/chronos-snark/src/circuit.rs:669-693 | both field comparisons equal the saturating `u64` predicates |
| Circuit.KeyReleaseAgrees | crates/chronos-snark/src/circuit.rs:549-652 | the key-release constraints with the derived inputs hold if and only if the ciphertext authenticates and opens to the key |
| Circuit.ContainmentAgrees | crates/chronos-snark/src/circuit.rs:654-703 | the containment constraints hold if and only if the summary is terminal and the buffer is wiped |
| Circuit.CircuitMatchesCheck | crates/chronos-snark/src/circuit.rs:405-706 | for every correctly sized witness the constraint relation holds if and only if `check_shape` succeeds |
| Circuit.AnyAssignmentHolds | crates/chronos-snark/src/circuit.rs:549-706 | every assignment, however chosen, that satisfies the circuit under the commitments to a witness has that witness's output, ciphertext, key, mission and summary, the ciphertext opens to the key, and the summary is terminal; or two different absorbed sequences squeeze alike |
| Circuit.WitnessPasses | crates/chronos-agent/src/main.rs:599-627 | a witness whose ciphertext opens to its key, over a terminal ledger, passes both |
| Circuit.InputsDerived | crates/chronos-snark/src/mission.rs:216-246 | the commitments published at provisioning are the inputs the circuit derives |
| Circuit.IntendedProves | crates/chronos-agent/src/main.rs:599-627 | the opening a sealed artifact is meant to have proves every terminal ledger |
| Circuit.ProofMeansKeyAndErasure | crates/chronos-snark/src/circuit.rs:549-706 | under a sealed artifact's commitments and any ledger's, whoever satisfies the circuit holds the operator's key and the ledger is terminal, or the sponge is broken on explicit sequences |
| Circuit.HonestMissionProves | crates/chronos-agent/src/main.rs:457-627 | end to end: with a valid product the shortcut-sealed artifact opens to exactly one thing, the monitor starts from the operator's terms, and with any erased run of it the witness built from that opening satisfies the circuit under the published commitments; with any other product nothing opens |
| StateMachine.Lifecycle.constructor | crates/chronos-agent/src/state.rs:95-117 | a fresh machine over a fresh ledger, unstamped, flag down |
| StateMachine.Lifecycle.Admit | crates/chronos-agent/src/state.rs:134-146 | the new ledger is the arbitration at the time read, and the flag is up if it was or the ledger is now erased |
| StateMachine.Lifecycle.ArmToActive | crates/chronos-agent/src/state.rs:153-166 | succeeds if and only if armed with the capability unspent, spends it and stamps the start; otherwise phase and stamp stay |
| StateMachine.Lifecycle.ActiveToLocked | crates/chronos-agent/src/state.rs:170-180 | succeeds if and only if active, and leaves an admitted key release on record |
| StateMachine.Lifecycle.ForceErased | crates/chronos-agent/src/state.rs:186-195 | from any state: erased, every budget and all but one capability gone, flag up, identity wiped |
| Agent.StepAscends | crates/chronos-agent/src/state.rs:134-146 | one clocked arbitration moves up the order whatever stale time it carries; the clock becomes the later of the two |
| Agent.ArbitrationRecorded | crates/chronos-agent/src/state.rs:134-146 | it extends the record log; what an admitted start, key release or erasure leaves behind; none releases a key once erased |
| Agent.OtherTaskKept | crates/chronos-agent/src/state.rs:134-146 | non-interference: a task that does not move keeps its assertion under every step of another |
| Agent.MoveKeeps | crates/chronos-agent/src/main.rs:438-655 | every atomic step of every task, the polled iterations of the delay function among them, every arrival and every tick keeps the system invariant |
| Agent.ExecInv | crates/chronos-agent/src/state.rs:343-373 | so every interleaving of mission, watchdog, inits, requests and shutdown has it |
| AgentRuns.ErasedRaisesAbort | crates/chronos-agent/src/state.rs:134-146 | in every interleaving, Erased with the ledger lock free means the abort flag is up |
| AgentRuns.OneMission | crates/chronos-agent/src/main.rs:438-446 | however many inits race, at most one mission starts, only it does mission work, and at most one init is between admission and spawn |
| AgentRuns.LedgerAscends | crates/chronos-agent/src/state.rs:134-139 | the ledger moves only forward between any two points of any interleaving, and never records more time than has passed |
| AgentRuns.AttestationSound | crates/chronos-agent/src/main.rs:597-647 | a published attestation was made over a terminal summary with an admitted key release on record, its digest chaining a prefix of the present records |
| AgentRuns.NoLateAttestation | crates/chronos-agent/src/main.rs:597-647 | once erased with no key release on record, no continuation publishes an attestation |
| AgentRuns.FinishedMissionWiped | crates/chronos-agent/src/main.rs:448-455 | an ended mission leaves the ledger erased and no identity; a live identity means its mission has not ended |
| AgentRuns.WatchdogPunctual | crates/chronos-agent/src/state.rs:355-369 | the watchdog asks for erasure only when the time is up and with the flag already raised |
| AgentWatch.WatchdogStays | crates/chronos-agent/src/state.rs:343-373 | in every interleaving the watchdog is in its loop or in its own erasure, and has ended only if the ledger is erased |
| AgentWatch.MissionStamped | crates/chronos-agent/src/state.rs:153-166 | in every interleaving a mission that exists has its start time |
| AgentWatch.TimeLimitKept | crates/chronos-agent/src/state.rs:343-373 | in every interleaving, with a mission started, the lock free and its time up, the ledger is erased with the flag up or steps of the watchdog alone make it so |
| AgentWatch.AttestationReached | crates/chronos-agent/src/main.rs:597-647 | under every configuration some run publishes an attestation |
| AgentMission.MissionStays | crates/chronos-agent/src/main.rs:448-455 | in every interleaving a started mission is at some place of the mission: no failure ends it short of its erasure |
| AgentMission.MissionEnds | crates/chronos-agent/src/main.rs:448-455 | in every interleaving, with the lock free, steps of a started mission alone take it to its end, the ledger erased and the identity wiped |
| AgentMission.ForcedErases | crates/chronos-agent/src/state.rs:186-195 | from anywhere in a forced erasure, by shutdown, watchdog or mission, with the lock free, its steps alone erase the ledger, raise the flag and wipe the identity |
| AgentMission.CallRecordsTime | crates/chronos-agent/src/state.rs:134-139 | an undisturbed call leaves the real elapsed time on record |
| AgentRuns.AdmitRuns | crates/chronos-agent/src/state.rs:134-146 | undisturbed, the four atomic steps of a call amount to one arbitration at the time read |
| AgentErasure.LastPoll | crates/chronos-vdf/src/wesolowski.rs:216-239 | where the last poll is: the closed form holds if and only if no poll comes from that iteration on |
| AgentErasure.IdentityReturnsExactly | crates/chronos-agent/src/state.rs:186-195 | once erased with the lock free and the identity wiped, some continuation sets an identity up again if and only if a mission is past its last poll |
| AgentErasure.DelayNeverOpens | crates/chronos-vdf/src/wesolowski.rs:184-199 | then, with no mission past its last poll, no continuation opens the key |
| AgentErasure.StaysStopped | crates/chronos-agent/src/state.rs:141-145 | erased, flag up, wiped and no mission past its last poll is kept by every continuation |
| AgentErasure.PastReturns | crates/chronos-agent/src/main.rs:488-562 | a mission past its last poll gets to the identity whatever the others did |
| AgentErasure.ErasureThenIdentity | crates/chronos-agent/src/main.rs:548-562 | under every configuration a run reaches where a shutdown has erased and wiped while the mission holds its delay output, and one where the identity is up again |
| Mlp.BoundPreventsWrap | crates/chronos-core/src/mlp.rs:69-92 | a bound below the width keeps every term and every partial sum within it, in the order of the code |
| Mlp.AbsDotAttained | crates/chronos-core/src/mlp.rs:154-183 | the bound of a row is attained by inputs of the declared magnitude, so none smaller is sound |
| Mlp.LayerBoundReached | crates/chronos-core/src/mlp.rs:154-183 | some unit of a layer reaches its bound, bias included, on inputs of the declared magnitude |
| Mlp.DotMoves | crates/chronos-core/src/mlp.rs:69-92 | moving one input moves the product by its weight times the move |
| Mlp.DotProduct | crates/chronos-core/src/mlp.rs:69-92 | whatever overflows on the way, the wrapping loop returns the exact dot product plus bias wrapped once; the two length errors |
| Mlp.RowBound | crates/chronos-core/src/mlp.rs:157-168 | the checked `i128` loop gives the row's bound, or gives up only when it exceeds `i64` |
| Mlp.WorstRow | crates/chronos-core/src/mlp.rs:157-172 | likewise for the worst row of a layer |
| Mlp.MaxIntermediateMagnitude | crates/chronos-core/src/mlp.rs:154-183 | Some exactly when the unbounded-integer bound fits `i64`, and then that bound |
| Mlp.Validate | crates/chronos-core/src/mlp.rs:193-242 | accepts if and only if the shapes match and the bound fits; every error exactly when its check is the first to fail |
| Mlp.NothingWraps | crates/chronos-core/src/mlp.rs:193-242 | within the bound and the declared magnitude no partial sum of either layer leaves the width |
| Mlp.HiddenLayer | crates/chronos-core/src/mlp.rs:335-343 | the hidden activations are exact, and fail exactly on no inputs |
| Mlp.OutputLayer | crates/chronos-core/src/mlp.rs:345-351 | the outputs are exact |
| Mlp.Evaluate | crates/chronos-core/src/mlp.rs:323-352 | succeeds exactly for valid models with an input, and within the declared magnitude returns the exact outputs for the rectified activations |
| Mlp.NetworkRectifies | crates/chronos-core/src/mlp.rs:98-103 | the network is the outputs for activations that are non-negative, no less than dot product plus bias, and 0 or equal to it |
| Mlp.RectifiedUnique | crates/chronos-core/src/mlp.rs:98-103 | and there is one such vector of activations for an input |
| Mlp.NoInputsAccepted | crates/chronos-core/src/mlp.rs:193-352 | a model of no inputs that validation accepts and evaluation refuses |
| Mlp.PlaintextExact | crates/chronos-core/src/mlp.rs:358-398 | neither the wide arithmetic nor the truncation changes anything within the bound |
| Mlp.WideDot | crates/chronos-core/src/mlp.rs:370-379 | the zipped `i128` sum is the exact one over the common positions, wrapped once |
| Mlp.PlainIsNetwork | crates/chronos-core/src/mlp.rs:358-398 | on a well-shaped model within the bound, truncating zips, wide sums and the final cast give the exact network |
| Mlp.EvaluatePlaintext | crates/chronos-core/src/mlp.rs:358-398 | for models of any shape the truncated wide evaluation, failing exactly on a wrong input dimension; within the bound the same network function as the encrypted path |
| Replay.NonceCache.constructor | crates/chronos-agent/src/tls.rs:102-108 | an empty cache |
| Replay.NonceCache.CheckAndInsert | crates/chronos-agent/src/tls.rs:114-127 | new if and only if not among the last `max(capacity, 1)` accepted; set and queue stay the same distinct nonces |
| Replay.Replayed | crates/chronos-agent/src/tls.rs:94-127 | over every call sequence and capacity the cache gives the verdicts of a specification without a cache |
| Replay.NoReplayInWindow | crates/chronos-agent/src/tls.rs:94-127 | within one window no nonce is accepted twice |
| Replay.AcceptedAgainExactly | crates/chronos-agent/src/tls.rs:94-127 | after any call sequence a nonce is accepted again if and only if more nonces than the window holds were accepted from its last acceptance on |
| Requests.CanonicalRequest | crates/chronos-agent/src/crypto.rs:141-151 | the loop over the fields builds the length-prefixed concatenation |
| Requests.FieldSplits | crates/chronos-agent/src/crypto.rs:141-151 | a length-prefixed field splits off unambiguously whatever follows |
| Requests.CanonicalInjective | crates/chronos-agent/src/crypto.rs:141-151 | the string determines method, path, nonce and body digest; equal strings have equal bodies or a collision |
| Requests.CanonicalReads | crates/chronos-agent/src/crypto.rs:141-151 | a reader that knows only the length prefixes gets method, path, nonce and body digest, in that order, and nothing is left |
| Requests.DelimitedIsAmbiguous | crates/chronos-agent/src/crypto.rs:125-140 | separators instead of lengths would not do |
| Ceremony.ScalePowers | crates/chronos-snark/src/ceremony.rs:237-262 | the running accumulator multiplies element `i` by the secret to the `i` |
| Ceremony.Contribute | crates/chronos-snark/src/ceremony.rs:220-288 | the whole contribution for given secret and randomness, and its two refusals |
| Ceremony.SchnorrHolds | crates/chronos-snark/src/ceremony.rs:299-327 | the proof of knowledge equation holds over the field for every secret, randomness and challenge |
| Ceremony.HonestAccepted | crates/chronos-snark/src/ceremony.rs:299-361 | an honest contribution to an accumulator of powers is accepted and multiplies the exponent by its secret |
| Ceremony.AcceptedExactly | crates/chronos-snark/src/ceremony.rs:299-361 | over an accumulator of powers a contribution is accepted if and only if its parent is the accumulator's hash, its response answers the challenge for its power 1, and both groups have one element there |
| Ceremony.AnswersGiveSecret | crates/chronos-snark/src/ceremony.rs:299-327 | two accepted answers to different challenges over one commitment give the secret away |
| Ceremony.WrongParentRefused | crates/chronos-snark/src/ceremony.rs:299-311 | a contribution made over another hash is refused whatever it carries |
| Ceremony.OnlyPowerOneChecked | crates/chronos-snark/src/ceremony.rs:299-361 | any parameters with the right elements at power 1 are accepted, whatever the other powers |
| Ceremony.WrongPowerAccepted | crates/chronos-snark/src/ceremony.rs:289-361 | three powers, accepted, whose documented pairing at 1 fails |
| Ceremony.BaseNotChecked | crates/chronos-snark/src/ceremony.rs:289-361 | two powers, accepted, whose documented pairing at 0 fails for a wrong element 0 |
| Ceremony.PairingsMeanPowers | crates/chronos-snark/src/ceremony.rs:289-303 | up to any position the documented pairings hold if and only if the first group holds powers |
| Ceremony.AcceptedPairingsExact | crates/chronos-snark/src/ceremony.rs:289-361 | an accepted contribution with the generators in place meets the documented pairings if and only if it carries powers |
| Ceremony.PairingsEnforcedExactly | crates/chronos-snark/src/ceremony.rs:289-361 | acceptance forces them on every contribution of the accumulator's shape if and only if it has two powers |
| Ceremony.CeremonyCoordinator.constructor | crates/chronos-snark/src/ceremony.rs:460-466 | nothing begun |
| Ceremony.CeremonyCoordinator.InitializePhase1 | crates/chronos-snark/src/ceremony.rs:469-478 | once only; the accumulator of ones, its hash in the transcript |
| Ceremony.CeremonyCoordinator.VerifyAndApplyPhase1 | crates/chronos-snark/src/ceremony.rs:495-501 | for every contribution and accumulator: adopts what verifies and records its contributor; a refusal changes nothing |
| Ceremony.HonestCeremony | crates/chronos-snark/src/ceremony.rs:468-501 | for any number of honest participants all are accepted, power `i` in both groups ends as the product of all secrets to the `i`, index and transcript count them |

## Left out

- HTTP routing, configuration, metrics, TLS files, drand fetching and signature verification: input and output.
- `mlock`, `secure_wipe`, core-dump checks and key files: a value model has no memory locations.
- Groth16 set-up, proving and verification, pairings, the Solidity export: the circuit is a relation here.
- Poseidon rounds and constants, SHA-256, HMAC and ML-DSA: hashes are parameters. Gadgets stand for their native functions and the comparison gadget for its specification.
- tfhe keys and ciphertexts: an encrypted integer is its plaintext with wrapping arithmetic.
- The enumeration in `verify_axioms`: the axioms are proved for every state instead.
- The set-up transcript, ceremony phase 2 and `finalize`: the same chain argument, counters and a library call.
- Rejection of every composite by `is_prime`, soundness and sequentiality of the delay function, unforgeability.
- The random search of `generate_modulus`: the primes are given.
- Fairness of the agent's scheduling: that a task can get somewhere by its own steps is proved, that it is given them is not. A panic aborts the process in the release profile: a run ends there, and where one call can panic the model returns an error value that says so.
- Sealing.OpenMission: whether the FHE keys can be generated and the key locked in memory are arguments; the files are the artifact, the salt its own rather than a beacon's. A commitment whose text would panic the parser is a malformed one.
- Ceremony.CeremonyCoordinator.VerifyAndApplyPhase1: a group element is its discrete logarithm.
- Agent.MoveKeeps: loading, one iteration of the delay function with its poll, and the opening up to the identity are one step each; loading and opening, and the steps after them, may fail at any time; a shared field is one atomic variable, which is what its mutex or atomic makes it; the monotonic clock is a `u64` of nanoseconds.
- Provision.IsProbablePrime: the bases drawn are an argument within the range the code draws from.
