# Verification of the clear-sign multisig

This project models the on-chain clear-sign multisig program (`clear-msig-anchor`) in Dafny and proves what its
instructions, its message renderer and its custom-intent interpreter promise, up to statements about whole runs.

A wallet holds *intents*: templates for actions, each with proposers, approvers, two thresholds and a timelock. A
*proposal* fills in an intent's parameters, collects signed approvals and cancellations of a human-readable message, and
executes after the timelock. Three meta-intents add, remove and update intents; custom intents emit instructions.

## How the model is built

- `Bytes`, `Decimal`, `Base58`, `Calendar` and `TimestampText` hold the text layer. Each printer is specified by an
  independent reading: a digit reader, a base58 decoder, a calendar that counts year by year and month by month.
- `Params` has the three walkers over parameter bytes. `MessageText` says what a message is as a plain concatenation,
  `MessageBuilders` is the builder class over its 2048-byte buffer, and `MessageMeaning` proves what a signed message
  determines. `HelperMessages` compares with the client's `format!` forms.
- `Interpreter` is the specification of custom executions, `CustomExecution` the loops over fixed buffers (a slot is an
  option, so reading an unwritten one would not verify), `Agreement` what a passing execution guarantees.
- `Ballots`, `Governance`, `Invariant` and `Steps` are the state machine: one transition per instruction, one invariant.
  `Acceptance` says of every instruction exactly when it succeeds and what it leaves behind, without the functions that
  define it, and `Refusals` with which error it fails; `Emission` does the same for custom executions, `MessageLayout`
  for messages and templates.
  `Ledgers` has the accounts as objects updated in place, and each instruction method follows the transition function.
- `Runs`, `History`, `Counts`, `Retirement`, `Creation`, `SignedExecution` and `MetaExecution` are about sequences of
  instructions from a created wallet, `Completion` about what a quorum can do, `SignedActs` about what an accepted
  signature is for. `TemplateMeaning` says when a custom message determines its parameters, `NameMeaning` when a message
  tells its content from the wallet's name.
- `Neighbours` puts two wallets on one ledger, `Worlds` any number of them, `Everywhere` carries theorems about runs over
  to all of them, and `Witnesses` has concrete ledgers.

Intents are named by address. The program binds an intent to a wallet by the wallet it names (`has_one`), not by the
wallet's seeds, so the state holds every intent account of the program, and running other wallets appears as the steps
`Elsewhere`, which rewrites accounts as far as the program lets other wallets do, and `Claim`, which occupies proposal
addresses. That these steps cover what other wallets do is proved, not assumed: `Neighbours.SeenFromOutside` for one
instruction of a wallet in whatever state, and `Worlds.Lived` for any interleaving of any number of wallets that are
created on an empty ledger. So every theorem about runs holds of every wallet of every ledger.

The raw bodies that `execute` installs are not checked by the program. The theorems about runs ask nothing of them: the
invariant holds whatever any wallet installs, under its own seeds or naming another wallet. It therefore says that an
intent counts at least its open proposals (`History.CountCovers`), and that thresholds are reached exactly if they are
positive, since a body may set a threshold of zero; slots are told apart modulo 16, as the unchecked shift does. Only
that a count is exact needs a condition, on the bodies installed at that one address: `Counts.CountKeptIff`,
`Counts.CountConservedIff` and `Neighbours.ExecuteKeepsOtherIff` give it exactly, `Witnesses.BadBodyWitness` shows that
it can fail. What needs that no account outside the seeds names the wallet says so: `Retirement.RunsUnderOwnSeeds`,
`Retirement.EffectsUnderSeeds` and `Retirement.IndexedRemoverStays`, with `Witnesses.OutsiderWitness` for the need.

Rust's truncating division, 16- and 64-bit wrapping and narrowing casts are written out where they matter. A run-time
abort is the error `Panic`; a failed instruction changes nothing. The parameter cap and the size of an intent body are
parameters of the model, and that different seeds have different addresses is an assumption, of the wallets that occur.

Where comments and code disagree the model follows the code: the comment at execute.rs line 141 lists a payer before
the target of an update, while the code takes the first remaining account as the target; the comment at wallet.rs
line 17 calls names UTF-8, while the code stores them as given, so names are byte strings here; and
`execute_update_intent` cannot succeed with the program's own constants (`Retirement.NoRoomNoReplacement`).

## Model

| member | source | states |
|---|---|---|
| SignedExecution.SignedIsExecuted | clear-msig-anchor/programs/clear-msig-anchor/src/instructions/execute.rs:196-380 | whole runs: when a custom proposal executes, every slot standing by its approval signed, before expiry, a message whose text at any template placeholder reads back to exactly the value of the bytes that any segment of the same parameter, in its own encoding, puts into the emitted instruction data; the position of both is pinned down |
| SignedExecution.SignedIsAddressed | clear-msig-anchor/programs/clear-msig-anchor/src/instructions/execute.rs:418-431 | whole runs: the address read from the text at any placeholder of a signed message is the address of every account that the emitted instructions take from the same parameter |
| SignedExecution.SignedIsDerived | clear-msig-anchor/programs/clear-msig-anchor/src/instructions/execute.rs:485-552 | whole runs: every emitted account whose entry is derived is the program address of the entry's seeds, and the text at any placeholder of a signed message reads back to the value of every seed taken from the same parameter |
| SignedExecution.LiteralIsEmitted | clear-msig-anchor/programs/clear-msig-anchor/src/instructions/execute.rs:333-346 | whole runs: when a custom proposal executes, the data of every emitted instruction has, behind what the earlier segments take by their own widths, exactly the pool bytes of each literal segment; success implies that they are in the pool |
| SignedExecution.SignedWithinBounds | clear-msig-anchor/programs/clear-msig-anchor/src/state/intent.rs:155-178 | whole runs: the number the signers read at a bounded u64 parameter and the number emitted for it are one number, below the bound of LessThanU64, above that of GreaterThanU64 |
| SignedExecution.BoundsSurvive | clear-msig-anchor/programs/clear-msig-anchor/src/state/intent.rs:155-178 | in every reachable state the stored numbers of an open custom proposal's u64 parameters are strictly within their bounds |
| SignedExecution.CustomEmits | clear-msig-anchor/programs/clear-msig-anchor/src/instructions/execute.rs:196-380 | whole runs: when a custom proposal executes, every account is the one its entry stands for or the next handed in, has the address its entry names, and every emitted instruction is what its entry says |
| MetaExecution.SignedMetaIsExecuted | clear-msig-anchor/programs/clear-msig-anchor/src/instructions/execute.rs:73-189 | whole runs: when a meta-intent proposal executes, every slot standing by its approval signed, before expiry, the text of exactly the addition, removal or update carried out: the bytes hashed into the text (cut to one body) are installed under the next index, or over the target, or the target shown is switched off, and every other intent keeps its definition and switch |
| MetaExecution.ExecutionCarries | clear-msig-anchor/programs/clear-msig-anchor/src/instructions/execute.rs:73-189 | a successful meta-intent execution does to the intents what its parameters say, through the account at the target's address, and nothing else |
| MetaExecution.TargetIsAnother | clear-msig-anchor/programs/clear-msig-anchor/src/instructions/execute.rs:556-574 | the intent an execution adds, switches off or replaces is never the one it runs under |
| SignedExecution.CustomRan | clear-msig-anchor/programs/clear-msig-anchor/src/instructions/execute.rs:62-67 | a successful custom execution records exactly the instructions the interpreter emits for the stored parameters, with every account and data promise of ExecutionRight; what these bytes are is said by CustomEmits and LiteralIsEmitted |
| SignedExecution.ConstraintsSurvive | clear-msig-anchor/programs/clear-msig-anchor/src/instructions/propose.rs:56-58 | in every reachable state the parameters of an open custom proposal still meet schema and bounds, comparison by comparison, so every declared index can be read |
| Runs.QuorumAndTimelock | clear-msig-anchor/programs/clear-msig-anchor/src/instructions/execute.rs:44-54 | whenever a proposal executes there is an approving instruction at least the timelock ago, and at every state since, exactly the threshold of slots have an approval as their latest verified vote (a raw body may set a threshold of zero, which one approval meets) |
| History.TimelockRestarts | clear-msig-anchor/programs/clear-msig-anchor/src/instructions/cancel.rs:70-79 | an execution comes at least the timelock after every earlier moment at which its proposal was not approved or did not exist, so dropping back and being approved again starts the timelock afresh |
| History.ReplayIff | clear-msig-anchor/programs/clear-msig-anchor/src/instructions/approve.rs:37-64 | an approval that once succeeded succeeds again, submitted unchanged, if and only if the proposal is active, the slot's approval does not stand and the expiry lies ahead |
| History.ExecutedMeansSigned | clear-msig-anchor/programs/clear-msig-anchor/src/instructions/approve.rs:54-73 | every standing approval of an executed proposal was signed, unexpired, as an approval, over the very definition, parameters, wallet name and index that are executed, and there are exactly threshold many if the threshold is positive |
| History.DifferentSignersIff | clear-msig-anchor/programs/clear-msig-anchor/src/instructions/approve.rs:44-64 | the keys behind the standing approvals of an executed proposal are threshold many different ones if and only if the standing slots hold different addresses, for which a list without repetitions suffices; for lists of at most 16 and a positive threshold |
| History.Origin | clear-msig-anchor/programs/clear-msig-anchor/src/instructions/propose.rs:43-86 | every proposal in a reachable state was proposed earlier in the run, under a switched-on intent that names the wallet, with an unexpired signature of one of its proposers over the parameters it still carries |
| History.VotesAgree | clear-msig-anchor/programs/clear-msig-anchor/src/state/proposal.rs:38-64 | in every reachable state bitmaps are disjoint, an open proposal only uses bits of listed approvers, is short of the cancellation threshold, and, if the approval threshold is positive, never passes it and is Approved exactly when it has reached it |
| History.CancelledInstant | clear-msig-anchor/programs/clear-msig-anchor/src/instructions/cancel.rs:70-74 | a cancelled proposal was open until one cancellation vote brought its standing cancellations to the threshold, exactly if that is positive, and is unchanged since |
| History.CountCovers | clear-msig-anchor/programs/clear-msig-anchor/src/instructions/propose.rs:83 | in every reachable state the wallet's own seeds are in use exactly from 0 to the last index, and every intent that names the wallet, wherever it is, counts at least its open proposals, of which it has none when it is switched off |
| Counts.CountConservedIff | clear-msig-anchor/programs/clear-msig-anchor/src/instructions/execute.rs:108-119 | the count of the intent at an address is exact in every state of a run if and only if no raw body installed at that address, by this wallet or elsewhere, claims open proposals |
| History.NeverSaturates | clear-msig-anchor/programs/clear-msig-anchor/src/instructions/execute.rs:66-67 | whenever an instruction closes a proposal its intent's count is at least one, so the saturating subtraction never saturates |
| History.VotesShareContent | clear-msig-anchor/programs/clear-msig-anchor/src/instructions/approve.rs:54-64 | any two successful votes on one proposal are about the same content, wallet name and index |
| History.IndicesIncrease | clear-msig-anchor/programs/clear-msig-anchor/src/instructions/propose.rs:84 | two successful proposals of a run have different indices, the later one the larger |
| History.EffectsAreExecutions | clear-msig-anchor/programs/clear-msig-anchor/src/instructions/execute.rs:39-70 | the recorded effects are those of the successful executions in order, and no two belong to one proposal |
| History.CleanedUp | clear-msig-anchor/programs/clear-msig-anchor/src/instructions/cleanup_proposal.rs:5-17 | a proposal that disappears was closed, and was cleaned up in favour of the payer of the instruction that had proposed it |
| History.StartedFromCreation | clear-msig-anchor/programs/clear-msig-anchor/src/instructions/create_wallet.rs:68-151 | every run from a created wallet satisfies the start conditions of the theorems about runs, whatever accounts it is created among and whatever bodies are installed later |
| Creation.CreatedHolds | clear-msig-anchor/programs/clear-msig-anchor/src/instructions/create_wallet.rs:103-150 | a created wallet has the given name and, under its first three seeds, intents that add, remove and update in this order, each with both thresholds, the timelock and both lists as given, switched on and without proposals; nothing else changes |
| Creation.CreatedQuorum | clear-msig-anchor/programs/clear-msig-anchor/src/instructions/create_wallet.rs:134-148 | in every run from a creation, an execution under one of the three intents, while it has not been replaced, has exactly the given approval threshold of standing approvals, since an approval at least the given timelock ago |
| Creation.CreatedSigners | clear-msig-anchor/programs/clear-msig-anchor/src/instructions/create_wallet.rs:134-148 | and each of these approvals is signed by the approver that the creator listed at that place |
| Creation.CreatedAgain | clear-msig-anchor/programs/clear-msig-anchor/src/instructions/create_wallet.rs:27-63 | a creation among any wallets and accounts is one that these theorems cover |
| Runs.Reachable | clear-msig-anchor/programs/clear-msig-anchor/src/instructions/execute.rs:39-70 | the inductive invariant holds in every state of every run, whatever bodies are installed |
| Runs.ExecutesOnce | clear-msig-anchor/programs/clear-msig-anchor/src/instructions/execute.rs:33-65 | after one successful execution of a proposal no later one succeeds, whatever happens in between |
| Runs.ExecuteNeedsApproved | clear-msig-anchor/programs/clear-msig-anchor/src/instructions/execute.rs:15-54 | a successful execution is of an approved proposal under an intent of this wallet, with the wallet's own vault and system accounts, and not before its unlock time |
| Runs.NoReuse | clear-msig-anchor/programs/clear-msig-anchor/src/instructions/cleanup_proposal.rs:5-17 | a proposal key that is gone although its index was handed out never reappears |
| Runs.Persists | clear-msig-anchor/programs/clear-msig-anchor/src/instructions/cleanup_proposal.rs:7-14 | a proposal present at two moments is present in between with the same record, and executed or cancelled proposals never change |
| Runs.Frozen | clear-msig-anchor/programs/clear-msig-anchor/src/instructions/execute.rs:556-574 | while a proposal is open its intent's definition and switch, its parameters, its index and the wallet name are those of any earlier moment of its life |
| Runs.VotesTracked | clear-msig-anchor/programs/clear-msig-anchor/src/state/proposal.rs:46-64 | in every reachable state a proposal's bitmaps say of each slot exactly what its latest successful vote in the run was; slots are told apart modulo 16, as the unchecked shift does |
| Runs.ApprovalInstant | clear-msig-anchor/programs/clear-msig-anchor/src/instructions/approve.rs:69-73 | an approved proposal was approved by one approving instruction, at the recorded time, and stayed approved from then on |
| Runs.ApprovedHasQuorum | clear-msig-anchor/programs/clear-msig-anchor/src/instructions/approve.rs:69-73 | an approved proposal has exactly the threshold, if positive, of distinct slots whose latest vote is an approval |
| Retirement.RetiredIsQuiet | clear-msig-anchor/programs/clear-msig-anchor/src/instructions/propose.rs:18-23 | a switched-off intent has no open proposal, and proposing, approving, cancelling or executing under it fails |
| Retirement.RetiredForever | clear-msig-anchor/programs/clear-msig-anchor/src/instructions/execute.rs:126-139 | a switched-off intent, at any address, keeps its definition and stays off until an update or another wallet replaces it |
| Retirement.OnlyRemoverStays | clear-msig-anchor/programs/clear-msig-anchor/src/instructions/execute.rs:568-572 | if of all the accounts that name the wallet, at its seeds or not, only one removes, that one cannot be switched off: a removal cannot target the intent it runs under |
| Retirement.IntentStep | clear-msig-anchor/programs/clear-msig-anchor/src/instructions/execute.rs:126-189 | short of a replacement an instruction can only switch an intent at the wallet's seeds off, and only by executing under a different, removing intent that names the wallet, wherever it is |
| Retirement.NoRoomNoReplacement | clear-msig-anchor/programs/clear-msig-anchor/src/instructions/execute.rs:178-181 | when a body is not shorter than the parameter cap, as with the program's constants, no run replaces an intent at the wallet's own seeds |
| Retirement.OnlyMetaIntentsExecute | clear-msig-anchor/programs/clear-msig-anchor/src/instructions/execute.rs:108-119 | when no string within the parameter cap decodes to a body with approvers, as with the program's constants, nor does any body others install for the wallet have any, every successful execution of every run is under one of the three meta-intents |
| Retirement.CreatedVoiceless | clear-msig-anchor/programs/clear-msig-anchor/src/instructions/create_wallet.rs:134-148 | a wallet is created without other approving intents if the accounts that already name it have no approvers |
| Retirement.RunsUnderOwnSeeds | clear-msig-anchor/programs/clear-msig-anchor/src/instructions/execute.rs:24-28 | if no account outside the wallet's seeds names it, whatever succeeds runs under an intent at its own seeds |
| Retirement.EffectsUnderSeeds | clear-msig-anchor/programs/clear-msig-anchor/src/instructions/execute.rs:265-276 | as long as no account outside the seeds names the wallet, every execution its vault has signed for was under an intent at its own seeds |
| Retirement.IndexedRemoverStays | clear-msig-anchor/programs/clear-msig-anchor/src/instructions/execute.rs:568-572 | as long as no account outside the seeds names the wallet, the only removing intent at its seeds keeps its switch |
| Retirement.SwitchedOffFromOutside | clear-msig-anchor/programs/clear-msig-anchor/src/instructions/execute.rs:24-28 | if the only removing intent at the wallet's seeds is switched off without being replaced, it was by an execution under an account outside the seeds that names the wallet |
| Witnesses.OutsiderWitness | clear-msig-anchor/programs/clear-msig-anchor/src/instructions/execute.rs:24-28 | a concrete ledger: a second wallet adds an account that names the first, and its signers switch the first wallet's only removing intent at its own seeds off, so the condition above is needed |
| Completion.QuorumUnlocks | clear-msig-anchor/programs/clear-msig-anchor/src/instructions/approve.rs:68-73 | under any intent that names the wallet, a listed proposer, threshold many signing approvers (one for a threshold of zero) and the passing of the timelock bring a proposal to where it can be executed |
| Completion.QuorumRemoves | clear-msig-anchor/programs/clear-msig-anchor/src/instructions/execute.rs:126-139 | a removing intent that names the wallet, at its seeds or not, can switch off any other idle intent at the wallet's seeds, given its quorum |
| Completion.QuorumAdds | clear-msig-anchor/programs/clear-msig-anchor/src/instructions/execute.rs:73-123 | an adding intent that names the wallet can install any body that fits the parameters under the next seed, given its quorum, and nothing else changes but its own count |
| Completion.QuorumCancels | clear-msig-anchor/programs/clear-msig-anchor/src/instructions/cancel.rs:40-79 | signing approvers who bring the cancellations to the threshold close any open proposal, approved ones included, under any intent that names the wallet, switched on or not |
| Neighbours.SeenFromOutside | clear-msig-anchor/programs/clear-msig-anchor/src/instructions/execute.rs:39-70 | whatever one wallet does, in whatever state it is, another wallet on the same ledger sees a few steps of its surroundings that the one-wallet model allows, and the two still share one ledger |
| Neighbours.ExecuteKeepsOtherIff | clear-msig-anchor/programs/clear-msig-anchor/src/instructions/execute.rs:108-119 | an execution of one wallet, under an intent that counts its proposal, keeps another wallet's count at an address exact if and only if the body it installs there claims no open proposals of the other |
| Worlds.Lived | clear-msig-anchor/programs/clear-msig-anchor/src/instructions/execute.rs:24-28 | for any number of wallets, created one by one on an empty ledger, and any interleaving of their instructions: what each wallet sees is a run of the one-wallet model from its creation on, whose instructions are its own, one for one and from the states it was in, and whose other steps are its surroundings |
| Worlds.SeenBy | clear-msig-anchor/programs/clear-msig-anchor/src/instructions/create_wallet.rs:68-151 | any event that is not a wallet's own, another wallet's creation included, is to it a few steps of its surroundings |
| Worlds.AlwaysSettled | clear-msig-anchor/programs/clear-msig-anchor/src/instructions/create_wallet.rs:27-63 | on every ledger different wallets' proposals have different addresses and every intent account is at the seeds of a wallet that exists |
| Everywhere.InvEverywhere | clear-msig-anchor/programs/clear-msig-anchor/src/instructions/execute.rs:39-70 | on every ledger every wallet satisfies the invariant at every moment, whatever bodies any wallet has installed |
| Everywhere.SignedEverywhere | clear-msig-anchor/programs/clear-msig-anchor/src/instructions/approve.rs:54-73 | on every ledger: when a proposal executes its approvals have reached the threshold, and each approval bit was set by an earlier instruction on the same wallet, signed, before it expired, over what is executed |
| Everywhere.TimelockEverywhere | clear-msig-anchor/programs/clear-msig-anchor/src/instructions/execute.rs:44-54 | on every ledger: an execution comes at least the timelock after an approval of the same proposal on the same wallet |
| Everywhere.OnceEverywhere | clear-msig-anchor/programs/clear-msig-anchor/src/instructions/execute.rs:33-65 | on every ledger no proposal is executed twice |
| Everywhere.MetaIntentsEverywhere | clear-msig-anchor/programs/clear-msig-anchor/src/instructions/execute.rs:108-119 | when no string within the parameter cap decodes to a body with approvers, as with the program's constants, every successful execution on the whole ledger is under one of the three meta-intents its wallet was created with |
| Invariant.StepKeeps | clear-msig-anchor/programs/clear-msig-anchor/src/instructions/execute.rs:39-70 | every instruction, failed or not, and everything other wallets do keep the invariant, whatever raw bodies are installed |
| Invariant.ExecuteKeeps | clear-msig-anchor/programs/clear-msig-anchor/src/instructions/execute.rs:39-70 | a successful execution keeps the invariant, whatever raw body it copies in unchecked |
| Counts.CountKeptIff | clear-msig-anchor/programs/clear-msig-anchor/src/instructions/execute.rs:108-119 | a successful instruction keeps the count at an address exact if and only if the raw body it installs there, if any, claims no open proposals |
| Witnesses.BadBodyWitness | clear-msig-anchor/programs/clear-msig-anchor/src/instructions/execute.rs:108-119 | a concrete created wallet whose successful execution installs a body that claims an open proposal, so that its count is wrong |
| Invariant.ElsewhereKeeps | clear-msig-anchor/programs/clear-msig-anchor/src/instructions/execute.rs:108-119 | whatever other wallets write keeps this wallet's invariant |
| Invariant.CreatedOk | clear-msig-anchor/programs/clear-msig-anchor/src/instructions/create_wallet.rs:68-151 | a wallet created among any accounts outside its own seeds satisfies the invariant |
| Invariant.CreatedIff | clear-msig-anchor/programs/clear-msig-anchor/src/instructions/create_wallet.rs:27-101 | creation succeeds if and only if the wallet's address and the three intents' are free, the name account matches, the name has at most 64 bytes, the lists at most 16 entries and both thresholds are between 1 and the number of approvers, although the counts are cut to a byte |
| Invariant.ProposeKeeps | clear-msig-anchor/programs/clear-msig-anchor/src/instructions/propose.rs:43-86 | proposing keeps votes, counts, identities and effects consistent |
| Invariant.ApproveKeeps | clear-msig-anchor/programs/clear-msig-anchor/src/instructions/approve.rs:37-75 | approving keeps votes, counts, identities and effects consistent |
| Invariant.CancelKeeps | clear-msig-anchor/programs/clear-msig-anchor/src/instructions/cancel.rs:38-82 | cancelling keeps votes, counts, identities and effects consistent |
| Invariant.CleanupKeeps | clear-msig-anchor/programs/clear-msig-anchor/src/instructions/cleanup_proposal.rs:5-23 | cleaning up keeps votes, counts, identities and effects consistent |
| Invariant.AfterApproveOk | clear-msig-anchor/programs/clear-msig-anchor/src/instructions/approve.rs:68-73 | an approval reaches a positive threshold exactly or stays below it, and the votes stay proper |
| Invariant.AfterCancelOk | clear-msig-anchor/programs/clear-msig-anchor/src/instructions/cancel.rs:70-79 | a cancellation closes at a positive threshold exactly, or drops an approved proposal back to active, or only changes votes |
| Invariant.ReleaseIntents | clear-msig-anchor/programs/clear-msig-anchor/src/instructions/cancel.rs:72-74 | closing a proposal and releasing its intent keeps every count at least the number of open proposals, and the count was positive |
| Invariant.TargetIsIdle | clear-msig-anchor/programs/clear-msig-anchor/src/instructions/execute.rs:568-572 | an accepted target has no open proposal, and neither has an account that names another wallet, so no execution modifies its own intent |
| Invariant.UpdateNeedsRoom | clear-msig-anchor/programs/clear-msig-anchor/src/instructions/execute.rs:163-181 | an update can only succeed if a body is shorter than the parameter cap |
| Steps.Progresses | clear-msig-anchor/programs/clear-msig-anchor/src/instructions/execute.rs:39-70 | every instruction moves clock and counters forward, keeps proposals' records, leaves closed proposals alone and freezes intents in use |
| Steps.VoteStep | clear-msig-anchor/programs/clear-msig-anchor/src/state/proposal.rs:54-64 | how one instruction changes what the bitmaps say about a slot: set by the successful vote of a slot that agrees with it modulo 16, untouched by everything else |
| Steps.NoVote | clear-msig-anchor/programs/clear-msig-anchor/src/instructions/execute.rs:65 | instructions other than votes change no ballot and no approval time and approve nothing |
| Steps.BecomesApproved | clear-msig-anchor/programs/clear-msig-anchor/src/instructions/approve.rs:69-73 | a proposal is approved after an instruction because it was before or because that instruction approved it now |
| Steps.Disappears | clear-msig-anchor/programs/clear-msig-anchor/src/instructions/cleanup_proposal.rs:5-17 | a proposal disappears only by a cleanup, once closed, in favour of its recorded payer |
| Steps.BecomesCancelled | clear-msig-anchor/programs/clear-msig-anchor/src/instructions/cancel.rs:70-74 | a proposal becomes cancelled only by the cancellation that reaches the threshold, a positive one exactly |
| Steps.Appears | clear-msig-anchor/programs/clear-msig-anchor/src/instructions/propose.rs:24-31 | a proposal appears only by a successful proposal under the next index |
| Steps.VoteIsSigned | clear-msig-anchor/programs/clear-msig-anchor/src/instructions/approve.rs:36-66 | a successful vote carries the slot's signature over the message of the proposal as stored, and has not expired |
| Steps.ProposeIsSigned | clear-msig-anchor/programs/clear-msig-anchor/src/instructions/propose.rs:51-68 | a successful proposal carries a listed proposer's signature over its message, and has not expired |
| Acceptance.ProposeIff | clear-msig-anchor/programs/clear-msig-anchor/src/instructions/propose.rs:18-86 | a proposal succeeds if and only if the intent names the wallet and is on, the address is free, it is unexpired, its listed proposer has signed the propose message under the next index, constraints are met and there is room; every field of the new proposal and both counters afterwards |
| Acceptance.ApproveIff | clear-msig-anchor/programs/clear-msig-anchor/src/instructions/approve.rs:13-74 | an approval succeeds if and only if the intent names the wallet and is on, the proposal is active, the listed slot has signed an unexpired approve message, and its approval does not stand; every bit, the status and the time afterwards |
| Acceptance.CancelIff | clear-msig-anchor/programs/clear-msig-anchor/src/instructions/cancel.rs:13-79 | a cancellation succeeds if and only if the intent names the wallet, the proposal is active or approved, the listed slot has signed an unexpired cancel message, and its cancellation does not stand; every bit, the status and the intent's count afterwards |
| Acceptance.Withdrawal | clear-msig-anchor/programs/clear-msig-anchor/src/instructions/cancel.rs:70-79 | an approved proposal from which a standing approver withdraws becomes active, unless that vote brings the cancellations to their threshold |
| Acceptance.ExecuteIff | clear-msig-anchor/programs/clear-msig-anchor/src/instructions/execute.rs:15-189 | an execution succeeds if and only if the wallet's own accounts are handed in, the proposal is approved, its timelock has run without overflow and its branch's conditions are met; the whole state afterwards, branch by branch |
| Acceptance.CleanupIff | clear-msig-anchor/programs/clear-msig-anchor/src/instructions/cleanup_proposal.rs:5-17 | a cleanup succeeds if and only if the proposal is executed or cancelled and its payer is named; it alone is gone afterwards |
| Refusals.CreateRefusal | clear-msig-anchor/programs/clear-msig-anchor/src/instructions/create_wallet.rs:27-101 | the error of a refused creation: that of the first condition that fails, in order |
| Refusals.ProposeRefusal | clear-msig-anchor/programs/clear-msig-anchor/src/instructions/propose.rs:18-84 | the error of a refused proposal: that of the first condition that fails, in order |
| Refusals.ApproveRefusal | clear-msig-anchor/programs/clear-msig-anchor/src/instructions/approve.rs:13-67 | the same for an approval |
| Refusals.CancelRefusal | clear-msig-anchor/programs/clear-msig-anchor/src/instructions/cancel.rs:13-67 | the same for a cancellation |
| Refusals.ExecuteRefusal | clear-msig-anchor/programs/clear-msig-anchor/src/instructions/execute.rs:15-189 | the same for an execution, branch by branch |
| Refusals.CleanupRefusal | clear-msig-anchor/programs/clear-msig-anchor/src/instructions/cleanup_proposal.rs:5-17 | the same for a cleanup |
| SignedActs.AcceptedIsSigned | clear-msig-anchor/programs/clear-msig-anchor/src/instructions/approve.rs:54-67 | every accepted proposal, approval and cancellation carries a listed signer's unexpired signature on the text that names this expiry, this very action, the wallet and the proposal's index |
| SignedActs.SameTextSameAct | clear-msig-anchor/programs/clear-msig-anchor/src/instructions/cancel.rs:56-67 | two accepted instructions whose signed texts are equal do the same action under the same index, and, where the names are told apart, for the same wallet name and content: a signature for one action is never accepted for another |
| Ballots.ApproveEffect | clear-msig-anchor/programs/clear-msig-anchor/src/state/proposal.rs:54-58 | an approval adds one approval, withdraws that slot's cancellation if there was one, and keeps the ballot proper |
| Ballots.CancelEffect | clear-msig-anchor/programs/clear-msig-anchor/src/state/proposal.rs:60-64 | the same for a cancellation |
| Ballots.ApproveBits | clear-msig-anchor/programs/clear-msig-anchor/src/state/proposal.rs:54-58 | an approval sets the slot's approval bit, clears its cancellation bit and leaves every other bit alone, for any index: the shift is taken modulo 16 |
| Ballots.CancelBits | clear-msig-anchor/programs/clear-msig-anchor/src/state/proposal.rs:60-64 | the same for a cancellation |
| Ballots.SlotsCount | clear-msig-anchor/programs/clear-msig-anchor/src/state/proposal.rs:38-44 | the bit count is the number of distinct slots that vote |
| Ledgers.CreateWallet | clear-msig-anchor/programs/clear-msig-anchor/src/instructions/create_wallet.rs:68-151 | succeeds exactly when the checks allow it, otherwise reports the failing check's error, and the fresh accounts beside the existing ones then represent the initial state |
| Ledgers.FillMetaIntents | clear-msig-anchor/programs/clear-msig-anchor/src/instructions/create_wallet.rs:134-148 | the loop over the meta-intents gives each the given thresholds, timelock and lists, switched on and without proposals |
| Ledgers.Ledger.Propose | clear-msig-anchor/programs/clear-msig-anchor/src/instructions/propose.rs:43-86 | on the accounts, in place: the transition function's success or very error, and exactly its state; fails without a trace |
| Ledgers.Ledger.Approve | clear-msig-anchor/programs/clear-msig-anchor/src/instructions/approve.rs:37-75 | the same for an approval |
| Ledgers.Ledger.Cancel | clear-msig-anchor/programs/clear-msig-anchor/src/instructions/cancel.rs:38-82 | the same for a cancellation, including the release of the intent account |
| Ledgers.Ledger.Execute | clear-msig-anchor/programs/clear-msig-anchor/src/instructions/execute.rs:44-70 | the same for an execution, with a possibly added intent account |
| Ledgers.Ledger.CleanupProposal | clear-msig-anchor/programs/clear-msig-anchor/src/instructions/cleanup_proposal.rs:5-23 | the same for a cleanup: only the named closed proposal disappears, and only towards its rent payer |
| Ledgers.Ledger.CheckPropose | clear-msig-anchor/programs/clear-msig-anchor/src/instructions/propose.rs:18-84 | the checks of a proposal accept exactly the specified cases and report the specified error |
| Ledgers.Ledger.CheckVote | clear-msig-anchor/programs/clear-msig-anchor/src/instructions/cancel.rs:40-68 | the checks votes share accept exactly the specified cases and report the specified error |
| Ledgers.Ledger.ExecuteAddIntent | clear-msig-anchor/programs/clear-msig-anchor/src/instructions/execute.rs:73-123 | adds an account with the raw body under the next index, or reports the specified error; existing accounts stay in place |
| Ledgers.Ledger.ExecuteRemoveIntent | clear-msig-anchor/programs/clear-msig-anchor/src/instructions/execute.rs:126-139 | clears exactly the target's switch, or reports the specified error |
| Ledgers.Ledger.ExecuteUpdateIntent | clear-msig-anchor/programs/clear-msig-anchor/src/instructions/execute.rs:159-189 | overwrites exactly the target with the raw body, or reports the specified error |
| Ledgers.Ledger.LoadTarget | clear-msig-anchor/programs/clear-msig-anchor/src/instructions/execute.rs:556-574 | accepts exactly the writable account at the target's address that exists and has no open proposal, whichever wallet it names, or reports the specified error |
| Ledgers.Ledger.CheckExecute | clear-msig-anchor/programs/clear-msig-anchor/src/instructions/execute.rs:15-54 | accepts exactly approved proposals whose checked unlock time has come, or reports the specified error |
| Ledgers.ProposalAccount.SetApproval | clear-msig-anchor/programs/clear-msig-anchor/src/state/proposal.rs:54-58 | the two bitmaps become those of an approval by the slot and no other field changes |
| Ledgers.ProposalAccount.SetCancellation | clear-msig-anchor/programs/clear-msig-anchor/src/state/proposal.rs:60-64 | the two bitmaps become those of a cancellation by the slot and no other field changes |
| Ledgers.ProposalAccount.RecordApproval | clear-msig-anchor/programs/clear-msig-anchor/src/instructions/approve.rs:68-73 | the whole proposal afterwards, with status and time of approval |
| Ledgers.ProposalAccount.RecordCancellation | clear-msig-anchor/programs/clear-msig-anchor/src/instructions/cancel.rs:70-79 | the whole proposal afterwards, with its closing or its drop back to active |
| Ledgers.IntentAccount.Release | clear-msig-anchor/programs/clear-msig-anchor/src/instructions/execute.rs:66-67 | one open proposal fewer, not below zero, nothing else |
| Agreement.DisplayedIsExecuted | clear-msig-anchor/programs/clear-msig-anchor/src/instructions/execute.rs:347-358 | for arbitrary custom intents and validated data: the text of a placeholder reads back to exactly the value of the bytes a segment of the same parameter emits in its own encoding |
| Agreement.DisplayedIsAddressed | clear-msig-anchor/programs/clear-msig-anchor/src/instructions/execute.rs:418-431 | for arbitrary custom intents and validated data: the address read from a placeholder is the address of every emitted account whose entry takes it from the same parameter |
| Agreement.DerivedIsDisplayed | clear-msig-anchor/programs/clear-msig-anchor/src/instructions/execute.rs:485-552 | for arbitrary custom intents and validated data: every emitted account whose entry is derived is the program address of its seeds, and each seed that refers to a parameter is the bytes whose value the text shown for it reads back to |
| Agreement.NarrowEncoding | clear-msig-anchor/programs/clear-msig-anchor/src/instructions/execute.rs:353-357 | with any encoding an unsigned parameter is emitted as the number shown if and only if that number fits the encoding |
| Agreement.ExecutedRight | clear-msig-anchor/programs/clear-msig-anchor/src/instructions/execute.rs:196-380 | a passing custom execution resolved, checked and emitted everything as ExecutionRight says |
| Agreement.ResolutionRight | clear-msig-anchor/programs/clear-msig-anchor/src/instructions/execute.rs:213-254 | every entry gets a slot; injecting entries get the injected account; the others get the remaining accounts in order without gaps |
| Agreement.CheckedIff | clear-msig-anchor/programs/clear-msig-anchor/src/instructions/execute.rs:384-481 | validation passes if and only if every slot holds the account its entry names |
| Agreement.CallsRight | clear-msig-anchor/programs/clear-msig-anchor/src/instructions/execute.rs:296-377 | one instruction per entry: its program, its accounts with the flags of their entries, its pasted segments within 1024 bytes |
| Agreement.DataIsPasted | clear-msig-anchor/programs/clear-msig-anchor/src/instructions/execute.rs:329-360 | the bounded buffer succeeds exactly when the plain concatenation of the segments exists and fits, and then holds it |
| Emission.ExecutedIff | clear-msig-anchor/programs/clear-msig-anchor/src/instructions/execute.rs:196-380 | a custom execution succeeds if and only if there are at most 32 entries, static entries have their bytes, enough accounts are handed in, every account has the address its entry names, and every instruction can be emitted; what is emitted, entry by entry |
| Emission.ResolvedIff | clear-msig-anchor/programs/clear-msig-anchor/src/instructions/execute.rs:213-254 | which account each entry gets: the vault, the first declared account with a static entry's address, or the next of those handed in, by number |
| Emission.SlotsDetermine | clear-msig-anchor/programs/clear-msig-anchor/src/instructions/execute.rs:213-254 | what each entry says settles all the accounts: no two lists of accounts fit the same entries |
| Emission.NamedIff | clear-msig-anchor/programs/clear-msig-anchor/src/instructions/execute.rs:405-477 | the address each kind of entry names, with every offset and width written out: pool bytes, a parameter's first 32 bytes, 32 stored bytes at a two-byte offset, a derivation from seeds |
| Emission.SeedIff | clear-msig-anchor/programs/clear-msig-anchor/src/instructions/execute.rs:519-546 | what each kind of seed is: at most 32 pool bytes, at most 32 bytes of a parameter, or an account's address |
| Emission.SegmentIff | clear-msig-anchor/programs/clear-msig-anchor/src/instructions/execute.rs:333-358 | when a segment can be emitted and which bytes it emits, with the table of code widths |
| Emission.DataIff | clear-msig-anchor/programs/clear-msig-anchor/src/instructions/execute.rs:329-360 | instruction data exists if and only if all segments are good and take at most 1024 bytes together; each segment's bytes are at the sum of the earlier widths |
| Emission.AssembledIff | clear-msig-anchor/programs/clear-msig-anchor/src/instructions/execute.rs:297-376 | when one instruction can be emitted, and its program, accounts with flags and data |
| Refusals.ResolvedRefusal | clear-msig-anchor/programs/clear-msig-anchor/src/instructions/execute.rs:213-254 | entries are refused for the first that has no account, with an error for each of the three reasons |
| Refusals.CheckedRefusal | clear-msig-anchor/programs/clear-msig-anchor/src/instructions/execute.rs:384-481 | accounts are refused for the first whose entry names no address or another one |
| Refusals.NamedRefusal | clear-msig-anchor/programs/clear-msig-anchor/src/instructions/execute.rs:405-477 | why an entry names no address |
| Refusals.DerivedRefusal | clear-msig-anchor/programs/clear-msig-anchor/src/instructions/execute.rs:493-552 | why a derived entry names no address, in order |
| Refusals.SeedsRefusal | clear-msig-anchor/programs/clear-msig-anchor/src/instructions/execute.rs:511-547 | seeds are refused for the first that is not there or is refused itself |
| Refusals.SeedRefusal | clear-msig-anchor/programs/clear-msig-anchor/src/instructions/execute.rs:519-546 | a seed that names an account that is not there has an error of its own |
| Refusals.SegmentRefusal | clear-msig-anchor/programs/clear-msig-anchor/src/instructions/execute.rs:333-358 | a segment outside the pool aborts, every other fault of a segment has one error |
| Refusals.DataRefusal | clear-msig-anchor/programs/clear-msig-anchor/src/instructions/execute.rs:329-360 | instruction data is refused for the first segment that is bad or does not fit any more |
| Refusals.AssembledRefusal | clear-msig-anchor/programs/clear-msig-anchor/src/instructions/execute.rs:297-376 | why one instruction is refused, in order |
| Refusals.CallsRefusal | clear-msig-anchor/programs/clear-msig-anchor/src/instructions/execute.rs:296-377 | instructions are refused for the first that is |
| Refusals.ExecutedRefusal | clear-msig-anchor/programs/clear-msig-anchor/src/instructions/execute.rs:196-277 | a custom execution is refused for its entries first, then for its accounts, then for its instructions |
| CustomExecution.ResolveAccounts | clear-msig-anchor/programs/clear-msig-anchor/src/instructions/execute.rs:213-254 | fills the slots with exactly the resolved accounts, all of them written, or fails exactly when resolution does |
| CustomExecution.ValidateRemainingAccounts | clear-msig-anchor/programs/clear-msig-anchor/src/instructions/execute.rs:384-481 | gives the verdict of the specification, and reads written slots only |
| CustomExecution.ExpectedAddress | clear-msig-anchor/programs/clear-msig-anchor/src/instructions/execute.rs:405-477 | computes the address each kind of entry names, with each kind's own errors |
| CustomExecution.DerivePda | clear-msig-anchor/programs/clear-msig-anchor/src/instructions/execute.rs:485-552 | derives from exactly the entry's seeds under exactly the entry's program |
| CustomExecution.CollectSeeds | clear-msig-anchor/programs/clear-msig-anchor/src/instructions/execute.rs:507-547 | the seed buffers hold exactly the seeds, at most 16 of at most 32 bytes |
| CustomExecution.ExecuteCpiLoop | clear-msig-anchor/programs/clear-msig-anchor/src/instructions/execute.rs:282-380 | emits exactly the specified instructions in order, or fails with the first failing one's error |
| CustomExecution.AssembleCall | clear-msig-anchor/programs/clear-msig-anchor/src/instructions/execute.rs:297-376 | one instruction: program, account list and data as specified, reading written slots only |
| CustomExecution.BuildData | clear-msig-anchor/programs/clear-msig-anchor/src/instructions/execute.rs:329-360 | the buffer ends up with exactly the segments' bytes, in order |
| CustomExecution.ReadSegment | clear-msig-anchor/programs/clear-msig-anchor/src/instructions/execute.rs:336-358 | the bytes of one segment, with the 16-bit wrap of its end and the checks on encoding and length |
| CustomExecution.ExecuteCustom | clear-msig-anchor/programs/clear-msig-anchor/src/instructions/execute.rs:196-277 | resolve, validate and emit, with exactly the specified result |
| Params.ParamOffset | clear-msig-anchor/programs/clear-msig-anchor/src/utils/message.rs:274-282 | the renderer's walker stops exactly where the earlier parameters end, or fails as specified |
| Params.ReadParamBytes | clear-msig-anchor/programs/clear-msig-anchor/src/state/intent.rs:120-140 | the interpreter's walker returns exactly the parameter's bytes, or fails as specified |
| Params.ValidateParamConstraints | clear-msig-anchor/programs/clear-msig-anchor/src/state/intent.rs:142-231 | the validating walker gives exactly the specified verdict |
| Params.ValidatedIff | clear-msig-anchor/programs/clear-msig-anchor/src/state/intent.rs:142-231 | validation accepts if and only if every declared parameter reads back, every u64 is strictly below, or above, its bound, and every text is valid |
| Params.ParamWidths | clear-msig-anchor/programs/clear-msig-anchor/src/state/intent.rs:142-231 | after validation every parameter has the width of its type, a text the one its first byte says |
| Refusals.ValidatedRefusal | clear-msig-anchor/programs/clear-msig-anchor/src/state/intent.rs:142-231 | data is refused for its first bad parameter, with one error if that is a readable u64 out of its bound, with another in every other case |
| Params.SliceOf | clear-msig-anchor/programs/clear-msig-anchor/src/state/intent.rs:120-231 | after validation a parameter's bytes run from where the renderer's walker puts it to where it puts the next, and are admissible |
| Params.WalkersAgree | clear-msig-anchor/programs/clear-msig-anchor/src/state/intent.rs:120-231 | after validation the slices, in order and without gaps, are a prefix of the data as long as the final offset |
| MessageMeaning.MessageDetermines | clear-msig-anchor/programs/clear-msig-anchor/src/utils/message.rs:117-199 | for every intent type the signed bytes are equal if and only if action, index, written expiry and the text from the content through the wallet name are; equal expiry for the years 0 to 207999 |
| NameMeaning.ToldApartIff | clear-msig-anchor/programs/clear-msig-anchor/src/utils/message.rs:125-130 | content and wallet name can be told from their joint text, whatever the contents are, if and only if neither name's text ends with the other's |
| NameMeaning.PlainToldApart | clear-msig-anchor/programs/clear-msig-anchor/src/utils/message.rs:125-130 | two names are always told apart if the separator occurs in neither name's text but at its beginning |
| NameMeaning.BorderCollide | clear-msig-anchor/programs/clear-msig-anchor/src/utils/message.rs:125-130 | that neither name contains the separator is not enough: two concrete names and contents with the same text |
| NameMeaning.MessageDeterminesAll | clear-msig-anchor/programs/clear-msig-anchor/src/utils/message.rs:117-199 | for such names the signed bytes are equal if and only if content, name, action, index and written expiry are, for every intent type |
| TemplateMeaning.SameMessageSameParams | clear-msig-anchor/programs/clear-msig-anchor/src/utils/message.rs:203-221 | if every placeholder of a template is last or followed by a byte its type never prints, equal signed messages of one definition and wallet mean equal bytes for every non-boolean parameter with a placeholder |
| TemplateMeaning.SeparatedDetermines | clear-msig-anchor/programs/clear-msig-anchor/src/utils/message.rs:203-221 | such a template renders two data alike only if every placeholder shows the same text |
| TemplateMeaning.AdjacentCollide | clear-msig-anchor/programs/clear-msig-anchor/src/utils/message.rs:203-221 | without the condition it fails: two adjacent placeholders show two different data alike |
| TemplateMeaning.TextOfAlphabet | clear-msig-anchor/programs/clear-msig-anchor/src/utils/message.rs:232-271 | which bytes the text of each parameter type is made of |
| MessageMeaning.MetaFits | clear-msig-anchor/programs/clear-msig-anchor/src/utils/message.rs:10-10 | the message of a meta-intent always fits the buffer, for names of up to 64 bytes |
| MessageMeaning.MetaMessageDetermines | clear-msig-anchor/programs/clear-msig-anchor/src/utils/message.rs:132-199 | for meta-intents the signed bytes are equal if and only if kind, target, hash, wallet name, action, index and written expiry are, whatever the name contains |
| MessageMeaning.HeaderFields | clear-msig-anchor/programs/clear-msig-anchor/src/utils/message.rs:10-63 | a signed message has at most 2048 bytes, the fixed domain, version and format, and a length field equal to its body's length |
| MessageLayout.MessageIff | clear-msig-anchor/programs/clear-msig-anchor/src/utils/message.rs:10-63 | a message can be signed if and only if its content renders and the whole has at most 2048 bytes; every byte of its header |
| MessageLayout.BodyIs | clear-msig-anchor/programs/clear-msig-anchor/src/utils/message.rs:117-130 | the text of a message for each action, word by word |
| MessageLayout.ContentIs | clear-msig-anchor/programs/clear-msig-anchor/src/utils/message.rs:134-199 | the content of the three meta-intents' messages, word by word, and when there is one |
| MessageLayout.PiecesSpell | clear-msig-anchor/programs/clear-msig-anchor/src/utils/message.rs:203-221 | what the template reader returns spells the template: bytes other than an opening brace, and numbers in braces |
| MessageLayout.SpelledIsRead | clear-msig-anchor/programs/clear-msig-anchor/src/utils/message.rs:203-221 | conversely, whatever spells a template is what the reader returns, so a template has one reading |
| MessageLayout.CustomContentIff | clear-msig-anchor/programs/clear-msig-anchor/src/utils/message.rs:203-221 | a custom message renders if and only if every piece of the template has a text, and is these texts in order |
| MessageLayout.TemplateIs | clear-msig-anchor/programs/clear-msig-anchor/src/state/intent.rs:97-107 | the template is the named part of the pool, if it is there and valid |
| MessageLayout.HexDigits | clear-msig-anchor/programs/clear-msig-anchor/src/utils/message.rs:109-115 | hex text: two digits per byte, high half first, in lower case |
| MessageLayout.RenderIff | clear-msig-anchor/programs/clear-msig-anchor/src/utils/message.rs:232-271 | a parameter renders if and only if its bytes are there and, of a text, valid |
| MessageLayout.RenderRefusal | clear-msig-anchor/programs/clear-msig-anchor/src/utils/message.rs:232-282 | the renderer aborts when the bytes of any parameter but a bool or a u8 are missing, and refuses in every other case |
| MessageLayout.PanicsSomewhere | clear-msig-anchor/programs/clear-msig-anchor/src/utils/message.rs:203-221 | if rendering aborts, the template begins with pieces all but the last of which render into the room, and the last aborts |
| MessageLayout.AbortsPanics | clear-msig-anchor/programs/clear-msig-anchor/src/utils/message.rs:203-221 | and conversely |
| MessageLayout.SignedReading | clear-msig-anchor/programs/clear-msig-anchor/src/utils/message.rs:241-244 | eight bytes as a signed number are two's complement |
| MessageMeaning.DisplayReads | clear-msig-anchor/programs/clear-msig-anchor/src/utils/message.rs:232-271 | for every parameter type the text shown reads back to the value of the raw bytes |
| MessageMeaning.DisplayDetermines | clear-msig-anchor/programs/clear-msig-anchor/src/utils/message.rs:232-271 | for every type but booleans, equally long well-sized raw bytes have equal texts if and only if they are equal |
| MessageMeaning.ValidatedRenders | clear-msig-anchor/programs/clear-msig-anchor/src/utils/message.rs:232-271 | after validation every declared parameter renders, to the text of its bytes |
| MessageMeaning.ValidatedSubstitutes | clear-msig-anchor/programs/clear-msig-anchor/src/utils/message.rs:203-221 | after validation a template renders if and only if every placeholder, cut to a byte, names a declared parameter |
| MessageBuilders.SignedBytes | clear-msig-anchor/programs/clear-msig-anchor/src/utils/message.rs:38-63 | a fresh builder yields exactly the specified message, or the error of the first step that fails: an abort exactly when a slice aborts before anything else is refused |
| MessageBuilders.MessageBuilder.BuildMessageForIntent | clear-msig-anchor/programs/clear-msig-anchor/src/utils/message.rs:134-158 | appends exactly the body of the intent's kind and leaves the whole buffer equal to header plus body, or reports the specified error; earlier text is never rewritten |
| MessageBuilders.MessageBuilder.BuildCustomMessage | clear-msig-anchor/programs/clear-msig-anchor/src/utils/message.rs:162-168 | appends header, rendered template and suffix, or fails exactly when there is no text or no room |
| MessageBuilders.MessageBuilder.BuildAddIntentMessage | clear-msig-anchor/programs/clear-msig-anchor/src/utils/message.rs:172-179 | the same for an addition |
| MessageBuilders.MessageBuilder.BuildRemoveIntentMessage | clear-msig-anchor/programs/clear-msig-anchor/src/utils/message.rs:181-188 | the same for a removal |
| MessageBuilders.MessageBuilder.BuildUpdateIntentMessage | clear-msig-anchor/programs/clear-msig-anchor/src/utils/message.rs:190-199 | the same for an update |
| MessageBuilders.MessageBuilder.RenderTemplate | clear-msig-anchor/programs/clear-msig-anchor/src/utils/message.rs:203-221 | the index-driven loop terminates and appends exactly the recursive substitution of the template, or fails exactly when there is none or no room, with the specified error |
| MessageBuilders.MessageBuilder.RenderParam | clear-msig-anchor/programs/clear-msig-anchor/src/utils/message.rs:232-271 | appends exactly the text of one parameter, or fails exactly when it has none or no room |
| MessageBuilders.MessageBuilder.PushBase58 | clear-msig-anchor/programs/clear-msig-anchor/src/utils/message.rs:77-81 | an address always encodes into the 44-byte buffer: only a full message refuses it |
| MessageBuilders.MessageBuilder.PushU64 | clear-msig-anchor/programs/clear-msig-anchor/src/utils/message.rs:83-90 | appends the decimal text of any 64-bit number; the 20-byte buffer never underflows |
| MessageBuilders.MessageBuilder.PushU128 | clear-msig-anchor/programs/clear-msig-anchor/src/utils/message.rs:223-230 | the same for 128 bits and 39 bytes |
| MessageBuilders.MessageBuilder.PushI64 | clear-msig-anchor/programs/clear-msig-anchor/src/utils/message.rs:92-99 | appends the signed text of any 64-bit number, the smallest included |
| MessageBuilders.MessageBuilder.PushTimestamp | clear-msig-anchor/programs/clear-msig-anchor/src/utils/message.rs:101-107 | appends the 19-byte text in place and rewrites nothing before it |
| MessageBuilders.MessageBuilder.PushHex | clear-msig-anchor/programs/clear-msig-anchor/src/utils/message.rs:109-115 | appends two lower-case digits per byte, all of them or fails |
| MessageBuilders.MessageBuilder.PushHeader | clear-msig-anchor/programs/clear-msig-anchor/src/utils/message.rs:117-123 | appends exactly the header text |
| MessageBuilders.MessageBuilder.PushSuffix | clear-msig-anchor/programs/clear-msig-anchor/src/utils/message.rs:125-130 | appends exactly the suffix text |
| MessageBuilders.MessageBuilder.Finalize | clear-msig-anchor/programs/clear-msig-anchor/src/utils/message.rs:51-63 | never fails, and makes the buffer the wrapped form of the text already written |
| MessageBuilders.ParseUsize | clear-msig-anchor/programs/clear-msig-anchor/src/utils/message.rs:284-292 | the checked-arithmetic loop accepts exactly the digit strings below 2 to the 64 and returns their number; the empty string is 0 |
| Decimal.DecimalRoundTrip | clear-msig-anchor/programs/clear-msig-anchor/src/utils/message.rs:83-90 | reading the printed digits gives the number back, and nothing superfluous is printed |
| Decimal.DecimalCanonical | clear-msig-anchor/programs/clear-msig-anchor/src/utils/message.rs:83-90 | conversely every digit string without a leading zero is what printing its number gives |
| Decimal.DecimalLength | clear-msig-anchor/programs/clear-msig-anchor/src/utils/message.rs:85-86 | a number below a power of ten needs no more digits than its exponent |
| Decimal.WriteDigits | clear-msig-anchor/programs/clear-msig-anchor/src/utils/message.rs:86-89 | the right-to-left loop leaves exactly the decimal text at the end of the buffer |
| Decimal.SignedRoundTrip | clear-msig-anchor/programs/clear-msig-anchor/src/utils/message.rs:92-99 | reading the signed text gives back every 64-bit number, the smallest included |
| Decimal.HexInjective | clear-msig-anchor/programs/clear-msig-anchor/src/utils/message.rs:109-115 | different byte strings have different hex texts |
| Base58.RoundTrip | clear-msig-anchor/programs/clear-msig-anchor/src/utils/base58.rs:5-48 | an independent decoder gives back every input, leading zero bytes included |
| Base58.AddressFits | clear-msig-anchor/programs/clear-msig-anchor/src/utils/base58.rs:9-10 | every input of up to 32 bytes encodes to at most its length plus 12 letters, 44 for an address |
| Base58.DigitsCorrect | clear-msig-anchor/programs/clear-msig-anchor/src/utils/base58.rs:13-25 | the digits denote the same number as the bytes and have no superfluous top digit |
| Base58.Accumulate | clear-msig-anchor/programs/clear-msig-anchor/src/utils/base58.rs:13-25 | the carry loop terminates, keeps its carry within a byte, and multiplies the digit string by 256 and adds the byte in place, or runs past the work buffer exactly when the result does not fit |
| Base58.EncodeBase58 | clear-msig-anchor/programs/clear-msig-anchor/src/utils/base58.rs:5-48 | writes exactly the encoding at the front of the buffer and nothing else, or refuses exactly when it does not fit |
| Calendar.CalendarCorrect | clear-msig-anchor/programs/clear-msig-anchor/src/utils/datetime.rs:38-65 | for every 64-bit timestamp the parts are a legal Gregorian date and time of day (section 5.7 and Appendix C of RFC 3339) whose naive second count from 1970 is the timestamp |
| Calendar.CalendarInverse | clear-msig-anchor/programs/clear-msig-anchor/src/utils/datetime.rs:38-65 | every legal date and time in range is the image of its own second count |
| TimestampText.FormatTimestamp | clear-msig-anchor/programs/clear-msig-anchor/src/utils/datetime.rs:3-23 | writes exactly the 19-byte text in place and nothing else, or refuses a short buffer untouched |
| TimestampText.TextOrder | clear-msig-anchor/programs/clear-msig-anchor/src/utils/datetime.rs:3-65 | in the years 0 to 207999 earlier timestamps have lexicographically smaller texts, and equal texts mean equal timestamps |
| TimestampText.ReadBack | clear-msig-anchor/programs/clear-msig-anchor/src/utils/datetime.rs:3-65 | the text reads back to the timestamp if and only if its year is 0 to 9999 |
| TimestampText.TextDetermines | clear-msig-anchor/programs/clear-msig-anchor/src/utils/datetime.rs:3-65 | for all timestamps, two texts are equal if and only if everything but the year agrees and the years agree in the part the four bytes keep |
| TimestampText.TextCollision | clear-msig-anchor/programs/clear-msig-anchor/src/utils/datetime.rs:30-35 | two concrete timestamps with the same text, beyond the years above |
| HelperMessages.RemoveMessageAlike | bench/src/helpers.rs:122-135 | the client's removal message is the one the program checks if and only if the expiry's year is 0 to 9999 |
| HelperMessages.AddMessageAlike | bench/src/helpers.rs:139-153 | the same for the addition message |
| HelperMessages.TimestampsAlike | bench/src/helpers.rs:89-111 | the client's padded timestamp is the program's 19 bytes if and only if the year is 0 to 9999 |
| HelperMessages.ClientParts | bench/src/helpers.rs:89-109 | the client's own day arithmetic, statement by statement, gives the program's date and time for every 64-bit timestamp |
| HelperMessages.ClientTimestamp | bench/src/helpers.rs:89-111 | what the client's formatter returns, and that it equals the program's text if and only if the year is 0 to 9999 |
| HelperMessages.HexAlike | bench/src/helpers.rs:113-115 | formatting byte by byte gives the program's hex text |
| HelperMessages.WrapOffchain | bench/src/helpers.rs:79-87 | the appended pieces are exactly the program's wrapped form, for bodies of any length |

## Left out

- Ed25519 verification, sha256, program-derived addresses and UTF-8 validity are uninterpreted functions of the environment.
- The byte layout of accounts: discriminators, fixed-capacity vectors and the reading of a raw body are one uninterpreted function from bytes to an intent, so an intent is arbitrary and its lists are not bounded by their capacities.
- Rent, lamports, bumps, payers' balances and the closing transfer of a cleanup are not modelled; a cleanup removes the proposal.
- Emitted instructions are recorded; what the called programs do, and any re-entry, is not modelled.
- What wallets do to accounts outside this program is not modelled.
- Which error is reported when several account constraints of one instruction fail at once is framework behaviour and is not modelled.
- Names of parameters, the stored intent index, bump bytes and the lookups `is_approver`, `approver_index` and `param_name` are never read by the instructions and are left out.
- `require!` on a message body beyond 65535 bytes can never fire behind the 2048-byte buffer and is proved dead in `Finalize`.
- Instruction-data builders, account lists and the benchmark runner in bench are plumbing; only the message helpers are modelled.
- The update message has no counterpart among the helpers, so only removal and addition messages are compared.
- Ledgers.Ledger.Propose: checks the two counters before it writes, where the program writes and relies on the runtime to roll a failed instruction back.
- Ledgers.Ledger.Execute: running out of compute units or stack is reported by the runtime and is not modelled.
- Base58.EncodeBase58: inputs whose digits pass the 64-digit work buffer end in an explicit abort outcome; addresses never do.
