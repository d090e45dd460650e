# A verified model of QuantumOS

This project models four parts of QuantumOS in Dafny and proves properties of them.

- **The exact quantum engine** (`QsvBits`, `QsvExact`, `QsvGrover`, `QsvEngine`, `QsvSim`, `QsvMirror`, `Qpud`,
  `QpuCircuit`).
  A register is a vector of Gaussian integers with one implicit scale 2^(-h/2). `QsvExact` gives each gate an exact
  meaning for every register size; `QsvEngine` is the C engine on int32 arrays, with its truncating casts, its
  wrapping negation and its sticky overflow flag; `QsvMirror` is the Python engine on unbounded integers; `QsvSim`
  relates the two; `Qpud` is the circuit executor with its validation, its checks and its fraction read-out;
  `QpuCircuit` is the host's builder of circuits, octet by octet.
- **The capability table and its ledger** (`CapForest`, `CapTable`, `CapLaws`, `Audit`, `AuditText`). The table has
  generation-tagged handles, attenuating derivation, recursive revocation over the table being changed and sweeps for
  dead processes. Its invariant `Valid()` is kept by every operation, so it holds in every reachable table: the table
  is a forest ordered by age, every live slot lies below the lookup bound, generations count frees modulo 2^16, and
  what was granted is what was removed plus what is live. The ledger is a coalescing ring that survives reboot;
  `AuditText` is its text form and what the host's line pattern recovers. Table size and ring size are parameters
  (the table below 65535 slots, so that index + 1 fits in the low half of a handle).
- **Hashing, sealing, attestation and the authenticated wires** (`Sha256`, `Hmac`, `Qsave`, `Crc`, `Framing`,
  `GuestWire`, `Numerals`, `Lamport`, `Attestation`, `ReplyAuth`, `FieldSync`). The SHA-256 compression function is an
  arbitrary function passed as a parameter (`Compression`); everything around it is concrete. In `ReplyAuth` the
  adversary does anything to the bytes on the wire except deliver a payload whose tag verifies for the body and nonce it
  carries when the guest has not tagged them; in `FieldSync` the same is assumed of a peer's frames (`Honest`).
- **The fixed-point resolver** (`Paradox`): a damped integer reciprocal iteration and a circular integer smoothing,
  with C's truncating division and every int32 cast explicit.

Code that works by changing arrays, buffers or fields is modelled by classes and methods over arrays and fields, and
each such method is proved against a specification function; the main results are lemmas about those functions over
all inputs, all runs or all reachable states. Every layout, mask, code and constant these functions share is also stated
once in terms of its own: bits by their weights, fields by their octets, texts by their characters, gates by the
identities between them.

## Where code and documentation differ

- `user/paradoxd.c:12-16` promises that positive seeds converge to +1 and negative seeds to -1. The reciprocal of 1 and
  of 2 does not fit an int32: seed 1 (and 0, which is replaced by 1) settles on 0, seed -1 on 0, and seed 2 on the
  negative fixed point. `PromiseKept` gives the exact condition. The negative fixed point is -65535, one unit short
  of -1, because the rounding term has the opposite effect there.
- `user/paradoxd.c:18-24` says the smoothing preserves the component sum. Truncating division preserves it exactly
  when the signed remainders of the four weights cancel (`SumKeptIff`); for components of one sign that means that
  every weight is a multiple of 4 (`SumOfOneSign`, `SumLost`).
- `user/paradoxd.c:18-24` says every vector contracts to the uniform vector whose entries equal the mean. It does reach
  a uniform vector (`Consensus`), but the mean only from a sum of 0 or from components that alternate between two values
  of one parity (`MeanReachedIff`). Every other vector stops short of it, by less than 18 (`LimitNearMean`): [4, 0, 0, 0]
  settles on 0 (`MeanMissed`), and the vector of the merge gate one unit below its mean (`GateVector`).
- `user/fieldsyncd.c:81-85` says a reborn node is always numbered above what its peers last accepted. That needs the
  rebirth to read the clock at least one tick later (`RebirthExact`, `SameTickRebirth`).
- The host pattern for ledger lines admits a "?" as a kind but not as a resource type, so a line with an unknown type is
  lost to the host (`LineRecovered`).
- `scripts/qos_bridge.py:116-117` says the host resynchronises as the guest does. After a CRC failure the guest drops the
  whole frame and the host one byte; they part exactly when the dropped frame hides the beginning of another
  (`AgreeIffClear`, `ResyncDiffers`).
- `poll_com2` drops what does not fit its buffer. Frames with payloads over 385 octets can cost the next frame
  (`FrameLost`); below that nothing is lost (`NothingLost`), and every request for a circuit the broker admits is below.
- The mirror runs some circuits the executor refuses (`MirrorAdmitsMore`).
- The overflow flag does not cover negation: -2^31 can stand for +2^31 with the flag clear (`NegationWraps`), which
  `ProbabilitiesAgree` shows to be invisible in every probability.

## Model

| member | source | states |
|---|---|---|
| QsvGrover.DiffusionReflects | user/qsv_engine.h:160-174 | On every state of every register size, diffusion replaces each amplitude v_k by 2^n v_k - 2 sum v and adds 2n to h: exactly the reflection about the mean |
| QsvGrover.HAllTwice | user/qsv_engine.h:160-173 | The m nested butterfly sweeps compose to a transform that squares to multiplication by 2^m |
| QsvGrover.HAllAtZero | user/qsv_engine.h:55-76 | The transform of any state has the sum of all its amplitudes at index 0 |
| QsvGrover.OracleFlipsTarget | user/qsv_engine.h:145-157 | The X-conjugated multi-controlled Z negates the target amplitude and leaves every other amplitude as it was, for every target |
| QsvGrover.GroverAmplitudes | user/qsv_engine.h:145-174 | After any number of oracle and diffusion rounds the state is two-valued, with both values given by an integer recurrence, and h = n + 2 n rounds |
| QsvGrover.GroverFourQubits | scripts/qsv_mirror.py:143-166 | The self-check figures, amplitude -16064 at h = 28, hold for all sixteen targets, not only for target 11, the one the self-check names |
| QsvExact.NormConserved | user/qsv_engine.h:178-185 | Over every circuit the sum of the squared magnitudes equals 2^h exactly |
| QsvExact.StepNorm | user/qsv_engine.h:55-143 | Each gate preserves the identity between the norm and 2^h |
| QsvExact.HSymmetric | user/qsv_engine.h:55-76 | The butterfly moves from one side of an inner product to the other |
| QsvExact.HTwice | user/qsv_engine.h:55-76 | Two butterflies on one qubit multiply every amplitude by two |
| QsvExact.SumFlip | user/qsv_engine.h:78-91 | Exchanging the halves along any qubit is a permutation of the basis, so it keeps every sum |
| QsvExact.WeightBounded | user/qpud.c:122-131 | No squared amplitude exceeds the norm, so every reported probability lies between 0 and 1 |
| QsvExact.RunConcat | user/qpud.c:64-104 | Running a circuit in two parts is running it whole |
| QsvExact.StepOnPair | user/qsv_engine.h:55-135 | H, X, Z and S on the pair of amplitudes whose indices differ by 2^q, index k having k / 2^q even: sums and differences, exchange, negation of the upper one, its turn by i; only H counts in h |
| QsvExact.StepCz | user/qsv_engine.h:102-109 | CZ negates exactly the amplitudes whose index has both weights 2^a and 2^b |
| QsvExact.StepCnot | user/qsv_engine.h:111-124 | CNOT exchanges indices 2^b apart exactly where the weight 2^a is present |
| QsvExact.StepMcz | user/qsv_engine.h:138-142 | The multi-controlled Z negates exactly the amplitude of index 2^n - 1 |
| QsvExact.PhaseBecomesFlip | user/qsv_engine.h:93-100 | H Z H is twice X on every state, so Z reads the very bit that H and X act on |
| QsvExact.CzBecomesCnot | user/qsv_engine.h:102-109 | H CZ H on the target is twice CNOT on every state |
| QsvExact.PhaseTwice | user/qsv_engine.h:127-135 | Two S gates are one Z gate |
| QsvEngine.Engine.Reset | user/qsv_engine.h:42-52 | The register becomes the zero basis state with h = 0 and a clear flag |
| QsvEngine.Engine.GateH | user/qsv_engine.h:55-76 | The strided int32 loops compute the truncated butterfly of the old register, h grows by one, and the sticky flag rises exactly when some output leaves the int32 range |
| QsvEngine.Engine.ButterflyPair | user/qsv_engine.h:62-73 | One visit writes the truncated sum and difference at the pair, leaves every other amplitude alone, and raises the flag if any of the four results does not fit |
| QsvEngine.Engine.GateX | user/qsv_engine.h:78-91 | The in-place exchange equals the exact X gate |
| QsvEngine.Engine.GateZ | user/qsv_engine.h:93-100 | The amplitudes with bit q set are negated with two's-complement wrap, all others kept |
| QsvEngine.Engine.GateCz | user/qsv_engine.h:102-109 | The amplitudes with both bits set are negated with wrap, all others kept |
| QsvEngine.Engine.GateCnot | user/qsv_engine.h:111-124 | The exchange is confined to indices whose control bit is set |
| QsvEngine.Engine.GateS | user/qsv_engine.h:127-135 | (re, im) becomes (-im, re) with wrap on the half with bit q set |
| QsvEngine.Engine.MczAll | user/qsv_engine.h:138-142 | Only the all-ones amplitude changes sign |
| QsvEngine.Engine.Oracle | user/qsv_engine.h:145-157 | The masked loops run exactly the gate sequence X-mask, MCZ, X-mask |
| QsvEngine.Engine.Diffusion | user/qsv_engine.h:160-174 | The five loops run exactly the gate sequence H^n X^n MCZ X^n H^n |
| QsvEngine.Engine.NormOk | user/qsv_engine.h:178-185 | The 128-bit accumulator never wraps, and the test answers whether the norm equals 2^h |
| QsvSim.StepSimulates | user/qsv_engine.h:55-143 | If a gate leaves the flag clear the int32 registers still track the unbounded ones, part by part, up to -2^31 read for +2^31 |
| QsvSim.ButterflyTwins | user/qsv_engine.h:62-73 | A part wrapped to -2^31 can only meet a zero partner without raising the flag |
| QsvSim.EngineSimulates | user/qsv_engine.h:55-174 | Over every circuit with a clear flag the C engine simulates the unbounded mirror |
| QsvSim.TwinWeights | user/qpud.c:123-126 | The tolerated difference never shows in a squared magnitude |
| QsvSim.ProbabilitiesAgree | scripts/qsv_mirror.py:106-110 | With the flag clear, every basis state has the same exact probability in both engines |
| QsvSim.ClearFlagIsUnitary | user/qpud.c:110-119 | A clear flag implies the norm identity on the int32 state and h <= n + 63, so the norm test after the overflow test cannot fail and its shift is in range |
| QsvSim.FlagClearIff | user/qsv_engine.h:62-73 | Over every circuit the flag stays clear if and only if each Hadamard meets, on the mirror, only pairs whose parts, sum and difference are int32, or the pair of +2^31 and 0 |
| QsvSim.PartsAgree | scripts/qsv_mirror.py:36-100 | With the flag clear each part the engine holds is the truncation of the mirror's, and differs from it if and only if the mirror holds +2^31 |
| QsvSim.FlagClearWhileTame | user/qsv_engine.h:66-70 | While the mirror stays inside the open int32 range the flag stays clear and the two states are equal |
| QsvSim.NegationWraps | user/qsv_engine.h:93-100 | A concrete circuit with a clear flag on which the engine holds -2^31 and the mirror +2^31 |
| QsvMirror.QSV.GateH | scripts/qsv_mirror.py:36-44 | The list-mutating butterfly loops compute the exact H gate |
| QsvMirror.QSV.GateX | scripts/qsv_mirror.py:46-51 | The list-mutating exchange loops compute the exact X gate |
| QsvMirror.QSV.GateCnot | scripts/qsv_mirror.py:80-85 | Equal operands or an absent control change nothing; otherwise the single loop with its two-bit test computes the exact CNOT, although it exchanges pairs while scanning them |
| QsvMirror.QSV.GateCz | scripts/qsv_mirror.py:87-90 | The loop computes the exact CZ gate, the Z gate on equal operands, and nothing on an absent one |
| QsvMirror.QSV.GateZ | scripts/qsv_mirror.py:92-95 | The loop computes the exact Z gate, and nothing on an absent qubit |
| QsvMirror.QSV.GateS | scripts/qsv_mirror.py:97-100 | The loop computes the exact S gate, and nothing on an absent qubit |
| QsvMirror.QSV.Oracle | scripts/qsv_mirror.py:57-64 | The composite runs the same gate sequence as the C oracle |
| QsvMirror.QSV.Diffusion | scripts/qsv_mirror.py:66-75 | The composite runs the same gate sequence as the C diffusion |
| QsvMirror.QSV.Norm2 | scripts/qsv_mirror.py:77-78 | The sum is the norm of the state |
| QsvMirror.RunBytes | scripts/qsv_mirror.py:113-140 | For every byte string the mirror either raises or returns the exact probability of every basis state, its unitarity assertion always passing |
| QsvMirror.MirrorReadsAlike | scripts/qsv_mirror.py:113-138 | Every circuit the executor admits is read alike by the mirror |
| QsvMirror.MirrorAdmitsMore | scripts/qsv_mirror.py:120-138 | The operations the executor refuses and the mirror runs are exactly Z or S on an absent qubit, CZ on absent or equal operands, CNOT whose control is absent or is its target, and an oracle target out of range |
| Qpud.AcceptedIsExact | user/qpud.c:104-148 | A reported result has the mirror's scale with h <= n + 63, a fraction equal to the squared magnitude over 2^h with numerator <= denominator <= 2^31, no power-of-two denominator smaller, and the mirror's amplitude up to the one wrap |
| Qpud.RejectedExactly | user/qpud.c:39-155 | A circuit is refused if and only if it is malformed, or some Hadamard meets an unsafe pair on the unbounded mirror, or its probability is nonzero and every power-of-two denominator for it exceeds 2^31 |
| Qpud.ReduceExact | user/qpud.c:136-140 | Shifting out common twos keeps the rational, ends odd or over 1, and never passes 1 |
| Qpud.ReduceMinimal | user/qpud.c:136-140 | No representation of the same rational over a power of two has a smaller denominator |
| QsvSim.SignedSumFits | user/qpud.c:123-126 | The signed 64-bit sum of squares overflows for exactly one pair of parts, -2^31 and -2^31 |
| QsvSim.SignedSumOverflows | user/qpud.c:123-126 | That pair is reachable with the flag clear, by a concrete one-qubit circuit |
| Qpud.RunCircuit | user/qpud.c:39-155 | The buffer written is the encoding of the specified outcome, for every input byte string |
| Qpud.Dispatch | user/qpud.c:64-104 | An operation is refused exactly when its opcode or operands are invalid, otherwise the engine runs its gates |
| Qpud.RunOps | user/qpud.c:63-104 | The loop stops at the first refused operation and otherwise runs all the gates in order |
| Qpud.ResultRoundTrip | scripts/qpu_circuit.py:88-111 | The host decodes from the 20-byte record exactly what the executor decided: no field is truncated, signed fields included |
| Qpud.OpsRefusedStays | user/qpud.c:63-104 | A refused operation is never made good by a later one |
| QpuCircuit.BuiltIsRead | user/qpud.c:39-104 | From the octets the host builds, written out literally, the executor reads exactly the circuit the operations mean: on 1 to 12 qubits, with a probe among the basis states, and nothing if an operation has no meaning; octets behind are ignored |
| QpuCircuit.BuiltIsMirrored | scripts/qsv_mirror.py:113-138 | From the same octets, what the mirror reads on any number of qubits and with any probe, its additional operations included |
| QpuCircuit.MalformedIsRefused | user/qpud.c:48-61 | Octets too short for their header or their operations, or of another version, are read by neither |
| QpuCircuit.RecordLayout | user/qpu_circuit.h:15-23 | The 20 octets of an answer: status 0, qubits, scale, numerator, denominator and the two parts in two's complement, each with its low octet first; those of a refusal: 1 and zeros |
| CapForest.AuthorityAttenuates | kernel/src/capability.c:159-206 | In every reachable table, along any derivation chain the resource is the same, permissions only shrink and expiry only gets earlier |
| CapForest.AncOlder | kernel/src/capability.c:159-206 | Every ancestor of a live capability is live and strictly older |
| CapForest.ChainsEnd | kernel/src/capability.c:242-265 | So every ancestor walk ends |
| CapForest.FillKeepsForest | kernel/src/capability.c:132-206 | Filling a free slot with an attenuated child of a live parent, or with a root, keeps the forest |
| CapForest.FreeKeepsForest | kernel/src/capability.c:106-114 | Freeing a slot that no live slot names as parent keeps the forest |
| CapForest.PrunedExact | kernel/src/capability.c:219-240 | A run of the cascade that leaves the root childless has freed exactly the live proper descendants and changed no other slot |
| CapForest.SweepExact | kernel/src/capability.c:395-459 | A sweep that leaves no match has freed exactly the matching capabilities and everything below them |
| CapForest.HandleFate | kernel/src/capability.c:62-85 | Over any run, a handle that resolved at its start resolves at its end exactly when its slot is live and has been freed a multiple of 2^16 times since, and then to that slot only |
| CapForest.StaleUntilWrap | kernel/src/capability.c:106-114 | Over any run, a handle whose slot has been freed fewer than 2^16 times since, but at least once, resolves to nothing |
| CapForest.WrapAliases | kernel/src/capability.c:106-114 | Over a run with exactly 2^16 frees of the slot the old handle resolves to whatever occupies it: the bound is exact |
| CapForest.HistoryGrows | kernel/src/capability.c:62-459 | Each operation, whose contract says how the counts of frees moved, extends a run of the table |
| CapForest.Resolve | kernel/src/capability.c:67-85 | A handle resolves only to a live slot of the table |
| CapForest.MakeId | kernel/src/capability.c:62-64 | No handle is 0, the value reserved for "no parent" |
| CapForest.SubBitsIs | kernel/src/capability.c:178-181 | The mask test holds exactly if no bit of the first number is missing in the second |
| CapLaws.AuthorityAt | kernel/src/capability.c:159-206 | Along any chain: the same resource, no permission bit the ancestor lacks, and at every tick at which the ancestor is expired so is the descendant |
| CapLaws.GrantAndRevokeBits | kernel/include/kernel/capability.h:32-39 | Granting is bit 3 and revoking is bit 4 of the permissions |
| CapLaws.DeriveDecides | kernel/src/capability.c:159-195 | Which of the answers of a derivation is given, in terms of owner, expiry tick, bit 3, bits asked for and free slots |
| CapLaws.AuthorizedIs | kernel/src/capability.c:242-265 | Revocation is for the owner and for owners of an ancestor with bit 4 |
| CapLaws.WantedIs | kernel/src/capability.c:324-393 | The lookups look for owner, type, every bit asked for, no expiry yet, and the resource where named |
| CapLaws.ExpiryBegins | kernel/src/capability.c:116-118 | Expiry begins at exactly the tick named, never for 0, and does not end |
| CapLaws.DescendantsExpire | kernel/src/capability.c:182-185 | Every descendant of an expired capability is expired |
| CapLaws.ClampIsLatest | kernel/src/capability.c:182-185 | The child is expired at exactly the ticks at which its request or its parent is |
| CapLaws.ResolveIs | kernel/src/capability.c:62-84 | A handle resolves to a slot exactly if the slot is live, its number plus one is the low half and its generation the high half |
| CapLaws.BooksSay | kernel/src/capability.c:132-285 | Granted holdings are the removed and the live ones, the active counter is the number of live slots, created and derived are active and revoked |
| CapLaws.CodesAreNamed | kernel/src/audit.c:157-192 | The recorded codes are printed as GRANT, REVOKE, REAP, UNLINK, OK and EPERM, IPC is the type so named, and the valid types are the named ones |
| CapTable.Capabilities.constructor | kernel/src/capability.c:124-130 | An empty table satisfies the forest, bound, generation and bookkeeping invariants |
| CapTable.Capabilities.Create | kernel/src/capability.c:132-157 | Result code by case; on success the first free slot holds a parentless capability whose handle resolves to it, all else is unchanged, one GRANT is recorded and one creation counted, and every invariant holds |
| CapTable.Capabilities.Derive | kernel/src/capability.c:159-206 | Refusals in the source's order; on success the first free slot holds a child attenuating the parent, with clamped expiry, all else unchanged, one GRANT recorded and one derivation counted, and every invariant holds |
| CapTable.Clamp | kernel/src/capability.c:182-185 | The expiry given to a child is never later than its parent's |
| CapTable.Capabilities.AllocSlot | kernel/src/capability.c:87-104 | First fit, keeping the lookup bound above the slot taken |
| CapTable.Capabilities.Release | kernel/src/capability.c:106-114 | Freeing one leaf slot records exactly one removal, counts one free of that slot and of no other, and keeps table and ledger in balance |
| CapTable.Capabilities.RevokeChildrenOf | kernel/src/capability.c:219-240 | The recursion over the table being changed terminates, frees only descendants, counts one free at each and none elsewhere, and leaves no child behind |
| CapTable.Capabilities.MayRevoke | kernel/src/capability.c:252-271 | The walk answers whether the requester owns the capability or an ancestor that carries the revoke right |
| CapTable.Capabilities.Revoke | kernel/src/capability.c:242-285 | Result code by case; on success exactly the capability and its derivation subtree are freed, each slot once, on refusal nothing changes |
| CapTable.Capabilities.RevokeAllForProcess | kernel/src/capability.c:395-415 | Exactly the process's capabilities and all their descendants are freed, recorded only as REAP |
| CapTable.Capabilities.RevokeIpcTargets | kernel/src/capability.c:426-459 | Exactly the IPC capabilities naming the dead process and their descendants are freed, recorded only as UNLINK |
| CapTable.Capabilities.MarkSpawnChannel | kernel/src/capability.c:417-424 | Sets the one flag on a resolvable capability and nothing else |
| CapTable.Capabilities.Find | kernel/src/capability.c:324-346 | The bounded lookup returns what a scan of the whole table would |
| CapTable.Capabilities.FindResource | kernel/src/capability.c:348-368 | The bounded lookup by resource answers what a full scan would |
| CapTable.Capabilities.FindId | kernel/src/capability.c:370-393 | The handle returned by the bounded lookup resolves to the first full-scan match |
| CapTable.BooksGrant | kernel/src/capability.c:132-206 | A grant keeps the conservation law: granted = removed + live as multisets of (owner, type, id, perms), and created + derived = active + revoked |
| CapTable.BooksRemove | kernel/src/capability.c:219-285 | A removal keeps the conservation law |
| CapTable.BooksNeutral | kernel/src/audit.c:80-108 | A record that neither grants nor removes keeps the conservation law |
| CapTable.RevokedHandleDead | kernel/src/capability.c:106-114 | A handle no longer resolves once its slot is freed |
| Audit.EntriesEncodeHistory | kernel/src/audit.c:42-78 | The entries of a boot are the canonical run-length code of its event history, numbered consecutively from the restore floor, counts modulo 2^32, the last stamped with its latest occurrence |
| Audit.CanonicalUnique | kernel/src/audit.c:53-61 | A run-length code without empty or mergeable runs is determined by the history it expands to |
| Audit.EventPlaced | kernel/src/audit.c:42-78 | Every recorded event is in the entry whose index is the number of changes before it, numbered floor plus index, counted modulo 2^32, stamped with the tick of the last of its run |
| Audit.Window | kernel/src/audit.c:243-251 | The oldest-first walk has min(total, N) entries |
| Audit.WindowPush | kernel/src/audit.c:64-74 | Writing the next slot appends to the walk and evicts at most its oldest entry, before and after any wrap |
| Audit.WindowPatch | kernel/src/audit.c:53-61 | A coalescing write changes only the newest entry of the walk |
| Audit.Ledger.Record | kernel/src/audit.c:42-78 | After every record the ring is the last N of the restored entries followed by the run-length code of this boot: no restored entry is changed except by eviction |
| Audit.WalkNumbered | kernel/src/audit.c:243-251 | Within a boot the walk is numbered consecutively up to total - 1, across the restore boundary and any wrap |
| Audit.LogNumbered | kernel/src/audit.c:42-78 | Over any number of boots everything recorded is numbered 0, 1, 2, ... without a gap or a repeat |
| Audit.WalkIsLogEnd | kernel/src/audit.c:243-251 | Over any number of boots the ring shows the last N entries of that log |
| Audit.BootContinues | kernel/src/audit.c:305-369 | A ring that shows the end of the log is restored by the next boot without its ticks, and the next boot's records extend the log |
| Audit.Ledger.Serialize | kernel/src/audit.c:305-328 | The blob is the header and the ring image with zero padding to whole sectors; a short buffer is left untouched |
| Audit.Ledger.Load | kernel/src/audit.c:330-369 | A blob of the wrong geometry or an implausible total changes nothing; otherwise the walk becomes the stored one, ticks zeroed, and the floor is sealed |
| Audit.EntryRoundTrip | kernel/src/audit.c:322-325 | The 40-byte image of an entry reads back to the entry |
| Audit.BlobRoundTrip | kernel/src/audit.c:305-369 | Serializing and parsing gives back total and ring up to ticks |
| Audit.RebootRestores | kernel/src/audit.c:305-369 | The oldest-first walk survives a reboot up to ticks, wherever the ring had wrapped |
| Audit.EntryLayout | kernel/include/kernel/audit.h:98-107 | The 40 octets of an entry, field by field |
| Audit.HeaderLayout | kernel/src/audit.c:305-328 | The 32 octets of the header: AUD1, version, capacity, entry size, 64-bit total, zeros |
| Audit.BlobLayout | kernel/src/audit.c:305-328 | Entry i stands at octet 32 + 40 i, and the buffer is the image rounded up to 512 |
| Audit.LoadsExactly | kernel/src/audit.c:330-369 | Loading accepts exactly the images of this geometry with a total of at most 2^48, and what it installs |
| AuditText.TextFits | kernel/src/audit.c:234-268 | The text leaves room for its terminator, is a prefix of whole lines, and ends in the truncation notice exactly when the lines of the whole ledger would not fit |
| AuditText.CommittedLongest | kernel/src/audit.c:224-258 | The committed lines are the longest prefix that stays inside the budget |
| AuditText.LineRecovered | scripts/qos_bridge.py:1235-1242 | The host pattern recovers every field of a formatted line exactly, and loses the line if and only if its resource type has no name (its type group does not admit the "?" printed): then no reading of it as the pattern exists |
| AuditText.HostOfInjective | scripts/qos_bridge.py:1235-1242 | For known kinds, types and verdicts what the host sees determines the entry |
| AuditText.HostReads | scripts/qos_bridge.py:1229-1242 | From any ledger through a buffer of any size the host lists exactly the entries of the committed lines with a named type, in order, with every field as recorded |
| AuditText.MatchesFlat | scripts/qos_bridge.py:1235-1237 | Greedy field-by-field matching returns every field of a line whose literals separate its classes |
| AuditText.OnlyMatch | scripts/qos_bridge.py:1235-1237 | Backtracking changes nothing: any reading of the line as the pattern has the matcher's groups, the last one at most as long |
| AuditText.MatchSound | scripts/qos_bridge.py:1235-1237 | What the matcher finds is a reading of the line as the pattern |
| AuditText.PutStr | kernel/src/audit.c:111-116 | Writes as much as leaves the last octet free and touches nothing beyond |
| AuditText.PutU64 | kernel/src/audit.c:118-132 | Writes the decimal digits, clipped the same way |
| AuditText.PutHex8 | kernel/src/audit.c:134-155 | Writes "0x" and the lower-case hexadecimal digits, clipped the same way |
| AuditText.FormatEntry | kernel/src/audit.c:194-219 | No entry is clipped by the 200-octet scratch line |
| AuditText.AuditPutLine | kernel/src/audit.c:224-232 | A line is written whole or not at all |
| AuditText.AuditFormat | kernel/src/audit.c:234-268 | The buffer holds the specified text and its terminator for every ledger and buffer size |
| AuditText.LineIs | kernel/src/audit.c:194-218 | The whole line of an entry, text by text |
| Sha256.Pad | user/sha256.h:112-136 | The padded message is a whole number of 64-byte blocks (section 5.1.1 of FIPS 180-4) |
| Sha256.ShortTail | user/sha256.h:112-136 | A partial block under 56 bytes ends in one padding block that completes the padding of section 5.1.1 of FIPS 180-4 |
| Sha256.LongTail | user/sha256.h:112-136 | A longer partial block ends in two |
| Sha256.OneMore | user/sha256.h:101-110 | Feeding one byte keeps the context a representation of the message so far |
| Sha256.Ctx.Update | user/sha256.h:101-110 | The context represents the concatenation of everything fed, however it was split |
| Sha256.Ctx.Final | user/sha256.h:112-136 | The digest equals folding the compression function over the padded message, for every length |
| Sha256.PadOctets | user/sha256.h:112-129 | Every octet of the padded message: the message, 0x80, zeros, the bit length with its high octet first |
| Sha256.DigestOctets | user/sha256.h:131-136 | Every octet of the digest: octet 4 j + i has the weight 256^(3 - i) in word j |
| Sha256.FirstState | user/sha256.h:88-99 | The first state is the fractional parts of the square roots of the first eight primes |
| Hmac.HmacSha256 | user/sha256.h:152-189 | The tag is the construction of section 2 of RFC 2104 for every key and message length |
| Hmac.ShortKey | user/sha256.h:152-190 | For keys up to a block: 0x5c over the outer block, 0x36 over the inner one, zeros beyond the key |
| Hmac.LongKey | user/sha256.h:152-190 | A longer key stands for its digest |
| Hmac.Hmac2 | user/qsave.h:84-116 | The two-part tag equals the one-part tag of the concatenation |
| Hmac.Equal | user/sha256.h:193-199 | The accumulating compare accepts exactly equal tags |
| Qsave.OpenInvertsSeal | user/qsave.h:148-201 | Opening inverts sealing for every key, entropy and plaintext that fits the output |
| Qsave.OpensExactly | scripts/qsave_check.py:71-112 | A blob opens to p if and only if it is the seal of p under its own nonce and p fits |
| Qsave.NoTrailingData | user/qsave.h:176-190 | Anything appended to a blob of well-formed shape, and any cut of it, makes it malformed, whatever the key and the data |
| Qsave.KeystreamInvolution | scripts/qsave_check.py:61-68 | Applying the keystream twice gives the data back |
| Qsave.FieldsUnique | scripts/qsave_check.py:71-85 | A header that parses is the header the sealer writes for that nonce and length |
| Qsave.SealLayout | user/qsave.h:148-174 | Every octet of a sealed blob, with the three labels, the synthetic nonce, the tag and the keystream written out |
| Qsave.OpenDecides | user/qsave.h:176-201 | Which of the four answers opening gives, on the octets |
| Qsave.NonceBindsPlaintext | user/qsave.h:148-174 | Two plaintexts sealed with equal entropy under equal nonces exhibit a collision of the truncated tag |
| Qsave.XorStream | user/qsave.h:131-145 | The keystream is applied also when source and destination are the same range, and nothing outside the range is written |
| Qsave.Seal | user/qsave.h:148-174 | The C sealer writes byte for byte what the host construction says, in place or not, or refuses for lack of room |
| Qsave.Open | user/qsave.h:176-201 | The C opener decides as the host does, and writes nothing unless the tag matched |
| Crc.SingleByteDetected | user/swarm.h:122-131 | Changing any single byte of a message of any length changes its CRC-8 |
| Crc.OddChangeDetected | user/swarm.h:122-131 | Changing any odd number of bits, wherever they are, changes the CRC-8 |
| Crc.ParityCarried | user/swarm.h:122-131 | The CRC has as many one bits as the message, modulo 2, because the polynomial has the factor x + 1 |
| Crc.HostAgrees | scripts/qos_bridge.py:101-108 | The host's integer implementation computes the guest's function |
| Crc.SwarmCrc8 | user/swarm.h:122-131 | The nested loops compute the specified register fold |
| Crc.CheckValue | user/swarm.h:122-131 | The check value: the digits 1 to 9 give 0xF4 |
| Framing.ChunkInvariant | scripts/qos_bridge.py:136-158 | Feeding a then b gives the frames, counters and buffer of feeding a followed by b at once |
| Framing.StreamRoundTrip | scripts/qos_bridge.py:111-158 | Any concatenation of built frames after magic-free junk is returned frame by frame |
| Framing.DrainBuilt | scripts/qos_bridge.py:111-158 | A built frame in front of any bytes is extracted and the rest parsed on |
| Framing.RecoveredIffLegal | scripts/qos_bridge.py:111-158 | A frame survives the round trip if and only if its payload is legal in length |
| Framing.RestIsWaiting | scripts/qos_bridge.py:136-158 | The parser stops only when it cannot proceed, and never returns an over-long payload |
| Framing.CutStream | scripts/qos_bridge.py:136-158 | A proper prefix of a frame stream yields a proper prefix of its frames |
| Framing.JunkSkipped | scripts/qos_bridge.py:136-158 | Bytes without a magic octet have no effect |
| Framing.FrameParser.Feed | scripts/qos_bridge.py:136-158 | The loop terminates and computes the specified parse of the old buffer and the new data |
| Framing.BuildLayout | scripts/qos_bridge.py:111-114 | A frame octet by octet |
| Framing.DrainSteps | scripts/qos_bridge.py:136-158 | What the host skips, waits for and counts, on the octets |
| Framing.DrainTakes | scripts/qos_bridge.py:136-158 | What the host takes, on the octets |
| GuestWire.GuestSteps | user/swarm_svc.c:620-661 | What the guest skips, waits for, drops and takes, on the octets |
| GuestWire.EmitFrame | user/swarm_svc.c:121-134 | The buffer holds the host's frame of the clipped payload |
| GuestWire.GuestRx.Accumulate | user/swarm_svc.c:620-626 | Bytes are kept in order up to the buffer size |
| GuestWire.GuestRx.Shift | user/swarm_svc.c:633-637 | The tail moves to the front unchanged |
| GuestWire.GuestRx.Poll | user/swarm_svc.c:620-661 | One poll dispatches the specified parse of what was held plus what fitted |
| GuestWire.GuestAgrees | user/swarm_svc.c:620-661 | On a buffer without CRC failures guest and host parses agree |
| GuestWire.AgreeIffClear | user/swarm_svc.c:620-661 | Guest and host take the same frames at the same places and keep the same rest if and only if no frame the guest discards for its CRC hides the beginning of another frame, good or unfinished |
| GuestWire.HostFrames | scripts/qos_bridge.py:136-158 | The offsets compared are those of the frames the host parser returns, with its rest |
| GuestWire.GuestFrames | user/swarm_svc.c:620-661 | The offsets compared are those of the frames the guest dispatches, with its rest |
| GuestWire.GuestChunkInvariant | user/swarm_svc.c:620-661 | The guest parse does not depend on how its input is cut, CRC failures or not |
| GuestWire.PollsAreOneParse | user/swarm_svc.c:620-661 | While reads fit, polling a stream in pieces is parsing it whole |
| GuestWire.GuestMatchesHost | user/swarm_svc.c:620-661 | Over every run of polls whose reads fit the guest dispatches exactly the host's frames on a clear stream; a stream is clear if no frame failed its CRC, or none that did contains a second magic octet |
| GuestWire.NothingLost | user/swarm_svc.c:620-632 | On frames with payloads of at most 385 octets, reads of at most 128 octets, however cut, lose nothing |
| GuestWire.BuiltStreamFits | user/swarm_svc.c:620-632 | Every read fits if a frame less one octet and a read fit the buffer together |
| GuestWire.FrameLost | user/swarm_svc.c:620-632 | The bound is exact: behind any longer frame a read of 128 octets can lose the end of the next frame, which the guest never dispatches though the host would |
| GuestWire.ResyncDiffers | user/swarm_svc.c:620-661 | A good frame inside a damaged payload reaches the host and never the guest |
| GuestWire.GuestRestShort | user/swarm_svc.c:620-661 | The guest never fills its buffer with an unparsable rest, so it cannot stall |
| Numerals.DigitsRoundTrip | user/swarm_svc.c:88-105 | Formatted digits parse back to the number, in either letter case and base |
| Numerals.DigitsAt | kernel/src/audit.c:118-132 | The digit k places from the right is the one of weight base^k |
| Numerals.DigitsNeeded | kernel/src/audit.c:118-132 | No number is given a digit too many |
| Numerals.ParsesExactly | scripts/qos_bridge.py:203-214 | What int() takes: one digit or more, each below the base |
| Numerals.Put | kernel/src/audit.c:118-132 | Collecting digits backwards and reversing them writes the number most significant digit first |
| Lamport.SignedVerifies | scripts/qos_bridge.py:180-200 | Every genuine signature verifies against the published digest |
| Lamport.AcceptedIsGenuine | scripts/qos_bridge.py:180-200 | An accepted signature is the genuine one for its message unless it exhibits a hash collision with the key material |
| Lamport.HostRebuilds | scripts/qos_bridge.py:190-199 | From a genuine signature the host rebuilds the public-key stream in the guest's order |
| Lamport.SignatureAt | user/swarm_svc.c:175-197 | Each 64-byte element of the signature is the preimage and complementary hash of its bit |
| Lamport.ExpandSk | user/swarm_svc.c:137-150 | The streamed expansion is the digest of seed, index and bit |
| Lamport.ComputePubkeyDigest | user/swarm_svc.c:153-172 | The streamed digest covers the 512 public hashes in order |
| Lamport.VerifyLamport | scripts/qos_bridge.py:180-200 | The verifier decides the specified predicate for every input length |
| Lamport.SignatureBindsMessage | scripts/qos_bridge.py:180-200 | The signature of one message is accepted for another only if their digests are equal or an explicit collision is at hand |
| Lamport.BitOfIs | user/swarm_svc.c:180-181 | Bit i of the digest has the weight 2^(i mod 8) in octet i / 8 |
| Lamport.BitsDetermineDigest | user/swarm_svc.c:175-197 | The 256 bits determine the digest |
| Lamport.SignatureReveals | user/swarm_svc.c:175-197 | Every octet of the signature: the secret for the bit of the digest, then the hash of the other one |
| Lamport.SkLayout | user/swarm_svc.c:137-150 | A secret is the digest of seed, position with its high octet first, and bit |
| Lamport.PkStreamAt | user/swarm_svc.c:153-172 | The published stream: the hash for 0, then the hash for 1, position by position |
| Attestation.MessageParses | scripts/qos_bridge.py:203-213 | The host reads back the seed, and the ticks modulo 2^32 |
| Attestation.BuildAttestation | user/swarm_svc.c:200-212 | The guest prints the specified string for every seed and tick count |
| Attestation.EmitSignature | user/swarm_svc.c:175-197 | The signature is emitted as 32 full frames in order |
| Attestation.EmitBootAttestation | user/swarm_svc.c:214-263 | The bytes sent are the stream of the four-part attestation |
| Attestation.AttestationAccepted | scripts/qos_bridge.py:258-295 | For every seed, tick count and qseed the emitted byte stream is accepted against that qseed |
| Attestation.AnyPrefixJudged | scripts/qos_bridge.py:258-295 | A prefix of the guest's output from boot on, whatever unrelated frames follow, is accepted if it holds the whole attestation and refused if not |
| Attestation.AnyChunkingAccepted | scripts/qos_bridge.py:298-322 | However the output is cut into reads, wherever the deadline falls and whatever else the last read brings, the verdict is acceptance exactly if the whole attestation was read |
| Attestation.ReadBootAttestation | scripts/qos_bridge.py:298-322 | The reader stops with the first read that completes the three parts, at the end of the stream or at the deadline, skips reads that time out, and judges exactly what it has received |
| Attestation.VerifiedExactly | scripts/qos_bridge.py:258-295 | A captured stream is verified exactly if no CRC failed, the three parts are there, the string reads as this seed and these ticks, the signature is valid, and the seed is the one asked for |
| Attestation.ParsesOnly | scripts/qos_bridge.py:203-214 | The host reads exactly the strings of the documented shape |
| Attestation.MessageIs | user/swarm_svc.c:200-227 | The string that is signed, text by text |
| Attestation.BootFramesAre | user/swarm_svc.c:229-253 | The 35 frames of a boot with their kinds and payloads |
| ReplyAuth.AcceptedRepliesAreGenuine | scripts/qos_bridge.py:957-990 | In every run over a wire that drops, replays, reorders and alters, each reply the keyed host accepts has the body the guest tagged for that operation and that fresh nonce after it was asked |
| ReplyAuth.AcceptanceHonest | scripts/qos_bridge.py:957-990 | One acceptance: the body was tagged under the host's key for the nonce in hand, after the request |
| ReplyAuth.StepSafe | scripts/qos_bridge.py:957-1047 | Every event keeps the safety invariant |
| ReplyAuth.GenuineDelivered | scripts/qos_bridge.py:957-990 | The adversary may always deliver a reply the guest has tagged for the nonce in hand, and the host then accepts it: the safety result excludes no honest delivery |
| ReplyAuth.StatusExchange | scripts/qos_bridge.py:941-955 | An undisturbed authenticated STATUS exchange is a run of the model and ends in an acceptance |
| ReplyAuth.JobExchange | user/swarm_svc.c:563-601 | An undisturbed authenticated job is a run of the model and ends in the acceptance of the executor's 20 octets, with status 0 exactly if theirs is 0 |
| ReplyAuth.AcceptedOnly | scripts/qos_bridge.py:957-990 | The host accepts exactly: the operation asked for, a body of a fitting length, its own nonce, and the tag of operation, nonce and rest of the body |
| ReplyAuth.AnswersAre | user/swarm_svc.c:414-558 | What the guest answers at once to each operation, on the octets |
| ReplyAuth.AnswersCarryTheirNonce | user/swarm_svc.c:464-601 | Whatever refusals and key admissions come between, each deferred QSUBMIT answer carries the job and the nonce of its own request, once |
| ReplyAuth.ServeKeepsPaired | user/swarm_svc.c:464-601 | At most one job is unanswered, and the stash is its context |
| ReplyAuth.GenuineAccepted | scripts/qos_bridge.py:957-990 | A reply tagged for the host's nonce is accepted with its body |
| ReplyAuth.RepliesWellFormed | user/swarm_svc.c:414-601 | Every nonce-carrying reply has a length the host expects |
| ReplyAuth.MacInInjective | user/swarm_svc.c:318-343 | The tagged string determines body and nonce |
| ReplyAuth.SwarmSvc.EmitAuthedReply | user/swarm_svc.c:318-343 | One layout for every operation, tagged with the key held at that moment |
| ReplyAuth.SwarmSvc.HandleData | user/swarm_svc.c:414-558 | State and reply are those of the specified transition for every payload |
| ReplyAuth.SwarmSvc.Submit | user/swarm_svc.c:464-529 | A refusal uses the nonce in hand and leaves the stash alone |
| ReplyAuth.SwarmSvc.QsubPollStep | user/swarm_svc.c:563-601 | A finished job is answered with the stashed nonce and forgotten |
| Paradox.ResolveScalar | user/paradoxd.c:119-136 | Every int32 seed settles within 19 of the 64 iterations: exactly 65536 from seeds of 3 and above, exactly -65535 from 2 and from -2 and below, and 0 from -1, 0 and 1 |
| Paradox.PromiseKept | user/paradoxd.c:12-16 | The documented promise, positive seeds to +1 and negative seeds to -1, holds if and only if the seed is at least 3 or at most -2 |
| Paradox.MeanBound | user/paradoxd.c:111-127 | Despite both roundings one step never lands below the fixed point |
| Paradox.StepLands | user/paradoxd.c:119-127 | A step keeps the sign, lands on or beyond the fixed point, and contracts the excess quadratically |
| Paradox.RecipIs | user/paradoxd.c:109-127 | The reciprocal of a positive seed is 2^32 / x to the nearest integer, of a negative one the same quotient less a half rounded down; the step is the mean of the two |
| Paradox.StopsExact | user/paradoxd.c:128-134 | The delta test fires only on the fixed point itself |
| Paradox.Converges | user/paradoxd.c:122-134 | The excess stays under explicit shrinking caps, so the loop ends by iteration 19 |
| Paradox.SmallSeeds | user/paradoxd.c:111-127 | Seeds 1, -1 and 2 are the ones the int32 cast of the reciprocal breaks |
| Paradox.NeverZero | user/paradoxd.c:119-134 | The iteration never divides by zero |
| Paradox.StepVector | user/paradoxd.c:140-159 | The in-place step computes the circular average of the old vector and the largest change as the int32 test sees it |
| Paradox.SmoothIn | user/paradoxd.c:140-148 | Each component becomes a quarter of its left neighbour, twice itself and its right neighbour, truncated |
| Paradox.HullKept | user/paradoxd.c:140-148 | Smoothing never leaves the range of the components |
| Paradox.SpreadHalves | user/paradoxd.c:140-148 | Each smoothing halves the spread, rounded up |
| Paradox.Consensus | user/paradoxd.c:140-148 | Every vector reaches a uniform vector within 34 smoothings, inside its starting range, and stays there; which one is the subject of LimitNearMean and MeanReachedIff |
| Paradox.MeanReachedIff | user/paradoxd.c:18-24 | A vector settles on its mean, as documented, if and only if its sum is 0, or opposite components are equal and two neighbours have an even sum |
| Paradox.LimitNearMean | user/paradoxd.c:18-24 | The value all components settle on lies between zero and the mean, and within 68 / 4 of the mean, for every int32 vector |
| Paradox.ShapeStep | user/paradoxd.c:140-148 | The sum and the two differences of opposite components after a smoothing depend on these three numbers alone |
| Paradox.SumDrift | user/paradoxd.c:140-148 | Over k smoothings of any vector the sum loses at most 2k, keeps its sign, and exceeds its first value by at most 1, and only if that was odd |
| Paradox.ZeroSumSettles | user/paradoxd.c:18-24 | Every vector of sum 0 settles on 0 |
| Paradox.GateVector | user/paradox.h:56-59 | The vector of the merge gate has the mean 131072 and settles on 131071 |
| Paradox.MeanMissed | user/paradoxd.c:18-24 | A vector of mean 1 that settles on 0 |
| Paradox.FixedIffUniform | user/paradoxd.c:18-24 | The fixed points of the integer rule are exactly the uniform vectors |
| Paradox.SumKeptIff | user/paradoxd.c:18-24 | The documented preservation of the component sum holds if and only if the signed remainders modulo 4 of the four weights of the vector cancel |
| Paradox.SumOfOneSign | user/paradoxd.c:18-24 | Components of one sign keep it, and their sum moves towards zero unless each of the four weights is a multiple of 4, and then it is kept |
| Paradox.SumLost | user/paradoxd.c:18-24 | A vector whose sum is not preserved |
| Paradox.TestSound | user/paradoxd.c:149-159 | Although its subtraction can wrap, the delta test passes exactly when no component really moved by the threshold or more |
| Paradox.TestPasses | user/paradoxd.c:221-226 | The convergence test passes within 32 smoothings of any int32 vector |
| FieldSync.TransmitIncreases | user/fieldsyncd.c:387-430 | Over every run of a node, through rebirths at least a tick apart and rekeyings, keyed frames carry strictly increasing sequence numbers |
| FieldSync.RebirthExact | user/fieldsyncd.c:266-270 | The first keyed frame after a rebirth is numbered above the last one if and only if the clock read at rebirth has reached that number |
| FieldSync.SameTickRebirth | user/fieldsyncd.c:266-270 | Within one tick the promise fails: a number repeats and the receiver rejects the second genuine frame as stale |
| FieldSync.NeverTwice | user/fieldsyncd.c:336-350 | Whatever arrives, between two keyings of a node no frame is taken twice from a peer |
| FieldSync.TakenAgain | user/fieldsyncd.c:107-135 | The bound is exact: over every run, a frame taken in the present keying is stale when it comes again, and is taken a second time after the same key is installed again |
| FieldSync.CoupledIffNewest | user/fieldsyncd.c:336-350 | On any wire, replays and reorderings included, a keyed frame of an honest peer is coupled if it was sent after every one that arrived before it, and rejected as stale otherwise, never as forged |
| FieldSync.InOrderTaken | user/fieldsyncd.c:336-350 | Whatever replays are mixed in, a frame that overtakes nothing is coupled and the second copy of a frame is stale |
| FieldSync.GenuineNeverStale | user/fieldsyncd.c:336-430 | Any run of a sender, any freshly keyed receiver, any wire: a genuine frame is coupled if and only if it was sent after all genuine frames that arrived before it |
| FieldSync.UnkeyedRefused | user/fieldsyncd.c:336-350 | A keyed node never couples an unkeyed node's frame, even if its zero tag verified |
| FieldSync.FrameReadsBack | user/fieldsyncd.c:408-422 | A received frame reads back number, phases and tag as built, whatever padding follows |
| FieldSync.FrameLayout | user/fsyn.h:23-36 | The 296 octets of a frame, keyed and unkeyed |
| FieldSync.VerdictsAre | user/fieldsyncd.c:316-352 | Which of the four verdicts a datagram gets, on the octets, and what state it changes |
| FieldSync.UnkeyedCouples | user/fieldsyncd.c:336-350 | A node without a key couples every well-formed frame of a configured peer and keeps its state |
| FieldSync.Cadence | user/fieldsyncd.c:387-421 | A node sends on its first tick after birth and then at most once in 100 ticks |
| FieldSync.Fieldsyncd.constructor | user/fieldsyncd.c:262-270 | A (re)birth clears key and watermarks and seeds the sequence from the clock |
| FieldSync.Fieldsyncd.NoteKey | user/fieldsyncd.c:107-135 | A key message installs the key and restarts every watermark; anything else changes nothing |
| FieldSync.Fieldsyncd.InPeerSet | user/fieldsyncd.c:157-164 | The first configured peer with the address, or none |
| FieldSync.Fieldsyncd.ReceiveFrom | user/fieldsyncd.c:309-353 | One datagram is ignored, refused with the counter saturating, or coupled with the watermark raised, as specified |
| FieldSync.Fieldsyncd.Send | user/fieldsyncd.c:387-430 | A send happens only when due, and a keyed one takes the next number and tags it |

## Left out

- Hardware and kernel plumbing, interrupt masking, port and disk I/O: each capability and ledger operation is one atomic step.
- `cap_check`, `cap_get` and the check counters: one lookup and its branches, nothing beyond the handle properties above.
- The self-tests, console text, boot rosters and the shell, network and dashboard programs.
- `qsv_reduced_prob` and `user/qsv.c`: valid only for fixed boot circuits.
- The job loop of `user/qpud.c` around `run_circuit`, and the broker: results of submit and poll are parameters of `ReplyAuth`.
- The rounds inside SHA-256 and any hardness of it: the compression function is a parameter, and the absence of forged tags is an assumption on the adversary.
- Wiping of secrets and constant timing.
- Clocks, randomness, IPC replies and the network appear as parameters or as events of a run.
- Audit.Ledger.Record: total and sequence numbers are unbounded, the 64-bit wrap is not modelled, because loading refuses totals above 2^48.
- CapTable.Capabilities.Create: the refusals before `cap_init` and on a null handle pointer, because a table exists and a result is always wanted here.
- CapTable.BooksGrant: the statistics counters are unbounded, their wrap is not modelled.
- QsvEngine.Engine.GateH: the scale h is a natural number, not a 32-bit one; a circuit has at most 255 operations of at most 24 Hadamards each.
- QsvMirror.RunBytes: limits of memory on registers of up to 255 qubits.
- Attestation.MessageParses: the leniency of Python's int() towards signs, underscores, spaces and non-ASCII digits, because the guest never prints them.
- AuditText.HostReads: the console between the kernel and the host is taken to deliver the text unchanged, and the pattern is matched on ASCII.
- AuditText.PutU64: the digits are collected and reversed before the clipped copy, where the source clips while reversing.
- Qsave.OpensExactly: the Python opener has no output capacity; read it with a capacity as large as the blob.
- Qsave.KeystreamInvolution: the host's keystream loop is modelled by the function the C loop is proved against.
- ReplyAuth.AcceptedRepliesAreGenuine: only replies are tagged, so nothing is claimed about the request body the guest acted on.
- FieldSync.TransmitIncreases: runs whose clock passes 2^32 - 2 are excluded.
- FieldSync.InOrderTaken: aggregate (FSYP) frames are ignored by the model, since they are only printed; a key that arrives while a snapshot is awaited is an event before the send.
- Qpud.Conclude: the signed 64-bit sum of squares, which overflows for one reachable pair of amplitudes (`SignedSumOverflows`) and is then undefined in C, is read as wrapping.
- Paradox.ResolveScalar: the negation of -2^31, undefined in C, is read as two's-complement wrap-around.
- The divergent phase of `user/paradoxd.c` and its phase machine: random perturbation with no crisp statement.
- Write errors and the chunked writing of `com2_send_all`: the bytes handed to it are what is sent.
- The forwarding of the session key from the swarm service to fieldsyncd.
