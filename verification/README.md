# Verification models of the WS63 firmware support code

This project models the parts of the repository where a short piece of stateful code has to get something
exactly right, and proves what each of them promises. Code that updates state in loops is modelled by methods and
classes over arrays and fields; what those methods compute is said by a function or a predicate of the inputs, and
the promise of the code is proved of that. Interleaved code is modelled as a state machine whose steps are the
critical sections, stores and loads of the source, and its theorems are about every run.

| module files | models |
|---|---|
| `WordBits`, `Sha256Spec`, `Sha256Meaning`, `Sha256Constants`, `Sha256`, `Sha256Difference`, `Sfc`, `Flashboot` | the boot loader's integrity pipeline: SHA-256 of FIPS 180-4, the streaming hash and where it departs from it, SPI flash commands, the boot decision |
| `NumberTheory`, `EulerCriterion`, `P256`, `Sampling`, `Sae` | the SAE bignum entry points over the P-256 field |
| `FrwQueue`, `Frw`, `FrwProtocol` | the message pool, the FIFO and the worker of the Wi-Fi framework |
| `PlanCycle` | the dependency cycle check of the plan registry |
| `ChunkCover`, `FlashPlan` | the flash plan check and what an accepted plan does to flash |
| `StageMarkers` | the ordered stage markers of the connectivity test logs |
| `Lexicographic`, `Selection`, `Semver` | the order of documentation versions and the choice of the latest |
| `Text`, `Snippets`, `SnippetGrammar`, `SnippetErrors` | the two scanners of the tutorial snippet file |
| `Rendering`, `FormatGrammar`, `FormatOutput`, `Formatter` | the bounded `printf` subset |
| `TraceRing` | the seqlock traces of the RF heap |
| `RxQueue`, `RxTokens` | the receive ring and the token claims of the smoltcp device |
| `Pbuf`, `EventHistory` | packet buffer geometry and references; the retained driver events |
| `Arithmetic`, `Words`, `BigEndian`, `RingBuffer`, `Json`, `Wrappers` | shared vocabulary |

Machine words are natural numbers with their range in the type (`Words.Word`), so that wrapping, masking and shifting
are spelled out; nothing uses Dafny's bit-vectors.

Some properties one would expect are false of the code. They are kept as the code has them, with the exact condition
and an input:

- The loader's hash is not SHA-256. Its table of round constants has 0x391c0cd3 in place 52, where FIPS 180-4 has
  0x391c0cb3 (`Sha256Difference.TablesDiffer`; `Sha256Constants.RoundConstants` pins the standard's table by the cube
  roots). One block therefore never compresses to what the standard says (`Sha256Difference.CompressionDiffers`), no
  message below 56 bytes gets its SHA-256 (`Sha256Difference.ShortMessagesNeverMatch`, for one
  `Sha256Difference.EmptyMessage`), and a longer one only if the two chains had parted before its last block and met
  there (`Sha256Difference.MatchNeedsEarlierDifference`). The loader boots images with the hash by its own table;
  for images with a true SHA-256 see `Flashboot.GenuineImageBooted`.
- `Rendering.IntFieldsAsInC`: a negative number padded with spaces; `Rendering.MinusThree` is one.
- `Formatter.ChecksTellFitExactly`: a sum of output index and field length beyond `usize` passes the check of the
  limit; `Formatter.LargestWidth` is one.
- `Semver.KeyOrderExact`: a stable version against a prerelease of the same core; `Semver.StableBelowItsPrerelease` is one.
- `Pbuf.StuckExactly`: lengths above 65419.
- `EventHistory.NumbersTellApart`: more than 2^32 - 1 events.
- `RxTokens.StepKeepsInvExactly`: a claim between the two releases of a token; `RxTokens.SharedScratchRun` is a run.
- `Sae.OverlapExact`: empty ranges; `Sae.EmptyRangeOverlaps` is one.
- `FrwProtocol.RefusedExactlyWhenFull`: a post while thirty-two accepted messages wait; `FrwProtocol.SameNodeFillsFifo`
  gets there with one node, `FrwProtocol.PostNeverFails` excludes it for clients that post only nodes they hold.

The documentation disagrees with the code in two places that matter here. The comments and the unit tests of
`sha256.rs` (lines 19, 149-166) name the constants and digests of the standard, which its table does not give. The
function doc of `pbuf_header` says a move is refused when it would leave the allocation, while above 65419 bytes every
move is refused, also by 0.

## Model

| member | source | states |
|---|---|---|
| Sha256.HashChunks | chips/ws63/flashboot/src/sha256.rs:31-83 | However a message below 2^61 bytes is cut into `update` calls, empty ones included, the digest is that of the concatenation by the computation of FIPS 180-4 with the source's table. |
| Sha256.Sha256Context.constructor | chips/ws63/flashboot/src/sha256.rs:32-39 | A new context has absorbed nothing. |
| Sha256.Sha256Context.Update | chips/ws63/flashboot/src/sha256.rs:41-56 | Absorbs its data behind what was absorbed before, across any number of full blocks. |
| Sha256.Sha256Context.Finish | chips/ws63/flashboot/src/sha256.rs:58-83 | Returns the one-shot hash, with the source's table, of everything absorbed. |
| Sha256.Sha256Context.PadToLength | chips/ws63/flashboot/src/sha256.rs:63-68 | On both sides of `buf_len > 56` the zeros lead to byte 56 of a block and are fewer than 64. |
| Sha256.PaddedTo | chips/ws63/flashboot/src/sha256.rs:59-73 | The mark, fewer than 64 zeros up to byte 56 and the length are the padding of section 5.1.1. |
| Sha256.Sha256Context.AppendLength | chips/ws63/flashboot/src/sha256.rs:69-72 | The last block ends in the 64-bit length, so that hashed blocks and buffer are the padded message. |
| Sha256.Sha256Context.Compress | chips/ws63/flashboot/src/sha256.rs:85-141 | The state keeps being the section 6.2.2 hash of all blocks so far, with the source's table. |
| Sha256.Sha256Context.ExpandSchedule | chips/ws63/flashboot/src/sha256.rs:86-100 | The in-place schedule equals the recursive message schedule of the block. |
| Sha256.WordRecurs | chips/ws63/flashboot/src/sha256.rs:93-100 | The recurrence with its terms in the code's order defines the same schedule. |
| Sha256.Sha256Context.RunRounds | chips/ws63/flashboot/src/sha256.rs:102-131 | The register rotation computes the 64 rounds of section 6.2.2 with the source's table. |
| Sha256.RotationIsRound | chips/ws63/flashboot/src/sha256.rs:111-131 | One rotation of the registers with its two temporaries is one round of section 6.2.2. |
| Sha256Spec.ZeroCountIsLeast | chips/ws63/flashboot/src/sha256.rs:58-68 | The number of zeros used is the least that section 5.1.1 allows. |
| Sha256Spec.LengthReadsBack | chips/ws63/flashboot/src/sha256.rs:69-72 | The length field reads back as the length, big-endian, for all 64 bits. |
| Sha256Meaning.HashExact | chips/ws63/flashboot/src/sha256.rs:58-83 | Bytes 4i to 4i + 3 of a hash are, big-endian, word i of the state behind the last block of the padded message. |
| Sha256Meaning.DigestExact | chips/ws63/flashboot/src/sha256.rs:75-82 | The serialised state reads back to its words in order. |
| Sha256Meaning.PaddingExact | chips/ws63/flashboot/src/sha256.rs:58-73 | The padded message is the message, 0x80, fewer than 64 zeros and the bit length, in whole blocks. |
| Sha256Meaning.ChainExact | chips/ws63/flashboot/src/sha256.rs:85-141 | The chain starts from the initial value and takes the blocks in order. |
| Sha256Meaning.CompressExact | chips/ws63/flashboot/src/sha256.rs:133-140 | Word i of the new state is word i of the old one plus variable i after the 64 rounds, modulo 2^32. |
| Sha256Meaning.StateIsStart | chips/ws63/flashboot/src/sha256.rs:102-109 | Variable i starts as word i of the state. |
| Sha256Meaning.RoundsExact | chips/ws63/flashboot/src/sha256.rs:111-118 | Round t takes entry t of the table and word t of the schedule. |
| Sha256Meaning.ScheduleExact | chips/ws63/flashboot/src/sha256.rs:86-100 | The first sixteen words are the block's, big-endian; the others are sums of four modulo 2^32. |
| Sha256Meaning.SmallSigma0Bit | chips/ws63/flashboot/src/sha256.rs:94-94 | Each bit is the sum modulo 2 of those 7, 18 and 3 places above, the third only inside the word. |
| Sha256Meaning.SmallSigma1Bit | chips/ws63/flashboot/src/sha256.rs:95-95 | The same for 17, 19 and 10 places. |
| Sha256Meaning.BigSigma1Bit | chips/ws63/flashboot/src/sha256.rs:112-112 | Each bit is the sum modulo 2 of those 6, 11 and 25 places above, counted around the word. |
| Sha256Meaning.BigSigma0Bit | chips/ws63/flashboot/src/sha256.rs:119-119 | The same for 2, 13 and 22 places. |
| Sha256Meaning.ChBit | chips/ws63/flashboot/src/sha256.rs:113-113 | Each bit of e chooses between those of f and g. |
| Sha256Meaning.MajBit | chips/ws63/flashboot/src/sha256.rs:120-120 | Each bit is the one that two or three of the words have. |
| Sha256Constants.RoundConstants | chips/ws63/flashboot/src/sha256.rs:19-29 | The 64 constants of the standard's table are the first 32 bits of the fractions of the cube roots of the listed primes, 2 to 311. |
| Sha256Constants.InitialValue | chips/ws63/flashboot/src/sha256.rs:14-17 | The initial value is the fractions of the square roots of the first eight of them. |
| Sha256Difference.TablesDiffer | chips/ws63/flashboot/src/sha256.rs:20-29 | The source's table and the standard's differ in entry 52 and in no other. |
| Sha256Difference.RoundsDiffer | chips/ws63/flashboot/src/sha256.rs:111-131 | By the two tables the registers agree after t rounds exactly while t is at most 52. |
| Sha256Difference.CompressionDiffers | chips/ws63/flashboot/src/sha256.rs:85-141 | From every state and on every block, compression by the source's table differs from the standard's. |
| Sha256Difference.ShortMessagesNeverMatch | chips/ws63/flashboot/src/sha256.rs:58-83 | No message below 56 bytes gets its SHA-256. |
| Sha256Difference.MatchNeedsEarlierDifference | chips/ws63/flashboot/src/sha256.rs:58-83 | A message gets its SHA-256 only if the chains by the two tables differ in front of its last block. |
| Sha256Difference.EmptyMessage | chips/ws63/flashboot/src/sha256.rs:148-156 | Such a message: the empty one. |
| WordBits.BitsDetermine | chips/ws63/flashboot/src/sha256.rs:93-121 | Numbers of n bits are equal when their bits are, bit i being the digit of weight 2^i. |
| WordBits.BitByWeight | chips/ws63/flashboot/src/sha256.rs:93-121 | Bit i is the digit of weight 2^i. |
| WordBits.XorBit | chips/ws63/flashboot/src/sha256.rs:93-121 | Exclusive or adds each pair of bits modulo 2. |
| WordBits.AndBit | chips/ws63/flashboot/src/sha256.rs:113-120 | A bit of a conjunction is set exactly when both are. |
| WordBits.NotBit | chips/ws63/flashboot/src/sha256.rs:113-113 | Complement turns every bit around. |
| WordBits.ShrBit | chips/ws63/flashboot/src/sha256.rs:94-95 | A shift brings bit i + n to place i. |
| WordBits.RotRBit | chips/ws63/flashboot/src/sha256.rs:94-120 | A rotation brings bit i + n, counted around the 32 bits, to place i. |
| Sfc.CommandConfig | chips/ws63/flashboot/src/sfc.rs:178-212 | The command word has bits 0, 2, 7 and 8 set and the length less one from bit 9 on; it is a read command whose 6-bit field decodes to the requested length, 64 included. |
| Sfc.Controller.ReadData | chips/ws63/flashboot/src/sfc.rs:178-212 | By commands of at most 16 words, the destination receives the little-endian words of the flash region and nothing beyond them changes. |
| Sfc.Controller.ReadBytes | chips/ws63/flashboot/src/sfc.rs:162-176 | The front of the buffer is the flash region byte for byte, for any start and length; the rest is untouched. |
| Sfc.RegionExtends | chips/ws63/flashboot/src/main.rs:247-264 | Reading on where a read ended is one longer read. |
| Sfc.RegionIsSlice | chips/ws63/flashboot/src/sfc.rs:162-176 | Inside the device a region is that slice of the flash. |
| Flashboot.VerifyImageIntegrity | chips/ws63/flashboot/src/main.rs:241-266 | True exactly when 0 < length <= 8 MiB and the hash, with the source's table, of the flash bytes of the body is the expected digest. |
| Flashboot.HashBody | chips/ws63/flashboot/src/main.rs:251-261 | Chunk by chunk the hasher absorbs exactly the flash bytes of the body. |
| Flashboot.ReadImageHeader | chips/ws63/flashboot/src/sfc.rs:104-117 | The header is the 192 words at the image's address. |
| Flashboot.HeaderFields | chips/ws63/flashboot/src/sfc.rs:66-103 | Each header field is the little-endian word at its flash address. |
| Flashboot.HeaderHash | chips/ws63/flashboot/src/sfc.rs:66-103 | The 32-byte digest laid over header words is the flash region at offset 0x128. |
| Flashboot.TryBoot | chips/ws63/flashboot/src/main.rs:143-172 | The loader jumps, to the body, exactly for an image with sane fields whose body hashes, with the source's table, to the header's digest. |
| Flashboot.GenuineImageBooted | chips/ws63/flashboot/src/main.rs:143-172 | An image with sane fields and its true SHA-256 is booted only if its body has 56 bytes or more and the two chains differ in front of its last block. |
| P256.PrimeDecodes | chips/ws63/rf/src/crypto_sae.rs:198-205 | The field prime's bytes decode to the prime of P-256. |
| P256.PrimeIsFips | chips/ws63/rf/src/crypto_sae.rs:198-205 | That number is 2^256 - 2^224 + 2^192 + 2^96 - 1, and 3 modulo 4. |
| P256.InverseExponentDecodes | chips/ws63/rf/src/crypto_sae.rs:48-51 | The inverse exponent is p - 2. |
| P256.LegendreExponentDecodes | chips/ws63/rf/src/crypto_sae.rs:53-56 | The Legendre exponent is (p - 1) / 2. |
| P256.OneDecodes | chips/ws63/rf/src/crypto_sae.rs:58-60 | The constant one decodes to 1. |
| P256.MinusOneDecodes | chips/ws63/rf/src/crypto_sae.rs:62-65 | The constant minus one decodes to p - 1. |
| NumberTheory.Fermat | chips/ws63/rf/src/crypto_sae.rs:495-531 | Fermat's little theorem, proved by permuting the units, on which the inverse by a power rests. |
| EulerCriterion.Criterion | chips/ws63/rf/src/crypto_sae.rs:729-767 | Euler's criterion: the half power of a unit is 1 or p - 1, and 1 exactly on the squares. |
| EulerCriterion.InversePower | chips/ws63/rf/src/crypto_sae.rs:495-531 | The power p - 2 is the inverse. |
| Sae.HardwareInverts | chips/ws63/rf/src/crypto_sae.rs:509-520 | The hardware power with the exponent constant is a field element r with a * r = 1 mod p. |
| Sae.LegendreResultOf | chips/ws63/rf/src/crypto_sae.rs:237-244 | The byte comparison names the symbol of 0, 1 and p - 1 and fails on every other value. |
| Sae.LegendreExact | chips/ws63/rf/src/crypto_sae.rs:237-244 | On the hardware power it never fails, and the symbol says zero, square or non-square truly. |
| Sae.BignumIsPrime | chips/ws63/rf/src/crypto_sae.rs:198-205 | The byte comparison recognises the prime and no other number of any width. |
| Sae.ToField | chips/ws63/rf/src/crypto_sae.rs:208-218 | Exactly the numbers below the prime become field elements, by their 32-byte form. |
| Sae.OverlapExact | chips/ws63/rf/src/crypto_sae.rs:113-123 | The test says whether two ranges share a byte, exactly unless an empty range lies strictly inside the other. |
| Sae.EmptyRangeOverlaps | chips/ws63/rf/src/crypto_sae.rs:113-123 | Such a range, as `crypto_bignum_to_bin` (lines 395-421) makes it of an output of no bytes inside the object. |
| Sae.AliasExact | chips/ws63/rf/src/crypto_sae.rs:125-127 | Two objects pass exactly when they are the same or lie in the address space without a common byte. |
| Sae.BignumHeap.BignumAliases | chips/ws63/rf/src/crypto_sae.rs:278-308 | Accepts exactly non-null pointers of which any two are the same or lie in the address space without a common byte. |
| Sae.BignumHeap.constructor | chips/ws63/rf/src/crypto_sae.rs:69-92 | An empty heap of objects. |
| Sae.BignumHeap.Store | chips/ws63/rf/src/crypto_sae.rs:185-196 | Replaces the value of an owned object, which then reads back, and nothing else; fails on every other pointer. |
| Sae.BignumHeap.Clone | chips/ws63/rf/src/crypto_sae.rs:169-175 | Yields the value of the object at an aligned pointer with the magic number, and nothing elsewhere. |
| Sae.BignumHeap.Writable | chips/ws63/rf/src/crypto_sae.rs:177-183 | Holds exactly for such objects that own their storage. |
| Sae.BignumHeap.Inverse | chips/ws63/rf/src/crypto_sae.rs:495-531 | Success exactly under the stated conditions on pointers and stored operands, and then the result object alone changes, to the inverse of the stored value on the hardware path. |
| Sae.BignumHeap.Legendre | chips/ws63/rf/src/crypto_sae.rs:729-767 | 0, 1 or -1 for a stored zero, square or non-square on the hardware path, the library's answer elsewhere, -2 on bad pointers or a failing power. |
| Sae.BignumHeap.Rand | chips/ws63/rf/src/crypto_sae.rs:434-472 | Stores the first sample below the stored modulus within the 128 rounds, and nothing when there is none. |
| Sae.SampleExact | chips/ws63/rf/src/crypto_sae.rs:456-470 | A value is produced exactly by rejecting some rounds and then drawing one of its own raw buffers; it is below the modulus. |
| Sampling.MaskWidth | chips/ws63/rf/src/crypto_sae.rs:130-132 | The mask is all ones and exactly as wide as the modulus's first byte. |
| Sampling.CandidateBound | chips/ws63/rf/src/crypto_sae.rs:452-470 | Every masked draw is below twice the modulus. |
| Sampling.PreimagesExact | chips/ws63/rf/src/crypto_sae.rs:452-470 | The preimages of a value are exactly the raw buffers of the modulus's width that are read as the value. |
| Sampling.EquallyLikely | chips/ws63/rf/src/crypto_sae.rs:452-470 | Every value below the modulus is read from the same number of raw buffers of its width, for every width. |
| Frw.FrwState.constructor | chips/ws63/rf/src/frw.rs:126-135 | Nothing queued, nothing handed out. |
| Frw.FrwState.FetchMsgNode | chips/ws63/rf/src/frw.rs:152-164 | Hands out the lowest free slot, zeroed but for its own index in the high nibble; null exactly when all are out. |
| Frw.FrwState.FreeMsgNode | chips/ws63/rf/src/frw.rs:167-183 | Returns the slot whose node starts at the pointer, and changes nothing for any other pointer. |
| Frw.FrwState.Enqueue | chips/ws63/rf/src/frw.rs:189-198 | Appends to the queue, or refuses a full one without change. |
| Frw.FrwState.FifoPop | chips/ws63/rf/src/frw.rs:213-223 | Takes the oldest node off the queue, null on the empty one. |
| RingBuffer.RingAppend | chips/ws63/rf/src/frw.rs:194-196 | Writing behind the last entry of a wrapping buffer appends to the sequence it stands for. |
| FrwProtocol.RunKeepsInv | chips/ws63/rf/src/frw.rs:189-254 | The protocol's invariant holds in every state of every interleaving. |
| FrwProtocol.NoLostWakeup | chips/ws63/rf/src/frw.rs:189-254 | A parked worker with messages waiting has a permit, or some poster has yet to give one. |
| FrwProtocol.InOrderExactlyOnce | chips/ws63/rf/src/frw.rs:189-254 | Accepted messages are those dispatched, then the one in hand, then those queued: in order, each once. |
| FrwProtocol.QuietMeansDelivered | chips/ws63/rf/src/frw.rs:227-254 | When no wake-up is under way, a parked worker has dispatched everything accepted. |
| FrwProtocol.PermitDeliversAll | chips/ws63/rf/src/frw.rs:227-254 | From every reachable parked state with `running` set, one permit or the end of a wait lets the worker dispatch all that was accepted and park again, with nothing else changed. |
| FrwProtocol.WaitingIsDeliverable | chips/ws63/rf/src/frw.rs:189-254 | Messages that wait for a parked worker are always deliverable by the worker's own steps, after at most one wake-up that is already owed. |
| FrwProtocol.ExitedOnlyWhenStopped | chips/ws63/rf/src/frw.rs:227-254 | In no run has the worker left while `running` is set. |
| FrwProtocol.StopEndsWorker | chips/ws63/rf/src/frw.rs:227-254 | Started, the worker parks; stopped and woken, it leaves. |
| FrwProtocol.RunKeepsPool | chips/ws63/rf/src/frw.rs:152-205 | Under clients that use only nodes they hold, each live node is with a client, queued once or in hand. |
| FrwProtocol.FetchedSlotIsUnowned | chips/ws63/rf/src/frw.rs:152-164 | The lowest free slot is handed out, only while nobody else has it; with none free nothing changes. |
| FrwProtocol.FreedSlotComesBack | chips/ws63/rf/src/frw.rs:152-183 | A freed slot leaves the live set and is there to be handed out again. |
| FrwProtocol.PostNeverFails | chips/ws63/rf/src/frw.rs:107-108 | With such clients `post` never meets a full FIFO. |
| FrwProtocol.RefusedExactlyWhenFull | chips/ws63/rf/src/frw.rs:189-205 | In every run a post is refused exactly while thirty-two accepted messages wait behind those taken off, and is else accepted last. |
| FrwQueue.NeverFull | chips/ws63/rf/src/frw.rs:107-108 | Sixteen nodes, each queued at most once, occupy at most sixteen of the thirty-two places. |
| FrwProtocol.SameNodeFillsFifo | chips/ws63/rf/src/frw.rs:189-205 | Without that discipline the FIFO can fill: one node may be posted thirty-two times. |
| PlanCycle.Cycle | scripts/check-plan-registry.py:59-83 | None exactly when the registered plans have no dependency cycle; otherwise a path of real edges that ends where it starts. |
| PlanCycle.Search.Visit | scripts/check-plan-registry.py:63-77 | A search from a plan returns a cycle, or finishes the plan and keeps finished plans closed and off every cycle. |
| PlanCycle.FinishKeeps | scripts/check-plan-registry.py:74-76 | A plan all of whose dependencies are finished may be finished. |
| FlashPlan.ValidateFlashPlan | scripts/check-flash-plan.py:42-111 | Accepts exactly the plans with all entries whose fields, read at their keys, agree with the image and whose chunks cover each byte once. |
| FlashPlan.RequireRange | scripts/check-flash-plan.py:29-39 | Accepts exactly objects with a non-negative integer at the start key and a positive one at `len`, and yields these two. |
| FlashPlan.Entries | scripts/check-flash-plan.py:47-49 | Each required entry is the value at its own key; none when one is missing. |
| FlashPlan.BytesExact | scripts/check-flash-plan.py:70-79 | The list passes and equals the digest exactly when it is 32 integers, the bytes in order. |
| Json.IntegersExact | scripts/check-flash-plan.py:29-39 | Booleans are the integers 0 and 1, and a float may equal an integer without being one. |
| FlashPlan.RequireChunk | scripts/check-flash-plan.py:90-104 | Accepts exactly entries whose three integers name a nonempty part of the image, at the part's own address behind the base, inside the erase range; yields that part. |
| FlashPlan.CheckBody | scripts/check-flash-plan.py:58-79 | Accepts exactly when length, body range, body address, area length and the list of hash bytes, each read at its key, agree with the image and its SHA-256. |
| FlashPlan.CheckErase | scripts/check-flash-plan.py:81-84 | Accepts exactly erase ranges that contain the whole image. |
| FlashPlan.CheckChunks | scripts/check-flash-plan.py:86-111 | Accepts exactly lists of such entries in which every image byte lies in one and only one part. |
| FlashPlan.CoverIsTiling | scripts/check-flash-plan.py:105-111 | The sorted chunks join without gap exactly when the unsorted ones cover each byte once. |
| FlashPlan.AcceptedPlanWritesImage | scripts/check-flash-plan.py:81-111 | Erasing the range and writing the listed parts in any order, each at the address listed with it, leaves the image at its base, 0xFF in the rest of the range and all else as it was. |
| ChunkCover.SortChunks | scripts/check-flash-plan.py:106-106 | A sorted permutation. |
| StageMarkers.MarkerGroupPosition | hil/ws63-connectivity-reset-matrix.py:529-533 | The first place from `after` on where any marker of the group stands. |
| StageMarkers.EarliestIsBest | hil/ws63-connectivity-reset-matrix.py:678-689 | Taking the earliest position never loses a chain. |
| StageMarkers.CheckStages | hil/ws63-connectivity-reset-matrix.py:678-689 | Reports in order exactly the stages that cannot follow those found before them, none exactly when strictly increasing positions exist for all; never `out_of_order`. |
| StageMarkers.ReportExact | hil/ws63-connectivity-reset-matrix.py:678-689 | The report is empty exactly when one chain places every stage. |
| StageMarkers.EachStageOnce | hil/ws63-connectivity-reset-matrix.py:678-689 | Stage by stage: one that can follow those found joins them, and of any other the name is reported, behind those reported before. |
| Semver.ParseExact | scripts/read-doc-latest.py:17-27 | Matching accepts exactly the strings of the pattern, with their numbers and prerelease; the build part leaves no trace. |
| Semver.DecimalDigits | scripts/read-doc-latest.py:34-39 | A run of digits is read as the number with these decimal digits. |
| Semver.SplitExact | scripts/read-doc-latest.py:32-32 | Splitting a prerelease yields its dot-separated identifiers, the only dot-free parts that join back to it. |
| Semver.PrereleaseOrder | scripts/read-doc-latest.py:28-33 | Split, classified and compared as tuples, prerelease strings are ordered as section 11.4 of Semantic Versioning 2.0.0 orders their dot-separated identifiers. |
| Semver.KeyOrderExact | scripts/read-doc-latest.py:23-39 | The keys of two versions compare as section 11 orders the versions, exactly unless a stable version meets a prerelease of the same core. |
| Semver.StableBelowItsPrerelease | scripts/read-doc-latest.py:23-39 | Such a pair: v1.0.0 comes after v1.0.0-rc.1 and has the smaller key. |
| Semver.KeysStrictTotal | scripts/read-doc-latest.py:34-39 | Keys are strictly and totally ordered, so versions are preordered by key. |
| Semver.SelectsGreatest | scripts/read-doc-latest.py:42-49 | The first listed of the stable versions that section 11 puts below no other, when there is one, else the same among prereleases, else "main". |
| Selection.MaxByIsFirst | scripts/read-doc-latest.py:49-49 | The maximum by a key that reflects an order is the first greatest item of that order. |
| Lexicographic.LexMeaning | scripts/read-doc-latest.py:49-49 | The comparison of sequences is decided at their first difference, a proper prefix being less. |
| Snippets.ParseSnippets | scripts/check-tutorial-snippets.py:26-58 | The loop computes the scan whose problems and crashes the two results below determine. |
| SnippetErrors.ErrorsExact | scripts/check-tutorial-snippets.py:33-57 | A problem is reported exactly when its line has it, said of the lines alone: a start inside an open snippet, an end outside one, an end of a repeated or of an invisible one, one open at the end; in line order. |
| SnippetErrors.CrashExact | scripts/check-tutorial-snippets.py:33-37 | The scan crashes exactly when a start marker without an id stands where no snippet is open. |
| Snippets.IdAfterMarker | scripts/check-tutorial-snippets.py:37-37 | The third field exists exactly when more than whitespace follows the marker, and strips to that. |
| Snippets.LoadSnippets | scripts/mdbook-hisi-docs.py:83-109 | The loop computes the specified scan and stops at the first fault. |
| Snippets.ScannersAgree | scripts/check-tutorial-snippets.py:26-58 | No error in the first scanner exactly when the second succeeds with no snippet all whitespace, and then both have the same ids and texts. |
| SnippetGrammar.LoadExact | scripts/mdbook-hisi-docs.py:83-109 | Loading succeeds exactly on files of plain lines and properly enclosed snippets with distinct ids, and yields their texts. |
| SnippetGrammar.LoadCrashExact | scripts/mdbook-hisi-docs.py:83-109 | An exception, not a message, ends the loading exactly when a start marker without an id follows a proper snippet file. |
| SnippetGrammar.ParseExact | scripts/check-tutorial-snippets.py:26-58 | Checking is clean exactly on such files in which every snippet shows something. |
| Text.StripJoin | scripts/mdbook-hisi-docs.py:100-100 | Stripping the newlines of a joined text drops exactly the empty lines at its edges. |
| Text.StripExact | scripts/mdbook-hisi-docs.py:100-100 | Stripping leaves the part between the first and the last element that do not satisfy the predicate. |
| Snippets.TextOfLines | scripts/mdbook-hisi-docs.py:100-100 | A snippet's text is its lines joined, from the first that is not empty to the last. |
| Rendering.NumeralReadsBack | chips/ws63/rf/src/log.rs:216-231 | The digits read back to the number in any base from 2 to 16. |
| Rendering.NoLeadingZero | chips/ws63/rf/src/log.rs:216-231 | A positive number's numeral does not start with 0. |
| Rendering.NumeralFits | chips/ws63/rf/src/log.rs:207-231 | Ten digits hold every 32-bit number in bases 10 and 16. |
| Rendering.FieldsMean | chips/ws63/rf/src/log.rs:207-260 | The digits read back to the magnitude of the int or unsigned int given, and a sign is written exactly below zero. |
| Rendering.IntFieldsAsInC | chips/ws63/rf/src/log.rs:207-260 | Integer fields agree with ISO C exactly unless a negative number is padded with spaces. |
| Rendering.MinusThree | chips/ws63/rf/src/log.rs:238-252 | Such a field: -3 in width 5 has its spaces behind the sign. |
| FormatGrammar.WidthIsDecimal | chips/ws63/rf/src/log.rs:176-190 | The width is the decimal number that the longest run of digits reads as, cut off at the largest usize. |
| FormatGrammar.DirectiveExact | chips/ws63/rf/src/log.rs:175-269 | A directive is read exactly where its spelling stands: percent sign, zero flag, width, letter; a doubled percent sign; any other byte; and a percent sign that begins none of these. |
| FormatGrammar.ParseExact | chips/ws63/rf/src/log.rs:175-269 | Parsing yields these directives exactly when the format is made of pieces that spell them. |
| FormatGrammar.SpelledFormatParses | chips/ws63/rf/src/log.rs:175-269 | A format spelled directive by directive parses to what was spelled. |
| FormatOutput.TextExact | chips/ws63/rf/src/log.rs:174-283 | The text is, directive by directive, the literal byte, the bytes before the NUL, or the field of ISO C but for the sign in front of space padding, each conversion taking the next argument. |
| FormatOutput.SpelledFormatPrints | chips/ws63/rf/src/log.rs:174-283 | A format spelled directive by directive prints what these directives print. |
| FormatOutput.IntExact | chips/ws63/rf/src/log.rs:207-260 | An integer field is C's, or for a negative number padded with spaces the sign, the spaces and the digits. |
| FormatOutput.StringExact | chips/ws63/rf/src/log.rs:20-31 | A string prints the bytes before its NUL, at most 256, and nothing for null. |
| FormatOutput.DigitCharacters | chips/ws63/rf/src/log.rs:220-225 | The digits are 0 to 9 and the small letters a to f. |
| Formatter.CStrBytes | chips/ws63/rf/src/log.rs:20-31 | The bytes before the NUL, at most 256, nothing for null. |
| Formatter.Digits | chips/ws63/rf/src/log.rs:207-231 | The digit loop stays inside its ten bytes and leaves the numeral, last digit first. |
| Formatter.ReadDirective | chips/ws63/rf/src/log.rs:175-269 | One pass over the format reads the next directive of its parse. |
| Formatter.WriteInt | chips/ws63/rf/src/log.rs:207-260 | Appends sign, padding and digits when they fit the limit, and writes nothing otherwise. |
| Formatter.Vsnprintf | chips/ws63/rf/src/log.rs:147-283 | The pure rendering, a NUL and the length as a C int when it fits min(size - 1, count), else -1 and an empty string; nothing beyond that limit is written. |
| Formatter.CIntExact | chips/ws63/rf/src/log.rs:275-283 | The length is returned as the int that differs from it by a multiple of 2^32. |
| Formatter.ModerateWidthsFit | chips/ws63/rf/src/log.rs:232-233 | Widths that do not overflow behind the limit, and a limit below 2^32 - 256, rule out every overflow, whatever the arguments. |
| Formatter.FitCheckExact | chips/ws63/rf/src/log.rs:232-233 | The wrapping check of one field tells whether it fits exactly when the sum does not overflow. |
| Formatter.ChecksTellFitExactly | chips/ws63/rf/src/log.rs:160-269 | Whatever the format, all checks made tell whether the fields fit exactly when no sum reached overflows. |
| Formatter.LargestWidth | chips/ws63/rf/src/log.rs:232-233 | Such a field: width 2^32 - 1 behind one byte makes the sum 0. |
| TraceRing.RunKeepsInv | chips/ws63/rf/src/alloc.rs:81-148 | The slot and reader invariant holds in every interleaving of stores and loads. |
| TraceRing.SnapshotIsWhole | chips/ws63/rf/src/alloc.rs:81-125 | A returned row with nonzero number n holds exactly the fields of event n. |
| TraceRing.QuietRingHoldsLastEvents | chips/ws63/rf/src/alloc.rs:127-148 | With no writer active the slots hold exactly the last sixteen events. |
| TraceRing.UninterruptedSnapshot | chips/ws63/rf/src/alloc.rs:81-96 | A snapshot with no store between its loads is the slot as it stands, number and fields. |
| TraceRing.QuietSnapshotShowsEvent | chips/ws63/rf/src/alloc.rs:81-148 | In every run with idle writers a snapshot shows each of the last sixteen events under its number. |
| TraceRing.UninterruptedWrite | chips/ws63/rf/src/alloc.rs:127-148 | A write that nothing interrupts leaves the event in its slot under the next number, and all else as it was. |
| RxQueue.Fifo | chips/ws63/rf/src/netif_smoltcp.rs:88-118 | Accepted frames are those delivered, then those waiting, in order. |
| RxQueue.Bounded | chips/ws63/rf/src/netif_smoltcp.rs:88-118 | Never more than four frames wait and each fits its slot. |
| RxQueue.WindowCounts | chips/ws63/rf/src/netif_smoltcp.rs:202-209 | In a diagnostic window every frame that fits was accepted or counted as dropped, up to saturation. |
| RxQueue.WatermarkIsMaximum | chips/ws63/rf/src/netif_smoltcp.rs:202-209 | The high watermark is the largest number of waiting frames since the reset, and was reached. |
| RxQueue.Bridge.constructor | chips/ws63/rf/src/netif_smoltcp.rs:53-70 | The empty queue with both counters at zero. |
| RxQueue.Bridge.Push | chips/ws63/rf/src/netif_smoltcp.rs:90-118 | The ring makes the bounded queue's step for a pushed frame. |
| RxQueue.Bridge.Pop | chips/ws63/rf/src/netif_smoltcp.rs:241-254 | The oldest frame leaves the queue, cut to the buffer, whose other bytes stay. |
| RxQueue.Bridge.ResetDiagnostics | chips/ws63/rf/src/netif_smoltcp.rs:202-209 | A new window starts and no frame is lost. |
| RxTokens.StepKeepsInvExactly | chips/ws63/rf/src/netif_smoltcp.rs:379-467 | Exclusive claims, intact tokens and frame conservation survive every step, except exactly a second release under a claim made after the first. |
| RxTokens.RunKeepsInvExactly | chips/ws63/rf/src/netif_smoltcp.rs:379-467 | A run keeps the invariant throughout exactly when each second release in it meets a free flag. |
| RxTokens.TokenReadsItsFrame | chips/ws63/rf/src/netif_smoltcp.rs:438-444 | A live RX token alone holds the scratch and reads the frame popped for it. |
| RxTokens.ConsumeIsOneRelease | chips/ws63/rf/src/netif_smoltcp.rs:438-461 | Consume and the drop behind it, with nothing between, are one orderly release. |
| RxTokens.UninterruptedReceive | chips/ws63/rf/src/netif_smoltcp.rs:379-416 | A receive call alone is refused exactly under a set flag or an empty queue, and then leaves everything as it was; else it holds both claims and the oldest frame. |
| RxTokens.ReceivedAndDropped | chips/ws63/rf/src/netif_smoltcp.rs:379-461 | Its token, consumed and dropped, has taken the oldest frame off the queue and freed the flag. |
| RxTokens.UninterruptedTransmit | chips/ws63/rf/src/netif_smoltcp.rs:418-428 | A token is given exactly under a clear flag, and once consumed and dropped it leaves everything as it was. |
| RxTokens.PreemptedDropSharesScratch | chips/ws63/rf/src/netif_smoltcp.rs:438-461 | A claim between the two releases is undone by the second, and the next call shares the scratch. |
| RxTokens.SharedScratchRun | chips/ws63/rf/src/netif_smoltcp.rs:438-461 | A run from the start that gets there, for any frame. |
| RxTokens.Device.constructor | chips/ws63/rf/src/netif_smoltcp.rs:72-82 | The device starts in the protocol's initial state. |
| RxTokens.Device.Receive | chips/ws63/rf/src/netif_smoltcp.rs:379-416 | Takes the device through the protocol's steps of one call, and returns the length of the token's frame, if any. |
| RxTokens.Device.Transmit | chips/ws63/rf/src/netif_smoltcp.rs:418-428 | Makes the protocol's transmit step, with a token exactly when the step gives one. |
| RxTokens.Device.Consume | chips/ws63/rf/src/netif_smoltcp.rs:438-461 | Makes the release and the drop, and the reader sees the frame popped for the token. |
| Pbuf.PacketBuffer.constructor | chips/ws63/rf/src/netif.rs:174-199 | 80 bytes of headroom, one reference, both lengths as asked. |
| Pbuf.PacketBuffer.Header | chips/ws63/rf/src/netif.rs:244-272 | Accepted exactly within the exposed bytes and the headroom of a buffer of at most 65419 bytes; the end of the payload never moves. |
| Pbuf.MovesAddUp | chips/ws63/rf/src/netif.rs:244-272 | A series of accepted moves does what one move of their sum does. |
| Pbuf.Undone | chips/ws63/rf/src/netif.rs:244-272 | An accepted move is undone by its opposite. |
| Pbuf.StuckExactly | chips/ws63/rf/src/netif.rs:174-190 | No series of calls ever moves the payload, exactly when the length is above 65419, where `malloc_len` was cut. |
| Pbuf.CountIsBalance | chips/ws63/rf/src/netif.rs:203-239 | While in use, the count is one plus the references taken minus those dropped. |
| Pbuf.ReleasedByTheLastReference | chips/ws63/rf/src/netif.rs:203-239 | After k `pbuf_ref` calls it is the (k+1)-th `pbuf_free` that releases, in any order. |
| Pbuf.PacketBuffer.Ref | chips/ws63/rf/src/netif.rs:230-239 | One more reference and nothing else. |
| Pbuf.PacketBuffer.Free | chips/ws63/rf/src/netif.rs:203-226 | Returns 1 exactly on the call that drops the last reference. |
| EventHistory.DriverEventHistory.constructor | chips/ws63/rf/src/eloop_diag.rs:97-107 | Nothing recorded. |
| EventHistory.DriverEventHistory.Record | chips/ws63/rf/src/eloop_diag.rs:394-407 | The packet joins the record and the 32 slots keep the last ones. |
| EventHistory.DriverEventHistory.DriverEvents | chips/ws63/rf/src/eloop_diag.rs:424-441 | The oldest min(retained, output length) of the last min(n, 32) events, in order, also after the total stopped. |
| EventHistory.RecordingSlides | chips/ws63/rf/src/eloop_diag.rs:394-407 | Recording appends to the retained events and forgets the oldest when full. |
| EventHistory.NumbersTellApart | chips/ws63/rf/src/eloop_diag.rs:394-407 | Sequence numbers order the retained events exactly while fewer than 2^32 were recorded. |

## Left out

- Primality of the P-256 prime is a hypothesis (`NumberTheory.IsPrime(P256.PRIME)`) of the SAE theorems, not proved.
- Sha256Difference.MatchNeedsEarlierDifference: one direction only; whether two chains that have parted ever meet again is a question of collisions.
- Sha256.Sha256Context.Update: requires the total below 2^61 bytes, because the source multiplies a 64-bit count by 8.
- Flashboot.VerifyImageIntegrity: requires that body address plus length stays within 32 bits; nothing is claimed about authenticity.
- Flashboot.TryBoot: ends at the address jumped to; the UART messages and the jump itself are hardware effects.
- Sfc.Controller.WriteConfig: is the assumed effect of a hardware read command; the status poll is taken to complete.
- P256.PrimeDecodes: the prime's byte constant is defined in `hisi-crypto`, which is not part of this model; its bytes are those of FIPS 186-4.
- Sae.BignumHeap.Inverse: the software bignum library and the hardware's success are parameters; field values of other moduli are the library's.
- Sae.BignumHeap.Rand: takes the entropy of each round as a parameter; the clearing of buffers is not modelled.
- Sae: the elliptic curve points, allocation and the other bignum operations, which dispatch to `hisi-crypto`.
- Frw.FrwState: the node's fields other than `bits` are one opaque value, zero when zeroed.
- FrwProtocol.RefusedExactlyWhenFull: posts of a null node are not modelled; `post` would accept one and `fifo_pop` would read it as the empty queue, and the one caller rejects null (chips/ws63/rf/src/hcc.rs:22).
- FrwProtocol: the software timers in the worker loop, and stopping before the worker has set `running`, which the worker overwrites.
- PlanCycle.Cycle: Python's recursion limit, and the other checks of the registry script.
- FlashPlan.ValidateFlashPlan: error messages are kept only as labels; floating point values in a plan are real numbers.
- Semver.DecimalDigits: Python's `int()` raises beyond 4300 digits by default, so that `semver_key` fails on such a number; `KeyOf` is total.
- Semver.ParseExact: digits are the ASCII ones; Python's `\d` and `isdigit` also accept other Unicode digits.
- Snippets.ParseSnippets: starts from the list of lines; splitting the file into lines is Python's.
- Formatter.Vsnprintf: requires that no sum of an output index and a reached field's length overflows `usize`; the source adds without a check, and `Formatter.ChecksTellFitExactly` says what its test of the limit is worth then.
- Formatter.Vsnprintf: requires arguments that match the conversions, as a C caller must pass them.
- TraceRing.SnapshotIsWhole: sequentially consistent steps, fewer than 2^32 events, and no two writers in one slot at a time.
- TraceRing: the copy of the rows into the caller's slice and the count returned; one row at a time is modelled.
- RxQueue.Bridge.Push: the packet classifiers, their counters and the copy of the last frame's prefix are not modelled.
- RxTokens: the contents of the TX scratch and the TX sink.
- Pbuf.PacketBuffer.constructor: takes the allocated address; a failed allocation returns null and makes no buffer. Addresses are below 2^31.
- Pbuf.PacketBuffer.Ref: requires the 32-bit count not to be at its maximum.
- Startup code, clocks, watchdog, eFuse and UART, the other host scripts' I/O (serial, J-Link, JSON and TOML files, GitHub), documentation rendering and build scripts: plumbing around the modelled code.
- Marker-presence classifiers, counters, error tables, ABI shims and stubs: single-branch facts that would only add easy members.
