# Zuup exam integrity: a Dafny model

The system runs examinations in centres that have no internet. Its promises rest on four linked pieces,
and this project models and proves all four:

- **The paper key** is split into shards over GF(p). `ModularField`, `Polynomials`, `Shamir`.
- **The sealed paper** is a list of encrypted questions under a Merkle root, with two tree builders (zero
  padding in Python, duplicate-last in TypeScript) and one way to check a proof. `MerkleTree`,
  `MerkleBinding`, `MerkleBuilders`, `SealedPaper`.
- **The centre's Edge server** admits staff by one-time codes, assigns seats, and keeps a hash-chained
  answer ledger and an audit log. `OneTimeCode`, `StaffRules`, `StaffProtocol`, `StaffGuards`,
  `StaffRaces`, `StaffCodes`, `HallProtocol`, `HallGuards`, `HallSeats`, `CentreEdge`, `MerkleChain`, `JsonText`,
  `CanonicalText`, `AuditLog`, `AuditProtocol`.
- **Headquarters** checks and opens what a centre exports, in two implementations. `HqIngest`,
  `AnchorGuard`, `HqAgreement`, `HqAcceptance`, `HqTamper`; `EndToEnd` joins the ledger to headquarters.

Code that computes is written as functions. Loops and in-place updates are methods, proved against those
functions; the Edge server and the audit table are classes whose fields are the database tables. Concurrent
handlers are state machines (`HallProtocol`, `StaffProtocol`, `StaffRaces`, `AuditProtocol`) whose steps are the
points at which they interleave: reading a record or the tail, taking a row lock or the advisory lock, committing,
rolling back.
A property of a run is a statement about every sequence of enabled steps.

What is assumed is always a hypothesis of the lemma that needs it:

- SHA-256 is an arbitrary function to 32 bytes. It is never assumed injective. A binding property says
  "equal, or this computed pair collides"; the pair is given by a function (`FoldConflict`, `RootConflict`,
  `ChainConflict`, `ItemConflict`, `ManifestConflict`, `StartConflict`, `RepeatConflict`, `ExportConflict`), not by
  an existential, which would be true of any hash.
- AES-GCM, RSA-OAEP, Ed25519, Argon2id, UTF-8 and `JSON.parse` are functions with their inverse or
  verification laws (predicates named `Lawful`, `LawfulCodes`, `CiphersInvert`, `NodeSigns`, `JsonReads`,
  `TextsDiffer`, `Utf8Differs`, `StoreKeeps`).
  Which texts JavaScript prints for numbers is a parameter, and the law on `JSON.parse` speaks only of values
  whose numbers are such texts; the database may refuse a row, and then nothing is inserted.
- A session token is accepted exactly when it was issued and has not expired (an ideal MAC).
- `p` is prime where a lemma says `IsPrime(p)`; that 2^521 - 1 is prime is a hypothesis of the lemmas about it.
- Random values (coefficients, ivs, keys, salts, the seat picked) are arbitrary arguments.

## Where the code does less than it says

Each of these is a proved lemma.

- `combine` returns the key exactly when the key, as an integer, is below the prime; a key of 66 bytes whose
  first byte is 1 and whose others are 255 is silently replaced by zeros (`CombineRecovers`, `LongKeyIsLost`).
- The Merkle verifier checks neither the length of a path nor the number of leaves, so it accepts more than
  leaves: a path shorter than the depth proves an inner node, an overlong one a string that hashes to a leaf.
  An accepted path no longer than the depth proves the leaf at the position its sides spell exactly when it
  has the full length, a collision or a node equal to that leaf apart (`InclusionBinds`, `LeafIffFullLength`,
  `LongPathOpensLeaf`, `OpenedLeafIsAccepted`; smallest case `InnerNodeIsAccepted`). A question item with too
  short a proof passes exactly when its id, iv, ciphertext and tag together are the two digests below an inner
  node, up to a collision (`ShortItemIsInnerNode`, `InnerNodeItemPasses`).
- The leaf of a question joins id, iv, ciphertext and tag without saying where the id ends. Under the proof of a
  committed item another one passes exactly if the joined strings are equal, a collision apart
  (`OtherItemRefusedIff`): never with the same iv, ciphertext and tag under another id, nor with ids of one length
  (`RenamedItemRefused`, `AlteredItemRefused`), but with a shorter id whose rest has moved into the iv
  (`ShiftedItemPasses`).
- A root does not fix the number of leaves. Two roots agree exactly when the smaller tree, completed to a power
  of two by zeros or by duplication, is the level of the larger completed tree at that depth, up to a collision
  (`PaddedRootsAgree`, `DuplicatedRootsAgree`). Smallest cases: `[a, b, c]` with `[a, b, c, 0]`, with
  `[a, b, c, c]`, and `[h(ab), h(cd)]` with `[a, b, c, d]` (`ZeroLeafIsInvisible`, `RepeatedLeafIsInvisible`,
  `InnerLevelIsAList`).
- `canonicalJson` loses a property called `__proto__`. The text is equal exactly when the values are equal up
  to key order and up to such properties (`CanonicalIff`, `ProtoIsInvisible`).
- The audit walk cannot see that the end of a log was cut off. Whatever rows are removed, the rest passes
  exactly when it is a beginning of the log, or the hash is broken (`TruncationPasses`, `KeptVerifiesIff`).
- The submit handler checks the seat's state before it asks for the lock. In every run whose submissions were
  each checked at some time before, the ledger rows of every exam correspond to its submitted seats exactly as
  long as no submission, and no late login, is committed for a seat that has submitted already
  (`RowsIffNeverBroken`,
  and `StaleCheckSubmitsTwice` for two requests). With the check made under the lock only a late login can break it
  (`SeatProtocol`). The shape of the chain needs no check at all (`StepKeepsLedger`).
- The candidate login reads the binding before its transaction. In every run seats only move forward exactly as
  long as no login commits on a seat that has gone past ATTENDED since, and such a late login on a submitted seat
  is the only other way to break the correspondence (`RunMovesForwardIff`, `SeatProtocol`, `LateLoginReopens`).
- `appendAudit` reads the last hash and inserts without a lock. In every run of interleaved appends all logs verify
  exactly as long as each committed row continues the last hash before its number and no larger number of its
  centre was committed first, a row that hashes to the hash it continues aside (`LogsVerifyIff`, `FitsIffFresh`).
  Two appends from one tail fork the chain (`TwoFromOneTail`).
- `activate`, issue-code and authorise-fp read the approval record before their transaction, which writes all of
  it back. In every run each code has activated at most once and every used code has stayed consumed exactly as
  long as no activation commits after another one granted on the same issue has committed since its read, and no
  fingerprint authorisation saves, unconsumed, a record whose code has been used (`CodesSafeIff`; each half apart:
  `CodeOnceIff`, `ConsumedIff`). Both occur (`OneCodeTwice`, where a new code issued in between hides the first
  use, and `RevivedCode`, where no two activations are open at one time). Reading the record again in the
  transaction and giving up if it has changed is enough (`RereadingIsEnough`). Stored codes are the ones issued
  last exactly as long as no activation and no authorisation saves a record whose code was replaced since its
  read (`CurrentIff`).
- A row of the audit table moved to another centre is reported by that centre's walk; the old centre's walk
  misses it exactly if it was the last row (`MovedRowIsLocated`, `MovedRowIsMissed`).
- The export marks rows by leaf, in a statement after the one that read them: a row is marked exactly when an
  exported row has its leaf, whenever it was appended and whatever its exam (`MarkedIff`, `MarkedUnexported`).
- Revocation is permanent because of the revocation date. A status of REVOKED alone, as provisioning can set
  it, is undone by provisioning (`RevocationIsPermanent`, `PermanentOnlyWithDate`).
- The portal refuses an authentic export exactly when the lower-cased JSON text of its exam id contains one of
  six words. The text is escaped, so a line feed followed by `ame` counts as `name`; identifiers of hexadecimal
  digits and dashes always pass (`GuardExactly`, `EscapesCount`, `UuidsAreClean`).
- Ingest walks from genesis, so an export is delivered exactly when its rows are the first rows of the chain:
  a second export of an exam is refused (`AnyExport`, `LaterExportRefused`).
- The two ingest programs differ on a record that opens to a text with a byte order mark (the portal throws,
  the Edge side accepts) and on a last root with an odd extra digit (the anchors differ) (`IngestsAgree`).

## Model

| member | source | states |
|---|---|---|
| ModularField.ExtendedGcd | public/backend/crypto/shamir.py:63-70 | The recursion ends for all nonnegative inputs, with coefficients satisfying Bezout's identity |
| ModularField.ExtendedGcdIsGcd | public/backend/crypto/shamir.py:63-70 | The first result is the greatest common divisor: it divides both, and every common divisor divides it |
| ModularField.ModInverse | public/backend/crypto/shamir.py:53-60 | A returned inverse lies in [0, p) and multiplies to 1 modulo p |
| ModularField.InverseExists | public/backend/crypto/shamir.py:53-60 | For prime p the "does not exist" error is raised exactly for multiples of p, negative arguments included |
| Polynomials.RootsForceZero | public/backend/crypto/shamir.py:72-124 | Over a field a polynomial with as many roots as coefficients is zero: why k shards determine the secret |
| Polynomials.InvertibleIffDistinct | public/backend/crypto/shamir.py:150-164 | Every Lagrange denominator has an inverse exactly when the indices are pairwise different modulo p |
| Polynomials.InterpolateAtPoints | public/backend/crypto/shamir.py:149-164 | The Lagrange polynomial takes the given values at the given distinct points |
| Polynomials.SameCoefficients | public/backend/crypto/shamir.py:72-124 | Polynomials of n coefficients agreeing at n distinct points are equal coefficient for coefficient |
| Shamir.EvalPolynomial | public/backend/crypto/shamir.py:73-78 | The Horner loop returns the value of the polynomial modulo the prime |
| Shamir.Split | public/backend/crypto/shamir.py:81-124 | Refuses exactly n < k, k < 2 and the empty key, in this order; otherwise n shards, shard i the value at i of the polynomial whose constant term is the key |
| Shamir.LagrangeFraction | public/backend/crypto/shamir.py:150-158 | The inner loop's numerator and denominator are the products of (0 - x_j) and (x_i - x_j) modulo p |
| Shamir.LagrangeAtZero | public/backend/crypto/shamir.py:149-164 | The outer loop is the Lagrange polynomial at 0, or an error when a denominator has no inverse |
| Shamir.Combine | public/backend/crypto/shamir.py:127-166 | Returns exactly what the specification `Reconstruct` says; fewer than two shards and text that is no hexadecimal are refused, and nothing else is so refused |
| Shamir.NoInverseIffRepeatedIndex | public/backend/crypto/shamir.py:150-164 | "Does not exist" is raised exactly when two indices are equal modulo p |
| Shamir.ParseHexOf | public/backend/crypto/shamir.py:115-146 | A printed shard value is read back as the same number |
| Shamir.ParseHexOfBytes | public/backend/crypto/shamir.py:146-147 | Shard text is read most significant digit first: the hexadecimal text of bytes is read as their big-endian number |
| Shamir.CombineRecovers | public/backend/crypto/shamir.py:127-166 | From enough points of the key's polynomial, `combine` returns the key if and only if the key is below p |
| Shamir.CombineExactly | public/backend/crypto/shamir.py:127-166 | Of values of any polynomial with no more coefficients than shards, `combine` returns the constant term modulo p in as many bytes as asked for, and fails exactly if it does not fit |
| Shamir.RoundTrip | public/backend/crypto/shamir.py:80-166 | Any k or more distinct shards of a split, in any order, give back the key, leading zeros included |
| Shamir.RoundTripM521 | public/backend/crypto/shamir.py:30 | The same for the program's prime and every key of at most 65 bytes |
| Shamir.LongKeyIsLost | public/backend/crypto/shamir.py:91-166 | For the program's prime, a 66-byte key that `combine` does not return |
| Shamir.PerfectSecrecy | public/backend/crypto/shamir.py:72-124 | For any k - 1 shards and any candidate secret exactly one polynomial of k coefficients explains both |
| MerkleTree.ProofVerifies | private/edge-server/src/lib/question-seal.ts:61-85 | Every leaf of every nonempty list folds along its proof to the root |
| MerkleTree.ProofLength | public/backend/crypto/merkle.py:110-128 | A proof has ceil(log2 n) steps |
| MerkleTree.ProofSides | public/backend/crypto/merkle.py:122-126 | The sides of the steps are the bits of the index |
| MerkleTree.ThreeLeaves | public/backend/crypto/merkle.py:63-130 | Three leaves written out: the duplicating and the padded root, and the proof of the last leaf with its sides |
| MerkleTree.RootBinds | public/backend/crypto/merkle.py:63-130 | Two lists of one length with one root are equal, or a computed pair collides |
| MerkleBinding.FullPathBinds | public/backend/crypto/merkle.py:133-163 | A path as long as the tree is deep proves the leaf at the position its sides spell, or a computed pair collides |
| MerkleBinding.InclusionBinds | private/exam-terminal/lib/question-crypto.ts:87-94 | Whatever is accepted along a path no longer than the depth is the node at that position of the level as far below the root as the path is long, or a computed pair collides |
| MerkleBinding.NodesAreAccepted | public/backend/crypto/merkle.py:133-163 | Every node of every level is accepted, by a proof of the length of its height below the root |
| MerkleBinding.LeafIffFullLength | public/backend/crypto/merkle.py:153-163 | An accepted path proves the leaf at its position exactly when it has the full length, a collision or a node equal to that leaf apart |
| MerkleBinding.LongPathOpensLeaf | public/backend/crypto/merkle.py:153-163 | An accepted path longer than the depth contains a string that hashes to a leaf, or a computed pair collides |
| MerkleBinding.OpenedLeafIsAccepted | public/backend/crypto/merkle.py:153-163 | Every string of at least 32 bytes that hashes to a leaf makes such an accepted path |
| MerkleBinding.InnerNodeIsAccepted | public/backend/crypto/merkle.py:153-163 | Over four leaves an inner node passes with a path of one step, and the root with the empty path |
| MerkleBinding.CompleteRootsAgree | public/backend/crypto/merkle.py:95-107 | Two complete trees have one root exactly when the smaller is a level of the larger, or a computed pair collides |
| MerkleBinding.PaddedRootsAgree | public/backend/crypto/merkle.py:68-130 | For all nonempty lists: padded roots agree exactly when the padded smaller list is a level over the padded larger one, or a computed pair collides |
| MerkleBinding.SameDepthPaddedRoots | public/backend/crypto/merkle.py:89-93 | At one depth padding confuses a list exactly with the same list and zero leaves after it, up to a computed collision |
| MerkleBinding.PaddedRootBinds | public/backend/crypto/merkle.py:68-130 | The padded root binds lists of one length, up to a computed collision |
| MerkleBinding.PaddedInclusionBinds | public/backend/crypto/merkle.py:133-163 | In the padded tree a path of full length proves the entry at the position its sides spell, a shorter one an inner node, up to a computed collision |
| MerkleBinding.CompleteKeepsRoot | private/edge-server/src/lib/question-seal.ts:66-83 | Duplication builds the root of the tree completed to a power of two by repeating nodes |
| MerkleBinding.DuplicatedRootsAgree | private/edge-server/src/lib/question-seal.ts:61-85 | For all nonempty lists: duplicated roots agree exactly when the completed smaller list is a level over the completed larger one, or a computed pair collides |
| MerkleBinding.ZeroLeafIsInvisible | public/backend/crypto/merkle.py:89-93 | Padding gives `[a, b, c]` and `[a, b, c, 0]` one tree |
| MerkleBinding.RepeatedLeafIsInvisible | private/edge-server/src/lib/question-seal.ts:69-80 | Duplication gives `[a, b, c]` and `[a, b, c, c]` one root |
| MerkleBinding.InnerLevelIsAList | private/edge-server/src/lib/question-seal.ts:69-80 | Four leaves and the two nodes above them have one root |
| MerkleBuilders.VerifyInclusion | public/backend/crypto/merkle.py:153-163 | The loop accepts exactly when the path folds from the leaf to the expected root |
| MerkleBuilders.SiblingInRange | public/backend/crypto/merkle.py:114-120 | In a padded tree the sibling exists at every level: the zero fallback of the path loop is never taken |
| MerkleBuilders.HashPairs | public/backend/crypto/merkle.py:99-103 | On a layer of even length the pair loop is the next level: its zero fallback is never taken |
| MerkleBuilders.BuildTree | public/backend/crypto/merkle.py:68-130 | Refuses exactly the empty list; otherwise the root and all proofs of the padded tree |
| MerkleBuilders.PaddedProofs | public/backend/crypto/merkle.py:89-163 | Every proof of the padded tree verifies and has ceil(log2 n) steps |
| MerkleBuilders.GetMerkleProof | public/backend/crypto/merkle.py:193-210 | Fails exactly when the leaf is absent; otherwise index of its first occurrence, with its proof |
| MerkleBuilders.PushBelow | private/edge-server/src/lib/question-seal.ts:73-77 | The step goes to every leaf listed under a node, and that is every leaf below it |
| MerkleBuilders.PushAll | private/edge-server/src/lib/question-seal.ts:76-77 | Pushes the step onto the proofs of the listed leaves and touches no other |
| MerkleBuilders.Sweep | private/edge-server/src/lib/question-seal.ts:67-82 | One pass over a level extends every leaf's proof by its node's step and joins the index lists |
| MerkleBuilders.JoinPartition | private/edge-server/src/lib/question-seal.ts:73-79 | Joining neighbours keeps the index map a partition of the leaves |
| MerkleBuilders.ExtendPartialProofs | private/edge-server/src/lib/question-seal.ts:66-83 | After each level every leaf's partial proof still folds to the node it is listed under |
| MerkleBuilders.BuildDuplicating | private/edge-server/src/lib/question-seal.ts:61-85 | Refuses exactly the empty list; the in-place loops end with the root and every leaf's proof |
| MerkleBuilders.DuplicatingProofs | private/exam-terminal/lib/question-crypto.ts:87-94 | Every proof of the duplicating builder verifies, for any number of leaves |
| MerkleBuilders.BuildersAgree | private/edge-server/src/lib/question-seal.ts:61-85 | For a power of two leaves the padded and the duplicating tree have one root and the same proofs |
| SealedPaper.SealExamQuestions | public/backend/crypto/question_sealing.py:184-231 | Refuses an empty list or a question without id; otherwise item i seals the candidate view of question i, with its proof to the root |
| SealedPaper.SealExam | private/edge-server/src/lib/question-seal.ts:88-115 | The same for the Edge's sealer, which seals the whole question |
| SealedPaper.VerifyBundle | private/exam-terminal/lib/question-crypto.ts:97-104 | Accepts exactly when the roots agree and every item folds to the root, from the hash of its id, iv, ciphertext and tag |
| SealedPaper.OpenExactly | public/backend/crypto/question_sealing.py:234-269 | Exactly when `open_question` gives each answer: the root's text, the committed set, the tag, the JSON |
| SealedPaper.SealedPaperOpens | public/backend/crypto/question_sealing.py:184-269 | Opening item i of the sealed paper gives exactly the candidate view of question i |
| SealedPaper.StagedPaperOpens | private/exam-terminal/lib/question-crypto.ts:114-131 | The terminal opens item i of the Edge's paper to question i |
| SealedPaper.AlteredItemRefused | public/backend/crypto/question_sealing.py:145-159 | Among ids of one length an item of the same proof with another id, iv, ciphertext or tag is refused by both readers and the bundle check, or a computed pair collides |
| SealedPaper.OtherItemRefusedIff | private/exam-terminal/lib/question-crypto.ts:79-121 | Under the proof of a committed item another item is refused exactly if its id, iv, ciphertext and tag, joined, are another string, a computed collision apart |
| SealedPaper.RenamedItemRefused | public/backend/crypto/question_sealing.py:145-159 | The same iv, ciphertext and tag under another id are refused, or a computed pair collides: items of a bundle cannot exchange their ids |
| SealedPaper.ShiftedItemPasses | public/backend/crypto/question_sealing.py:145-159 | An item under a shorter id, with the rest of the genuine id moved into its iv, folds to the root |
| SealedPaper.SealedAs | public/backend/crypto/question_sealing.py:204-220 | Item i is question i's JSON under the key derived from seed, exam and id, with the hash of id, iv, ciphertext and tag as its leaf |
| SealedPaper.ShortItemIsInnerNode | private/exam-terminal/lib/question-crypto.ts:83-94 | An item accepted with too short a proof was hashed from the two digests below an inner node, or a computed pair collides |
| SealedPaper.InnerNodeItemPasses | private/exam-terminal/lib/question-crypto.ts:97-121 | An item that hashes to an inner node, with that node's proof, passes the bundle's and the reader's check |
| SealedPaper.FullItemIsGenuine | private/exam-terminal/lib/question-crypto.ts:97-104 | Under the root of the Edge's paper an item accepted with a proof of full length was hashed from the same string as the genuine item at that position, or a computed pair collides |
| SealedPaper.FullPaddedItemIsGenuine | public/backend/crypto/question_sealing.py:252-262 | The same under the published, padded root: the genuine item at that position, or a padding position and a string that hashes to 32 zero bytes, or a computed collision |
| SealedPaper.GenuineBundlePasses | private/exam-terminal/lib/question-crypto.ts:97-104 | A bundle as sealed passes the terminal's check of the whole bundle |
| MerkleChain.VerifyChain | private/edge-server/src/lib/merkle-chain.ts:45-58 | Accepts exactly well-linked records; otherwise names the first record that does not link |
| MerkleChain.AcceptsExactlyChains | private/edge-server/src/lib/merkle-chain.ts:25-58 | Accepted are exactly the records that folding `appendLeaf` over their leaves produces |
| MerkleChain.ChainBinds | private/edge-server/src/lib/merkle-chain.ts:25-34 | One last root means the same leaves, or a collision, or (lengths differing) a preimage of GENESIS |
| MerkleChain.AcceptedChainsBind | private/edge-server/src/lib/merkle-chain.ts:45-58 | The same for two accepted record lists |
| MerkleChain.WitnessBinds | private/edge-server/src/lib/merkle-chain.ts:60-74 | Two valid receipts with one root certify the same leaf, or collide |
| OneTimeCode.EncodeBytes | private/edge-server/src/lib/one-time-code.ts:30-42 | The loop over a 32-bit overflowing buffer emits exactly the base-32 digits of the whole bit string (bit grouping of section 6 of RFC 4648) |
| OneTimeCode.OneByte | private/edge-server/src/lib/one-time-code.ts:30-42 | One byte is its first five bits and then its last three followed by two zeros |
| OneTimeCode.EncodeInjective | private/edge-server/src/lib/one-time-code.ts:30-42 | Different byte strings of one length give different digits |
| OneTimeCode.GenerateCode | private/edge-server/src/lib/one-time-code.ts:29-47 | The printed code is those digits, the first alone and then by threes, joined by dashes |
| OneTimeCode.NormalizeGrouped | private/edge-server/src/lib/one-time-code.ts:44-57 | Normalising a printed code gives its digits without the dashes |
| OneTimeCode.GroupedAt | private/edge-server/src/lib/one-time-code.ts:44-47 | Where each digit of a printed code stands: the first alone, the others by threes, a dash before each three |
| OneTimeCode.NormalizeIffSpells | private/edge-server/src/lib/one-time-code.ts:50-57 | Typed text normalises to given digits exactly if it spells them: separators anywhere, small letters, O for 0, I and L for 1, U for V |
| OneTimeCode.NormalizeIdempotent | private/edge-server/src/lib/one-time-code.ts:50-57 | Normalising twice is normalising once |
| OneTimeCode.CodesDiffer | private/edge-server/src/lib/one-time-code.ts:29-57 | Different random bytes give codes that still differ after normalising |
| JsonText.TextInjective | private/edge-server/src/lib/crypto.ts:52-54 | JSON text without white space determines the value |
| JsonText.SortFieldsSpec | private/edge-server/src/lib/crypto.ts:56-66 | Sorting an object's keys keeps exactly the visible fields, in key order, with their values sorted |
| CanonicalText.KeysListed | private/edge-server/src/lib/crypto.ts:59-63 | Of two keys of a canonical object the first is an array index and the second a larger one or none, or neither is one and the first comes before the second by code points |
| CanonicalText.IndexIff | private/edge-server/src/lib/crypto.ts:59-63 | A key is listed among the array indices exactly if it is the decimal text of a number below 2^32 - 1 |
| CanonicalText.TextIs | private/edge-server/src/lib/crypto.ts:52-54 | The text of every value: parts joined by commas in brackets or braces, keys and strings spelt between quotation marks |
| CanonicalText.CharacterSpelt | private/edge-server/src/lib/crypto.ts:52-54 | How each character stands in a string: the seven short escapes, four hexadecimal digits for the other control characters, itself otherwise |
| JsonText.CanonicalIff | private/edge-server/src/lib/crypto.ts:52-66 | Canonical texts are equal exactly when the values are equal up to key order and `__proto__` properties |
| JsonText.IndexKeysByValue | private/edge-server/src/lib/crypto.ts:59-63 | Keys that are array indices are listed by value, as JavaScript enumerates them |
| JsonText.ProtoIsInvisible | private/edge-server/src/lib/crypto.ts:59-63 | Two different values with one canonical text |
| AuditLog.AuditTable.Append | private/edge-server/src/audit.ts:28-66 | Adds one row, chained to the last row of its own centre, or none if the database refuses it |
| AuditLog.AuditTable.Verify | private/edge-server/src/audit.ts:69-99 | Accepts exactly an unbroken log of the centre; otherwise the number of the first broken row |
| AuditLog.AppendKeepsLogs | private/edge-server/src/audit.ts:28-66 | Appending for one centre keeps every centre's log unbroken |
| AuditLog.EveryRunVerifies | private/edge-server/src/audit.ts:28-99 | After any serial run of appends over any centres, every centre's log verifies |
| AuditLog.NumbersInOrder | private/edge-server/src/audit.ts:69-97 | After any serial run the rows are numbered in order, so the number reported names one row |
| AuditLog.EditShowsAt | private/edge-server/src/audit.ts:81-97 | In one centre's log a row edited under its stored hash breaks exactly where the recomputed hash differs |
| AuditLog.EditIsLocated | private/edge-server/src/audit.ts:69-99 | A row of the table edited under its stored hashes, its centre kept, is reported by its centre's walk at exactly that row, or no column has changed (the details up to key order and `__proto__`) and it passes, or the two hashed strings collide; other centres' logs are as before |
| AuditLog.EveryColumnCounts | private/edge-server/src/audit.ts:16-26 | What is hashed of two rows looks alike exactly if they agree in centre, actor, action, target and, up to key order and `__proto__`, details |
| AuditLog.HashedText | private/edge-server/src/audit.ts:24-26 | A row's hash is that of the hash before it and the text of its five columns, written out |
| AuditLog.AcceptedLogIs | private/edge-server/src/audit.ts:81-98 | The walk accepts exactly the logs in which every row continues the hash stored before it, zeros at first, and stores the hash of that and its columns' text |
| AuditLog.HashEditShowsAt | private/edge-server/src/audit.ts:90-96 | A stored hash that is edited, alone or with the other one, is reported at its row |
| AuditLog.MovedRowIsLocated | private/edge-server/src/audit.ts:73-97 | A row moved to another centre under its stored hashes is reported by that centre's walk at exactly that row, or the two hashed strings collide |
| AuditLog.MovedRowIsMissed | private/edge-server/src/audit.ts:73-97 | The old centre's walk passes without the row exactly if it was the last one, or two equal hashes break the hash function |
| AuditLog.RemovalIsLocated | private/edge-server/src/audit.ts:69-99 | Removing a row inside the log is reported at the row after it, unless the removed row's hash equals the one before it |
| AuditLog.TruncationPasses | private/edge-server/src/audit.ts:69-99 | Cutting off the end of a log is not reported |
| AuditLog.KeptVerifiesIff | private/edge-server/src/audit.ts:69-99 | Whatever rows are removed, the rest of an unbroken log verifies exactly if it is a beginning of the log, or two equal hashes break the hash function |
| AuditLog.KeptInTable | private/edge-server/src/audit.ts:73-79 | Whatever rows are removed from the table, each centre's log is the old one with some rows removed |
| AuditProtocol.StepLogsIff | private/edge-server/src/audit.ts:32-65 | A step of interleaved appends keeps all logs verifying exactly if it commits no row that does not fit its centre's log |
| AuditProtocol.LogsVerifyIff | private/edge-server/src/audit.ts:28-66 | In every run of interleaved appends all logs verify up to a state exactly if every row committed by then fitted |
| AuditProtocol.FitsIffFresh | private/edge-server/src/audit.ts:32-41 | A row that continues its centre's last hash fits; any other fits only if it hashes to the hash it continues, which breaks the hash function |
| AuditProtocol.AloneIsFresh | private/edge-server/src/audit.ts:28-66 | An append that no other interrupts continues its centre's last hash |
| AuditProtocol.TwoFromOneTail | private/edge-server/src/audit.ts:32-65 | Two appends from one tail leave a log that verifies exactly if the first hashes to that tail |
| StaffRules.GeneratedCodeAccepted | private/edge-server/src/lib/one-time-code.ts:60-67 | A generated code is accepted within ten minutes in every spelling, small letters, look-alikes and separators included, and nothing else is if the hash verifies its own text alone |
| StaffRules.ActivateExactly | private/edge-server/src/services/approval.ts:96-114 | When each denial is given and when activation is granted: the first clause that does not hold |
| StaffRules.EvaluateMatchAll | private/edge-server/src/lib/match-all.ts:51-68 | Passes exactly when every clause holds, and reports exactly the clauses that do not |
| StaffProtocol.StepKeepsCascade | private/edge-server/src/http.ts:165-399 | Every handler keeps: the ACTIVE are trusted, an outstanding code hash is the one its last issue stored, by a logged-in approver of the right tier |
| StaffProtocol.TrustCascade | private/edge-server/src/services/approval.ts:31-114 | In every activation of a run the finger matched and the typed text verifies against the hash issued last for the request, at most CODE_TTL_MS old and unused since, by a trusted approver of the right tier who had logged in at most IDLE_MS before |
| StaffProtocol.SupersededCodeRefused | private/edge-server/src/services/approval.ts:57-76 | Text that does not verify against the hash issued last for a request activates nothing, whatever earlier hashes it fits |
| StaffProtocol.FingerprintWasAuthorised | private/edge-server/src/http.ts:345-399 | Every activation of a run also followed a fingerprint authorisation by a trusted approver of the right tier |
| StaffProtocol.ChainsAreGrounded | private/edge-server/src/services/approval.ts:31-47 | Every chain of approvals ends after at most two links at an identity of the approver's role that was ACTIVE before the run |
| StaffProtocol.NoCodeTwice | private/edge-server/src/services/approval.ts:103 | Between two activations of one request a new code was issued |
| StaffRaces.RunKeepsRaceInv | private/edge-server/src/http.ts:202-236 | With issuing, authorising and activating split into read and commit: in every reachable state each record read or stored holds the hash of the issue named for it, is consumed only if that code activated, and the listed uses are exactly the activations of the log, in order, each verified against its issue with a matched finger |
| StaffRaces.AloneIsAtomic | private/edge-server/src/http.ts:327-399 | A read and a commit with nothing between them do what the handler as one step does, for all three handlers |
| StaffCodes.CodesSafeIff | private/edge-server/src/http.ts:202-236 | In every run each code has activated at most once and every used code has stayed consumed exactly if no activation committed after another one granted on the same issue since its read and no authorisation saved a used code unconsumed |
| StaffCodes.CodeOnceAlways | private/edge-server/src/http.ts:202-236 | In every run each code activates at most once exactly if no activation commits after another one on the same issue, stale authorisations included |
| StaffCodes.CodeOnceIff | private/edge-server/src/http.ts:202-236 | In every run in which no authorisation revives a used code, each code activates at most once exactly if no activation commits after another one granted on the same issue has committed since its read |
| StaffCodes.ConsumedIff | private/edge-server/src/http.ts:343-361 | In every run used codes stay consumed up to a state exactly if no authorisation of a fingerprint has saved such a record unconsumed by then |
| StaffCodes.UnchangedIsSafe | private/edge-server/src/repo.ts:109-131 | A commit that finds the record as it was read neither uses a code again nor revives one, unless two issues for the request stored one hash |
| StaffCodes.RereadingIsEnough | private/edge-server/src/repo.ts:109-131 | In every run whose commits all find the record as read, and whose issued hashes differ, each code activates at most once and used codes stay consumed |
| StaffCodes.CodeOnceIffUnconsumed | private/edge-server/src/services/approval.ts:99-114 | As long as codes are neither revived nor overwritten, each activates at most once exactly if no activation commits on a record that is consumed by then |
| StaffCodes.CurrentIff | private/edge-server/src/repo.ts:109-131 | In every run the stored codes are the ones issued last exactly if neither an activation nor an authorisation saved a record whose code had been replaced since its read |
| StaffCodes.LateTextIsCurrent | private/edge-server/src/services/approval.ts:99-114 | As long as that is so, what activates verifies against the hash issued last, with a matched finger |
| StaffCodes.OneCodeTwice | private/edge-server/src/http.ts:202-222 | A run from provisioning in which two activations read one record, the first commits, a new code is issued and the second commits: one code activates twice, on a record that is not consumed |
| StaffCodes.RevivedCode | private/edge-server/src/http.ts:343-361 | A run from provisioning in which an authorisation reads before and saves after an activation, and the used code activates again, although no two activations are open at one time |
| StaffProtocol.RevocationIsPermanent | private/edge-server/src/repo.ts:503-514 | After a revocation no login of that identity succeeds, and IDLE_MS later no token of it is accepted, whatever is re-activated or re-provisioned |
| StaffGuards.SessionWasEarned | private/edge-server/src/http.ts:165-194 | In every run every session was earned by a login of an ACTIVE, never revoked identity of that role, bound to that terminal and to the address the request came from, with face at least 0.82, finger at least 0.6, the device attested and at most 20 seconds; it ends eight minutes later |
| StaffGuards.LoginEarns | private/edge-server/src/http.ts:165-194 | Such a login of the newest identity at the station always makes the session; any other changes nothing |
| StaffGuards.IdentityChanges | private/edge-server/src/repo.ts:503-514 | An identity changes only by a revocation from an admin of its own centre, an activation of its own request with the finger authorised and matched, or a provisioning row, and only as that says |
| StaffGuards.IdentityAppears | private/edge-server/src/repo.ts:25-87 | A new identity is pending, of the role of its request and bound as registered, or comes unbound with a bundle |
| StaffGuards.RevocationWasOrdered | private/edge-server/src/http.ts:421-433 | In every run a revocation that no bundle brought was ordered by a Centre Admin of the same centre, in a session that a login had earned at most eight minutes before |
| StaffGuards.RevokeExactly | private/edge-server/src/http.ts:421-433 | A live Centre Admin's order for its own centre sets REVOKED and the date; any other order changes nothing |
| StaffGuards.RequestChanges | private/edge-server/src/http.ts:202-399 | A request changes only by a new code, a finger authorisation by a live session of the right tier and centre, or the use of its code in time |
| StaffGuards.DecisionExactly | private/edge-server/src/http.ts:327-399 | An allowed decision takes effect and is logged; any other leaves everything as it is |
| StaffGuards.ActivationExactly | private/edge-server/src/http.ts:202-236 | Exactly when an activation changes request and identity together, and that otherwise nothing changes |
| StaffGuards.ProvisionExactly | private/edge-server/src/services/provisioning.ts:86-98 | A bundle's row is refused exactly if it would make a second ACTIVE Centre Admin, and touches only its identity |
| HallProtocol.LinkedMax | private/edge-server/src/repo.ts:337-342 | On a well-formed ledger the tail query finds the last row |
| HallProtocol.StepKeepsLedger | private/edge-server/src/http.ts:716-738 | Every interleaving of lock, tail read, commit and rollback keeps each (centre, exam) chain well-formed: indices 0..n-1, from GENESIS, linked |
| HallProtocol.RunKeepsLedger | private/edge-server/src/repo.ts:331-375 | The same over whole runs |
| HallProtocol.NextIndex | private/edge-server/src/http.ts:719 | A submission's index is the number of rows before it |
| HallProtocol.RunExtends | private/edge-server/src/repo.ts:361-375 | The ledger is append-only but for the sync mark, which is never cleared |
| HallProtocol.ReceiptsStand | private/edge-server/src/http.ts:740-771 | A receipt once returned keeps its row and stays valid, and so is every row a lookup can find |
| HallGuards.AssignmentBinds | private/edge-server/src/services/assignment-service.ts:46-85 | In every run, whatever happens between choice and commit: the seat was free, healthy and of the centre; the new binding names exam, roll and invigilator as asked; from then exactly that roll can log in there, to that exam |
| HallGuards.LoginExactly | private/edge-server/src/http.ts:632-656 | A candidate gets in exactly with the roll of the binding in force and a fitting date of birth; then the seat is ATTENDED and its bindings are used up, and otherwise nothing changes |
| HallGuards.SeatChanges | private/edge-server/src/repo.ts:430-432 | Only an assignment, a login, a submission or a heartbeat of the seat changes it, and only its state or health |
| HallGuards.CommitRecords | private/edge-server/src/http.ts:716-738 | In every run each commit appends the row of a submission begun before, as it was begun: next index, hash of the envelope, root continued from the last row or zeros, the node's signature |
| HallGuards.RowWasSubmitted | private/edge-server/src/http.ts:716-738 | In every run every ledger row is such a record, sync marks aside |
| HallGuards.ExportShows | private/edge-server/src/repo.ts:454-477 | An export shows exactly the unmarked rows of the centre and exam, field by field, in order of index |
| HallGuards.RollbackUndoes | private/edge-server/src/services/assignment-service.ts:46-85 | An assignment, login or submission that is rolled back leaves no trace |
| HallGuards.MarkExactly | private/edge-server/src/repo.ts:479-487 | Marking sets the mark of the centre's rows with the given leaves and changes nothing else, no row of another centre |
| HallSeats.StepKeepsSeats | private/edge-server/src/services/assignment-service.ts:46-85 | With submissions checked under the lock a step keeps the seat invariant exactly if it commits no login on a submitted seat |
| HallSeats.AssignedIffActive | private/edge-server/src/repo.ts:638-655 | A seat is ASSIGNED exactly when it has an unconsumed binding, which is its only binding |
| HallSeats.StepMovesSeats | private/edge-server/src/repo.ts:430-432 | A step moves a seat at most one place along AVAILABLE, ASSIGNED, ATTENDED, SUBMITTED, late logins aside |
| HallSeats.StepBackIff | private/edge-server/src/repo.ts:652-655 | A step moves some seat back exactly if it commits a login on a seat past ATTENDED |
| HallSeats.RunMovesForwardIff | private/edge-server/src/http.ts:621-658 | In every run, stale checks included, seats only move forward up to a state exactly if no login was committed by then on a seat past ATTENDED |
| HallSeats.StepKeepsCore | private/edge-server/src/http.ts:621-731 | Seats and bindings stay in order under every interleaving, even with stale checks and late logins |
| HallSeats.StepRowsIff | private/edge-server/src/http.ts:621-731 | A step keeps rows and submitted seats in correspondence exactly if it commits neither a submission nor a login on a seat that has submitted |
| HallSeats.RowsIffNeverBroken | private/edge-server/src/http.ts:621-731 | In every run whose submissions were checked at some time before the lock, rows and submitted seats correspond up to a state exactly if no submission and no login was committed by then on a seat that had submitted |
| HallSeats.AloneIffChecked | private/edge-server/src/http.ts:709-717 | A submission that meets no other keeps the correspondence exactly if its check still holds at the lock |
| HallSeats.StaleCheckSubmitsTwice | private/edge-server/src/http.ts:705-731 | Two requests for one seat that both passed the check are both committed, and the second breaks the correspondence |
| HallSeats.LateLoginReopens | private/edge-server/src/http.ts:632-656 | A login overtaken by another login and a submission of its seat opens the submitted seat again and breaks the correspondence |
| HallSeats.SeatProtocol | private/edge-server/src/services/assignment-service.ts:46-85 | In every reachable state, submissions checked under the lock, no seat is bound twice and a seat is ASSIGNED exactly with an unconsumed binding; rows and submitted seats correspond in number and seat numbers exactly as long as no late login commits on a submitted seat |
| CentreEdge.EdgeServer.constructor | private/edge-server/src/http.ts:42-58 | A provisioned centre with empty tables satisfies every invariant |
| CentreEdge.EdgeServer.SelectSeat | private/edge-server/src/services/assignment-service.ts:50-60 | Locks some free, healthy, unlocked seat of the invigilator's centre, or there is none |
| CentreEdge.EdgeServer.CommitAssignment | private/edge-server/src/services/assignment-service.ts:62-84 | The locked seat becomes ASSIGNED with its first and only binding, to the exam and roll asked for; the invariants hold |
| CentreEdge.EdgeServer.CandidateLogin | private/edge-server/src/http.ts:621-658 | Refuses for good after three failures; otherwise succeeds exactly for the bound roll with a fitting date of birth, which ATTENDs the seat |
| CentreEdge.EdgeServer.ConsumeBindingAttend | private/edge-server/src/repo.ts:652-655 | Consumes the binding and moves the seat to ATTENDED; the invariants hold |
| CentreEdge.EdgeServer.BeginSubmit | private/edge-server/src/http.ts:701-717 | Exactly when each refusal is given; otherwise, for an authenticated seat, which always has a binding, the lock of its (centre, exam) is held |
| CentreEdge.EdgeServer.ReadTail | private/edge-server/src/repo.ts:337-343 | Reads the tail under the lock |
| CentreEdge.EdgeServer.CommitSubmit | private/edge-server/src/http.ts:716-752 | Appends one row with the next index, SUBMITs the seat and returns a valid receipt of exactly that row |
| CentreEdge.EdgeServer.Receipt | private/edge-server/src/http.ts:755-771 | Rejects what is not 64 hexadecimal digits; finds every leaf on the ledger, and its witness is always valid |
| CentreEdge.EdgeServer.ExportLedger | private/edge-server/src/http.ts:476-520 | Exactly when each refusal is given; otherwise exports the unsynced rows of the exam, marks them, and leaves nothing to export again |
| CentreEdge.EdgeServer.Register | private/edge-server/src/repo.ts:25-87 | Creates a pending identity and its request, nothing else |
| CentreEdge.EdgeServer.FindStaffByStation | private/edge-server/src/repo.ts:286-294 | Finds an identity of the role at the station created last, or there is none |
| CentreEdge.EdgeServer.Login | private/edge-server/src/http.ts:165-199 | Issues a token exactly when the match-all rule holds for the identity found |
| CentreEdge.EdgeServer.MayApprove | private/edge-server/src/http.ts:327-371 | The guard of the approval routes holds exactly for a live session of the right tier, route and centre |
| CentreEdge.EdgeServer.IssueOneTimeCode | private/edge-server/src/http.ts:327-381 | Issues a code exactly when the guard holds |
| CentreEdge.EdgeServer.AuthoriseFp | private/edge-server/src/http.ts:345-399 | Authorises the fingerprint exactly when the guard holds |
| CentreEdge.EdgeServer.ActivateIdentity | private/edge-server/src/http.ts:202-236 | Denies by the rule's reason, or commits code and identity together, or neither when the unique index objects |
| CentreEdge.EdgeServer.CommitActivation | private/edge-server/src/http.ts:218-234 | The transaction: both rows change or none |
| CentreEdge.EdgeServer.ProvisionStaff | private/edge-server/src/services/provisioning.ts:86-98 | An upsert that leaves the revocation date alone and is refused exactly when the unique index objects |
| CentreEdge.EdgeServer.Revoke | private/edge-server/src/http.ts:421-433 | Forbidden exactly without a live Centre Admin session, not found exactly outside its centre, and otherwise status and date are set |
| HqIngest.GroupByExam | private/system-admin/lib/vault.ts:162-168 | The insertion-ordered map has the exams by first appearance and, for each, its records in order of arrival |
| HqIngest.SortSpec | private/system-admin/lib/vault.ts:174 | The sort by leaf index orders, permutes and is stable |
| HqIngest.WalkChain | private/system-admin/lib/vault.ts:176-187 | The portal's own walk accepts exactly the well-linked records |
| HqIngest.CheckLeaves | private/system-admin/lib/vault.ts:190-196 | Accepts exactly when every leaf text is the hash of its envelope |
| HqIngest.OpenAll | private/system-admin/lib/vault.ts:199-214 | Opens and parses every record, or stops with the failure of the first that cannot be read |
| HqIngest.PiiGuard | private/system-admin/lib/vault.ts:233-242 | Passes exactly when no forbidden word occurs and the three hashes are bare hexadecimal text |
| HqIngest.IngestBundle | private/system-admin/lib/vault.ts:139-230 | The loops compute the outcome: first failing check in order, or all answers and anchors |
| HqIngest.Ingest | private/edge-server/src/hq/vault.ts:86-143 | The same for the second implementation, with its own walk, order and decoding |
| HqAgreement.NoRefusalIff | private/system-admin/lib/vault.ts:173-220 | No group is refused exactly when every group is chained, bound to its envelopes and readable |
| HqAgreement.AcceptedIff | private/system-admin/lib/vault.ts:139-230 | A bundle is accepted exactly when it is authentic, every group passes and, in the portal, it is publishable |
| HqAgreement.AcceptedIsComplete | private/system-admin/lib/vault.ts:159-229 | An accepted bundle yields exactly one answer a record and one anchor an exam; the counts add up to the records |
| HqAgreement.IngestsAgree | private/edge-server/src/hq/vault.ts:86-143 | The portal accepts exactly the publishable bundles without byte order marks that the Edge side accepts; then equal answers as multisets, and equal anchors exactly when each last root has 64 digits |
| HqAgreement.RefusalsAgree | private/edge-server/src/hq/vault.ts:86-143 | Without byte order marks both refuse by the same check, the portal's guard apart |
| HqAcceptance.WrongHashRefusedIff | private/system-admin/lib/vault.ts:146-151 | Refused by the first check exactly if the hash of the manifest's canonical JSON is not the text sent along, on both sides |
| HqAcceptance.UnsignedRefusedIff | private/system-admin/lib/vault.ts:153-157 | Refused by the second exactly if that hash is right and key or signature has the wrong length or the signature does not verify |
| HqAcceptance.ExamRefusedFor | private/system-admin/lib/vault.ts:173-214 | An exam is refused for its chain before its leaves and for its leaves before anything is decrypted, each exactly when |
| HqAcceptance.UnreadableRefusedAs | private/system-admin/lib/vault.ts:199-214 | The portal refuses by decryption exactly if the first record that cannot be read does not open; all else is an exception |
| HqAcceptance.FirstExamDecides | private/edge-server/src/hq/vault.ts:86-143 | Of a signed bundle the first exam in order of appearance that is refused decides |
| HqAcceptance.AcceptedExactly | private/system-admin/lib/vault.ts:139-230 | Accepted exactly if the hash is right, the node signed it, every record's leaf is its envelope's hash and it opens to JSON, every exam's roots run from zero, and in the portal ids are clean and last roots and key bare |
| HqAcceptance.AcceptedAnchors | private/system-admin/lib/vault.ts:159-229 | An accepted bundle yields the hashed centre and one anchor an exam, field by field: last root, number of records, node key |
| HqAcceptance.AcceptedAnswers | private/system-admin/lib/vault.ts:199-214 | What each record of an accepted bundle opened to is among its answers, with exam, seat and index |
| HqAcceptance.ExamsInOrder | private/system-admin/lib/vault.ts:162-168 | The exams are listed in the order in which they first appear among the records |
| HqAcceptance.SelectedInOrder | private/system-admin/lib/vault.ts:162-168 | An exam's group is all its records in order of arrival, none twice |
| HqAcceptance.AnswersInTurn | private/system-admin/lib/vault.ts:173-220 | The answers of an earlier exam come first, and those of one exam in the order of reading |
| HqAcceptance.AnswersOfExam | private/edge-server/src/hq/vault.ts:103-136 | Within an exam the portal lists answers by index, the Edge in order of arrival |
| HqAcceptance.ForbiddenExamRefused | private/system-admin/lib/vault.ts:233-236 | The portal accepts no bundle with an exam id that has roll, name, aadhaar, dob, ciphertext or seat in it, in whatever case |
| AnchorGuard.GuardExactly | private/system-admin/lib/vault.ts:233-242 | With bare hashes the guard's verdict depends on the exam id alone |
| AnchorGuard.UuidsAreClean | private/edge-server/src/hq/vault.ts:149-158 | Exam ids of hexadecimal digits and dashes always pass |
| AnchorGuard.EscapesCount | private/system-admin/lib/vault.ts:234-236 | An exam id without a forbidden word that is refused because of its escaped spelling |
| HqTamper.ManifestBinds | private/edge-server/src/http.ts:485-497 | Manifests with one hash are equal in every field of every record, or the hashed strings collide |
| HqTamper.AlteredBundleRefused | private/system-admin/lib/vault.ts:146-151 | A bundle with any field of any record altered under the hash of an authentic one is refused by the first check on either side, or the hashed strings collide |
| HqTamper.SignedText | private/edge-server/src/http.ts:485-497 | What the node signs is the hash of the manifest's text, written out with the eleven fields of each record |
| EndToEnd.RowReads | private/edge-server/src/lib/envelope.ts:34-78 | A sealed envelope, exported in hexadecimal, is read at headquarters as the sealed record with its keys sorted |
| EndToEnd.BundleIsAuthentic | private/edge-server/src/http.ts:491-519 | The exported bundle passes manifest and signature checks |
| EndToEnd.FirstExport | private/system-admin/lib/vault.ts:139-230 | The first export decrypts to exactly the submitted records in ledger order with the anchor of the ledger's tail and row count; the portal refuses it exactly for an unclean exam id |
| EndToEnd.LedgerIsCommits | private/edge-server/src/http.ts:716-738 | In every run the rows of an exam are exactly the committed envelopes, in order of commit |
| EndToEnd.RunDelivers | private/edge-server/src/http.ts:476-520 | In every run whose envelopes were all sealed to the matching key, the first export delivers exactly the committed records in order |
| EndToEnd.AnyExport | private/system-admin/lib/vault.ts:173-220 | Every export, first or not, delivers its rows exactly if they are the first rows of the chain (the portal's guard aside) and is refused by the chain walk otherwise, or the hash is broken |
| EndToEnd.MarkedIff | private/edge-server/src/http.ts:486-509 | After an export a row of the centre is marked exactly if an exported row has its leaf, whatever was appended in between |
| EndToEnd.MarkedUnexported | private/edge-server/src/repo.ts:479-487 | A row marked without having been exported has the envelope bytes of an exported row, or a computed pair collides |
| EndToEnd.LaterExportRefused | private/system-admin/lib/vault.ts:176-187 | A later export of the exam is refused by the chain walk on both sides, or an exhibited string hashes to 32 zero bytes |
| EndToEnd.ExportedOnce | private/edge-server/src/repo.ts:454-487 | After an export and its marking the exam has nothing left to export |

## Left out

- Handlers that do not lock are single steps in `StaffProtocol`; issuing, authorising and activating are split in
  `StaffRaces`. Splits of registering, logging in and revoking are not modelled.
- The audit rows that handlers write: `AuditLog` and `AuditProtocol` are models of their own, with one append a
  transaction.
- The egress gate of the export, candidate check-in, roster, capability and attestation: the gate's decision is an
  argument of `ExportLedger`.
- Token text, base64 and HMAC: a session is the claims of an issued token.
- Staff names, biometric hashes, approver columns and resolution times: no rule reads them.
- Provisioning of centres, exams and candidates, and the rollback of a bundle of several staff rows:
  `ProvisionStaff` is a bundle of one row.
- The bind token (an HMAC that no handler reads back) and `ORDER BY random()`: the seat is arbitrary.
- Equal `bound_at` or `created_at` times: bindings are ordered by insertion, and any identity created last may be found.
- The texts of refusals and the portal's list of steps; a refusal is the check that failed.
- Manifest fields beyond the four of the type: an export never has others, but the signature would cover them.
- Differences between the two decoders other than the byte order mark: malformed UTF-8 is decoded alike by assumption.
- `sortDeep` is a recursive function, not a loop that fills an object; the sort of keys compares Unicode code
  points where JavaScript compares UTF-16 code units, which differ for astral characters only.
- Numbers in JSON are their text; how JavaScript prints a number is not modelled.
- HKDF: question keys are an arbitrary function of seed, exam and question, so that different questions get
  different keys is not stated.
- Upper-casing beyond ASCII in `normalize`.
- Sequence numbers of bundle items, and blanks inside the hexadecimal text that Python's `bytes.fromhex` skips.
- Hexadecimal spellings that Python's `int(text, 16)` accepts besides plain digits (signs, prefixes, underscores,
  white space).
- `shard_hash`, `verify_shard` and `generate_leaf`: one hash call each.
- The zero-knowledge proof, the exam lifecycle, generation, drand, face and scoring modules, and all user interfaces.
