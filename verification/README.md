# Verified model of the CPF core

A Dafny model of the parts of the CPF assessment platform whose correctness spans operations, runs or
unbounded data, with proofs. `dafny verify dfyconfig.toml` checks everything; nothing here is executed.

* **Hash-chained audit log** (`Json`, `JsonReader`, `JsonStore`, `CanonicalText`, `HashChain`, `Audit`,
  `AuditStorage`, `AuditTamper`, `AuditAppend`, `AuditReading`, `AuditProtocol`). JavaScript values are a datatype with undefined, functions,
  holes in arrays, objects with `toJSON` (dates among them) and enumeration order; strings are UTF-16 code
  units. `canonicalise` is the recursive serialiser of the source; a reader shows what it loses and what
  it keeps. Columns give
  back what they do: the `jsonb` column a document up to key order, the `uuid` columns whatever form they keep,
  the text columns what survives UTF-8. The digest is a parameter, any function to 64 lower-case hexadecimal
  digits: such a function certainly has collisions, so tamper evidence is stated as a reduction that exhibits
  two distinct texts with one digest. The append protocol is a state machine over any number of transactions.
* **Proctor heartbeat chain and shutdown order** (`Proctor`), a second instance of the chain theory.
* **Base32 codec** (`Base32`, `Base32Laws`), with the accumulators as integers modulo 2^32, against a plain
  regrouping of a stream of bits, and as a change of base between numerals.
* **Token-bucket rate limiter** (`RateLimit`), an object with a map of buckets, over runs of calls.
* **Scoring engine** (`Bands`, `Scoring`, `ScoringProfile`, `ScoringIndex`, `ScoringReview`), over exact reals
  with the rounding to four decimals kept.
* **E-mail and name redaction** (`Redaction`): the pattern's own matching rule against the shape it describes.
* **Outbound message queue** (`Queue`, `QueueRuns`): an object that owns a table and shares the audit log.
* **Session lifecycles** (`StateMachines`, `SessionV2`).

`JsText`, `Sequences`, `Sorting`, `Growing` and `Powers` hold what several modules use.

Findings about the code:

* `canonicalise` maps `[undefined]` and `[]` to one text, so it is injective (up to key order and undefined
  fields) exactly up to that difference (`JsonReader.LoneHoleCollides`, `JsonReader.CanonicalTextExactly`); the
  normal form also takes negative zero for zero and non-finite numbers for null, as `JSON.stringify` does.
* The write/read agreement that the comment at apps/api/src/db/audit.ts:50-51 promises holds exactly when an
  entry is written as it will be read (`AuditStorage.AsRead`; `AuditAppend.WriteReadAgreement`), and an entry
  that is not makes the log fail verification at its row. It fails in these ways, each shown by a lemma or a
  clause of the condition:
  * an id with an upper-case letter is hashed as given and read back in lower case from its `uuid` column
    (packages/db/migrations/0001_foundation.sql:73-74). Routes such as
    apps/api/src/modules/platform/subscriptions.ts:36 accept any case and hash the id as the URL spells it
    (`AuditAppend.UpperCaseIdBreaksAgreement`);
  * undefined, or a function, in an array is hashed as an empty slot and stored as null; a function in a field
    is hashed as the word `undefined` and not stored (`AuditAppend.HoleBreaksAgreement`);
  * a date is hashed as `{}` and stored as a string, and any object with `toJSON` disagrees unless `toJSON`
    gives just its own fields (`AuditAppend.DateBreaksAgreement`);
  * a lone surrogate in an action, entity type or entity id is hashed escaped and read back as U+FFFD.

  Non-finite numbers and negative zero agree. What is proved of the protocol covers all such entries: the log
  stays one line, and verifies exactly as far as no posted entry is of these kinds
  (`AuditProtocol.ReachableLogVerifiesExactly`). The queue's own entries are proved never to be.
* The heartbeat chain hashes UTF-8, in which lone surrogates are all U+FFFD, so timestamps that differ only
  there are not told apart (`Proctor.LoneSurrogatesUnseen`).
* Rounding coverage to four decimals takes a scored share under a 20000th to 0 and one as near to the whole to 1
  (`ScoringProfile.ScoredCoverageEnds`, `ScoringProfile.LittleWeightUncovered`).
* `nextShutdownStep` looks only at how many steps are completed, not at which (`Proctor.TerminateExactly`); on lists
  it built up itself that is the fixed order (`Proctor.AcceptedRuns`).
* A support escalation from `submitting` resolves to `active`, so a successful V2 run may begin its
  submission more than once; the four detours of `SessionV2.SuccessfulRuns` include it.

## Model

| member | source | states |
|---|---|---|
| `Json.CanonicalIsPrintedNorm` | apps/api/src/db/audit.ts:22-30 | canonical text is the plain compact printing of the normal form (keys sorted, undefined fields dropped, objects with `toJSON` reduced to their own fields), at every depth: sorting printed members and sorting values come to the same |
| `Json.NormIsNormal` | apps/api/src/db/audit.ts:25-29 | the normal form has no undefined field and nothing that prints as nothing but array slots, whatever the nesting |
| `Json.CanonicalWellFormed` | apps/api/src/db/audit.ts:22-30 | canonical text has no lone surrogate, so distinct texts stay distinct bytes when they are hashed as UTF-8 |
| `JsText.LessExactly` | apps/api/src/db/audit.ts:27 | the order keys are sorted in: `a < b` exactly when `a` is a proper prefix of `b` or has the smaller code unit, as a number, at the first place where they differ |
| `CanonicalText.CanonicalTells` | apps/api/src/db/audit.ts:22-30 | a reader of canonical text finds, at every depth, the keys of the defined fields and no others in strictly rising order of code units, each with its own value, and every array element in its place; stated without the sort, the order or the normal form |
| `CanonicalText.WordsSpelled` | apps/api/src/db/audit.ts:23 | null, true, false, zero, the empty array and the empty object are spelled as JSON spells them, undefined as nothing |
| `CanonicalText.ArraysSpelled` | apps/api/src/db/audit.ts:24 | an array is its elements in order between brackets, with commas |
| `CanonicalText.ObjectsSpelled` | apps/api/src/db/audit.ts:25-29 | an object of one or two fields is spelled key, colon, value, with braces and a comma, the lesser key first whichever was listed first |
| `CanonicalText.StringsSpelled` | apps/api/src/db/audit.ts:23 | a string is spelled between quotation marks, surrogate pairs as they are, any other code unit by the table of escapes (section 7 of RFC 8259, lower-case hexadecimal) |
| `CanonicalText.NumbersSpelled` | apps/api/src/db/audit.ts:23 | a finite number is spelled as JavaScript prints it |
| `JsonReader.ReadPrinted` | apps/api/src/db/audit.ts:22-30 | a recursive-descent reader takes the printed form of any normal value back off the front of any delimited text, escapes (section 7 of RFC 8259), numbers, arrays and objects included |
| `JsonReader.CanonicalRoundTrip` | apps/api/src/db/audit.ts:22-30 | reading the canonical text gives the value back with keys sorted and undefined fields dropped, and nothing is left over |
| `JsonReader.CanonicalInjective` | apps/api/src/db/audit.ts:22-30 | two values without an array that is just `[undefined]` have the same canonical text if and only if they have the same normal form |
| `JsonReader.CanonicalTextExactly` | apps/api/src/db/audit.ts:22-30 | for all values, holes, functions and objects with `toJSON` included: same canonical text if and only if same normal form after every array of a single slot that prints as nothing is read as `[]` |
| `JsonReader.LoneHoleCollides` | apps/api/src/db/audit.ts:22-30 | the one exception, shown concretely: `[undefined]`, an array of one function and `[]` are different values with one canonical text |
| `JsonStore.ColumnRoundTrip` | apps/api/src/db/audit.ts:72 | the text `JSON.stringify` stores for the metadata reads back to the document that was stored |
| `JsonStore.StoredIsDocument` | apps/api/src/db/audit.ts:72 | what is stored is a JSON document: no undefined anywhere, keys still unique |
| `JsonStore.StoredElemsAt` | apps/api/src/db/audit.ts:72 | array elements are stored in place, null for each that JSON cannot say |
| `JsonStore.CanonicalIffSameDocument` | apps/api/src/db/audit.ts:22-30 | on JSON documents canonical text forgets the order of object keys and nothing else (both directions) |
| `JsonStore.StoredAgrees` | apps/api/src/db/audit.ts:22-30 | the data written and the data stored are the same if and only if no array holds undefined or a function, no field a function, and every object with `toJSON` is turned into just the data of its own fields |
| `JsonStore.PlainStorable` | apps/api/src/db/audit.ts:22-30 | for data without `toJSON` objects that is having no undefined or function in an array and no function in a field |
| `JsonStore.DateNotStorable` | apps/api/src/db/audit.ts:22-30 | no date meets the condition, valid or not |
| `JsonStore.ReadBackAgreement` | apps/api/src/db/audit.ts:48-77 | canonical text at write time equals canonical text of anything the column may give back if and only if the value meets that condition |
| `HashChain.PayloadSplits` | apps/api/src/db/audit.ts:36-39 | a hashed text splits into head and body in one way only, whether the head is absent or 64 hex digits |
| `HashChain.HeadDeterminesBodies` | apps/api/src/db/audit.ts:32-40 | equal heads of two non-empty chains, of any lengths, mean equal bodies, or the walk back from the heads exhibits two distinct texts with one digest |
| `HashChain.CollisionWellFormed` | apps/api/src/db/audit.ts:36-39 | the exhibited texts are well-formed, so they differ as UTF-8 bytes too |
| `Audit.VerifyAuditChain` | apps/api/src/db/audit.ts:81-113 | the loop answers valid exactly when every row links to its predecessor and hashes to its stored hash, counts all rows, and otherwise names the first row that does not |
| `Audit.PrefixVerifies` | apps/api/src/db/audit.ts:96-112 | any prefix of a valid log is valid |
| `Audit.BodyDetermines` | apps/api/src/db/audit.ts:32-40 | two rows have one canonical body if and only if all their columns agree, metadata up to key order |
| `AuditReading.HashedExactly` | apps/api/src/db/audit.ts:36-39 | the digest is taken of the previous hash, or of the word `genesis`, followed by the canonical text |
| `AuditReading.BodyReads` | apps/api/src/db/audit.ts:53-61 | a reader of that text finds one object with exactly the seven names `organisationId` to `occurredAt`, nulls included, each with its own column's value |
| `AuditTamper.ChainHead` | apps/api/src/db/audit.ts:96-112 | the last stored hash of a valid log is the hash-chain head of its canonical contents |
| `AuditTamper.HeadDeterminesHistory` | apps/api/src/db/audit.ts:32-40 | two accepted logs that end in one hash have equal length and equal entries row by row, or an explicit collision is exhibited |
| `AuditTamper.WitnessWellFormed` | apps/api/src/db/audit.ts:36-39 | that collision is between well-formed texts |
| `AuditTamper.RewriteDetected` | apps/api/src/db/audit.ts:97-112 | replacing a row's content under its stored hashes is reported at that very row, or the two hashed texts collide |
| `AuditTamper.RewrittenWellFormed` | apps/api/src/db/audit.ts:36-39 | these two texts are well-formed, so they differ as bytes too |
| `AuditTamper.HashesDistinct` | apps/api/src/db/audit.ts:97-112 | no two rows of a valid log carry the same hash, or a collision is exhibited |
| `AuditTamper.RemovalDetected` | apps/api/src/db/audit.ts:97-112 | removing any row but the last is reported at its successor, or a collision is exhibited |
| `JsText.ThroughUtf8Exactly` | apps/api/src/db/audit.ts:62-77 | a text passes a text column, or the digest's UTF-8 encoding, unchanged if and only if it has no lone surrogate |
| `AuditStorage.BodiesAgree` | apps/api/src/db/audit.ts:32-40 | two contents hash the same text if and only if their columns agree and their metadata print alike, whatever values the metadata hold |
| `AuditStorage.BodyReadBack` | apps/api/src/db/audit.ts:96-106 | what is hashed on write is what is hashed on read if and only if both ids are in the form their `uuid` columns give back, no text has a lone surrogate and the metadata is storable |
| `AuditStorage.LowerCaseExactly` | packages/db/migrations/0001_foundation.sql:73-74 | a column that lower-cases keeps exactly the ids without an upper-case letter |
| `AuditAppend.WriteReadAgreement` | apps/api/src/db/audit.ts:50-61 | the hashed texts, heads included, agree if and only if the entry is written as it will be read, in that sense, for any `uuid` column |
| `AuditAppend.RowVerifies` | apps/api/src/db/audit.ts:61 | a row hashed as written passes when read if and only if it is written as it will be read or its two texts collide |
| `AuditAppend.AppendVerifies` | apps/api/src/db/audit.ts:42-78 | a log with one more appended row is valid if and only if it was valid before and the new entry is written as it will be read (or its two texts collide) |
| `AuditReading.AppendedRowReads` | apps/api/src/db/audit.ts:48-77 | the row an append adds: its number, the hash it links to, each column from its own field of the entry (absent metadata an empty object), and a hash of a text in which a reader finds the entry |
| `AuditAppend.HoleBreaksAgreement` | apps/api/src/db/audit.ts:50-61 | metadata `{x: [undefined]}` hashes differently on write and on read |
| `AuditAppend.DateBreaksAgreement` | apps/api/src/db/audit.ts:50-61 | metadata `{x: date}` does too, for any date |
| `AuditAppend.UpperCaseIdBreaksAgreement` | apps/api/src/modules/platform/subscriptions.ts:153-160 | suspending an organisation under an id with an upper-case letter, with metadata `{}`, does too |
| `AuditAppend.AuditLog.constructor` | apps/api/src/db/audit.ts:46-48 | an empty log is valid |
| `AuditAppend.AuditLog.AppendAudit` | apps/api/src/db/audit.ts:42-78 | adds exactly the one row that links to the old last row, keeps ids rising and every earlier row; the log is valid afterwards if and only if it was before and the entry is written as it will be read (or its two texts collide) |
| `AuditProtocol.StepKeepsInvariant` | apps/api/src/db/audit.ts:42-78 | every begin, lock, head read, insert, commit and rollback of any transaction keeps: the committed rows form one line in id order, and only the lock holder is inside an append or has uncommitted rows, which continue that line |
| `AuditProtocol.RunKeepsInvariant` | apps/api/src/db/audit.ts:42-78 | the invariant holds after any interleaving, and committed rows are only ever added to |
| `AuditProtocol.ReachableLogIsLinear` | apps/api/src/db/audit.ts:42-78 | in every reachable state the committed rows, in id order, each name the hash of the row before: one line, with id gaps, rollbacks, several appends per transaction and any metadata |
| `AuditProtocol.UncommittedRowsAreExclusive` | apps/api/src/db/pool.ts:30-43 | at most one open transaction at a time has appended rows it has not committed |
| `AuditProtocol.AppendCompletes` | apps/api/src/db/audit.ts:42-78 | from any state of the invariant in which the lock is free a new transaction can append and end: committed, exactly its row is added behind the last; rolled back, nothing is; the lock is free again |
| `AuditProtocol.LockIsReleased` | apps/api/src/db/audit.ts:44 | nobody waits for ever: whoever holds the lock can end its transaction, which frees it |
| `AuditProtocol.AppendsWait` | apps/api/src/db/audit.ts:44 | an append waits exactly while another transaction holds the lock |
| `AuditProtocol.RunRefinesLedger` | apps/api/src/db/audit.ts:42-78 | every run refines a ledger without locks, ids or hashes in which transactions post their entries whole, at commit |
| `AuditProtocol.CommittedLogIsTheLedger` | apps/api/src/db/pool.ts:30-43 | the committed rows record that ledger one to one: nothing lost, repeated, reordered or invented, nothing rolled back survives |
| `AuditProtocol.ReachableLogVerifiesExactly` | apps/api/src/db/audit.ts:42-113 | after any run the committed log passes verification if and only if every posted entry is written as it will be read: ids in column form, well-formed texts, storable metadata (or the two texts of its row collide) |
| `JsText.DecimalReads` | packages/proctor-protocol/src/index.ts:91 | the decimal text of a sequence number reads back to it and has no leading zero |
| `JsText.DigitsSpelled` | packages/proctor-protocol/src/index.ts:91 | in the digits of ASCII |
| `Proctor.TemplateSpelled` | packages/proctor-protocol/src/index.ts:90-92 | what is hashed is the previous head or nothing, a bar, the number in decimal, a bar and the timestamp |
| `Proctor.VerifyChain` | packages/proctor-protocol/src/index.ts:96-102 | the loop accepts exactly when the hash-chain head of the sorted events is the claimed one (never for no events) |
| `Proctor.LinkIsPayload` | packages/proctor-protocol/src/index.ts:89-93 | the UTF-8 view of the whole template string is the previous head followed by the delimited text, the timestamp in its UTF-8 view |
| `Proctor.BodyDetermines` | packages/proctor-protocol/src/index.ts:88-93 | the delimited text of an event determines its number and its timestamp, as far as UTF-8 tells timestamps apart, and nothing else |
| `Proctor.HeadDeterminesEvents` | packages/proctor-protocol/src/index.ts:95-102 | two event lists accepted for one head hold the same events in the same order as far as UTF-8 tells them apart, or two distinct well-formed texts with one digest are exhibited |
| `Proctor.WitnessWellFormed` | packages/proctor-protocol/src/index.ts:89-93 | the exhibited texts are well-formed for any events |
| `Proctor.BodiesDetermine` | packages/proctor-protocol/src/index.ts:95-102 | conversely lists that UTF-8 does not tell apart have the same bodies, hence the same head |
| `Proctor.WellFormedSeen` | packages/proctor-protocol/src/index.ts:95-102 | without lone surrogates in timestamps, as far as UTF-8 tells means equal |
| `Proctor.LoneSurrogatesUnseen` | packages/proctor-protocol/src/index.ts:88-102 | two different lists, differing in a lone surrogate, that no head tells apart |
| `Proctor.SortedMembers` | packages/proctor-protocol/src/index.ts:98 | sorting neither loses nor invents events |
| `Proctor.SortedRising` | packages/proctor-protocol/src/index.ts:98 | and puts them in order of their numbers, none before a smaller one, events of one number in the order they came in |
| `Proctor.ArrivalOrderIrrelevant` | packages/proctor-protocol/src/index.ts:98 | with distinct sequence numbers the order of arrival does not change what is hashed |
| `Proctor.AcceptedRuns` | packages/proctor-protocol/src/index.ts:80-86 | from a completed prefix of the sequence, attempts are accepted if and only if they continue the fixed order |
| `Proctor.TerminateExactly` | packages/proctor-protocol/src/index.ts:80-86 | `terminate` is allowed if and only if seven steps are completed, whichever they are; a concrete list of seven wrong ones shows the order is not checked |
| `Proctor.ShutdownOrder` | packages/proctor-protocol/src/index.ts:80-86 | attempts from nothing go through exactly for the beginnings of the eight steps as listed |
| `Proctor.ShutdownRefusal` | packages/proctor-protocol/src/index.ts:80-86 | a refusal names the step expected, or `terminate` when none is left |
| `Base32.Base32Encode` | packages/identity/src/totp.ts:11-25 | the loop over the unmasked 32-bit accumulator computes the plain regrouping of the input's bit stream in fives, the last group zero-filled |
| `Base32.Base32Decode` | packages/identity/src/totp.ts:27-43 | the loop computes the regrouping of the symbols' bit stream in eights, and fails exactly when some symbol is not in the alphabet |
| `Base32Laws.EncodedBits` | packages/identity/src/totp.ts:11-25 | the symbols written carry the input bits, filled up with zeros to a multiple of five |
| `Base32Laws.EncodedNumber` | packages/identity/src/totp.ts:11-25 | the text, a numeral to the base 32 by the places of its symbols, is the bytes, a numeral to the base 256, times the power of two that fills the last symbol |
| `Base32Laws.DecodedNumber` | packages/identity/src/totp.ts:27-43 | the decoded bytes, a numeral to the base 256, are the text, a numeral to the base 32, divided by the power of two of the bits left over |
| `Base32Laws.AlphabetOrder` | packages/identity/src/totp.ts:9 | the symbols are A to Z, then 2 to 7 |
| `Base32Laws.DecodeEncoded` | packages/identity/src/totp.ts:11-43 | decoding what was encoded gives the bytes back, for every byte string; the text has ceil(8n/5) symbols |
| `Base32Laws.Base32RoundTrip` | packages/identity/src/totp.ts:9-43 | the same through upper-casing and padding removal with the actual alphabet |
| `Base32Laws.PaddingIgnored` | packages/identity/src/totp.ts:28 | any amount of `=` at the end changes nothing |
| `Base32Laws.PaddingExactly` | packages/identity/src/totp.ts:28 | what is stripped is the `=` at the end, all of it and nothing else |
| `Base32Laws.CaseIgnored` | packages/identity/src/totp.ts:28 | ASCII case changes nothing |
| `Base32Laws.ReencodeExactly` | packages/identity/src/totp.ts:11-43 | re-encoding what a text decodes to gives the text back if and only if fewer than five bits are left over and all are zero |
| `Base32Laws.Base32Image` | packages/identity/src/totp.ts:11-43 | an accepted string is what its bytes encode to if and only if it is upper-case and unpadded, its length mod 8 is 0, 2, 4, 5 or 7, and its leftover bits are zero |
| `Redaction.ClassesSpelled` | packages/ai-gateway/src/redaction.ts:15 | the character classes of the pattern and of its word boundary, by their characters |
| `Redaction.ShapeSpelled` | packages/ai-gateway/src/redaction.ts:15 | the least text of the shape, and five that fall short of it by one character |
| `Redaction.MatchIsEmail` | packages/ai-gateway/src/redaction.ts:15 | what the greedy, backtracking matcher finds at a position has the e-mail shape |
| `Redaction.MatchIsLongest` | packages/ai-gateway/src/redaction.ts:15 | it finds a match wherever there is one and the longest there is: backtracking misses nothing |
| `Redaction.FoundExactly` | packages/ai-gateway/src/redaction.ts:24-27 | the search reports a match exactly when some stretch of the text has the e-mail shape |
| `Redaction.SearchIsLeftmostLongest` | packages/ai-gateway/src/redaction.ts:24-27 | the stretches replaced are the leftmost, longest, non-overlapping ones, and none is left out |
| `Redaction.NameFoundExactly` | packages/ai-gateway/src/redaction.ts:32-33 | the next occurrence of a name found is the first there is |
| `Redaction.NameExactly` | packages/ai-gateway/src/redaction.ts:32 | an occurrence is the folded name where no word goes on at an end that is a word character, and one does at an end that is not |
| `Redaction.NameSearchIsLeftmost` | packages/ai-gateway/src/redaction.ts:32-35 | the stretches replaced by a name pass are the leftmost, non-overlapping whole-word occurrences, and none is left out |
| `Redaction.OnlySpansReplaced` | packages/ai-gateway/src/redaction.ts:24-35 | input and output of a pass are the same pieces in the same order, woven with what is cut out and with as many tokens |
| `Redaction.BracketSeparates` | packages/ai-gateway/src/redaction.ts:15 | no e-mail reaches across a bracket, so joining clean texts at a token's bracket gives a clean text |
| `Redaction.EmailPassIsClean` | packages/ai-gateway/src/redaction.ts:24-27 | after the e-mail pass no stretch of the text has the e-mail shape |
| `Redaction.NamePassIsClean` | packages/ai-gateway/src/redaction.ts:32-36 | a name pass over a clean text leaves it clean, whatever the name |
| `JsText.TrimExactly` | packages/ai-gateway/src/redaction.ts:30 | trimming cuts white space off both ends, all of it and nothing else; it leaves nothing exactly of blank names |
| `Redaction.RedactPii` | packages/ai-gateway/src/redaction.ts:21-40 | for every text and list of names there is a trace from the input to the result: first the leftmost longest e-mails, then in turn the leftmost occurrences of each trimmed name that is not empty, cut out and replaced by `[REDACTED_EMAIL]` and `[REDACTED_NAME]`, everything else kept; no stretch of the result has the e-mail shape; `email` is reported exactly when the input held one, `name` exactly when some name was found in its turn |
| `JsText.SpacesSpelled` | packages/ai-gateway/src/redaction.ts:30 | the white space that is cut, by its code units |
| `Redaction.EscapedIsLiteral` | packages/ai-gateway/src/redaction.ts:17-19 | escaping leaves no pattern operator alive: the pattern stands for the name itself |
| `Redaction.SpecialsSpelled` | packages/ai-gateway/src/redaction.ts:18 | the characters escaped are exactly the fourteen operators of the pattern language |
| `RateLimit.InMemoryRateLimitStore.constructor` | apps/api/src/modules/rate-limit.ts:23-24 | a store starts without buckets |
| `RateLimit.InMemoryRateLimitStore.Consume` | apps/api/src/modules/rate-limit.ts:26-43 | one call replaces the bucket of its key as specified and answers from the topped-up level; the bucket of no other key changes |
| `RateLimit.KeysIndependent` | apps/api/src/modules/rate-limit.ts:26-43 | over any run the answers on a key and its bucket are those of the run restricted to that key |
| `RateLimit.StoreAnswers` | apps/api/src/modules/rate-limit.ts:26-43 | the store's i-th answer on a key, in any run over any keys, is that of the key's own bucket fed with the calls on that key alone |
| `RateLimit.StoreAnswersExactly` | apps/api/src/modules/rate-limit.ts:26-43 | the answers in any run over any keys, exactly and from the answers before alone: a call is allowed if and only if in no window ending with it the calls allowed would exceed capacity + rate * elapsed seconds (nor what a bucket already there held and was refilled); a denied call is told the least whole number of seconds, at least 1, after which there is room, or that there never is |
| `RateLimit.StoreBurst` | apps/api/src/modules/rate-limit.ts:29-39 | the first calls on a new key are all allowed, as many as the capacity holds |
| `RateLimit.LevelIsLeastRoom` | apps/api/src/modules/rate-limit.ts:33-38 | the level a call finds is the least room of all windows ending there: no greater than any, and equal to one |
| `RateLimit.BalanceExactly` | apps/api/src/modules/rate-limit.ts:33-38 | while a bucket does not overflow, the tokens there were and those refilled are the calls allowed and the tokens left |
| `RateLimit.OverflowFills` | apps/api/src/modules/rate-limit.ts:34-38 | a call that finds it overflowing finds it full |
| `RateLimit.StoreBucket` | apps/api/src/modules/rate-limit.ts:27-38 | the bucket the store keeps for a key after a run is the one its own calls make |
| `RateLimit.EarnedPerMillisecond` | apps/api/src/modules/rate-limit.ts:33-34 | a thousandth of the rate is refilled each millisecond |
| `RateLimit.LevelBounded` | apps/api/src/modules/rate-limit.ts:33-38 | between calls the level stays in [0, capacity] and the refill instant is that of the last call |
| `RateLimit.WindowBound` | apps/api/src/modules/rate-limit.ts:33-41 | between the i-th and the j-th call the calls allowed number at most capacity + rate * elapsed seconds, even together with the tokens left |
| `RateLimit.StoreWindowBound` | apps/api/src/modules/rate-limit.ts:26-43 | in any run over any keys, the calls the store allows on a key from its i-th to its j-th number at most capacity + rate * elapsed seconds |
| `RateLimit.LazyLevel` | apps/api/src/modules/rate-limit.ts:33-35 | a bucket refilled at any number of extra instants has the lazy bucket's level, topped up |
| `RateLimit.LazyIsEager` | apps/api/src/modules/rate-limit.ts:33-35 | and gives each call the answer the lazy bucket gives it |
| `RateLimit.DeniedOnlyTops` | apps/api/src/modules/rate-limit.ts:33-42 | denied calls do nothing to a bucket but top it up |
| `RateLimit.AllowedExactlyWhenRefilled` | apps/api/src/modules/rate-limit.ts:33-42 | after denials only, a call is allowed if and only if the deficit has been refilled by then |
| `RateLimit.DenialLeavesDeficit` | apps/api/src/modules/rate-limit.ts:41-42 | a denied call leaves less than one token and computes its answer from what it leaves |
| `RateLimit.StoreRetryAfter` | apps/api/src/modules/rate-limit.ts:41-42 | in any run over any keys: after the store denies the i-th call on a key with w seconds and denies those before the j-th, the j-th is allowed from w seconds on and denied up to w - 1 seconds when w exceeds 1 |
| `RateLimit.RetryAfterIsTight` | apps/api/src/modules/rate-limit.ts:41-42 | waiting `retryAfterSeconds` is enough, and one second less is too early whenever it exceeds 1 (capacity at least 1, positive rate) |
| `Bands.BandForIndex` | packages/assessment-framework/src/scoring.ts:86-93 | the loop over the stably sorted list finds the band that a definition over the unsorted list determines, ties and the empty list included |
| `Bands.SortAscending` | packages/assessment-framework/src/scoring.ts:87 | the sort is a permutation in which no bound comes before a lower one |
| `Bands.SortKeepsChoice` | packages/assessment-framework/src/scoring.ts:87-91 | sorting the bands, ties in place, does not change which one is chosen |
| `Bands.ChosenFits` | packages/assessment-framework/src/scoring.ts:86-93 | the chosen band has the greatest lower bound not above the index, or the lowest bound of all when every bound is above it |
| `Bands.BandNamed` | packages/assessment-framework/src/scoring.ts:86-93 | the band named is the last listed of the greatest lower bounds not above the index; when all are above it the first listed of the lowest; `Unbanded` when there is none |
| `Bands.OrderOfBandsIrrelevant` | packages/assessment-framework/src/scoring.ts:86-93 | with distinct lower bounds the order in which the bands are listed does not matter |
| `Bands.ChosenMonotone` | packages/assessment-framework/src/scoring.ts:86-93 | a higher index never lands in a band with a lower bound |
| `Scoring.FillById` | packages/assessment-framework/src/scoring.ts:141-147 | the map holds every assessment under its criterion, or the first criterion that comes up twice is named |
| `Scoring.CheckKnown` | packages/assessment-framework/src/scoring.ts:148-155 | every id is known, or the first unknown one is named |
| `Scoring.Evaluate` | packages/assessment-framework/src/scoring.ts:136-262 | a profile comes out exactly for distinct, known ids; else the error names the first offender, duplicates before unknown ids |
| `Scoring.ErrorsAreFailures` | packages/assessment-framework/src/scoring.ts:141-155 | each error excludes success: it means precisely what success lacks |
| `ScoringProfile.CriteriaTell` | packages/assessment-framework/src/scoring.ts:101-187 | each criterion of a profile, read off its assessment: scored exactly when adjudicated, or given by a reviewer and not disputed; the score adjudicated, else the mean of those given; the flags, and what no assessment leaves |
| `ScoringProfile.RouteExactly` | packages/assessment-framework/src/scoring.ts:233-243 | adjudicate first exactly when some two reviewers differ by the trigger with nobody having adjudicated; otherwise ready for review exactly when both coverages reach their minimum |
| `ScoringProfile.CoverageTells` | packages/assessment-framework/src/scoring.ts:180-187 | the coverages are the share of the weight that is scored, and the share of that which has a note, to the nearest ten-thousandth, and zero of nothing |
| `ScoringProfile.ScoredCoverageEnds` | packages/assessment-framework/src/scoring.ts:180-187 | scored coverage is 0 when nothing is scored and 1 when everything is; it is 0 exactly when under a 20000th of the weight is scored, and 1 exactly when no more than that is missing |
| `ScoringProfile.NoteCoverageEnds` | packages/assessment-framework/src/scoring.ts:180-187 | the same of notes among the scored criteria |
| `ScoringProfile.LittleWeightUncovered` | packages/assessment-framework/src/scoring.ts:180-187 | a concrete template in which a scored criterion leaves scored coverage at 0 |
| `ScoringProfile.CoverageMonotone` | packages/assessment-framework/src/scoring.ts:180-187 | scoring more never lowers scored coverage; noting more of the same scored criteria never lowers note coverage |
| `ScoringProfile.OverallTells` | packages/assessment-framework/src/scoring.ts:189-197 | the overall index is the weighted mean of the scores moved to 0..1, to the nearest ten-thousandth, null when nothing is scored, and its band the one it falls in |
| `ScoringProfile.DimensionsTell` | packages/assessment-framework/src/scoring.ts:199-224 | each dimension's summary, in order, is that of the criteria which name it: weights, index, band |
| `ScoringProfile.ListsTell` | packages/assessment-framework/src/scoring.ts:226-231 | concerns and required adjudications list their criteria all and in order |
| `ScoringIndex.IndicesInUnit` | packages/assessment-framework/src/scoring.ts:189-210 | with positive weights and scores from 1 to 5, the overall index and every dimension index that is not null lie between 0 and 1 |
| `ScoringIndex.Partition` | packages/assessment-framework/src/scoring.ts:200-201 | the weighted sums split into one dimension's part and the rest |
| `ScoringIndex.SomeDimensionPulls` | packages/assessment-framework/src/scoring.ts:189-210 | on either side of the overall quotient there is a dimension with scored criteria |
| `ScoringIndex.OverallBetweenDimensions` | packages/assessment-framework/src/scoring.ts:189-224 | when every criterion's dimension is in the model, the rounded overall index lies between two rounded dimension indices of the profile |
| `ScoringIndex.RaisedAssessments` | packages/assessment-framework/src/scoring.ts:101-130 | raising reviewers' scores without moving a criterion in or out of adjudication raises no final score downwards and scores the same criteria |
| `ScoringIndex.RaisingNeverLowers` | packages/assessment-framework/src/scoring.ts:86-93 | raising scores while the same criteria stay scored lowers neither the overall index, nor any dimension index, nor the lower bound of the band chosen for it |
| `ScoringReview.RequiredIds` | packages/assessment-framework/src/scoring.ts:229-231 | the list of required adjudications names exactly the template's criteria whose reviewers differ by the trigger and have no adjudicated score |
| `ScoringReview.AdjudicationSettles` | packages/assessment-framework/src/scoring.ts:101-130 | supplying an adjudicated score for every required id empties the list, leaves every other resolution as it was and never lowers the scored coverage |
| `ScoringReview.CriticalityDoesNotSteer` | packages/assessment-framework/src/scoring.ts:157-243 | changing critical flags or the threshold changes only flags and concerns: no index, band, coverage, adjudication or route |
| `ScoringReview.ConcernsExactly` | packages/assessment-framework/src/scoring.ts:226-228 | the concerns are exactly the critical criteria scored at or below the threshold |
| `ScoringReview.OrderIrrelevant` | packages/assessment-framework/src/scoring.ts:141-155 | reordering the assessments changes neither the kind of outcome nor the profile |
| `Queue.Outbox.constructor` | apps/api/src/modules/notifications/queue.ts:19-26 | an outbox starts empty beside a valid log |
| `Queue.Outbox.Enqueue` | apps/api/src/modules/notifications/queue.ts:19-26 | one row is added, as its columns give it back: queued, no attempts, due at once; the others stay |
| `Queue.Outbox.ProcessRows` | apps/api/src/modules/notifications/queue.ts:66-110 | the loop leaves table, log and report as the answers determine row by row |
| `Queue.Outbox.ProcessRow` | apps/api/src/modules/notifications/queue.ts:67-108 | one answer makes exactly one row sent, failed with its backoff, or dead-lettered at the fifth failure, and leaves the matching audit entry or none |
| `Queue.Outbox.Append` | apps/api/src/modules/notifications/queue.ts:71-95 | each audit entry of the queue is appended in keeping with the chain |
| `Queue.Outbox.ProcessOutboundQueue` | apps/api/src/modules/notifications/queue.ts:43-111 | every row taken is counted once, as sent without an error, as dead-lettered at the fifth; the audit log gains exactly sent + dead-lettered rows and stays a valid chain; the settled rows grow by the same number; table and log are as the answers determine |
| `Queue.RowsAfter` | apps/api/src/modules/notifications/queue.ts:67-108 | a batch changes each row it answers for by its own answer and no other row |
| `Queue.EntriesAuditable` | apps/api/src/modules/notifications/queue.ts:71-95 | every entry the queue writes to the audit log is written as it will be read, so none breaks the chain |
| `Queue.EveryRowCounted` | apps/api/src/modules/notifications/queue.ts:66-110 | sent + failed + dead-lettered is the number of rows taken, and sent those without an error |
| `Queue.FifthErrorsCounted` | apps/api/src/modules/notifications/queue.ts:79-96 | dead-lettered are the rows whose error is at least their fifth |
| `Queue.TrailGrowth` | apps/api/src/modules/notifications/queue.ts:71-96 | a batch leaves exactly as many audit entries as rows sent or given up |
| `Queue.SettledGrowth` | apps/api/src/modules/notifications/queue.ts:66-110 | so does the number of rows that are sent or dead |
| `Queue.BatchExists` | apps/api/src/modules/notifications/queue.ts:57-64 | whatever the table, the instant, the batch size and the locks, the query has an answer of the kind assumed |
| `Queue.BatchSpelled` | apps/api/src/modules/notifications/queue.ts:57-64 | such an answer holds at most a batch of queued or failed rows whose time has come, none locked, and leaves out no other unless the batch is full of rows no younger |
| `Queue.FaithfulExists` | apps/api/src/db/audit.ts:62-77 | columns of the kind assumed exist |
| `QueueRuns.InsertsAreSteps` | apps/api/src/modules/notifications/queue.ts:19-26 | every insert is a step of the runs below, each field of the row from its own argument |
| `QueueRuns.QueryBatchesAreSteps` | apps/api/src/modules/notifications/queue.ts:57-64 | every batch the query may return is a step of the runs below |
| `QueueRuns.AttemptsBounded` | apps/api/src/modules/notifications/queue.ts:79-107 | in every run attempts never exceed five, a row is dead exactly at five, queued rows have none and failed rows at least one |
| `QueueRuns.SettledForever` | apps/api/src/modules/notifications/queue.ts:57-64 | once sent or dead, a row stays as it is and no later batch processes it |
| `QueueRuns.RunRemembers` | apps/api/src/modules/notifications/queue.ts:80-106 | a row's attempts count its failures, consecutive failures keep their backoff apart, and its next attempt is due one backoff after the last |
| `QueueRuns.RowHistory` | apps/api/src/modules/notifications/queue.ts:67-108 | in every run a row is exactly what its own tries have made of the message inserted: unchanged but for status, attempts, last error and times; sent at the first success, dead at the fifth failure, failed before that with the next try 60, 120, 240 or 480 seconds after the last |
| `QueueRuns.FailuresBackOff` | apps/api/src/modules/notifications/queue.ts:98-106 | the k-th failure of a row comes at least 60 * (2^(k-1) - 1) seconds after the first |
| `QueueRuns.BatchDrains` | apps/api/src/modules/notifications/queue.ts:66-110 | every row a batch processes takes at least one from the sum of 5 - attempts over live rows |
| `QueueRuns.RunDrains` | apps/api/src/modules/notifications/queue.ts:28-107 | over any run the rows processed and what remains come to at most five for each message enqueued |
| `QueueRuns.DrainedMeansSettled` | apps/api/src/modules/notifications/queue.ts:28-107 | that sum is zero exactly when every row is sent or dead |
| `QueueRuns.OneEntryEach` | apps/api/src/modules/notifications/queue.ts:71-96 | over any run every message that is sent or dead has exactly one audit entry, and no other has any |
| `QueueRuns.EntriesTell` | apps/api/src/modules/notifications/queue.ts:71-96 | each entry of a run is about its own message and organisation, names no actor, and says for good what became of it: `notification.sent` for one sent, with its type, `notification.dead_lettered` for one given up, with its type and the five attempts |
| `QueueRuns.RunLogGrows` | apps/api/src/modules/notifications/queue.ts:66-110 | each batch takes the audit log of the run before it to that of the run with it |
| `QueueRuns.RunLogValid` | apps/api/src/modules/notifications/queue.ts:66-110 | after any run that log is a valid chain with one row for each settled message |
| `StateMachines.TerminalMeansStuck` | packages/assessment-framework/src/state-machines.ts:116-151 | the listed terminal states are exactly those no event leaves |
| `StateMachines.SuccessfulRuns` | packages/assessment-framework/src/state-machines.ts:116-151 | a run from `created` issues a report if and only if it is present, acknowledge, start, any number of pause-resume pairs, submit, begin review, finalise, issue |
| `StateMachines.NothingWithoutAcknowledgement` | packages/assessment-framework/src/state-machines.ts:121-127 | any run that gets past disclosure without being withdrawn or expired begins with presenting and acknowledging it |
| `StateMachines.AfterSubmission` | packages/assessment-framework/src/state-machines.ts:143-146 | once submitted, there is one way to the report from each state |
| `StateMachines.EndedRuns` | packages/assessment-framework/src/state-machines.ts:116-151 | a run is withdrawn, or expires, exactly by that event in a session not yet submitted, and is invalidated exactly by that event between start and the end of review |
| `StateMachines.FirstRefusal` | packages/assessment-framework/src/state-machines.ts:36-42 | a run fails at its first event that is not allowed, naming the event and the state it was met in |
| `SessionV2.FinalMeansStuck` | packages/v2-contracts/src/session.ts:64-104 | exactly `finalised`, `expired` and `withdrawn` have no way out |
| `SessionV2.SuccessfulRuns` | packages/v2-contracts/src/session.ts:64-104 | a run from `invited` is finalised if and only if it is the fixed way in, any number of the four detours back to `active`, and the fixed way out |
| `SessionV2.StartedNeverExpires` | packages/v2-contracts/src/session.ts:64-88 | from `active` or any later state no run expires |
| `SessionV2.ActiveNeverExpires` | packages/v2-contracts/src/session.ts:64-88 | no run that has been through `active` ends in `expired` |
| `SessionV2.EndedRuns` | packages/v2-contracts/src/session.ts:64-88 | a run is withdrawn exactly by that event up to `active` and not in a pause, and expires exactly by that event before it is started |
| `SessionV2.FirstRefusal` | packages/v2-contracts/src/session.ts:100-104 | a run fails at its first event that is not allowed, naming the event and the state it was met in |

## Left out

- The digest itself, HMAC, HOTP and TOTP, secret generation and constant-time comparison.
- Metadata the serialiser throws on, big integers and cyclic values; numbers are represented by the decimal text JavaScript prints for them, and what `toJSON` returns is part of the value.
- Row ids are not covered by the hash and nothing is proved about changing them; removing the last rows of a log leaves a valid prefix (`Audit.PrefixVerifies`).
- Errors raised by the database, lock waits and deadlocks, mail sent by a transaction that later rolls back: committed steps only.
- SQL text, row-level security, triggers; values a column refuses (U+0000, lone surrogates inside `jsonb`, ids that are no UUIDs) raise an error and leave no row. Timestamps are taken to round-trip: `toISOString` and `timestamptz` both keep milliseconds.
- AuditStorage.ReadBack: the form in which `uuid` columns give ids back is a parameter, any function; lower-casing is the instance shown.
- Queue.Outbox.ProcessOutboundQueue: what the query returns is an argument, required to be a possible answer (`Queue.IsBatch`), since the order of rows created at one instant and the rows locked elsewhere are not the code's choice; message rows are addressed by position, the uuid being a field, and the loop and its body are methods of their own.
- Queue.Outbox.Append: how the `jsonb` column orders keys is a parameter, any function that gives the stored document back up to key order; the `uuid` column is any idempotent function to well-formed texts.
- QueueRuns.RunLogValid: in these runs only the queue writes to the audit log; other writers interleave in `AuditProtocol`.
- Proctor.VerifyChain: sequence numbers are non-negative integers that print without an exponent.
- RateLimit.InMemoryRateLimitStore.Consume: a bucket is a value in the map, so the aliasing of the bucket object is not modelled; the clock is an argument. A zero refill rate answers `Never`, the source's infinity. The test-only `reset` is left out.
- RateLimit.WindowBound: the clock is assumed not to run backwards (`RateLimit.StoreAnswersExactly` does without).
- Base32.Base32Decode: what upper-casing does outside ASCII is a parameter; `|` with cleared low bits is written as addition.
- Redaction.RedactPii: how the `i` flag folds case is a parameter; whether the words around a name are complete in other scripts is what `\b` makes of it and no more.
- Scoring.Evaluate: floating-point rounding error (reals are exact); the two loops are methods of their own and the rest, map and reduce expressions in the source, is the function `Scoring.ProfileOf`; free-text governance note and display constants.
- Retention jobs, idempotency keys, schema validation, the other lifecycle machines and `assertReportCanBeIssued`: little that spans operations.
