# Hackathon check-in and sponsor credits: a Dafny model

This project models the core of a hackathon event application. Admins register participants and
staff, define check-in types ("attendance" and others), and fill sponsor credit pools with codes.
Operations staff then scan each participant's QR token at the desk. The first attendance check-in
of a regular participant claims one free code from every active credit pool, in display order.
Participants see their codes on a dashboard, mark them redeemed, and save their certificate name once.

The model has one Dafny module per source file of that core. Around them sit a few shared modules:
`Schema` (the five tables and the constraints the database enforces), `Db` (a `Store` class holding
the tables), `Lookup` (`findFirst`), `Ordering` (`ORDER BY` on an integer key, and `filter`),
`Dedup` (the two-level skip rule of both bulk imports), `Text` (the JavaScript string built-ins)
and `Wrappers` (`Option`, `Result`).

Each server function is written the same way:

- A pure function `XSpec(t, ctx, …)` maps the tables before the call to the tables after it and
  to the `Response`. A response is the validator's issues, a thrown error message, or the result.
  The zod validator runs first, then the `requireAdmin`/`requireSession` gate, then the handler.
- A method on the `Store` performs the same steps with its loops (the claim loop, the import
  `forEach`, the batches of 100) and is proved equal to `XSpec`. It is also proved to keep the
  table constraints: unique ids, names and e-mails, unique (type, value) codes, unique
  (type, participant) records, and foreign keys.
- Lemmas on `XSpec` state what the source promises. Among them:
  - a check-in claims at most one code per active type and never takes another participant's code;
  - a second scan of the same participant and type is refused;
  - imports partition their rows into imported and skipped;
  - the certificate name can be saved only once;
  - deletes are guarded.

A universal credit type needs care. `createCreditType` stores the credit type row first. It then
builds `universalQuantity` code rows, each carrying the same upper-cased universal code, and
inserts them in batches of 100 (apps/web/src/apis/admin/credits.ts, lines 108-123). The `codes`
table is unique on (credit type, code value) (codes.sql.ts, line 26), so it accepts only one of
those rows. With a quantity of 2 or more, the first batch therefore fails with the driver's
constraint error, after the credit type row has already been stored. The lemmas
`Credits.UniversalReplicationRejected` and `Credits.ReplicationOutcome` state this.
A code's status is one of `unassigned`, `available` and `redeemed` (constant.ts, lines 53-58);
there is no `assigned` status. A participant's redeem mark sets or clears only `redeemedAt` and leaves the
status as it was.

## Model

| member | source | states |
|---|---|---|
| Constant.GenerateCodes | packages/core/src/config/constant.ts:10-12 | the code list has one entry per declared constant, holding that constant's `code`, in declaration order |
| Constant.CreateEnumObject | packages/core/src/config/constant.ts:14-18 | the enum object's keys are exactly the listed values and each maps to itself |
| Constant.CodeListsMatchDatatypes | packages/core/src/config/constant.ts:20-79 | the generated code lists are exactly participant/ops/admin, regular/vip, vip/ops/admin/regular, registered/checked_in, unassigned/available/redeemed (no "assigned"), attendance/meal and unique/universal, in declaration order |
| Auth.RequireSession | apps/web/src/apis/auth.ts:36-45 | fails with "No request context" without a request and "Unauthorized" without a session; otherwise returns the session |
| Auth.RequireRole | apps/web/src/apis/auth.ts:47-56 | session errors pass through; with a session it fails with "Forbidden" exactly when the role is not among the allowed roles, and otherwise returns the session |
| Auth.Includes | apps/web/src/apis/auth.ts:51 | the scan of the allowed list answers true exactly when the role is in the list |
| Auth.RequireAdmin | apps/web/src/apis/auth.ts:58-60 | admits exactly the sessions whose role is admin |
| Auth.RequireOpsOrAdmin | apps/web/src/apis/auth.ts:62-64 | admits exactly the sessions whose role is ops or admin |
| Auth.ParticipantRejected | apps/web/src/apis/auth.ts:58-64 | a participant session is refused by both gates with "Forbidden" |
| Auth.AdminGateStricter | apps/web/src/apis/auth.ts:58-64 | every session the admin gate admits is admitted by the ops gate |
| AuthRedirect.DashboardUrl | apps/web/src/utils/auth-redirect.ts:3-16 | admin lands on /admin, ops on /ops, participant on /dashboard, and exactly every other or missing role on / |
| AuthRedirect.LandingMatchesGates | apps/web/src/utils/auth-redirect.ts:6-12 | a role lands on /admin exactly when the admin gate admits it, and on /admin or /ops exactly when the ops gate admits it |
| AuthRedirect.EveryRoleLands | apps/web/src/utils/auth-redirect.ts:6-12 | no role of the enum falls through to / |
| CertificateExport.Sanitize | apps/web/src/utils/certificate-export.ts:24 | the code-unit replacement `replace(/[^a-z0-9]/gi, '-').toLowerCase()`: at least as long as the name and at most twice as long; SanitizeLength and SanitizeKeepsAlnum give the exact result |
| CertificateExport.SanitizeLength | apps/web/src/utils/certificate-export.ts:24 | the sanitised name has one character per UTF-16 code unit of the input, as the code-unit regex replaces unit by unit |
| CertificateExport.SanitizeCharShape | apps/web/src/utils/certificate-export.ts:24 | one character becomes itself lower-cased when it is an ASCII letter or digit, and otherwise one '-' per code unit it occupies |
| CertificateExport.SanitizeAppend | apps/web/src/utils/certificate-export.ts:24 | sanitising distributes over concatenation |
| CertificateExport.SanitizeSplit | apps/web/src/utils/certificate-export.ts:24 | sanitising a name around one of its characters is the sanitised part before it, that character's replacement and the sanitised part after it |
| CertificateExport.SanitizeBmp | apps/web/src/utils/certificate-export.ts:24 | a name inside the Basic Multilingual Plane keeps its length, and position k holds the lower-cased letter or digit or '-' |
| CertificateExport.EmojiBecomesTwoDashes | apps/web/src/utils/certificate-export.ts:24 | a character outside the Basic Multilingual Plane becomes two dashes: "a" followed by U+1F600 gives "a--" |
| CertificateExport.PdfFileName | apps/web/src/utils/certificate-export.ts:25 | the file name is "certificate-", the sanitised name and ".pdf", 16 characters longer than the name's UTF-16 length |
| CertificateExport.SanitizeCharset | apps/web/src/utils/certificate-export.ts:24 | the sanitised name holds only `[a-z0-9-]` |
| CertificateExport.SanitizeIdempotent | apps/web/src/utils/certificate-export.ts:24 | sanitising twice gives the same name as sanitising once |
| CertificateExport.SanitizeKeepsAlnum | apps/web/src/utils/certificate-export.ts:24 | the sanitised name is the replacements of the characters in order: an ASCII letter or digit becomes its lower-case form, any other character one '-', or two for a character outside the Basic Multilingual Plane |
| CertificateExport.AroundIndex | apps/web/src/utils/certificate-export.ts:24 | a name is what comes before position k, the character there, and what follows |
| CertificateName.ValidateCertificateName | packages/core/src/utils/certificate-name.ts:69-78 | valid exactly when the trimmed name is non-empty and at most 100 UTF-16 code units long; "Name cannot be empty" when it is empty, "Name must be 100 characters or less" when longer |
| CertificateName.ValidNameLength | packages/core/src/utils/certificate-name.ts:69-78 | a valid name holds between 1 and 100 characters |
| CertificateName.AstralNameRefused | packages/core/src/utils/certificate-name.ts:74-75 | 51 copies of U+1F600 are 51 characters but 102 code units, and are refused with the length message |
| CertificateName.AllAstral | packages/core/src/utils/certificate-name.ts:74 | a string made only of characters outside the Basic Multilingual Plane is twice as many code units as characters |
| CertificateName.SplitNameIntoTwoLines | packages/core/src/utils/certificate-name.ts:14-26 | for a single word the two lines put back together give the name |
| CertificateName.CutIndex | packages/core/src/utils/certificate-name.ts:17-18 | the number of leading characters that fit in the given code units never exceeds the name's length |
| CertificateName.CutIndexFits | packages/core/src/utils/certificate-name.ts:17-18 | the cut keeps the longest prefix that fits: at most the given code units, and one more character would exceed them |
| CertificateName.PrefixUnitsGrow | packages/core/src/utils/certificate-name.ts:17-18 | a longer prefix holds at least as many code units |
| CertificateName.CutWithinOne | packages/core/src/utils/certificate-name.ts:17-18 | a cut inside the string holds the requested code units or one fewer |
| CertificateName.CutAtBoundary | packages/core/src/utils/certificate-name.ts:17-18 | when a character boundary lies at the requested code units, the cut is there |
| CertificateName.CutNearPoint | packages/core/src/utils/certificate-name.ts:17-18 | both: the cut is at the requested point or one unit short, and exactly at it whenever a character boundary lies there |
| CertificateName.CutBmp | packages/core/src/utils/certificate-name.ts:17-18 | inside the Basic Multilingual Plane a cut at n code units is a cut after n characters |
| CertificateName.SingleWordSplit | packages/core/src/utils/certificate-name.ts:14-19 | a one-word name splits into a prefix and the rest that concatenate back to the name; the first line holds floor(length/2) UTF-16 code units whenever a character boundary lies there and one unit fewer otherwise; a name inside the Basic Multilingual Plane is cut after floor(length/2) characters |
| CertificateName.MultiWordSplit | packages/core/src/utils/certificate-name.ts:21-25 | with k >= 2 words the first line is the first floor(k/2) words joined by a space, the second the rest, and together they are all words joined by single spaces |
| CertificateName.MultiWordCollapsesRuns | packages/core/src/utils/certificate-name.ts:15-25 | with at least two words, the trimmed name is its words with its white-space runs between them, and the two lines joined by a space are the same words with every run collapsed to one space |
| CertificateName.ValidNameWordsNonEmpty | packages/core/src/utils/certificate-name.ts:14-78 | the white-space split of a valid name has no empty word |
| Text.Trim | packages/core/src/utils/certificate-name.ts:70 | `trim()`: the result is no longer than the input and neither starts nor ends with white space |
| Text.TrimSlice | packages/core/src/utils/certificate-name.ts:70 | the trimmed string is a contiguous slice of the input with only white space cut off on either side |
| Text.TrimIdempotent | packages/core/src/utils/certificate-name.ts:70 | trimming twice is trimming once |
| Text.ToLower | apps/web/src/utils/csv-parser.ts:30 | `toLowerCase()` (ASCII): same length, each character mapped to its lower-case form |
| Text.SplitWs | packages/core/src/utils/certificate-name.ts:15 | `split(/\s+/)`: at least one word, and no word contains white space; SplitWsRebuilds ties the words to the input |
| Text.SplitWsWordsNonEmpty | packages/core/src/utils/certificate-name.ts:15 | splitting a trimmed non-empty string gives no empty word |
| Text.SplitWsRebuilds | packages/core/src/utils/certificate-name.ts:15 | the words of `split(/\s+/)` are the input's own: one white-space run fewer than words, each run non-empty white space, and the words with the runs between them in order rebuild the input |
| Text.JoinInterleaves | packages/core/src/utils/certificate-name.ts:22-23 | `join(sep)` is the words with `sep` between each neighbouring pair |
| Text.SplitWsStep | packages/core/src/utils/certificate-name.ts:15 | at the first white space the input is the word before it, a white-space run and the shorter rest |
| Text.RunThenRest | packages/core/src/utils/certificate-name.ts:15 | a string starting with white space is its leading run followed by its trimmed rest |
| Text.InterleaveCons | packages/core/src/utils/certificate-name.ts:15 | rebuilding with one more word and run in front puts that word and run in front of the rest |
| Text.ToUpper | apps/web/src/apis/admin/credits.ts:266-269 | `toUpperCase`: same length, each character upper-cased |
| Text.ToUpperIdempotent | apps/web/src/apis/admin/credits.ts:266-269 | upper-casing twice is upper-casing once |
| Text.ToUpperEmpty | apps/web/src/apis/admin/credits.ts:96 | upper-casing gives the empty string exactly for the empty string, so `\|\| null` sees the same emptiness |
| Text.ToLowerIdempotent | apps/web/src/apis/admin/participants.ts:122 | lower-casing twice is lower-casing once |
| Text.NatToString | apps/web/src/apis/admin/checkins.ts:138 | the decimal text of the record count: non-empty and made of digits |
| Text.NatToStringInjective | apps/web/src/apis/admin/checkins.ts:138 | different counts give different messages |
| Text.Utf16Length | packages/core/src/utils/certificate-name.ts:74 | `length` counts UTF-16 code units: between the number of characters and twice that |
| Text.Utf16LengthBmp | packages/core/src/utils/certificate-name.ts:74 | the code-unit length equals the number of characters exactly when every character lies in the Basic Multilingual Plane |
| Text.Utf16LengthAppend | packages/core/src/utils/certificate-name.ts:74 | the code-unit length of a concatenation is the sum of the lengths |
| Qr.HexEncode | packages/core/src/business.server/events/events.ts:18 | `digest('hex')`: two lower-case hex digits per byte |
| Qr.HexDecode | packages/core/src/business.server/events/events.ts:66-67 | `Buffer.from(s, 'hex')`: at most one byte per two characters |
| Qr.HexRoundTrip | packages/core/src/business.server/events/events.ts:15-67 | decoding the hex rendering of any bytes gives those bytes back |
| Qr.CreateSignature | packages/core/src/business.server/events/events.ts:15-19 | `createSignature`: two lower-case hex digits per byte of the HMAC of `participantId + ":permanent"`, and hex decoding the signature gives that HMAC back |
| Qr.SignatureShape | packages/core/src/business.server/events/events.ts:15-19 | the signature of an id is 64 lower-case hex digits that decode to the HMAC-SHA256 of `id + ":permanent"` |
| Qr.Verify | packages/core/src/business.server/events/events.ts:39-81 | verification never fails other than with one of the five listed messages |
| Qr.Generate | packages/core/src/business.server/events/events.ts:29-37 | `generateQRCodeValue`: under the codec's round-trip laws, base64url decoding and JSON parsing the value gives back the payload of the id and its signature |
| Qr.VerifyGenerate | packages/core/src/business.server/events/events.ts:29-81 | under the codec's round-trip laws, verifying the generated value of an id accepts it with that id |
| Qr.VerifiedIff | packages/core/src/business.server/events/events.ts:44-77 | a value is accepted for an id exactly when it decodes to an object whose participantId is that id, whose type is "permanent" and whose signature decodes to the expected HMAC bytes |
| Qr.VerifyRejections | packages/core/src/business.server/events/events.ts:44-80 | undecodable input gives "Failed to decode QR value"; a non-object or an object missing participantId, type or signature gives "Invalid payload structure"; a non-string id or signature "Invalid payload types"; a type other than "permanent" "Invalid QR type"; signature bytes other than the expected ones "Invalid signature" |
| Schema.MintIdInjective | packages/core/src/drizzle.server/types.ts:6-9 | distinct serial numbers mint distinct row ids (the `cuidId` default) |
| Schema.MintedFresh | packages/core/src/drizzle.server/types.ts:6-9 | an id minted at or after the current serial is not among the ids minted before it |
| Schema.CodeRows | packages/core/src/business.server/events/schemas/codes.sql.ts:11-20 | a multi-row insert into codes creates one row per supplied row, in order, with a freshly minted id, the supplied type, value, URL and status, and NULL owner, assignment and redemption times |
| Schema.UniversalRows | apps/web/src/apis/admin/credits.ts:109-117 | the replication loop builds `universalQuantity` rows, each with the new type, the upper-cased universal code, its URL and status unassigned |
| Schema.UniversalRowsViolateUniqueness | packages/core/src/business.server/events/schemas/codes.sql.ts:26 | two or more replicated universal rows share one (credit type, code value) pair, so they break the unique constraint whatever the table already holds |
| Schema.DistinctAppend | packages/core/src/business.server/events/schemas/codes.sql.ts:26 | appending duplicate-free new keys to a duplicate-free key column keeps it duplicate-free |
| Db.Store.constructor | packages/core/src/drizzle.server/index.ts:3-14 | the store starts with five empty tables satisfying every constraint |
| Db.Store.Mint | packages/core/src/drizzle.server/types.ts:6-9 | minting returns an id never handed out before, advances the serial by one and changes no table |
| Db.Store.InsertCodesInBatches | apps/web/src/apis/admin/credits.ts:310-316 | the 100-row batch loop appends a prefix of the rows that is a whole number of batches; every batch goes through when the complete insert keeps the codes constraints, and a failing first batch leaves the table as it was |
| Db.ChunkedInsert | apps/web/src/apis/admin/credits.ts:310-316 | the batch loop over a value table: the result is the table plus a prefix of the rows, a multiple of 100 long when it stops early, and always satisfies the codes constraints |
| Db.NewRowsKeepCodesOk | packages/core/src/business.server/events/schemas/codes.sql.ts:11-26 | new rows of known credit types whose (type, value) keys are distinct among themselves and absent from the table keep every codes constraint |
| Db.CodesOkPrefix | packages/core/src/business.server/events/schemas/codes.sql.ts:11-26 | a prefix of an insert that keeps the codes constraints keeps them too |
| Dedup.AcceptedAt | apps/web/src/apis/admin/credits.ts:283-308 | the accepted input positions, increasing, each one a row the two-level check accepts |
| Dedup.Decide | apps/web/src/apis/admin/credits.ts:284-300 | a row is skipped as existing exactly when its key is stored, as a duplicate exactly when it is not stored but occurs earlier in the file, and accepted exactly when neither |
| Dedup.Skips | apps/web/src/apis/admin/credits.ts:283-298 | the skipped rows in input order, each with its position, key and the reason (already stored, or duplicate in the file) the check gives |
| Dedup.AcceptedKeys | apps/web/src/apis/admin/credits.ts:300-307 | the accepted keys are the input keys at the accepted positions, in order |
| Dedup.Partition | apps/web/src/apis/admin/credits.ts:283-308 | every input row is either accepted or skipped: the two counts add up to the input length |
| Dedup.AcceptedKeysFresh | apps/web/src/apis/admin/credits.ts:284-300 | the accepted keys are pairwise distinct and none of them is already stored |
| Dedup.AcceptedIff | apps/web/src/apis/admin/credits.ts:284-300 | a row is accepted exactly when its key is not stored and does not occur earlier in the file |
| Dedup.AcceptedComplete | apps/web/src/apis/admin/credits.ts:284-300 | every key of the file that is not stored is accepted once (its first occurrence) |
| Ordering.SortBy | apps/web/src/apis/admin/credits.ts:20 | `ORDER BY display_order`: the result is sorted by the key and is a permutation of the rows |
| Ordering.Insert | apps/web/src/apis/admin/credits.ts:20 | inserting into a sorted sequence keeps it sorted and adds exactly the one element |
| Ordering.SortByMembers | apps/web/src/apis/admin/credits.ts:20 | sorting keeps exactly the rows it was given |
| Ordering.Filter | apps/web/src/apis/ops/checkin.ts:134-138 | a WHERE filter keeps exactly the rows that satisfy the condition |
| Ordering.FilterKeepsDistinct | apps/web/src/apis/ops/checkin.ts:134-138 | filtering a column of distinct keys keeps them distinct |
| Ordering.FilterAppend | apps/web/src/apis/ops/checkin.ts:134-138 | filtering distributes over concatenation |
| Logging.Prefix | packages/core/src/utils/logging.ts:46-47 | the level label is the first four characters of the level name (the whole name when shorter) |
| Logging.PreProcessLog | packages/core/src/utils/logging.ts:44-50 | the header line is five punctuation characters longer than the timestamp, the level label and the rendered message together |
| Logging.PreProcessLogShape | packages/core/src/utils/logging.ts:44-50 | the header line opens with the bracketed timestamp and a space, and ends with the rendered message |
| Logging.Prefixes | packages/core/src/utils/logging.ts:13-20 | the six labels are TRAC, DEBU, INFO, WARN, ERRO and FATA |
| Logging.SafeSerialize | packages/core/src/utils/logging.ts:24-35 | the JSON text when serialising succeeds, else the `String` rendering, else "[Unserializable]" |
| Logging.ProcessLog | packages/core/src/utils/logging.ts:37-42 | an error renders as its message; any other value as its safe serialisation |
| Logging.ContinuationAppend | packages/core/src/utils/logging.ts:63-64 | each further message adds " => " and its rendering at the end, in order |
| Logging.DisplayShape | packages/core/src/utils/logging.ts:44-65 | the displayed line is `[timestamp] PREFIX: first` followed by " => " and the rendering of each later message |
| Logging.Display | packages/core/src/utils/logging.ts:57-69 | the line the loop builds is empty exactly when there are no messages |
| Logging.LogStep | packages/core/src/utils/logging.ts:59-69 | one loop step: the first message starts the line, a later one extends it, and an error message adds one stack write |
| Logging.Route | packages/core/src/utils/logging.ts:71-81 | TRACE and DEBUG go to `console.log`, INFO to `info`, WARNING to `warn`, ERROR and FATAL to `error`, and only so |
| Logging.StackCalls | packages/core/src/utils/logging.ts:66-68 | at most one stack write per message, all to `console.error` |
| Logging.Log | packages/core/src/utils/logging.ts:52-82 | a dropped call writes nothing; otherwise the error stacks in message order, then the routed writer with the whole line |
| Logging.DroppedIff | packages/core/src/utils/logging.ts:53-55 | a call is dropped exactly when the level is TRACE outside development |
| Logging.NoErrorsOneCall | packages/core/src/utils/logging.ts:66-68 | without error values no stack is written |
| CsvParser.TransformHeader | apps/web/src/utils/csv-parser.ts:30 | a header is trimmed and lower-cased, and the result is already lower case |
| CsvParser.Headers | apps/web/src/utils/csv-parser.ts:43 | the header list is the lower-cased field names, or empty when the parser reports none |
| CsvParser.HeaderRecognised | apps/web/src/utils/csv-parser.ts:30-55 | a raw header that trims and lower-cases to a required column name is found by the column check |
| CsvParser.LumaId | apps/web/src/utils/csv-parser.ts:72 | the `luma_id` cell, or `lumaid` when that is empty, trimmed; empty after trimming is absent |
| CsvParser.RowError | apps/web/src/utils/csv-parser.ts:80-89 | no error exactly when the email is present and well-formed and the name present |
| CsvParser.ParseRowValidity | apps/web/src/utils/csv-parser.ts:69-89 | the row number is index + 1, email and name are trimmed cells, a row is valid exactly when it has no error, and the error is "Email is required", then "Invalid email format", then "Name is required", in that precedence |
| CsvParser.ParseRow | apps/web/src/utils/csv-parser.ts:69-89 | the row number is index + 1; a row is valid exactly when it has no error, and a valid row has a non-empty, well-formed e-mail and a non-empty name |
| CsvParser.EmailFormatShape | apps/web/src/utils/csv-parser.ts:24 | an accepted email has no white space and an '@' with characters before it and a dotted domain after it |
| CsvParser.EmailFormat | apps/web/src/utils/csv-parser.ts:24 | an accepted e-mail has characters before its first '@', at least four from it on, no white space, and no other '@' |
| CsvParser.FirstAt | apps/web/src/utils/csv-parser.ts:24 | the position of the first '@', or the length when there is none |
| CsvParser.EmailFormatAccepts | apps/web/src/utils/csv-parser.ts:24 | the pattern accepts a plain address such as a@b.co |
| CsvParser.CountValid | apps/web/src/utils/csv-parser.ts:91-95 | the number of valid rows, at most the number of rows; zero exactly when no row is valid and all of them exactly when every row is |
| CsvParser.ParseRows | apps/web/src/utils/csv-parser.ts:65-98 | the row loop keeps input order, parses row i with number i + 1, and counts valid and invalid rows so that the counts add up to the rows |
| CsvParser.ParseParticipantsCsv | apps/web/src/utils/csv-parser.ts:26-106 | a parse error with no data fails first, then a missing email column, then a missing name column, each with no rows; otherwise every record is parsed in order and validCount is the number of valid rows |
| Claims.FirstFree | apps/web/src/apis/ops/checkin.ts:141-152 | the first code in table order of the given type that is unassigned and has no owner, or the table length when there is none |
| Claims.FirstFreeFound | apps/web/src/apis/ops/checkin.ts:141-154 | the lookup finds a code exactly when the type's pool holds a free code |
| Claims.ActiveCreditTypes | apps/web/src/apis/ops/checkin.ts:134-137 | the active credit types, and only they |
| Claims.VisitOrderShape | apps/web/src/apis/ops/checkin.ts:134-138 | the claim visits exactly the active types, in ascending display order, each id once |
| Claims.ClaimAll | apps/web/src/apis/ops/checkin.ts:140-173 | the claim specification over the check-in type's credit types: the codes table keeps its length and there are no more claims than credit types; ClaimAllFrame and ClaimedTypesExactly state which rows change and which types are claimed |
| Claims.ClaimCodes | apps/web/src/apis/ops/checkin.ts:140-173 | the claim loop produces the codes table and assigned list of the claim specification, and `codesAssigned` is the number of codes handed out |
| Claims.ClaimAllFrame | apps/web/src/apis/ops/checkin.ts:154-162 | the claim keeps the table's length, and each code either stays as it was or was free, of a visited type, and is now assigned to the participant at `now` with status available |
| Claims.ClaimAllAssigned | apps/web/src/apis/ops/checkin.ts:154-165 | at most one code per visited type is handed out, each was a free code of its type, and the table now holds it assigned to the participant |
| Claims.ClaimedTypesExactly | apps/web/src/apis/ops/checkin.ts:140-173 | the types that receive a code are exactly the visited types whose pool has a free code, in visiting order; an exhausted type is skipped |
| Claims.ClaimAllKeepsConstraints | apps/web/src/apis/ops/checkin.ts:155-162 | claiming keeps code ids and (type, value) keys, every codes constraint and the pool invariant |
| Claims.ActiveKeepsDistinct | apps/web/src/apis/ops/checkin.ts:134-137 | filtering the active types keeps their ids distinct |
| Claims.ClaimedTypes | apps/web/src/apis/ops/checkin.ts:164 | the credit type of each claimed code, in claim order |
| Checkin.Admit | apps/web/src/apis/ops/checkin.ts:63-118 | the guard chain admits only a verified token of a stored participant, an ops or admin caller, an active check-in type with the given id and no existing record for the pair; every stop is a non-success |
| Checkin.AdmitRefusals | apps/web/src/apis/ops/checkin.ts:76-97 | a rejected token gives "Invalid QR code", an unknown participant "Participant not found", and a missing or inactive type "Check-in type not found or inactive" |
| Checkin.AdmitAlreadyCheckedIn | apps/web/src/apis/ops/checkin.ts:99-118 | a pair that already has a record is refused with "Already checked in", the participant summary and the stored check-in time |
| Checkin.AlreadyCheckedIn | apps/web/src/apis/ops/checkin.ts:99-118 | the same refusal for the whole operation, which leaves every table unchanged |
| Checkin.RefusalChangesNothing | apps/web/src/apis/ops/checkin.ts:63-118 | every check-in the guard chain stops (validator, gate, token, participant, type or existing record) leaves the database as it was and reports no success |
| Checkin.GeneratedTokenAdmitted | apps/web/src/apis/ops/checkin.ts:76-118 | the token generated for a stored participant is admitted for an active type the participant has no record of |
| Checkin.ProcessCheckin | apps/web/src/apis/ops/checkin.ts:62-266 | the method's new tables and outcome are those of the check-in specification, and all table constraints still hold |
| Checkin.CommitCheckin | apps/web/src/apis/ops/checkin.ts:120-203 | the admitted branch: new tables and outcome as the commit specification says, constraints kept |
| Checkin.CheckinSpec | apps/web/src/apis/ops/checkin.ts:62-266 | a check-in never changes credit types or check-in types; a refusal changes nothing; a success appends exactly one record after the old ones, and no other outcome adds a record |
| Checkin.CommitKeepsTables | packages/core/src/business.server/events/schemas/checkin-records.sql.ts:10-23 | an admitted check-in keeps every table constraint, including one record per (check-in type, participant) |
| Checkin.CheckinKeepsTables | packages/core/src/business.server/events/schemas/checkin-records.sql.ts:23 | every check-in outcome keeps every table constraint |
| Checkin.RecordInsertOk | packages/core/src/business.server/events/schemas/checkin-records.sql.ts:10-23 | the new record keeps the records constraints exactly when the checking-in actor is a stored user (the restrict reference) |
| Checkin.CommitEffects | apps/web/src/apis/ops/checkin.ts:120-203 | first attendance means an attendance type and a registered participant; only then is the participant marked checked in by the actor at `now`; a VIP gets no codes; one record is appended and no other user, credit type or check-in type changes |
| Checkin.CheckinEffects | apps/web/src/apis/ops/checkin.ts:62-266 | a successful check-in has these effects for the verified participant and the admitted type |
| Checkin.CommitClaims | apps/web/src/apis/ops/checkin.ts:132-185 | a regular participant's first attendance claims one free code from each active type that has one, in display order, and changes no other code |
| Checkin.CheckinClaims | apps/web/src/apis/ops/checkin.ts:132-185 | the same claim result stated for the whole check-in |
| Checkin.MarkKeepsKeys | apps/web/src/apis/ops/checkin.ts:175-195 | marking a participant checked in changes no id and no email |
| Checkin.CodesFor | apps/web/src/apis/ops/checkin.ts:132-173 | the code claim keeps the codes constraints, the pool invariant and the code ids |
| Checkin.RescanRefused | apps/web/src/apis/ops/checkin.ts:99-118 | scanning the same token for the same type again is refused with "Already checked in" and the first check-in's time, and changes nothing |
| Checkin.CheckinAppendsRecord | apps/web/src/apis/ops/checkin.ts:199-203 | a successful check-in appends one record for the verified participant, the type and the actor, and keeps user ids and check-in types |
| Checkin.GuestStatus | apps/web/src/apis/ops/checkin.ts:288-342 | an empty QR value raises, a rejected token gives "Invalid QR code", and "Participant not found" exactly for an unknown verified id; a found guest is the verified participant |
| Checkin.GuestStatusShape | apps/web/src/apis/ops/checkin.ts:314-330 | one status per active check-in type in display order, with its id and name, and the participant's record time or none when no record exists |
| Checkin.RecordTimeFinds | apps/web/src/apis/ops/checkin.ts:320-329 | the record lookup finds a time exactly when the participant has a record of the type, and then it is that record's time |
| Checkin.ActiveCheckinTypesShape | apps/web/src/apis/ops/checkin.ts:314-318 | the listed check-in types are exactly the active ones, in ascending display order |
| Checkin.CheckinShowsInStatus | apps/web/src/apis/ops/checkin.ts:314-330 | after a successful check-in, the guest status of the same token shows the type checked in at `now` |
| Checkin.CheckinCount | apps/web/src/apis/ops/checkin.ts:344-361 | a missing type id raises "Check-in type ID is required"; otherwise the count is answered exactly to ops or admin callers and never exceeds the records |
| Checkin.CountsAfterAppend | apps/web/src/apis/ops/checkin.ts:355-358 | appending one record of a type raises that type's count by one and leaves every other type's count as it was |
| Checkin.CountOfType | apps/web/src/apis/ops/checkin.ts:355-358 | the count is the number of records of that check-in type: the length of the records filtered by type |
| Checkin.CheckinRaisesCount | apps/web/src/apis/ops/checkin.ts:344-361 | a successful check-in raises its type's count by one and leaves every other type's count alone |
| Checkin.ScansBy | apps/web/src/apis/ops/checkin.ts:379-391 | the joined scans of one actor, at most one per record; ScansBySound and ScansByComplete state which |
| Checkin.ScansBySound | apps/web/src/apis/ops/checkin.ts:379-391 | every scan comes from a record by the actor, joined with its participant and check-in type |
| Checkin.ScansByComplete | apps/web/src/apis/ops/checkin.ts:379-391 | every record by the actor whose references resolve appears as a scan |
| Checkin.RecentScans | apps/web/src/apis/ops/checkin.ts:373-407 | answered exactly to ops or admin callers, with at most 10 scans |
| Checkin.RecentScansShape | apps/web/src/apis/ops/checkin.ts:392-403 | the scans are newest first, all by the caller, and when there are at most 10 they are all of the caller's scans |
| Checkin.RecentScansComplete | apps/web/src/apis/ops/checkin.ts:379-393 | with at most 10 scans by the caller, every record the caller made is listed |
| Checkin.RecentScansNewest | apps/web/src/apis/ops/checkin.ts:392-393 | `ORDER BY checkedInAt DESC LIMIT 10`: the answer has min(10, n) of the caller's n scans, taken from them, and every scan left out is no newer than any scan kept |
| Checkin.NewestTen | apps/web/src/apis/ops/checkin.ts:392-393 | the first ten of a newest-first ordering of the scans are such a selection |
| Checkin.SortedPrefixFirst | apps/web/src/apis/ops/checkin.ts:392-393 | in a sequence sorted by a key, every element after a prefix has a key no larger than each element of that prefix |
| Checkin.AdmittedIsAdmissible | apps/web/src/apis/ops/checkin.ts:76-124 | a scan the guard chain admits names a stored participant, a stored check-in type, and no earlier record of the pair |
| Checkin.TypesWithFreeSorted | apps/web/src/apis/ops/checkin.ts:134-164 | the types that still had a free code keep the display order they were visited in |
| CheckinTypes.ListCheckinTypes | apps/web/src/apis/admin/checkins.ts:10-16 | answered exactly to admin callers; others get the gate's error |
| CheckinTypes.ListCheckinTypesShape | apps/web/src/apis/admin/checkins.ts:13 | the listing holds every check-in type once, in ascending display order |
| CheckinTypes.CreateIssues | apps/web/src/apis/admin/checkins.ts:18-24 | the validator passes exactly when the name is non-empty and the display order is not negative |
| CheckinTypes.CreateCheckinType | apps/web/src/apis/admin/checkins.ts:28-44 | new tables and answer as the create specification says, with every constraint kept |
| CheckinTypes.CreateSpec | apps/web/src/apis/admin/checkins.ts:28-44 | only check-in types and the id counter change; nothing changes unless answered; an answered create appends the returned type, whose name no stored type had |
| CheckinTypes.CreateRejectsTakenName | apps/web/src/apis/admin/checkins.ts:33-39 | a valid admin request is refused with "Check-in type with this name already exists" exactly when some type has that name, and then nothing changes |
| CheckinTypes.CreateStoresCheckinType | apps/web/src/apis/admin/checkins.ts:41-43 | a created type is appended with a fresh id and the given name, category, description and display order, active unless told otherwise, and no other table changes |
| CheckinTypes.InsertKeepsTables | packages/core/src/business.server/events/schemas/checkin-types.sql.ts:15-16 | appending a type with a fresh id and an unused name keeps every table constraint |
| CheckinTypes.UpdateIssues | apps/web/src/apis/admin/checkins.ts:46-53 | the validator passes exactly when the id is non-empty, a given name is non-empty and a given display order is not negative |
| CheckinTypes.UpdateWhere | apps/web/src/apis/admin/checkins.ts:74-78 | the UPDATE applies the change to the rows with the id and keeps all others |
| CheckinTypes.UpdateCheckinType | apps/web/src/apis/admin/checkins.ts:57-85 | new tables and answer as the update specification says, with every constraint kept |
| CheckinTypes.UpdateSpec | apps/web/src/apis/admin/checkins.ts:57-85 | only check-in types change, and only when answered; the number of types stays, and the answered row carries the id and is in the table |
| CheckinTypes.UpdateNameCheck | apps/web/src/apis/admin/checkins.ts:64-72 | an update is refused with the name message exactly when the new name belongs to a different id (keeping its own name is allowed), and then nothing changes |
| CheckinTypes.UpdateEffects | apps/web/src/apis/admin/checkins.ts:74-84 | a successful update changes only the row with the id: the given fields replace the old ones and the others stay |
| CheckinTypes.UpdateUnknownChangesNothing | apps/web/src/apis/admin/checkins.ts:80-82 | updating an unknown id raises "Check-in type not found" and changes nothing |
| CheckinTypes.UpdateKeepsTables | apps/web/src/apis/admin/checkins.ts:64-78 | an update whose name is not held by another row keeps every constraint |
| CheckinTypes.RenamedApart | apps/web/src/apis/admin/checkins.ts:64-78 | after such an update no two rows share a name |
| CheckinTypes.ToggleCheckinTypeActive | apps/web/src/apis/admin/checkins.ts:93-117 | new tables and answer as the toggle specification says, with every constraint kept |
| CheckinTypes.ToggleSpec | apps/web/src/apis/admin/checkins.ts:93-117 | only check-in types change, and only when answered; the number of types stays, and the answered row carries the id and is in the table |
| CheckinTypes.ToggleFlips | apps/web/src/apis/admin/checkins.ts:98-116 | a toggle flips `isActive` of that row only, and answers the flipped row |
| CheckinTypes.ToggleTwiceRestores | apps/web/src/apis/admin/checkins.ts:106-110 | toggling twice restores the tables |
| CheckinTypes.RemainingTypes | apps/web/src/apis/admin/checkins.ts:141-144 | the DELETE keeps exactly the rows with another id |
| CheckinTypes.CountOfTypeZero | apps/web/src/apis/admin/checkins.ts:130-137 | the record count of a type is zero exactly when no record references it |
| CheckinTypes.RemainingTypesSlice | apps/web/src/apis/admin/checkins.ts:141-144 | with unique ids the DELETE removes exactly the one row |
| CheckinTypes.DeleteKeepsTables | packages/core/src/business.server/events/schemas/checkin-records.sql.ts:11-13 | deleting a type no record references keeps every constraint |
| CheckinTypes.DeleteCheckinType | apps/web/src/apis/admin/checkins.ts:125-151 | new tables and answer as the delete specification says, with every constraint kept |
| CheckinTypes.DeleteSpec | apps/web/src/apis/admin/checkins.ts:125-151 | only check-in types change, and only when answered; an answered delete returns a stored row with that id, no row with the id remains, and no record referenced it |
| CheckinTypes.DeleteGuard | apps/web/src/apis/admin/checkins.ts:130-139 | a delete fails with the message carrying the record count exactly when a record references the type, and then nothing changes |
| CheckinTypes.DeleteEffects | apps/web/src/apis/admin/checkins.ts:141-150 | a successful delete removes exactly that type and answers it |
| CheckinTypes.RemainingTypesOk | packages/core/src/business.server/events/schemas/checkin-types.sql.ts:15-16 | the remaining check-in types keep unique ids and names |
| CheckinTypes.RemainingTypesKeepRecords | packages/core/src/business.server/events/schemas/checkin-records.sql.ts:11-13 | records of other types still reference an existing check-in type after the delete |
| Credits.PoolStatsOf | apps/web/src/apis/admin/credits.ts:27-36 | a type's pool counts: total is assigned plus remaining, and never more than the codes table |
| Credits.PoolStatsEmpty | apps/web/src/apis/admin/credits.ts:41-42 | a type with no codes gets the zero stats |
| Credits.AssignedPositive | apps/web/src/apis/admin/credits.ts:31 | the assigned count is positive exactly when some code of the type has a status other than unassigned |
| Credits.RemainingIsClaimable | apps/web/src/apis/admin/credits.ts:32 | under the pool invariant, the remaining count is positive exactly when a check-in can claim a code of the type |
| Credits.ListCreditTypes | apps/web/src/apis/admin/credits.ts:17-50 | answered exactly to admin callers, with one entry per credit type |
| Credits.ListedTypes | apps/web/src/apis/admin/credits.ts:41-47 | the listed rows are the credit types the entries carry, in order |
| Credits.ListCreditTypesShape | apps/web/src/apis/admin/credits.ts:20-47 | every credit type is listed once, in ascending display order, with its own pool stats whose total is assigned plus remaining |
| Credits.CreateIssues | apps/web/src/apis/admin/credits.ts:52-78 | the validator passes exactly when the name is non-empty lower-case letters, digits or underscores, the texts are non-empty, the display order is not negative, a quantity is at least 1, and a universal type has a code and a quantity; an empty name reports both name issues in order |
| Credits.OrNull | apps/web/src/apis/admin/credits.ts:102-104 | `value \|\| null`: present exactly when given and non-empty, and then unchanged |
| Credits.NormalizeUniversalCode | apps/web/src/apis/admin/credits.ts:96 | the universal code is upper-cased, and an absent or empty one becomes null |
| Credits.ReplicatesIffUniversal | apps/web/src/apis/admin/credits.ts:108 | for valid input, codes are replicated exactly for a universal type |
| Credits.UniqueTypeReportsQuantity | apps/web/src/apis/admin/credits.ts:126 | a unique type given a quantity creates no code but still reports the quantity as codesCreated |
| Credits.ReplicateRows | apps/web/src/apis/admin/credits.ts:109-117 | the counted loop builds exactly the replicated rows |
| Credits.TypeInsertKeepsTables | packages/core/src/business.server/events/schemas/credit-types.sql.ts:9-10 | inserting a type with a fresh id and an unused name keeps every constraint |
| Credits.ReplicationOutcome | packages/core/src/business.server/events/schemas/codes.sql.ts:26 | after the type insert, one replicated code fits the constraints, while two or more already break them within the first batch |
| Credits.CreateCreditType | apps/web/src/apis/admin/credits.ts:82-127 | new tables and answer as the create specification says, with every constraint kept |
| Credits.CreateSpec | apps/web/src/apis/admin/credits.ts:82-127 | only credit types, codes and the id counter change, and nothing changes when no credit type was stored; an answered create appends the returned type |
| Credits.StoreCreditType | apps/web/src/apis/admin/credits.ts:95-126 | the insert of the type row and of its replicated codes, as the commit specification says |
| Credits.InsertReplicas | apps/web/src/apis/admin/credits.ts:119-123 | the batched replica insert gives the tables and success flag of the replica specification |
| Credits.ReplicaInsertResult | apps/web/src/apis/admin/credits.ts:119-123 | the batched insert outcome is the replica specification's: one code goes in, two or more are refused with no code added |
| Credits.CreateRefusals | apps/web/src/apis/admin/credits.ts:83-93 | validation issues are reported exactly for malformed input; a valid admin request is refused with "Credit type with this name already exists" exactly when the name is taken; only a refused code insert leaves a change behind |
| Credits.CreateKeepsNamesUnique | packages/core/src/business.server/events/schemas/credit-types.sql.ts:10 | names stay unique: a create either changes no credit type or appends one carrying the requested, previously unused name |
| Credits.CreateStoresType | apps/web/src/apis/admin/credits.ts:98-106 | a created type is appended with a fresh id, the given name and distribution, active unless told otherwise, and an upper-cased non-empty universal code when it has one |
| Credits.UniversalReplicationRejected | apps/web/src/apis/admin/credits.ts:108-123 | a universal type with quantity 2 or more: the type row is stored but the replicated insert breaks the (type, value) unique constraint, so the call fails and no code is added |
| Credits.UniversalSingleCode | apps/web/src/apis/admin/credits.ts:108-126 | a universal type with quantity 1 is created with one unassigned code holding the upper-cased universal code, and its pool shows 1 total, 0 assigned, 1 remaining |
| Credits.UpdateIssues | apps/web/src/apis/admin/credits.ts:129-138 | the validator passes exactly when the id is non-empty, given texts are non-empty and a given display order is not negative |
| Credits.UpdateWhere | apps/web/src/apis/admin/credits.ts:149-156 | the UPDATE applies the change to the rows with the id and keeps all others |
| Credits.UpdateKeepsKeys | apps/web/src/apis/admin/credits.ts:147-155 | an update changes no id and no name |
| Credits.SameKeysKeepTables | packages/core/src/business.server/events/schemas/credit-types.sql.ts:9-10 | rewriting credit types without changing ids or names keeps every constraint |
| Credits.UpdateCreditType | apps/web/src/apis/admin/credits.ts:142-163 | new tables and answer as the update specification says, with every constraint kept |
| Credits.UpdateSpec | apps/web/src/apis/admin/credits.ts:142-163 | only credit types change, and only when answered; the number of types stays, and the answered row carries the id and is in the table |
| Credits.UpdateEffects | apps/web/src/apis/admin/credits.ts:147-162 | a successful update rewrites only the row with the id: given fields replace the old ones, an empty icon URL becomes null, and name, distribution and universal code never change |
| Credits.UpdateIdempotent | apps/web/src/apis/admin/credits.ts:149-156 | applying the same successful update twice is applying it once |
| Credits.EmptyUpdateChangesNothing | apps/web/src/apis/admin/credits.ts:149-162 | an update with no fields answers the stored row and changes nothing |
| Credits.IdIssues | apps/web/src/apis/admin/credits.ts:197-199 | the id validator passes exactly for a non-empty id |
| Credits.SetActiveKeepsKeys | apps/web/src/apis/admin/credits.ts:184-188 | setting the active flag changes no id and no name |
| Credits.ToggleCreditTypeActive | apps/web/src/apis/admin/credits.ts:171-195 | new tables and answer as the toggle specification says, with every constraint kept |
| Credits.ToggleSpec | apps/web/src/apis/admin/credits.ts:171-195 | only credit types change, and only when answered; the number of types stays, and the answered row carries the id and is in the table |
| Credits.ToggleFlips | apps/web/src/apis/admin/credits.ts:176-194 | a toggle flips `isActive` of that row only, and answers the flipped row |
| Credits.ToggleTwiceRestores | apps/web/src/apis/admin/credits.ts:184-188 | toggling twice restores the tables |
| Credits.RemainingCodes | apps/web/src/apis/admin/credits.ts:219 | the code DELETE keeps exactly the codes of other types |
| Credits.RemainingTypes | apps/web/src/apis/admin/credits.ts:221 | the type DELETE keeps exactly the rows with another id |
| Credits.RemainingTypesOk | apps/web/src/apis/admin/credits.ts:221 | the remaining types keep their constraints and minted ids |
| Credits.RemainingTypesKeepIds | apps/web/src/apis/admin/credits.ts:221 | every other type id survives the delete |
| Credits.RemainingCodesOk | packages/core/src/business.server/events/schemas/codes.sql.ts:12-14 | once the type's codes are gone, the other codes still reference existing types and keep their constraints and the pool invariant |
| Credits.DeleteKeepsTables | apps/web/src/apis/admin/credits.ts:219-221 | deleting the type's codes, and then the type, keeps every constraint |
| Credits.DeleteCreditType | apps/web/src/apis/admin/credits.ts:203-228 | new tables and answer as the delete specification says, with every constraint kept |
| Credits.DeleteSpec | apps/web/src/apis/admin/credits.ts:203-228 | only codes and credit types change, and nothing on invalid input; the codes either stay or hold none of the type; an answered delete leaves no type with the id |
| Credits.DeleteGuard | apps/web/src/apis/admin/credits.ts:208-217 | a delete is refused with "Cannot delete credit type with assigned codes", changing nothing, exactly when a code of the type has left the unassigned status |
| Credits.DeleteEffects | apps/web/src/apis/admin/credits.ts:219-227 | a successful delete removes exactly that type, keeps every other type, user, check-in type and record, and every constraint |
| Credits.RemainingTypesDropId | apps/web/src/apis/admin/credits.ts:219-221 | the credit types left after deleting an id hold no type with that id |
| Credits.DeleteDropsPoolCodes | apps/web/src/apis/admin/credits.ts:219 | a successful delete had only unassigned codes of the type, removes all of them and keeps every other code |
| Credits.DeleteUnknownChangesNothing | apps/web/src/apis/admin/credits.ts:219-225 | deleting an unknown id raises "Credit type not found" and changes nothing |
| Credits.CodeValueIssues | apps/web/src/apis/admin/credits.ts:232-237 | one "Code value is required" per empty code value, and none exactly when all are non-empty |
| Credits.ImportIssues | apps/web/src/apis/admin/credits.ts:230-238 | the validator passes exactly when the type id and every code value are non-empty |
| Credits.ImportRefusals | apps/web/src/apis/admin/credits.ts:252-264 | invalid input is reported by the validator, an empty file imports nothing without a lookup, an unknown type raises "Credit type not found", and none of these changes the tables |
| Credits.Normalized | apps/web/src/apis/admin/credits.ts:266-269 | every code value is upper-cased and its URL kept, in order |
| Credits.Values | apps/web/src/apis/admin/credits.ts:271 | the code values of the lines, in order |
| Credits.ImportRows | apps/web/src/apis/admin/credits.ts:302-307 | every inserted row is of the requested type and unassigned |
| Credits.ImportRowsAccepted | apps/web/src/apis/admin/credits.ts:283-307 | the rows to insert are exactly the accepted lines, in order, with their value and their URL or null |
| Credits.ImportSkipsSkipped | apps/web/src/apis/admin/credits.ts:283-298 | the skipped list is exactly the skipped lines, in order, with "Code already exists in database" or "Duplicate code in import file" |
| Credits.SelectCodes | apps/web/src/apis/admin/credits.ts:279-308 | the forEach with its seen-in-batch set produces exactly the rows and skips of the import specification |
| Credits.ExistingValuesIff | apps/web/src/apis/admin/credits.ts:272-277 | a file value counts as existing exactly when the type already has a code with that value |
| Credits.ImportRowsFit | packages/core/src/business.server/events/schemas/codes.sql.ts:26 | the accepted rows never break the (type, value) unique constraint, so every batch goes through |
| Credits.ImportCodes | apps/web/src/apis/admin/credits.ts:247-322 | new tables and answer as the import specification says, with every constraint kept |
| Credits.ImportSpec | apps/web/src/apis/admin/credits.ts:247-322 | only codes and the id counter change, and only when answered; the old codes stay as a prefix |
| Credits.StoreImport | apps/web/src/apis/admin/credits.ts:266-321 | the de-duplication and the batched insert give the tables and answer of the commit specification |
| Credits.ImportPartition | apps/web/src/apis/admin/credits.ts:283-321 | imported plus skipped is the number of lines |
| Credits.CommitSkipReasons | apps/web/src/apis/admin/credits.ts:284-298 | a skip says "Code already exists in database" exactly when the type stores that value, and otherwise "Duplicate code in import file" |
| Credits.ImportSkipReasons | apps/web/src/apis/admin/credits.ts:284-298 | the same skip reasons, stated for the whole import |
| Credits.ImportTakesNewValues | apps/web/src/apis/admin/credits.ts:300-315 | every file value the type does not store yet ends up as a new code of the type |
| Credits.ImportKeepsTables | apps/web/src/apis/admin/credits.ts:310-321 | an import keeps every constraint, appends exactly `imported` new unassigned, unowned codes of the type after the old ones, and leaves users and credit types alone |
| Lookup.FindIndex | apps/web/src/apis/participant/dashboard.ts:20-32 | `findFirst`: the index of the first row that matches, or the length when none does |
| Lookup.FindIndexUnique | packages/core/src/auth/schema.ts:6 | when exactly one row matches, findFirst returns that one |
| Lookup.UserIndexIn | apps/web/src/apis/participant/dashboard.ts:20-36 | a user lookup by id finds a row exactly when the id is stored |
| Lookup.UserIndexFinds | packages/core/src/auth/schema.ts:6 | with distinct user ids, the lookup by a stored user's id returns that user |
| Lookup.UserIndexSameIds | packages/core/src/auth/schema.ts:6 | a lookup by id depends only on the ids, so rewriting other columns keeps it |
| Lookup.UserIndexByEmailIn | packages/core/src/auth/schema.ts:8 | a user lookup by e-mail finds a row exactly when the e-mail is stored |
| Lookup.RecordIndexFinds | packages/core/src/business.server/events/schemas/checkin-records.sql.ts:23 | with unique (check-in type, participant) pairs, the record lookup by a stored pair returns that record |
| Lookup.CheckinTypeIndexIn | apps/web/src/apis/ops/checkin.ts:91-97 | a check-in type lookup by id finds a row exactly when the id is stored |
| Lookup.CheckinTypeIndexFinds | packages/core/src/business.server/events/schemas/checkin-types.sql.ts:15 | with distinct check-in type ids, the lookup by a stored id returns that type |
| Lookup.CheckinTypeIndexByNameIn | apps/web/src/apis/admin/checkins.ts:28-44 | a check-in type lookup by name finds a row exactly when the name is stored |
| Lookup.CheckinTypeIndexByNameFinds | packages/core/src/business.server/events/schemas/checkin-types.sql.ts:16 | with unique names, the lookup by a stored name returns that type |
| Lookup.CheckinTypeIndexSameIds | packages/core/src/business.server/events/schemas/checkin-types.sql.ts:15 | a check-in type lookup by id depends only on the ids |
| Lookup.CreditTypeIndexIn | apps/web/src/apis/admin/credits.ts:258-264 | a credit type lookup by id finds a row exactly when the id is stored |
| Lookup.CreditTypeIndexByNameIn | apps/web/src/apis/admin/credits.ts:87-93 | a credit type lookup by name finds a row exactly when the name is stored |
| Lookup.CreditTypeIndexSameIds | packages/core/src/business.server/events/schemas/credit-types.sql.ts:9 | a credit type lookup by id depends only on the ids |
| Lookup.CodeIndexSameIds | packages/core/src/business.server/events/schemas/codes.sql.ts:11 | a code lookup by id depends only on the ids, so rewriting other columns keeps it |
| Dashboard.OwnedCredits | apps/web/src/apis/participant/dashboard.ts:38-43 | every listed credit is a stored code assigned to the caller |
| Dashboard.OwnedCreditsComplete | apps/web/src/apis/participant/dashboard.ts:38-43 | every code assigned to the caller is listed, with its credit type |
| Dashboard.OwnedCreditsTyped | apps/web/src/apis/participant/dashboard.ts:40-42 | with the foreign key kept, every listed credit carries the stored credit type its code references |
| Dashboard.DashboardShape | apps/web/src/apis/participant/dashboard.ts:11-51 | the dashboard is the caller's own row and exactly the codes assigned to the caller, as a permutation sorted by display order (0 when the type is missing) |
| Dashboard.GetParticipantDashboard | apps/web/src/apis/participant/dashboard.ts:11-51 | answered exactly for a signed-in caller whose row exists; the credits are sorted by display order and are a permutation of the codes assigned to the caller |
| Dashboard.RedeemKeepsTables | packages/core/src/business.server/events/schemas/codes.sql.ts:11-27 | setting a code's redeemed time keeps every constraint |
| Dashboard.MarkCreditRedeemed | apps/web/src/apis/participant/dashboard.ts:53-80 | new tables and answer as the redeem specification says, with every constraint kept |
| Dashboard.RedeemSpec | apps/web/src/apis/participant/dashboard.ts:53-80 | only codes change, and only when answered; the number of codes stays and every code with another id is unchanged |
| Dashboard.RedeemRefusal | apps/web/src/apis/participant/dashboard.ts:64-70 | a signed-in caller is refused with "Code not found or not assigned to you", with nothing changed, exactly when no stored code with that id is assigned to the caller; otherwise the answer is success |
| Dashboard.RedeemEffects | apps/web/src/apis/participant/dashboard.ts:72-79 | a redeem changes only that code's `redeemedAt`: now when redeemed, null when not; status and owner stay |
| Dashboard.RedeemUndo | apps/web/src/apis/participant/dashboard.ts:75 | redeeming and then un-redeeming a code that was not redeemed restores the tables |
| Dashboard.SaveNameKeepsTables | packages/core/src/auth/schema.ts:3-33 | saving a user's name keeps every constraint |
| Dashboard.UpdateProfileName | apps/web/src/apis/participant/dashboard.ts:82-146 | new tables and answer as the profile-name specification says, with every constraint kept |
| Dashboard.ProfileNameSpec | apps/web/src/apis/participant/dashboard.ts:82-146 | only users change, and only when answered; the number of users stays |
| Dashboard.ProfileNameGates | apps/web/src/apis/participant/dashboard.ts:101-111 | a participant not checked in is refused with the must-check-in message, one whose name is saved with the locked message, and every refusal changes nothing |
| Dashboard.ProfileNameEffects | apps/web/src/apis/participant/dashboard.ts:113-145 | a saved name is the trimmed input, 1 to 100 characters and at most 100 UTF-16 code units long, stored with `isNameUpdated` set on the caller's row only, and answered back |
| Dashboard.ProfileNameOnce | apps/web/src/apis/participant/dashboard.ts:109-111 | after a successful save, any further save is refused with "Certificate name cannot be changed after it has been saved" |
| OpsProfile.GetOpsProfile | apps/web/src/apis/ops/profile.ts:9-34 | answered exactly for a signed-in caller whose row exists, with that row's view; a missing row raises "User not found" |
| OpsProfile.UpdateOpsProfileName | apps/web/src/apis/ops/profile.ts:36-92 | new tables and answer as the operations name specification says, with every constraint kept |
| OpsProfile.OpsNameSpec | apps/web/src/apis/ops/profile.ts:36-92 | only users change, and only when answered; the number of users stays |
| OpsProfile.OpsNameRefusals | apps/web/src/apis/ops/profile.ts:54-66 | a saved name is refused with the locked message, a name the certificate validator rejects with the validator's error, and neither changes the tables |
| OpsProfile.OpsNameSaved | apps/web/src/apis/ops/profile.ts:62-91 | with no check-in gate, a first name whose trimmed form is non-empty and at most 100 UTF-16 code units is trimmed, stored with `isNameUpdated` set, answered back, and every later save is refused |
| Participants.NormalizeEmail | apps/web/src/apis/admin/participants.ts:122 | `email.toLowerCase().trim()`: no longer than the input, and neither starting nor ending with white space |
| Participants.NormalizeEmailNormal | apps/web/src/apis/admin/participants.ts:122 | a normalised e-mail is trimmed and lower-case, and normalising it again changes nothing |
| Participants.RoleAndType | apps/web/src/apis/admin/participants.ts:135-147 | a VIP user type is exactly the VIP participant type; VIP and regular are exactly the participant role; ops and admin map to their own role |
| Participants.ListIssues | apps/web/src/apis/admin/participants.ts:24-33 | the list validator passes exactly when the page (default 1) is at least 1 and the page size (default 20) lies in 1..100 |
| Participants.Conditions | apps/web/src/apis/admin/participants.ts:45-63 | at most one condition each for search, status, participant type and role |
| Participants.AllHoldAppend | apps/web/src/apis/admin/participants.ts:65 | the conjunction of two condition lists holds exactly when each list's conjunction holds |
| Participants.SelectedIff | apps/web/src/apis/admin/participants.ts:45-65 | a user is selected exactly when a non-empty search matches the name or the e-mail ignoring case, and each given status, participant type and role equals the user's |
| Participants.RowsOf | apps/web/src/apis/admin/participants.ts:77-86 | one selected row per user, each projecting that user's columns |
| Participants.CeilDiv | apps/web/src/apis/admin/participants.ts:103 | `Math.ceil(total / pageSize)`: the least number of pages that holds every row |
| Participants.Window | apps/web/src/apis/admin/participants.ts:90-91 | LIMIT and OFFSET: at most `limit` rows, taken in order from `offset`, empty past the end, full when enough rows follow |
| Participants.ListParticipants | apps/web/src/apis/admin/participants.ts:37-106 | answered exactly when the input is valid and the caller is an admin |
| Participants.OrderedShape | apps/web/src/apis/admin/participants.ts:65-89 | the ordered users are exactly the selected users, as a permutation, sorted by the chosen column and direction |
| Participants.ListPage | apps/web/src/apis/admin/participants.ts:42-105 | the answered rows are a page of the ordered selection: at most `pageSize` rows, row j being the user at offset (page - 1) * pageSize + j, and a full page whenever that many users follow the offset |
| Participants.ListCounts | apps/web/src/apis/admin/participants.ts:92-104 | the pagination echoes the page and page size, the total counts every selected user, and the page count is the least number of pages that holds them |
| Participants.NoFiltersCountsEveryone | apps/web/src/apis/admin/participants.ts:45-95 | with no filter given, the total is the number of users |
| Participants.PageOfShape | apps/web/src/apis/admin/participants.ts:43-91 | `offset`/`limit` take such a page: at most `pageSize` rows, each the row of the ordered user at offset plus its slot, and full when enough users follow |
| Participants.PageOfCounts | apps/web/src/apis/admin/participants.ts:97-104 | the pagination echoes the page and size, counts every user, and its total pages is the ceiling of total over size |
| Participants.PagePastLast | apps/web/src/apis/admin/participants.ts:43-103 | a page past the last one is empty |
| Participants.PastLastPage | apps/web/src/apis/admin/participants.ts:43-103 | past the last page the offset reaches the total |
| Participants.WindowRows | apps/web/src/apis/admin/participants.ts:77-91 | the selected rows of a window are the rows of the users at offset plus slot, at most `pageSize` of them |
| Participants.PageFor | apps/web/src/apis/admin/participants.ts:43 | the page on which position i falls: its offset is at most i and the next page's offset is past i |
| Participants.SlotFor | apps/web/src/apis/admin/participants.ts:43 | position i's slot on its page: less than the page size, and offset plus slot is i |
| Participants.PageHolds | apps/web/src/apis/admin/participants.ts:43-91 | every ordered user appears in its slot on its page |
| Participants.EveryMatchOnItsPage | apps/web/src/apis/admin/participants.ts:37-106 | every selected user is listed, on the page and in the slot its position gives, under the same filters and sort |
| Participants.DivMod | apps/web/src/apis/admin/participants.ts:43 | integer division and remainder recompose the position |
| Participants.AppendUsersKeepsTables | packages/core/src/auth/schema.ts:6-8 | appending users with fresh ids and a legal id counter keeps every constraint |
| Participants.CreateIssues | apps/web/src/apis/admin/participants.ts:108-112 | the create validator passes exactly when the name is non-empty and the e-mail is well formed |
| Participants.NewUserKeepsTables | packages/core/src/auth/schema.ts:6-8 | a user with a freshly minted id and an unused e-mail can be appended without breaking a constraint |
| Participants.CreateUser | apps/web/src/apis/admin/participants.ts:116-164 | new tables and answer as the create specification says, with every constraint kept |
| Participants.CreateSpec | apps/web/src/apis/admin/participants.ts:116-164 | only users and the id counter change, and only when answered; an answered create appends the returned user, whose e-mail no stored user had |
| Participants.CreateRejectsTakenEmail | apps/web/src/apis/admin/participants.ts:122-130 | a valid admin create is refused with "Email already registered" exactly when the normalised e-mail is stored, and a refusal changes nothing |
| Participants.CreateStoresUser | apps/web/src/apis/admin/participants.ts:132-163 | a created user is appended with a fresh id, the given name, the normalised e-mail, the role and type of the user type, status registered, e-mail unverified, no check-in, name not locked, and the QR value of its id; codes and records stay |
| Participants.QrValuesVerify | apps/web/src/apis/admin/participants.ts:133 | the QR value stored for a new user verifies back to that user's id |
| Participants.CreateTwiceRefused | apps/web/src/apis/admin/participants.ts:124-130 | after a successful create, a second create with the same normalised e-mail is refused with nothing changed |
| Participants.ImportIssues | apps/web/src/apis/admin/participants.ts:166-175 | the import validator passes exactly when every row has a non-empty name and a well-formed e-mail |
| Participants.NormalizedEmails | apps/web/src/apis/admin/participants.ts:196 | the normalised e-mail of every row, in order |
| Participants.ImportedUsers | apps/web/src/apis/admin/participants.ts:228-255 | one new user per accepted line |
| Participants.ImportedUsersAt | apps/web/src/apis/admin/participants.ts:228-255 | the j-th new user is built from the j-th accepted line with the j-th fresh id |
| Participants.ImportedUserAt | apps/web/src/apis/admin/participants.ts:228-255 | the same, for one position |
| Participants.ImportedUsersPrefix | apps/web/src/apis/admin/participants.ts:207-256 | the users built from a prefix of the lines are the prefix of the users built from all of them |
| Participants.AcceptedLinesAccepted | apps/web/src/apis/admin/participants.ts:207-256 | the accepted lines are the rows at the accepted positions, in order |
| Participants.ImportSkipsSkipped | apps/web/src/apis/admin/participants.ts:209-226 | the skips are the skipped positions, each with its 1-based row, normalised e-mail and reason text |
| Participants.SelectParticipants | apps/web/src/apis/admin/participants.ts:204-256 | the forEach builds exactly the users of the accepted lines and the skip list of the import specification |
| Participants.SelectStep | apps/web/src/apis/admin/participants.ts:208-255 | one forEach step: a stored e-mail is skipped as "Email already registered", one already queued as "Duplicate email in import file", and any other is queued as a new user with the next id |
| Participants.EmailsOfImported | apps/web/src/apis/admin/participants.ts:248 | the e-mails of the new users are the normalised e-mails of their lines |
| Participants.DecideByToInsert | apps/web/src/apis/admin/participants.ts:210-219 | checking the e-mail against the queued users decides the same as checking it against the earlier rows' e-mails |
| Participants.AcceptedEmailsIff | apps/web/src/apis/admin/participants.ts:207-256 | an e-mail is among the accepted lines exactly when some row has it and it is not stored |
| Participants.AcceptedLinesStep | apps/web/src/apis/admin/participants.ts:207-256 | one more row adds that row to the accepted lines exactly when it is accepted |
| Participants.ImportSkipsStep | apps/web/src/apis/admin/participants.ts:209-226 | one more row adds one skip exactly when it is not accepted |
| Participants.ImportedUsersAppend | apps/web/src/apis/admin/participants.ts:245-255 | one more accepted line appends one new user with the next id |
| Participants.ImportedIdsFresh | apps/web/src/apis/admin/participants.ts:228 | the new users' ids are distinct, minted, and not minted before the import |
| Participants.ImportedEmailsFresh | apps/web/src/apis/admin/participants.ts:202-226 | the new users' e-mails are distinct and none is already stored |
| Participants.AppendFreshUsers | packages/core/src/auth/schema.ts:6-8 | appending users with distinct fresh ids and distinct unused e-mails keeps every constraint |
| Participants.ImportRowsFit | packages/core/src/auth/schema.ts:6-8 | the users an import inserts never break the id or e-mail uniqueness |
| Participants.InsertUsersInBatches | apps/web/src/apis/admin/participants.ts:258-264 | the batches of 100 append exactly the given users, in order, and touch no other table |
| Participants.ImportParticipants | apps/web/src/apis/admin/participants.ts:185-270 | new tables and answer as the import specification says, with every constraint kept |
| Participants.ImportSpec | apps/web/src/apis/admin/participants.ts:185-270 | only users and the id counter change, and only when answered; the old users stay as a prefix |
| Participants.StoreImport | apps/web/src/apis/admin/participants.ts:196-269 | the de-duplication and the batched insert give the tables and answer of the commit specification |
| Participants.ImportPartition | apps/web/src/apis/admin/participants.ts:207-268 | imported plus skipped is the number of rows |
| Participants.ExistingEmailsIff | apps/web/src/apis/admin/participants.ts:197-202 | an e-mail of the file counts as existing exactly when a stored user has it |
| Participants.CommitSkipReasons | apps/web/src/apis/admin/participants.ts:207-226 | every skip names a real 1-based row and its normalised e-mail; its reason is "Email already registered" exactly when that e-mail is stored, and otherwise "Duplicate email in import file" for an e-mail an earlier row had |
| Participants.ImportSkipReasons | apps/web/src/apis/admin/participants.ts:207-226 | the same skip reasons, stated for the whole import |
| Participants.ImportTakesNewEmails | apps/web/src/apis/admin/participants.ts:207-264 | every file e-mail that is not stored ends up on a new user |
| Participants.ImportedFromRows | apps/web/src/apis/admin/participants.ts:207-256 | each new user comes from the row at its accepted position, with the next id in order |
| Participants.CommitShape | apps/web/src/apis/admin/participants.ts:258-269 | a commit appends one user per accepted row after the old users, reports that number as imported, and touches no other table |
| Participants.AppendedCopies | apps/web/src/apis/admin/participants.ts:258-264 | after the append, each new user sits after the old ones, at its accepted position's place |
| Participants.CommitAppends | apps/web/src/apis/admin/participants.ts:258-264 | after the commit, the j-th new user is the user built from the j-th accepted row with the j-th fresh id |
| Participants.ImportKeepsTables | apps/web/src/apis/admin/participants.ts:185-270 | an import keeps every constraint, keeps the old users as a prefix, adds exactly `imported` users and leaves the other tables alone |
| Participants.CommitNewRows | apps/web/src/apis/admin/participants.ts:245-264 | every new user copies its row's name, normalised e-mail and user type mapping, is registered with an unverified e-mail, and has an id and e-mail not among the old users |
| Participants.ImportUsersOk | packages/core/src/auth/schema.ts:6-8 | the old users followed by the imported ones have distinct ids and e-mails |
| Participants.AppendedRowFacts | apps/web/src/apis/admin/participants.ts:245-255 | each appended user carries the facts of the row it was built from |
| Participants.LaterRowsFresh | packages/core/src/auth/schema.ts:6-8 | with distinct ids and e-mails, no later user shares an id or e-mail with an earlier one |
| Participants.UpdateIssues | apps/web/src/apis/admin/participants.ts:272-279 | the update validator passes exactly when the id is non-empty, a given name is non-empty and a given e-mail is well formed |
| Participants.EmailChange | apps/web/src/apis/admin/participants.ts:304-315 | an e-mail is rewritten exactly when one is given and its normalised form differs from the stored one, and then to that normalised form |
| Participants.ReplaceUserKeepsTables | packages/core/src/auth/schema.ts:6-8 | replacing a user by one with the same id and an unchanged or unused e-mail keeps every constraint |
| Participants.UpdateData | apps/web/src/apis/admin/participants.ts:298-331 | the accumulated `updateData` applied to the stored user, and whether it holds any field |
| Participants.UpdateUser | apps/web/src/apis/admin/participants.ts:283-336 | new tables and answer as the update specification says, with every constraint kept |
| Participants.UpdateSpec | apps/web/src/apis/admin/participants.ts:283-336 | only users change, and only when answered; the number of users stays and the answered user carries the id |
| Participants.UpdateUnknownId | apps/web/src/apis/admin/participants.ts:290-296 | a valid admin update is refused with "User not found" exactly when the id is not stored |
| Participants.UpdateEmailCollision | apps/web/src/apis/admin/participants.ts:304-315 | an update is refused with "Email already registered" exactly when a new normalised e-mail differs from the user's own and is stored; a refusal changes nothing |
| Participants.UpdateSameEmailKept | apps/web/src/apis/admin/participants.ts:304-331 | an update that gives only the user's own e-mail, or nothing, answers the stored user and changes nothing |
| Participants.UpdateEffects | apps/web/src/apis/admin/participants.ts:298-335 | a successful update rewrites only that user: given fields replace the old ones, the e-mail normalised, every other column kept, no other table touched |
| Participants.UpdateTwiceSame | apps/web/src/apis/admin/participants.ts:283-336 | applying the same update twice gives the same tables and answer as applying it once |
| Participants.Released | packages/core/src/business.server/events/schemas/codes.sql.ts:17 | `ON DELETE SET NULL`: exactly the codes assigned to the deleted user lose their owner |
| Participants.OtherUsersOk | packages/core/src/auth/schema.ts:6-8 | removing a user keeps the others' ids and e-mails distinct and minted |
| Participants.OtherUsersIds | apps/web/src/apis/admin/participants.ts:359 | the deleted id is gone and every other id remains |
| Participants.OtherUsersSlice | apps/web/src/apis/admin/participants.ts:359 | the remaining users are those before and after the deleted one |
| Participants.ReleasedOk | packages/core/src/business.server/events/schemas/codes.sql.ts:11-27 | the released codes still reference existing types and users and keep the pool invariant |
| Participants.OtherRecordsDistinct | packages/core/src/business.server/events/schemas/checkin-records.sql.ts:23 | dropping the deleted participant's records keeps ids and (type, participant) pairs unique |
| Participants.OtherRecordsOk | packages/core/src/business.server/events/schemas/checkin-records.sql.ts:11-19 | once the cascade has dropped the participant's records, the rest reference existing types and users, provided the user checked nobody in |
| Participants.DeleteKeepsTables | packages/core/src/business.server/events/schemas/checkin-records.sql.ts:14-19 | a delete with its cascade and set-null keeps every constraint when the user checked nobody in |
| Participants.DeleteUser | apps/web/src/apis/admin/participants.ts:344-362 | new tables and answer as the delete specification says, with every constraint kept |
| Participants.DeleteSpec | apps/web/src/apis/admin/participants.ts:344-362 | only users, codes and records change, and only when answered; afterwards no user has the id, no record names it as participant and no code is assigned to it |
| Participants.DeleteGuard | apps/web/src/apis/admin/participants.ts:351-359 | an unknown id raises "User not found"; a user who checked someone in is refused by the restrict key; otherwise the delete succeeds; a refusal changes nothing |
| Participants.DeleteKeepsConstraints | apps/web/src/apis/admin/participants.ts:359 | a successful delete keeps every constraint |
| Participants.DeleteEffects | apps/web/src/apis/admin/participants.ts:359 | a successful delete removes exactly that user and keeps credit types and check-in types |
| Participants.DeleteCascades | packages/core/src/business.server/events/schemas/checkin-records.sql.ts:14-16 | the user's codes lose their owner and nothing else, the user's records are dropped, and every other record stays |
| ParticipantsPage.SelectedTypeRoundTrip | apps/web/src/routes/admin/participants.tsx:378-441 | the user type the edit dialog preselects maps back to the stored role and participant type exactly when the user is a participant or regular; staff always map back to regular |
| ParticipantsPage.SelectedTypeOfMapping | apps/web/src/routes/admin/participants.tsx:378-441 | mapping a user type to a role and participant type and preselecting from those gives the same user type back |
| ParticipantsPage.HandleEdit | apps/web/src/routes/admin/participants.tsx:374-395 | the edit form holds the participant, their name and e-mail, the original role and type, and a preselected user type that maps back to them whenever it can |
| ParticipantsPage.UpdatePayload | apps/web/src/routes/admin/participants.tsx:417-451 | a payload is sent exactly when a user is being edited, name and e-mail are non-empty and the originals are known; it carries the id, name and e-mail, no status, and a role or participant type only when it differs from the original |
| ParticipantsPage.EditRoundTrip | apps/web/src/routes/admin/participants.tsx:374-451 | saving an unchanged edit sends neither role nor participant type, except for a VIP staff member, whose participant type is sent as regular |
| ParticipantsPage.EditAppliesSelection | apps/web/src/apis/admin/participants.ts:317-327 | the server applying the payload gives the user exactly the role and participant type the form selected, the form's name, and the old status |
| ParticipantsPage.ValidParticipants | apps/web/src/routes/admin/participants.tsx:335 | one participant per valid parsed row |
| ParticipantsPage.ValidParticipantsExactly | apps/web/src/routes/admin/participants.tsx:335 | the participants sent are exactly the data of the valid rows |
| ParticipantsPage.HandleImport | apps/web/src/routes/admin/participants.tsx:334-343 | with no valid row the page reports "No valid rows to import"; otherwise it sends the valid rows' participants |
| ParticipantsPage.ImportNeedsValidRow | apps/web/src/routes/admin/participants.tsx:337-340 | the import reports an error exactly when every parsed row is invalid |
| Api.Check | apps/web/src/apis/admin/credits.ts:52-78 | one zod refinement: no issue exactly when the condition holds, and otherwise its one message |

## Left out

- Input and output are parameters or absent. Clocks become the `now` parameter (one instant per call, so every row of one import shares it). The check-in confirmation e-mail and its template are not modelled. The check-in's log lines (`Code pool exhausted`, `Check-in processed`) are not modelled either. None of these changes the tables.
- Cryptography and encodings are a `QrCodec` of function fields with round-trip laws: HMAC-SHA256, base64url, `JSON.parse`/`JSON.stringify` and the timing-safe comparison. `generateQRCodeValue` becomes the `qrValue` parameter of the user registry, and `Participants.QrValuesVerify` ties it to `Qr.Generate`.
- Ids are minted from a serial number in the store, where the source uses random cuids. Freshness is what the model relies on.
- zod's `.email()` and `.url()` regular expressions are the `isEmail` parameter or are not checked. The validator messages are those of each failed field, in field order. zod's exact aggregated error text is not modelled.
- The credit type input's `category` field has no database column and is not modelled. Neither is `updatedAt`.
- Database errors carry a stand-in message for the driver's error text. This covers the refused replicated codes, a check-in record whose actor is not a stored user, and a user delete blocked by a check-in they performed.
- A check-in by an actor who is not a stored user fails at the record insert after the claim transaction has committed. The model keeps the committed user and code updates.
- Concurrency is left out: each transaction is one atomic step, and `FOR UPDATE SKIP LOCKED` is the first free code in table order.
- Sorting is left out in part. `ORDER BY` is stable on table order for equal keys, where PostgreSQL leaves ties unspecified. Text columns sort by the `collation` parameter.
- `ILIKE '%search%'` is a case-insensitive substring test, with `%` and `_` in the search text taken literally. Page numbers and sizes are integers, where zod would also accept fractions.
- Case mapping (`toLowerCase`, `toUpperCase`, `ILIKE`) covers ASCII letters only, and trimming covers the JavaScript whitespace set.
- The "User not found after update" errors of the two profile-name functions are not modelled. They follow an update of a row the same call has just found, so nothing can reach them.
- The Papa Parse tokenizer is not modelled: its header fields, keyed records and error messages are the parser's input. `generateSkippedRowsCSV` is not modelled.
- `formatNameForCertificate`, `estimateTextWidth` and `calculateFontSizeForText` are not modelled because they work on font metrics in floating point. The two-line split and the name validation are modelled.
- The React state of the participants page is a value (`EditForm`, `ImportAction`). Dialogs, toasts and mutations are not modelled.
- Authentication sessions, accounts and verification tokens, and the posts and comments tables, are not modelled. A request context carries the session the authentication library resolved.
- The logger's console is the list of calls made on it, and `NODE_ENV` is a parameter.
- SingleWordSplit: where half the name's UTF-16 length falls inside a surrogate pair, `slice` cuts the pair into two lone surrogates. A model string holds whole characters, so the model cuts before the pair and its first line is one code unit short. Everywhere else the cut is the source's.
- SplitNameIntoTwoLines: the same surrogate-pair cut as SingleWordSplit.
- The `role`, `participantType` and `status` columns of `users` are nullable text with defaults in the schema (packages/core/src/auth/schema.ts:16-22). The model types them with the enums every write of the core stores, so a row holding other text or NULL is not modelled.
