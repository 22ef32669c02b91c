# A verified model of certclerk

certclerk is a small SSH certificate authority: a policy decides who may be issued what, certificates
and key revocation lists are binary SSH blobs, and a serial counter, a revocation list and a
hash-chained audit log are files that every operation reads and rewrites. This project models those
parts in Dafny and proves what they promise, up to one statement about the whole path: a certificate
that was returned by an issue, marshalled, parsed back and checked in any later state of any run is
accepted at exactly the right times, and exactly as long as nothing in the revocation list covers it; and
nothing else is accepted that the authority did not sign.

`dafny verify dfyconfig.toml` checks everything.

## How it is built

| module | models | form |
|---|---|---|
| `Basics`, `Text`, `Sorting` | machine integers, Go's string helpers, stable sorting | functions |
| `Wire` | internal/wire/wire.go | `Buffer` and `Reader` classes against a reference layout: a sequence of typed fields, `Enc` and `Dec` |
| `Keys` | internal/sshcert/key.go | reader loops against functions on blobs and lines |
| `Options`, `Certificates`, `CertificateLaws`, `CertificateLines`, `Signing`, `SshCert` | internal/sshcert/cert.go | values, layout and laws; `SshCert.Certificate` is the mutable object with `Sign`, `Marshal`, `Verify` and the parser |
| `Krl`, `KrlLaws`, `KrlObjects` | internal/krl/krl.go | the same split; `DedupSorted` compacts an array in place |
| `Audit` | internal/audit/audit.go | `Log` class, the verification loop, what a chain says about history |
| `Policy`, `PolicyLaws` | internal/policy/policy.go | the loops of `Validate` and `Authorize` (maps are drained in no particular order) against a decision function |
| `Formats`, `KeyLines`, `KrlFormat` | the formats of internal/wire, internal/sshcert and internal/krl | literal bytes for what the layouts above describe |
| `Authority`, `AuthorityObjects`, `Runs`, `RevocationLaws`, `RevocationTrail`, `EndToEnd`, `Outcomes`, `Forgery` | internal/ca/ca.go | state-to-state functions with a fault for every read and write, the `CA` class that implements them, runs as sequences of events |

A Go string or byte slice is a sequence of bytes, `uint32` and `uint64` are bounded integers with
conversions written out, lengths are written modulo 2^32 as the code does. Durations are int64
nanoseconds, points in time are nanoseconds since 1970. Every imperative method is proved equal to a
function of its inputs or its old state; the laws are about those functions.

Assumptions, all of them parameters of the statements that use them: `Signing.Correct` (a message's
own ed25519 signature verifies and has 64 bytes), `Signing.Binds` (one signature verifies for no other
message), `Forgery.Unforgeable` (only what the CA signed in a run verifies with its key),
`Audit.CollisionFree` (no two of the entries concerned have one SHA-256 digest), `Keys.GoodBase64`. SHA-256 over the canonical JSON of an entry is one uninterpreted function of the
entry with its hash blanked.

## Findings

Where a promise turned out not to hold everywhere, the code is modelled as it is and the exact condition
is proved.

- The comment on internal/audit/audit.go:1-5 says that editing, deleting or reordering any historical line
  breaks the chain. `Audit.OnlyPrefixesVerify`: of everything that can be put together from the entries of
  a verifying log, exactly its prefixes verify, so cutting off the end goes unnoticed.
  `Audit.ReplacementReported`: a new last entry that is consistent in itself goes unnoticed, every other
  replacement is reported at its place or at the next entry.
- `ParseTTL` says it is limited to positive values, but the product for whole days is an unchecked int64.
  `Policy.DayTTLExact`: the result is the number of days exactly up to 106751 days, and positive exactly when
  the low 64 bits of the product are; `Policy.DayTTLCanBeNegative`: "106752d" is negative.
- A certificate is meant to expire, within the cap. `EndToEnd.PromiseKeptExactly`: a returned one is accepted
  from its start up to its end exactly when both bounds lie on the same side of 1970, because they become
  uint64 seconds. An end before 1970 takes a negative lifetime, requested or from a wrapped cap.
  `EndToEnd.NeverExpires`: with a validated cap of "106752d" the CA returns certificates that are accepted at
  every later time.
- docs/policy.md:58-59 says that the audit log records what the CA did. `RevocationTrail.RevocationsLogged`: it
  has one entry for exactly those revocations whose entry could be written; `RevocationTrail.UnloggedForEver`:
  one whose entry could not is in force and is never logged, also not by trying again.
- An entry with a string that is not valid UTF-8 is hashed in one form and read back in another.
  `Audit.ReadBackVerifies`: a log that is read back verifies exactly if no entry was changed by that.
- `Parse` of a KRL does not end on a serial range whose last serial is 2^64-1 (`KrlLaws.RangeLoopEnds`,
  `KrlLaws.ParseCanBeEndless`); it ends on every file without such a range (`KrlLaws.ParseEnds`), and
  `KrlLaws.EndlessExactly` gives the files it does not end on.
  The model returns the outcome `Endless` there instead of looping.
- `Marshal` after `ParseCertificate` is a normaliser and not the identity; `CertificateLaws.NormalFormExact`
  says for which blobs it is the identity.

## Model

| member | source | states |
|---|---|---|
| Wire.GetFieldExact | internal/wire/wire.go:72-115 | reading a field succeeds with a value and a rest exactly when the input is that value's encoding followed by that rest |
| Wire.GetFieldExtends | internal/wire/wire.go:72-115 | on a longer input a successful read gives the same value: a read on a prefix gives the same value or fails |
| Wire.DecExact | internal/wire/wire.go:72-121 | reading a whole layout succeeds exactly on encodings of that layout |
| Wire.DecStringsExact | internal/wire/wire.go:123-145 | StringList accepts a blob exactly when it is the packing of the list it returns |
| Formats.FieldBytes | internal/wire/wire.go:28-48 | bytes, integers and strings on the wire, byte by byte: most significant first, strings after a four-byte length |
| Wire.Buffer.Uint64 | internal/wire/wire.go:36-39 | appends the big-endian bytes and keeps the earlier contents |
| Wire.Buffer.Bytes32 | internal/wire/wire.go:41-45 | appends the length modulo 2^32 and the bytes |
| Wire.Reader.Bytes32 | internal/wire/wire.go:102-115 | returns the field and advances past it; an over-long string fails after its length prefix is consumed |
| Wire.Reader.Uint64 | internal/wire/wire.go:92-100 | returns the integer and advances 8 bytes, or fails and consumes nothing |
| Wire.StringList | internal/wire/wire.go:123-136 | the loop returns the unique list whose packing the blob is, or fails when there is none |
| Wire.PackStringList | internal/wire/wire.go:138-145 | the loop writes the concatenated string fields |
| Keys.CheckKeyFields | internal/sshcert/key.go:101-117 | accepts exactly the blobs made of a name and the table's number of fields with nothing after them |
| Keys.KeyFields | internal/sshcert/key.go:136-143 | the bytes after the embedded name, also for blobs whose name cannot be read |
| Keys.WellFormedFrom | internal/sshcert/key.go:27-40 | a known name and the right number of fields make a well-formed key with those fields |
| Keys.Ed25519 | internal/sshcert/key.go:145-158 | extracts a 32-byte key from an ed25519 blob and nothing from anything else |
| Keys.Ed25519Exactly | internal/sshcert/key.go:145-158 | which keys yield which 32 bytes |
| Keys.NewEd25519PublicKey | internal/sshcert/key.go:160-166 | the buffer ends up holding the algorithm name and the raw key as two string fields |
| Keys.Ed25519KeyRoundTrip | internal/sshcert/key.go:147-166 | a wrapped raw key is well formed and unwraps to itself |
| Keys.ParseAuthorizedKey | internal/sshcert/key.go:50-86 | accepts exactly lines with a known algorithm and a well-formed blob embedding the same name |
| Keys.AuthorizedKeyNormalForm | internal/sshcert/key.go:54-143 | an accepted key prints to a line that is accepted and denotes the same key; name and fields rebuild its blob |
| KeyLines.PrintedIsAccepted | internal/sshcert/key.go:50-134 | every key of a type in the table, with its number of fields and any comment, prints as name, base64 and comment with single blanks, and that line is accepted and gives the key back |
| Formats.KeyTypes | internal/sshcert/key.go:27-40 | the eight key types that can be certified, and no others |
| Formats.FieldCounts | internal/sshcert/key.go:27-40 | the number of fields of each of them |
| Text.SpacesExactly | internal/sshcert/key.go:55-59 | white space in lines is Unicode's, in UTF-8 |
| Text.FieldsMeans | internal/sshcert/key.go:55-59 | splitting: a leading white space character is dropped, a leading word is the first field |
| Text.TrimMeans | internal/sshcert/key.go:55-59 | trimming takes off nothing but white space and leaves none at the ends |
| Options.PackOptions | internal/sshcert/cert.go:87-105 | the loop writes the options sorted by name, values nested in a string |
| Options.UnpackOptions | internal/sshcert/cert.go:107-132 | the loop accepts and rejects as the parser of one option repeated to the end |
| Formats.PackedBytes | internal/sshcert/cert.go:87-105 | options are written in ascending byte order of their names, none lost and none added, each as its name and a string that is empty or holds the value |
| Options.UnpackedOfPacked | internal/sshcert/cert.go:87-132 | unpacking what was packed gives the options stably sorted, and packing those gives the same bytes |
| Options.UnpackedSound | internal/sshcert/cert.go:107-132 | an accepted blob is the canonical encoding of its options exactly when no value is a nested empty string |
| Options.RepackExact | internal/sshcert/cert.go:87-132 | repacking an accepted blob is the identity exactly on sorted blobs without nested empty strings |
| Options.StableSortIsForced | internal/sshcert/cert.go:90-92 | the order in which options are packed is the only sorted one that keeps options of one name in their order |
| Options.SortIsForced | internal/sshcert/cert.go:90-92 | with distinct names every sort, stable or not, gives the same order |
| Sorting.SortStable | internal/sshcert/cert.go:90-92 | options with equal names keep their order |
| Sorting.LeBytesExact | internal/sshcert/cert.go:92 | the order used is byte order: a prefix first, else the smaller byte where two strings first differ |
| Certificates.BaseOfCertAlgo | internal/sshcert/cert.go:58-82 | baseAlgo inverts certAlgo on every algorithm of the table |
| Certificates.TableUnambiguous | internal/sshcert/cert.go:68-82 | no algorithm of the table is another one with "@openssh.com", so trying the plain name first is safe |
| Formats.CertificateName | internal/sshcert/cert.go:58-66 | a certificate algorithm is the key's with "-cert-v01@openssh.com" at the end |
| Formats.SecurityKeyName | internal/sshcert/cert.go:58-66 | an "@openssh.com" at the end of the key's is dropped first |
| Certificates.RawExact | internal/sshcert/cert.go:218-296 | a blob has given raw fields exactly when it is their encoding |
| Formats.CertificateBytes | internal/sshcert/cert.go:134-186 | the bytes of a certificate and the bytes that are signed, field by field |
| Formats.CertificateTypes | internal/sshcert/cert.go:218-296 | what is parsed is a user or host certificate; which certificates the round trip is about |
| CertificateLaws.RoundTrip | internal/sshcert/cert.go:134-296 | every field of a well-formed certificate, with any algorithm of the table, survives marshalling and parsing; options come back sorted; signed bytes are unchanged |
| CertificateLaws.Normaliser | internal/sshcert/cert.go:181-296 | for every accepted blob the result is accepted again with sorted options, and a second pass changes no byte |
| CertificateLaws.NormalFormExact | internal/sshcert/cert.go:61-132 | re-marshalling is the identity exactly for canonical names, sorted options and no nested empty strings |
| CertificateLaws.SelfDelimiting | internal/sshcert/cert.go:218-296 | no proper extension of an accepted blob is accepted |
| CertificateLaws.CutShort | internal/sshcert/cert.go:218-296 | no proper prefix of an accepted blob is accepted |
| CertificateLaws.UniqueSigningImage | internal/sshcert/cert.go:134-152 | two certificates have the same signed bytes exactly when they agree on every signed field, options as multisets |
| CertificateLines.LineRoundTrip | internal/sshcert/cert.go:188-216 | a certificate survives its -cert.pub line, whatever the comment |
| CertificateLines.LineBytes | internal/sshcert/cert.go:188-196 | the line is the name, the blob in base64 and the comment, with single blanks |
| CertificateLines.LineMeans | internal/sshcert/cert.go:198-216 | a line is accepted exactly when its second word is a certificate and its first the name that goes with it |
| Signing.SignedIsGenuine | internal/sshcert/cert.go:154-178 | a freshly signed certificate verifies |
| Outcomes.NonceIsEntropy | internal/sshcert/cert.go:157-172 | signing needs an ed25519 CA key and a nonce; the nonce is the randomness read unless there was one |
| Signing.SignatureCoversEverySignedField | internal/sshcert/cert.go:311-341 | a signature made by Sign verifies on another certificate exactly when that agrees on every signed field |
| Signing.SignatureCoversBytes | internal/sshcert/cert.go:218-341 | an accepted blob carrying the signature of a signed certificate verifies exactly when it re-marshals to that certificate's bytes |
| Signing.GenuineThroughBytes | internal/sshcert/cert.go:311-341 | verification gives the same answer before and after the bytes |
| SshCert.Certificate.TbsBytes | internal/sshcert/cert.go:134-152 | the buffer ends up holding the reference layout of the signed bytes |
| SshCert.Certificate.Sign | internal/sshcert/cert.go:154-178 | fills nonce, signature key and signature, or changes nothing when it fails |
| SshCert.Certificate.Marshal | internal/sshcert/cert.go:180-186 | the signed bytes and the signature |
| SshCert.Certificate.SignatureCA | internal/sshcert/cert.go:298-309 | the embedded CA key when its algorithm is known |
| Signing.SignatureCAExactly | internal/sshcert/cert.go:298-309 | which key a certificate names as its signer, and when it names none |
| SshCert.Certificate.Verify | internal/sshcert/cert.go:311-341 | true exactly for a well-formed ed25519 signature by this CA over the recomputed signed bytes |
| SshCert.Certificate.ValidAt | internal/sshcert/cert.go:343-353 | the window check on uint64 seconds with the forever sentinel |
| SshCert.ParseCertificate | internal/sshcert/cert.go:218-296 | the reader-driven parser returns a fresh object with the parsed value, or null, as the layout says |
| KrlObjects.DedupSorted | internal/krl/krl.go:83-94 | the in-place compaction leaves the strictly ascending enumeration |
| Sorting.EnumerationUnique | internal/krl/krl.go:83-94 | a set has one strictly ascending enumeration |
| KrlObjects.KRL.Marshal | internal/krl/krl.go:41-81 | header and one certificate section in the reference layout |
| KrlFormat.FileBytes | internal/krl/krl.go:17-81 | the file byte by byte; serials strictly ascending, key IDs in ascending byte order with multiplicities |
| KrlFormat.ExportBytes | internal/ca/ca.go:383-403 | the file the authority exports: its key, the number of revocations as version, the listed serials and key IDs |
| KrlObjects.Parse | internal/krl/krl.go:96-145 | the loop over sections has the outcome of the reference parser: list, failure or no end |
| KrlObjects.ParseCertSection | internal/krl/krl.go:147-206 | updates the list as the reference parser of a certificate section does |
| KrlObjects.ParseSubsection | internal/krl/krl.go:166-203 | serial lists, ranges and key ID lists extend the list; anything else fails |
| KrlFormat.PreambleNeeded | internal/krl/krl.go:100-109 | a file that does not start with the magic bytes and format version 1 is rejected |
| KrlFormat.HeaderAlone | internal/krl/krl.go:110-124 | what a header alone denotes: flags and reserved string are read over, the date is int64 seconds |
| KrlFormat.OtherSectionsSkipped | internal/krl/krl.go:134-136 | a section of another kind changes nothing |
| KrlFormat.OtherSubsectionsRejected | internal/krl/krl.go:201-202 | a subsection other than 0x20, 0x21 and 0x23 rejects the file wherever it stands |
| KrlFormat.SerialListAt | internal/krl/krl.go:168-175 | what a list of serials adds wherever it stands, or that it rejects the file |
| KrlFormat.KeyIDListAt | internal/krl/krl.go:193-200 | what a list of key IDs adds wherever it stands, or that it rejects the file |
| KrlFormat.RangeAt | internal/krl/krl.go:176-192 | a range is rejected when empty or longer than 2^20, else adds lo to hi, or does not end |
| KrlObjects.ExpandRange | internal/krl/krl.go:190-192 | the counting loop appends lo to hi in order |
| KrlLaws.ListRoundTrip | internal/krl/krl.go:45-206 | a list that fits its length fields parses back: ascending set of serials, sorted key IDs with multiplicities, whole-second date |
| KrlLaws.CanonicalBytes | internal/krl/krl.go:41-81 | lists have the same bytes exactly when headers, CA key, serial sets and key ID multisets agree |
| KrlLaws.RangeIsList | internal/krl/krl.go:176-192 | a range subsection parses to the same serials as the list of its members, which are exactly lo to hi |
| KrlLaws.RangeLoopEnds | internal/krl/krl.go:190-192 | the uint64 expansion loop leaves its guard exactly when hi is not 2^64-1 |
| KrlLaws.EndlessSubsection | internal/krl/krl.go:176-192 | which subsection bytes make the parser loop for ever |
| KrlLaws.ParseCanBeEndless | internal/krl/krl.go:100-206 | for any header there is a file on which Parse does not end |
| KrlLaws.ParseEnds | internal/krl/krl.go:100-206 | on every file without an endless range Parse ends |
| KrlLaws.EndlessExactly | internal/krl/krl.go:100-206 | Parse fails to end exactly on an accepted file whose last certificate section is continued by an acceptable-looking range up to 2^64-1, whatever follows |
| KrlLaws.ParseAppend | internal/krl/krl.go:125-143 | an accepted file continued by further sections is parsed by going on with the list it gave |
| KrlLaws.ParseBound | internal/krl/krl.go:185-192 | the parsed list is linear in the file: 21 serials per 2^20 bytes' worth at most, one key ID per 4 bytes |
| Audit.Verify | internal/audit/audit.go:136-156 | reports nothing exactly for chains, otherwise the first bad entry and which of the three checks fails there |
| Audit.ChainMeans | internal/audit/audit.go:136-156 | a log verifies exactly if its entries count from 1, start from 64 zeros, repeat the hash before and have the hash of the rest of them |
| Audit.FaultMeans | internal/audit/audit.go:136-156 | which of the three faults is reported, in terms of the entries |
| Audit.ReportIsLeast | internal/audit/audit.go:136-156 | the reported entry is the least whose inclusive prefix does not verify |
| Audit.Log.Append | internal/audit/audit.go:99-134 | adds one sealed entry, or none; a failing close reports an error after the entry was written |
| Audit.SealedMeans | internal/audit/audit.go:102-118 | an appended entry keeps all it was given, a time included, and is linked to the log |
| Audit.AppendKeepsChain | internal/audit/audit.go:99-134 | however an append ends, the log verifies after it exactly if it did before, and earlier entries are untouched |
| Audit.HashDeterminesHistory | internal/audit/audit.go:46-56 | without collisions, a verifying log whose last hash occurs in another verifying log is the part of it up to there |
| Audit.OnlyPrefixesVerify | internal/audit/audit.go:136-156 | of the logs made from a verifying log's entries exactly its prefixes verify, whatever the hash |
| Audit.ReplacementReported | internal/audit/audit.go:136-156 | where a replaced entry is reported, and the one case in which it is not |
| Audit.ReadBackVerifies | internal/audit/audit.go:46-56 | a log read back from JSON verifies exactly if every entry came back as it was written; otherwise the first that did not is reported as tampered with |
| Policy.ValidateRule | internal/policy/policy.go:124-148 | accepts exactly rules with valid principals, TTL, extensions and addresses |
| Policy.Validate | internal/policy/policy.go:100-122 | accepts exactly version 1 documents with valid rules and no default principals, in whatever order users are visited |
| PolicyLaws.DocumentsExactly | internal/policy/policy.go:100-148 | which documents are accepted, in terms of their version, names, lifetimes, extensions and addresses |
| PolicyLaws.NamesExactly | internal/policy/policy.go:23-68 | which byte strings are names; the wildcard is none |
| PolicyLaws.LifetimesExactly | internal/policy/policy.go:162-184 | which texts are lifetimes |
| Policy.DayTTLExact | internal/policy/policy.go:162-175 | a day form denotes that many days exactly up to 106751, and is positive exactly when the low 64 bits of the nanoseconds are, read as an int64 |
| Policy.DayTTLCanBeNegative | internal/policy/policy.go:169-175 | "106752d" is accepted and means 106752 days less 2^64 nanoseconds |
| Policy.Resolve | internal/policy/policy.go:199-219 | the user's rule over the defaults, field by field |
| Policy.Describe | internal/policy/policy.go:221-242 | the offer of the effective rule with the 8h fallback |
| PolicyLaws.DescriptionMeans | internal/policy/policy.go:199-242 | a description shows the user's own settings where there are any, else the defaults' |
| Policy.Authorize | internal/policy/policy.go:244-291 | the loops over maps and slices decide as the decision function, independent of map order |
| Policy.GrantedExactly | internal/policy/policy.go:244-291 | a request is granted exactly when the user has a rule, something is asked for, all of it is allowed and the TTL is within the cap |
| Policy.GrantSound | internal/policy/policy.go:244-291 | what a grant contains: allowed principals, never empty, never the wildcard, sorted names for an empty request, the merged rule's options |
| PolicyLaws.GrantedWhen | internal/policy/policy.go:244-291 | when a request is granted, in terms of the user's own rule, the defaults and the 8h fallback |
| PolicyLaws.GrantFollowsRules | internal/policy/policy.go:199-291 | what is granted: the user's own cap, extensions (an empty list included), addresses and command wherever set, the defaults' exactly where not; principals in ascending byte order for an empty request |
| Policy.DenialExplained | internal/policy/policy.go:249-287 | the reason of a denial is true and names the first principal objected to |
| Policy.CapPositive | internal/policy/policy.go:164-242 | the cap of a user of a validated document is positive exactly when it is not a day form that wraps to a negative number or zero |
| Policy.EmptyRequestGranted | docs/policy.md:53-55 | a validated rule never refuses the principals it names itself |
| AuthorityObjects.CA.NextSerial | internal/ca/ca.go:144-159 | returns the counter and stores its successor modulo 2^64, or fails without a change; 0 is refused |
| AuthorityObjects.CA.Issue | internal/ca/ca.go:181-251 | files and result after each possible failure |
| AuthorityObjects.CA.IssuedSerial | internal/ca/ca.go:285-299 | the first issue entry with the serial, or the failure to read the log |
| AuthorityObjects.CA.RevokeSerial | internal/ca/ca.go:301-332 | files and result after each possible failure |
| AuthorityObjects.CA.RevokeKeyID | internal/ca/ca.go:334-363 | files and result after each possible failure |
| AuthorityObjects.CA.IsRevoked | internal/ca/ca.go:365-381 | the first entry that covers the certificate, or the failure to read the list |
| AuthorityObjects.CA.ExportKRL | internal/ca/ca.go:383-403 | the bytes of the list made of the revoked serials and key IDs, or the failure to read the list |
| AuthorityObjects.CA.Verify | internal/ca/ca.go:405-432 | the verdict of the four checks in order |
| Outcomes.InitialFiles | internal/ca/ca.go:58-107 | the files of a new authority |
| Outcomes.IssueOutcome | internal/ca/ca.go:184-251 | which step decides the outcome of an issue, and what each outcome leaves in the files |
| Outcomes.IssuedWhen | internal/ca/ca.go:195-219 | both bounds of a returned certificate from the moment asked for, or the clock's, the backdate and the lifetime |
| Outcomes.IssuedFor | internal/ca/ca.go:208-229 | every other field of a returned certificate from the request, the counter, the CA, the user's rule and the defaults; a default key ID ends in the serial in decimal |
| Outcomes.IssueEntryTells | internal/ca/ca.go:233-244 | the log entry of an issue: user, serial, key ID, fingerprint, principals, end and time, also when the append fails late |
| Outcomes.SerialsCount | internal/ca/ca.go:144-159 | an authority numbers its certificates 1, 2, 3 and so on, as long as no issue fails after taking a serial |
| Outcomes.RevokeSerialOutcome | internal/ca/ca.go:301-332 | the outcome of revoking a serial from log, list and failures; refusals change nothing |
| Outcomes.RevokeKeyIDOutcome | internal/ca/ca.go:334-363 | the outcome of revoking a key ID |
| Outcomes.SerialRevoked | internal/ca/ca.go:301-332 | revoking a serial rejects the certificates of that serial and no others, whether the log entry is written or not; what list and log then say |
| Outcomes.KeyIDRevoked | internal/ca/ca.go:334-363 | revoking a key ID rejects the certificates that carry it and no others; what list and log then say |
| Outcomes.CoveredExactly | internal/ca/ca.go:365-381 | when IsRevoked finds an entry |
| Outcomes.FirstEntryAnswers | internal/ca/ca.go:365-381 | the entry it answers with is the first that covers the certificate |
| Forgery.AcceptedMeans | internal/ca/ca.go:405-432 | a certificate is accepted exactly when it is a user certificate, names the CA's key, is signed with it, is in its window and is not covered |
| Forgery.VerdictExplained | internal/ca/ca.go:405-432 | the verdict is that of the first check that fails |
| Forgery.UnsignedNeverAccepted | internal/sshcert/cert.go:311-341 | without the CA's key as signer and an ed25519 signature blob a certificate is never accepted |
| Forgery.SignatureNotTransferable | internal/ca/ca.go:405-432 | an accepted blob with the signature of a signed certificate re-marshals to that certificate |
| Forgery.NoForgery | internal/ca/ca.go:184-432 | when only the CA can sign, whatever is accepted in any state of a run agrees in every signed field with a certificate signed in it for a request that the policy granted |
| Forgery.ReturnedWasSigned | internal/ca/ca.go:184-251 | every certificate a run returned is one that it signed |
| Runs.StepKeeps | internal/ca/ca.go:144-363 | every operation, with any failures, keeps the invariant |
| Runs.ReachableSound | internal/ca/ca.go:99-363 | in every reachable state, the strings being valid UTF-8: the log verifies, issued serials ascend below the counter, returned certificates are logged, listed serials were issued, nothing is listed twice, revoke entries match |
| Runs.IssueShape | internal/ca/ca.go:184-251 | what an issue can do to the files, whichever step fails |
| Runs.ListedSerialIssuedOnce | internal/ca/ca.go:285-332 | a listed serial has exactly one issue entry |
| Runs.SerialsNeverReused | internal/ca/ca.go:144-159 | certificates returned in one run have different serials |
| Runs.LogCountsSuccesses | internal/ca/ca.go:233-358 | in every run the log grows by one entry per success and one per append that fails after writing |
| RevocationTrail.RevocationsLogged | internal/ca/ca.go:301-363 | in every run the revoke entries are, in order and one each, those of the listed revocations whose entry was written: all of them when no append of a revoke fails to write |
| RevocationTrail.UnloggedForEver | internal/ca/ca.go:301-363 | a revocation whose entry is not written stays in force, no later log tells of it, and revoking again is answered with "already revoked" |
| Runs.NothingHidden | internal/audit/audit.go:1-5 | a verifying log containing a saved hash records every certificate returned before it |
| RevocationLaws.KrlAgrees | internal/ca/ca.go:365-403 | the parsed export contains a certificate's serial or key ID exactly when IsRevoked reports it, for every list that fits |
| RevocationLaws.VersionCounts | internal/ca/ca.go:389-402 | the exported version is the number of exported serials and key IDs |
| RevocationLaws.RunGrows | internal/ca/ca.go:184-363 | nothing is ever removed from log, list or certificates returned |
| RevocationLaws.RevocationPermanent | internal/ca/ca.go:302-381 | a covered certificate stays covered |
| RevocationLaws.VersionsTell | internal/ca/ca.go:302-403 | along a run exports only grow, and have equal versions exactly when they revoke the same |
| EndToEnd.RefusalChangesNothing | internal/ca/ca.go:181-206 | a refused issue changes no file; with the counter at 0 nothing is issued |
| EndToEnd.IssuedCarriesGrant | internal/ca/ca.go:191-229 | principals, extensions and critical options of a returned certificate are those of the merged rule, and its TTL is within the cap |
| EndToEnd.DefaultKeyIDsDistinct | internal/ca/ca.go:208-211 | default key IDs determine user and serial |
| EndToEnd.WindowExact | internal/ca/ca.go:218-219 | when the window of two int64 bounds converted to uint64 is the intended one, and what it is otherwise |
| EndToEnd.AcceptedWhen | internal/ca/ca.go:184-432 | for every policy and every lifetime asked for: a returned certificate, through its bytes and in any later state, is accepted exactly inside the uint64 window while unlisted; it says forever exactly when its end is one second before 1970 |
| EndToEnd.PromiseKeptExactly | internal/ca/ca.go:184-432 | from 1970 on it is accepted from its start up to its end exactly when both lie on the same side of 1970, the end being computed from the policy and the request |
| EndToEnd.NeverExpires | internal/ca/ca.go:184-432 | a policy with a cap of "106752d" passes validation, grants every plain request, and the certificate is accepted at every time from its start on while unlisted |
| EndToEnd.AcceptedExactly | internal/ca/ca.go:184-432 | with a validated policy whose cap does not wrap, no negative lifetime and no start before 1970, a returned certificate is accepted exactly in [now - ceil(backdate), now + floor(TTL)) while unlisted; the TTL is within the cap; forever is never issued |
| EndToEnd.IssuedLineParses | internal/ca/ca.go:245-250 | the line handed out parses to what the bytes parse to |
| EndToEnd.RevokedStaysRejected | internal/ca/ca.go:408-428 | a covered certificate is never accepted again |
| EndToEnd.KeyIDRevocationCoversLaterIssues | internal/ca/ca.go:334-363 | a key ID revocation also rejects certificates issued later under that ID |

## Left out

- EndToEnd.AcceptedWhen: assumes what the code leaves to its callers: a well-formed key, strings below 2^32 bytes, and a moment of issue within 2^62 seconds of 1970, so that both bounds are int64 seconds. Policy, lifetime and time of the check are arbitrary.
- EndToEnd.AcceptedExactly: assumes in addition a validated document, a cap that is not a wrapped day form, a requested lifetime that is not negative and a start not before 1970; without these `EndToEnd.AcceptedWhen` applies and `EndToEnd.PromiseKeptExactly` says when the outcome is the same.
- sort.Slice is modelled as a stable sort; Go does not promise that. `Options.StableSortIsForced` shows that stability determines the result and `Options.SortIsForced` that distinct option names do without it.
- ed25519, SHA-256, PKCS#8, PEM and random number generation are uninterpreted; a nonce read is a step that may fail.
- Certificates are checked against the CA's files as they are at that moment; two processes writing the files at the same time are not modelled, since the code takes no lock.
- A file write happens completely or not at all; partial lines, modes and the lookup of paths are not modelled.
- JSON encoding and decoding, with the scanner's 1 MiB line limit, is taken as exact, which it is on valid UTF-8 strings only; the canonical JSON of an entry is part of its digest. `Audit.ReadBackVerifies` says what a string that does not come back unchanged does to the log; the states of `Runs.ReachableSound` are those as written.
- The sequence number of an audit entry is an unbounded natural number: a Go slice is too short for it to wrap.
- Base64, RFC 3339 text, Go-syntax durations and address parsing are parameters.
- Points in time are unbounded; Go's time.Time covers a finite range of years.
- Error values: parsers say whether they fail, the operations of the authority and the policy also say why, in place of message texts.
- `Init` and `Open` beyond the initial state, the command line, inspection, text rendering, the setup snippet and `FormatTTL` are outside the model.
