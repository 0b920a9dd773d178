# GCAD in Dafny

This project models the parts of GCAD, an endpoint guard written in C++, that it implements on its own, and
proves what they are for.

- **Signature verification.** A limb-based big integer with modular exponentiation (`BigUInt`,
  `BigUIntBytes`), the PKCS#1 v1.5 check (`RsaPkcs1`, against signing in `RsaSigning`), a DER reader and SET
  writer (`Asn1`, against DER in `DerWriter`), object identifiers (`ObjectIdentifiers`), DigestInfo
  (`DigestInfo`) and the digest a blob claims (`SpcContent`), the streaming digests (`MerkleDamgard`,
  `ShaDigest`, `Md5Digest`, their constants in `DigestConstants`), the Authenticode hash of a PE image
  (`PeAuthenticodeHash`, against the format in `PeFormat`, with examples in `PeImages`), and the chain walk with
  the order of checks around it (`Authenticode`). `SignedImages` puts them together: an image signed as the
  standards say comes out as trusted.
- **From observation to quarantine.** A bounded bus (`TelemetryBus`) with its publishers, worker, start and
  stop interleaved (`PipelineThreads`); the correlation engine (`Correlation`, `Names`) over every run
  (`CorrelationRuns`), and how evidence adds up in it (`Accumulation`); the response policy (`Policy`);
  candidates and approvals (`SecurityPipeline`); the vault (`Quarantine`, `QuarantineRuns`, `QuarantineAnswers`);
  its ledger on disk, restarts and torn writes (`Ledger`, `QuarantineLedger`, `QuarantineRestarts`,
  `TornLedger`, `TornWrites`); and all of them together (`PipelineRuns`).
- **Fast forms.** The Boyer-Moore-Horspool search (`YaraSearch`, `YaraMeaning`), the pruned flood tracker
  (`FloodTracker`) and the incremental kill chains (`ForensicTimeline`, `TimelineCoverage`), each against a
  simple definition over the whole input or the whole history.
- **Codecs.** Base64 (`Base64Decoder`), UTF-16LE to UTF-8 (`Utf16Decoder`), decimal text (`Decimal`) and
  access control lists (`SelfDefenseAcl`).

Code that changes things step by step is modelled as methods and classes with the source's fields and loops.
Each is proved against a function or relation, and the theorems are lemmas about that. Concurrency is a state
machine whose actions are the source's critical sections. The file system is a map from paths to nodes, and
which calls fail, and what a failed copy or write leaves behind, comes in with each call.

`dafny verify dfyconfig.toml` checks the project.

## What turned out to need a condition

- `mod_pow` returns 1 for modulus 1 and exponent 0, so it is exact if and only if not both hold
  (`BigUInt.ModPowIsExact`).
- The padding of SHA-256 and SHA-384 is that of FIPS 180-4 exactly while the bit length fits 64 bits; for
  SHA-384 the standard allows more (`ShaDigest.PaddingMeetsFips`).
- `oid_to_string` gives the dotted text of an object identifier if and only if its first two arcs share one octet
  and every other one fits 64 bits (`ObjectIdentifiers.OidReadsBack`); 2.999 reads as 2.56.55
  (`ObjectIdentifiers.LargeRootReadsWrong`).
- The Authenticode hash covers everything but the three excluded regions if and only if the sections leave no
  gap and nothing follows the certificate table (`PeAuthenticodeHash.HashCoversAllButExcluded`; with the table
  between two sections, `PeAuthenticodeHash.HashCoversAroundTable`). Accepted images fail both
  (`PeImages.GapIsNotHashed`, `PeImages.TailIsNotHashed`).
- `decode_base64` returns the encoded bytes if and only if they do not look like UTF-16LE, and recovers
  UTF-16LE text if and only if it has at least two characters (`Base64Decoder.DecodeInvertsEncode`,
  `Base64Decoder.DecodeRecoversText`).
- The next record id after loading a ledger is above all loaded ids if and only if none of them is 2^64 - 1
  (`Ledger.NextIdAfterLoad`).
- A quarantine or restore loses a file if and only if its rename goes over one that has no other copy
  (`QuarantineRuns.OnlyShredLoses`). A restore's does when the probe of the original path fails, which counts as
  an absent file; a quarantine's does when its vault path is taken, which a valid vault excludes
  (`QuarantineRuns.ValidVaultLosesNothing`). A fresh vault can come to either (`QuarantineRuns.RestoreCanLose`,
  `QuarantineRestarts.QuarantineCanLose`).
- `shred` answers OK and marks the record shredded in any case. The file is gone if and only if the probe and the
  removal both work (`QuarantineRuns.ShredErasesOnlyItsFile`).
- A failed ledger write is only logged. The vault invariant survives a restart if and only if the ledger file fits
  the vault (`QuarantineRestarts.RestartIsValid`, `QuarantineRestarts.EveryProcessStartsValid`): after writes that
  work or change nothing, if and only if each record last filed as live is still in the vault and nothing lies
  behind the last of them (`QuarantineRestarts.RestartSurvivesExactly`). It does not survive a quarantine whose
  append could not open the ledger (`QuarantineRestarts.FailedAppendReusesId`) or a failed move that left something
  behind, unless a successful quarantine followed (`QuarantineRestarts.TidyProcessSurvives`).
- A torn append is read back if and only if it got past the sixth bar (`TornWrites.TornAppendSurvives`); the next
  append then joins the torn line, and both records are lost (`TornWrites.TornAppendCostsBoth`). A torn rewrite
  keeps exactly the records that got past theirs (`TornWrites.TornRewriteSurvives`).
- `utf16le_to_utf8` returns UTF-8 if and only if no unpaired surrogate comes before the NUL or the end
  (`Utf16Decoder.ConvertedIsUtf8`).
- Stopping the pipeline processes everything accepted if and only if, when the bus closes, the worker is not
  between an empty pop and its look at `closed()` with something queued since
  (`PipelineThreads.StopDrainsExactly`), and that can happen (`PipelineThreads.StopCanLeaveAnObservation`).

## Where the code and its documentation differ

The model follows the code.

- `include/gcad/security/bignum.hpp:42` announces left-to-right exponentiation; `bignum.cpp:168-171` goes
  from the lowest bit.
- `include/gcad/security/authenticode.hpp:53-54` announces CHAIN_INVALID for a cyclic certificate set;
  `authenticode.cpp:90` returns VALID_UNTRUSTED_ROOT (`Authenticode.CycleIsUntrustedRoot`).
- `include/gcad/security/pe_authenticode_hash.hpp:11-20` names three excluded regions;
  `pe_authenticode_hash.cpp:94-105` also leaves out gaps between sections and what follows the certificate
  table.

## Model

| member | source | states |
|---|---|---|
| BigUInt.ValueInjective | src/security/bignum.cpp:5-7 | trimmed limbs are a canonical form: two numbers of equal value are the same limbs |
| BigUInt.Trim | src/security/bignum.cpp:5-7 | dropping leading zero limbs keeps the value and yields the canonical form |
| BigUInt.FromSmall | src/security/bignum.cpp:27-31 | the canonical number of a 32-bit value, zero included |
| BigUInt.Compare | src/security/bignum.cpp:70-77 | the sign of the difference of the two values, from limb counts and the highest differing limb |
| BigUInt.Add | src/security/bignum.cpp:79-93 | exact sum of any two numbers; every intermediate fits 64 bits |
| BigUInt.Subtract | src/security/bignum.cpp:95-110 | exact difference whenever it is not negative, borrows included |
| BigUInt.ColumnFits | src/security/bignum.cpp:119-121 | limb product plus limb plus carry never overflows 64 bits and its carry fits a limb |
| BigUInt.RippleValue | src/security/bignum.cpp:124-129 | one step of the carry ripple moves the carry up one limb without changing the value |
| BigUInt.AddRow | src/security/bignum.cpp:117-129 | one row of the product adds x * b at its place; the ripple never leaves the array |
| BigUInt.Multiply | src/security/bignum.cpp:112-133 | exact product of any two numbers, in canonical form |
| BigUInt.ShiftLeftOneBit | src/security/bignum.cpp:135-147 | exactly twice the value, the top carry included |
| BigUInt.BitLength | src/security/bignum.cpp:56-62 | the position of the highest set bit, 0 for zero |
| BigUInt.GetBit | src/security/bignum.cpp:64-68 | bit i of the value, false beyond its length |
| BigUInt.Mod | src/security/bignum.cpp:149-161 | the bit-serial remainder is the mathematical one for every modulus, 0 for modulus 0 |
| BigUInt.ModPow | src/security/bignum.cpp:163-173 | the value of ModPowValue, which is base^exp mod m if and only if not both m = 1 and exp = 0; 0 for modulus 0 |
| BigUInt.ModPowIsExact | src/security/bignum.cpp:163-173 | for m > 0 what ModPow returns is base^exp mod m if and only if not both m = 1 and exp = 0 |
| BigUIntBytes.FromBytesBe | src/security/bignum.cpp:9-25 | OS2IP of RFC 8017 section 4.2, for any bytes, leading zeros included |
| BigUIntBytes.LittleEndianBytes | src/security/bignum.cpp:34-40 | four bytes a limb, of the same value read from the low end |
| BigUIntBytes.ToBytesBe | src/security/bignum.cpp:33-54 | bytes of the same value, at least min_len of them, and no leading zero beyond min_len |
| BigUIntBytes.ToBytesIsI2osp | src/security/bignum.cpp:44-53 | those bytes are I2OSP of RFC 8017 section 4.1 when the value fits min_len, and otherwise the shortest form |
| BigUIntBytes.RoundTripBytes | src/security/bignum.cpp:9-54 | to_bytes_be with the original length undoes from_bytes_be, for every byte string |
| RsaPkcs1.EmsaShape | src/security/rsa_pkcs1.cpp:42-58 | what the reference encoding looks like: 00 01, FF up to a 00 separator, the prefix, the digest |
| RsaPkcs1.CheckPadding | src/security/rsa_pkcs1.cpp:43-58 | the scanning check accepts exactly the one EMSA-PKCS1-v1_5 block of section 9.2 of RFC 8017, with at least 8 padding bytes |
| RsaPkcs1.VerifyPkcs1v15 | src/security/rsa_pkcs1.cpp:27-59 | accepts if and only if 0 < sig < n, e and n are not zero, and sig^e mod n in k bytes is that block |
| RsaPkcs1.VerifyPkcs1v15Sha256 | src/security/rsa_pkcs1.cpp:63-66 | the same with the SHA-256 DigestInfo |
| RsaPkcs1.VerifyPkcs1v15Sha384 | src/security/rsa_pkcs1.cpp:68-71 | the same with the SHA-384 DigestInfo |
| RsaPkcs1.SignatureBindsDigest | src/security/rsa_pkcs1.cpp:27-71 | one signature verifies under one key for one digest and one algorithm only |
| RsaSigning.EncodedBelow | src/security/rsa_pkcs1.cpp:41-44 | an encoded message starts with 00 01, so as a number it lies between zero and any modulus of its length |
| RsaSigning.SignedIsValid | src/security/rsa_pkcs1.cpp:27-59 | every signature made as section 8.2.1 of RFC 8017 has it, with an exponent that undoes the public one below the modulus, is accepted |
| DigestInfo.PrefixesAreDigestInfo | src/security/rsa_pkcs1.cpp:12-22 | each fixed prefix with a digest of 32 or 48 octets behind it is the DER encoding of a DigestInfo: SEQUENCE { SEQUENCE { id-sha256 or id-sha384, NULL }, OCTET STRING digest } |
| DigestInfo.PrefixesRead | src/security/rsa_pkcs1.cpp:12-22 | so the reader finds in it that one SEQUENCE over the whole, the algorithm with its OID and NULL, and the digest |
| DigestInfo.NamesAreStandard | src/security/authenticode.cpp:13-15 | the OID texts are those of id-sha256, sha256WithRSAEncryption and sha384WithRSAEncryption, and the OID octets in the prefixes have the arcs 2.16.840.1.101.3.4.2.1 and ..2.2 |
| Asn1.ReadTag | src/security/asn1.cpp:9-30 | the tag number, high-tag form of at most five bytes included, modulo 2^32; none when it is cut short |
| Asn1.ReadLength | src/security/asn1.cpp:32-46 | the length field, short or long form; indefinite, overlong, cut-short and overrunning ones are refused |
| Asn1.ParseElement | src/security/asn1.cpp:5-52 | one element of section 8.1 of X.690, with its error cases |
| Asn1.ParseLocal | src/security/asn1.cpp:5-52 | a successful parse depends on the bytes of the element alone: not on what follows, nor on where it lies |
| Asn1.ParseSequenceChildren | src/security/asn1.cpp:54-65 | the elements from the start of the range up to the first that does not parse |
| Asn1.ChildrenTile | src/security/asn1.cpp:54-65 | the children tile the range without gaps up to where they stop, each an element of its own, and they stop only at the end or at malformed bytes |
| Asn1.ChildrenOfConcat | src/security/asn1.cpp:54-85 | over concatenated elements, anywhere in a buffer, exactly those come out, in order, and raw_bytes gives back each one |
| Asn1.UnwrapExplicit | src/security/pkcs7.cpp:14-20 | the inner element of an explicit tag exactly when there is one |
| Asn1.UnwrapWrapped | src/security/pkcs7.cpp:14-20 | unwrapping what was wrapped gives the element back |
| Asn1.ReadUnsignedValue | src/security/asn1.cpp:67-77 | the DER integer of a magnitude reads back with its value, with the pad byte stripped |
| Asn1.ReadUnsignedIsExact | src/security/asn1.cpp:67-77 | octets come back exactly for a universal INTEGER whose value in two's complement is not negative, and they have that value |
| Asn1.MinOctetsValue | src/security/pkcs7.cpp:230-235 | the shortest base-256 digits have the value and no leading zero |
| Asn1.LengthDigits | src/security/pkcs7.cpp:230-233 | the loop collects those digits from the low end |
| Asn1.EncodeLength | src/security/pkcs7.cpp:226-236 | the length field in DER, short below 128 |
| Asn1.LengthRoundTrip | src/security/pkcs7.cpp:226-236 | every written length reads back, wherever it lies; the long form is minimal (section 10.1 of X.690) |
| Asn1.DerEncodeSet | src/security/pkcs7.cpp:222-240 | tag, length and content of the SET |
| Asn1.SetRoundTrip | src/security/pkcs7.cpp:222-240 | parsing der_encode_set(c), whatever follows it, gives a constructed universal SET with content c and exactly its bytes |
| DerWriter.IdentifierReads | src/security/asn1.cpp:5-30 | the identifier octets of section 8.1.2 of X.690 are read back for every class, primitive or constructed, and every tag number of 32 bits |
| DerWriter.LongTagIsRefused | src/security/asn1.cpp:16-30 | a tag number that goes on after five octets, or is cut off, is refused |
| DerWriter.LengthIsExact | src/security/asn1.cpp:32-46 | the reader takes exactly the definite lengths of at most nine octets, minimal or not |
| DerWriter.ElementReads | src/security/asn1.cpp:5-52 | every element written in DER is read back with its class, tag, content and length, wherever it lies |
| ObjectIdentifiers.OidToString | src/security/asn1.cpp:87-110 | oid_to_string against the recursive definition, truncated and foreign elements included |
| ObjectIdentifiers.ArcsReadBack | src/security/asn1.cpp:92-109 | the arcs of an object identifier, written as section 8.19 of X.690 has it, are read back if and only if the first two share one octet and every other one fits 64 bits |
| ObjectIdentifiers.DottedIsInjective | src/security/asn1.cpp:97-106 | different arcs have different texts |
| ObjectIdentifiers.OidReadsBack | src/security/asn1.cpp:87-110 | so the text is the dotted one if and only if that holds, for every object identifier |
| ObjectIdentifiers.LargeRootReadsWrong | src/security/asn1.cpp:92-95 | 2.999 reads as 2.56.55 |
| ShaDigest.ShaContext.constructor | include/gcad/common.hpp:273-280 | a context that was fed nothing |
| ShaDigest.ShaContext.Transform | include/gcad/common.hpp:285 | the hand-over of a full buffer keeps what was fed and empties the buffer |
| ShaDigest.ShaContext.Update | include/gcad/common.hpp:282-287 | appends the bytes to what was fed, for SHA-256 and SHA-384 alike |
| ShaDigest.ShaContext.PutLength | include/gcad/common.hpp:427-428 | the length field: zeros, then the 64-bit count in big-endian order |
| ShaDigest.ShaContext.WriteOutput | include/gcad/common.hpp:299-306 | the state words in big-endian order, as many as the digest has |
| MerkleDamgard.ZeroCountIsLeast | include/gcad/common.hpp:292-296 | the zero bytes of the padding are the least number that lets the length field end a block, as section 5.1 of FIPS 180-4 asks |
| ShaDigest.ShaContext.Finalize | include/gcad/common.hpp:289-307 | the compression function folded over the padded message, written out |
| ShaDigest.PaddingMeetsFips | include/gcad/common.hpp:289-298 | the padding is that of sections 5.1.1 and 5.1.2 of FIPS 180-4 exactly for messages whose bit length fits 64 bits, up to the 2^128 bits that SHA-384 admits |
| ShaDigest.HashPieces | include/gcad/common.hpp:282-307 | any splitting of a message into updates gives the digest of the whole |
| ShaDigest.HashFile | include/gcad/common.hpp:323-333 | reading in 8192-byte chunks gives the digest of the content |
| DigestConstants.Sha256InitialValue | include/gcad/common.hpp:275-279 | the initial value is the first 32 bits of the fractional parts of the square roots of the first eight primes (section 5.3.3 of FIPS 180-4) |
| DigestConstants.Sha384InitialValue | include/gcad/common.hpp:403-408 | the first 64 bits of those of the ninth to sixteenth primes (section 5.3.4) |
| DigestConstants.DigestLengths | include/gcad/common.hpp:299-307 | digests of 32, 48 and 16 octets |
| DigestConstants.PaddedSizes | include/gcad/common.hpp:289-298 | the padded message is whole blocks of 64 or 128 octets that begin with the message and end in its bit length in 8 or 16 octets, big-endian |
| Md5Digest.Md5Context.constructor | src/engines/pe_static_analysis_engine.cpp:84-93 | a context that was fed nothing |
| Md5Digest.Md5Context.Absorb | src/engines/pe_static_analysis_engine.cpp:98-111 | the bulk path: filling the buffer, whole blocks straight from the input, the rest copied; nothing is lost or repeated |
| Md5Digest.Md5Context.Update | src/engines/pe_static_analysis_engine.cpp:95-112 | appends the bytes to what was fed, the bit count wrapping at 2^64 |
| Md5Digest.Md5Context.CountOctets | src/engines/pe_static_analysis_engine.cpp:115-118 | the bit count in little-endian order |
| Md5Digest.Md5Context.Finalize | src/engines/pe_static_analysis_engine.cpp:114-134 | the compression function folded over the message padded as in sections 3.1 and 3.2 of RFC 1321 |
| Md5Digest.PadLength | src/engines/pe_static_analysis_engine.cpp:120-124 | padding always fills whole blocks |
| Md5Digest.HashPieces | src/engines/pe_static_analysis_engine.cpp:95-134 | any splitting of a message into updates gives the digest of the whole |
| DigestConstants.Md5InitialValue | src/engines/pe_static_analysis_engine.cpp:84-92 | the initial value is the one of section 3.3 of RFC 1321 |
| DigestConstants.Md5PaddedSize | src/engines/pe_static_analysis_engine.cpp:114-126 | the padded message is whole blocks of 64 octets that begin with the message and end in its bit length modulo 2^64, low-order octet first |
| PeAuthenticodeHash.FindOptionalHeader | src/security/pe_authenticode_hash.cpp:28-49 | where an accepted image keeps its optional header, within the file |
| PeAuthenticodeHash.FindLayout | src/security/pe_authenticode_hash.cpp:28-74 | every offset that an accepted image yields is ordered and within the file |
| PeFormat.TablesAreContiguous | src/security/pe_authenticode_hash.cpp:28-74 | the field tables of the PE format used here have no gaps, and a full optional header has 224 octets, or 240 in PE32+ |
| PeFormat.LayoutFollowsFormat | src/security/pe_authenticode_hash.cpp:28-74 | every field that the layout comes from is the one the format has at that place, in PE32 and PE32+ images: CheckSum, SizeOfHeaders, the certificate entry, NumberOfSections, SizeOfOptionalHeader |
| PeFormat.TableFollowsDirectories | src/security/pe_authenticode_hash.cpp:46-73 | with sixteen directories the section table follows twelve entries after the start of the certificate entry |
| PeAuthenticodeHash.CollectSections | src/security/pe_authenticode_hash.cpp:76-85 | the raw ranges of the non-empty sections, none out of the file |
| PeFormat.SectionsAreRawRanges | src/security/pe_authenticode_hash.cpp:76-85 | the sections are exactly the non-empty ranges of PointerToRawData and SizeOfRawData, and there are none exactly when one leaves the file |
| PeFormat.RawRangeFollowsFormat | src/security/pe_authenticode_hash.cpp:77-79 | where a section header has the two fields |
| PeAuthenticodeHash.SortedIsSorted | src/security/pe_authenticode_hash.cpp:86-87 | the reference order is by offset |
| PeAuthenticodeHash.SortIsUnique | src/security/pe_authenticode_hash.cpp:86-87 | for distinct offsets every sort gives that order, so the choice of std::sort does not matter |
| PeAuthenticodeHash.HashStream | src/security/pe_authenticode_hash.cpp:89-107 | the digest of the concatenated ranges, fed piece by piece |
| PeAuthenticodeHash.ComputeAuthenticodePeHashSha256 | src/security/pe_authenticode_hash.cpp:27-108 | the digest of exactly the hashed bytes, or none for a malformed image |
| PeAuthenticodeHash.HashCoversAllButExcluded | src/security/pe_authenticode_hash.cpp:94-105 | for sections that overlap neither the headers nor one another, with the certificate table behind them if there is one, the hashed bytes are the file without CheckSum, the security entry and the table if and only if there is no gap and nothing follows the table |
| PeAuthenticodeHash.HashCoversAroundTable | src/security/pe_authenticode_hash.cpp:94-105 | with the table between two sections, if and only if the sections reach without a gap from the headers to the table and from the table to the end of the file |
| PeImages.GapIsNotHashed | src/security/pe_authenticode_hash.cpp:94-105 | and it can fail: an accepted unsigned image of 410 bytes with bytes between its headers and its section that no digest covers |
| PeImages.TailIsNotHashed | src/security/pe_authenticode_hash.cpp:94-105 | likewise an accepted image with its table between two sections and four bytes behind the last one |
| PeImages.PlusIsCovered | src/security/pe_authenticode_hash.cpp:27-108 | an accepted PE32+ image whose digest leaves out CheckSum at 152 and the certificate entry at 232, and nothing else |
| PeAuthenticodeHash.SigningKeepsHash | src/security/pe_authenticode_hash.cpp:27-108 | appending a certificate table and rewriting only those two fields leaves the hashed bytes as they were |
| PeAuthenticodeHash.SignatureRoundTrip | src/security/pe_authenticode_hash.cpp:110-150 | extraction then returns exactly the appended PKCS#7 blob, and nothing before |
| PeFormat.ExtractionFollowsFormat | src/security/pe_authenticode_hash.cpp:110-150 | a blob is extracted if and only if the certificate entry of the format names a table within the file that begins with a WIN_CERTIFICATE of type PKCS SignedData, and it is what follows the fields of that |
| Authenticode.VerifyCertSignedBy | src/security/authenticode.cpp:58-67 | true if and only if the issuer has a key and the certificate body verifies under it by the named algorithm |
| Authenticode.FindTrustAnchorBySubject | src/security/authenticode.cpp:75 | the first anchor of that name |
| Authenticode.VerifyCertificateChain | src/security/authenticode.cpp:71-91 | the verdict of the reference walk, for any issuers, cyclic ones included |
| Authenticode.WalkMeaning | src/security/authenticode.cpp:71-91 | what each verdict means: a verified path to an anchor, a link that fails, or a walk that ran out or used up its depth |
| Authenticode.TrustedIsSound | src/security/authenticode.cpp:74-78 | TRUSTED implies a path of at most five intermediates to an anchor, each link matching issuer to subject and verifying under the next key |
| Authenticode.TrustedIsExact | src/security/authenticode.cpp:71-91 | with distinct names TRUSTED holds if and only if such a path exists |
| Authenticode.PathIsWalked | src/security/authenticode.cpp:80-89 | with distinct names the first-match search follows any verified path to its end |
| Authenticode.SelfIssuedIsStuck | src/security/authenticode.cpp:82 | a self-issued intermediate is on no path to an anchor, so skipping it loses nothing |
| Authenticode.FirstNameDecides | src/security/authenticode.cpp:74-89 | at every step the first anchor of the issuer's name decides alone; without one, the first other certificate of that name does |
| Authenticode.LongWalkIsUntrustedRoot | src/security/authenticode.cpp:74-90 | any walk of six verified steps that meets no anchor name ends in VALID_UNTRUSTED_ROOT |
| Authenticode.CycleIsUntrustedRoot | src/security/authenticode.cpp:74-90 | a cycle of any length that names no anchor ends in VALID_UNTRUSTED_ROOT, wherever the walk enters it |
| Authenticode.FindSignerCertificate | src/security/pkcs7.cpp:215-220 | the first certificate with the signer's issuer and serial number, or none if no certificate has them |
| Authenticode.SignerIsNamed | src/security/pkcs7.cpp:215-220 | the signer's certificate bears its issuer name and serial number, and none before it bears both |
| SpcContent.ExtractSpcPeHash | src/security/authenticode.cpp:35-53 | the claimed digest against the recursive definition |
| SpcContent.SpcReadsBack | src/security/authenticode.cpp:35-53 | from any first element and a DigestInfo, the digest comes back if and only if the algorithm is SHA-256 and it has 32 octets |
| Authenticode.VerifyAuthenticode | src/security/authenticode.cpp:93-135 | a chain verdict is given if and only if there is a signer with a key and a supported digest and the blob covers the image, and is then the verdict of the walk from the signer; SIGNATURE_INVALID and HASH_MISMATCH likewise have their exact conditions, and MALFORMED is what is left |
| Authenticode.CoverageSurvivesSigning | src/security/authenticode.cpp:106-131 | a blob that covers an unsigned image covers the image with the blob appended |
| SignedImages.IssuedIsSigned | src/security/authenticode.cpp:58-67 | a certificate signed by the holder of the issuer's private exponent with one of the two algorithms verifies |
| SignedImages.SignedImageIsTrusted | src/security/authenticode.cpp:93-135 | from the key pairs up: an unsigned image, a blob that names its digest and is signed, a path of at most five issued certificates to an anchor, and the blob appended: the blob is extracted again, it covers the signed image, and the walk ends in TRUSTED |
| YaraSearch.AndFull | src/engines/yara_engine.cpp:261-266 | masking with 0xFF changes no byte, so a full mask compares whole bytes |
| YaraMeaning.MatchMeans | src/engines/yara_engine.cpp:255-270 | a pattern lies at a position if and only if every byte with a full mask is there, in either case of a letter for a nocase text, whatever lies under an empty mask |
| YaraSearch.MatchesFromIsExact | src/engines/yara_engine.cpp:256-269 | the reference list names exactly the matching positions, overlapping ones included, in ascending order |
| YaraSearch.SkipMisses | src/engines/yara_engine.cpp:249-252 | positions without a match may be passed over |
| YaraSearch.FindByteByByte | src/engines/yara_engine.cpp:255-270 | the byte-by-byte branch returns the reference list, wildcards and case folding included |
| YaraSearch.BuildShifts | src/engines/yara_engine.cpp:219-231 | no entry of the shift table passes an occurrence of its byte in the pattern |
| YaraSearch.ShiftSkipsNoMatch | src/engines/yara_engine.cpp:248-253 | no position within a shift matches |
| YaraSearch.MatchBackward | src/engines/yara_engine.cpp:235-244 | comparing from the end decides the same match |
| YaraSearch.FindHorspool | src/engines/yara_engine.cpp:233-254 | the Horspool branch returns the same list as the byte-by-byte branch |
| YaraSearch.FindPattern | src/engines/yara_engine.cpp:207-273 | both branches together: all matches, for every buffer and pattern |
| YaraSearch.ParseHexPattern | src/engines/yara_engine.cpp:152-190 | accepts exactly the texts of hex pairs, wildcards and separators that name at least one byte, and returns their cells |
| YaraSearch.HexRoundTrip | src/engines/yara_engine.cpp:152-190 | every pattern written in hex with ?? for wildcards parses back |
| YaraMeaning.HexValueIsDigit | src/engines/yara_engine.cpp:152-160 | hex_val knows exactly the sixteen digits, in either case |
| YaraMeaning.HexTextsAreTokens | src/engines/yara_engine.cpp:152-190 | a text is a hex pattern with these cells if and only if it is a sequence of separators, wildcards and pairs of digits that spells them |
| FloodTracker.KeptIsCount | src/engines/etg_ri_engine.cpp:203-207 | what an expiry from the front leaves over is as many as the recent entries of the full history |
| FloodTracker.FloodTracker.constructor | src/engines/etg_ri_engine.cpp:186-208 | an empty tracker tracks the empty history |
| FloodTracker.FloodTracker.DropExpired | src/engines/etg_ri_engine.cpp:193-194 | only expired entries are dropped, and what is left begins with a recent one |
| FloodTracker.FloodTracker.PruneAll | src/engines/etg_ri_engine.cpp:191-201 | pruning entries and whole keys loses nothing recent for any source |
| FloodTracker.FloodTracker.IsFlood | src/engines/etg_ri_engine.cpp:186-208 | true if and only if the full history holds more than 500 calls of that source in the window |
| FloodTracker.RunCalls | src/engines/etg_ri_engine.cpp:186-208 | over any run of calls at non-decreasing times every answer is that of the full history |
| FloodTracker.FloodMeans | src/engines/etg_ri_engine.cpp:186-208 | those answers in plain terms: more than 500 calls of the source within the second before, itself included |
| Base64Decoder.DecodeBytes | src/engines/lolbins_engine.cpp:122-137 | the accumulator loop against the recursive definition, its 32-bit wrap included |
| Base64Decoder.JunkIsSkipped | src/engines/lolbins_engine.cpp:127-130 | bytes outside the alphabet change nothing |
| Base64Decoder.DecodedEncode | src/engines/lolbins_engine.cpp:125-137 | decoding the encoding of section 4 of RFC 4648 gives the bytes back, whatever the accumulator still holds |
| Base64Decoder.DecodeBase64 | src/engines/lolbins_engine.cpp:100-163 | the decoded bytes, read as UTF-16LE where they look like it; none for no bytes |
| Base64Decoder.DecodeInvertsEncode | src/engines/lolbins_engine.cpp:100-163 | for any non-empty bytes, with any junk interleaved, the result is those bytes if and only if they do not look like UTF-16LE |
| Base64Decoder.DecodeRecoversText | src/engines/lolbins_engine.cpp:141-158 | printable ASCII sent as UTF-16LE is recovered if and only if it has at least two characters |
| Base64Decoder.TableIsAlphabet | src/engines/lolbins_engine.cpp:103-121 | the decoding table inverts the alphabet of RFC 4648 and knows nothing else |
| Base64Decoder.KeepsPrintable | src/engines/lolbins_engine.cpp:141-158 | of any UTF-16LE units exactly the printable ASCII ones, tabs and line ends are kept |
| Utf16Decoder.Utf8ReadsBack | src/security/etw_kernel_process_engine.cpp:54-68 | every code point below 0x110000 is read back from its reference bytes |
| Utf16Decoder.AppendCodePoint | src/security/etw_kernel_process_engine.cpp:54-68 | appends the UTF-8 form of one code point |
| Utf16Decoder.Utf16leToUtf8 | src/security/etw_kernel_process_engine.cpp:37-71 | the cursor loop against the recursive definition, lone surrogates and odd lengths included |
| Utf16Decoder.CodePointOfUtf16 | src/security/etw_kernel_process_engine.cpp:41-52 | one scalar value in UTF-16LE, surrogate pairs included, reads as itself |
| Utf16Decoder.ConvertsText | src/security/etw_kernel_process_engine.cpp:37-71 | every UTF-16LE text of non-zero scalar values becomes its UTF-8 form, up to a NUL or the end |
| Utf16Decoder.TextIsUnique | src/security/etw_kernel_process_engine.cpp:54-68 | no two lists of code points have the same reference text |
| Utf16Decoder.ConvertedIsUtf8 | src/security/etw_kernel_process_engine.cpp:37-71 | the result is UTF-8 in the sense of section 3 of RFC 3629, the text of scalar values, if and only if no unpaired surrogate comes before the NUL or the end |
| SelfDefenseAcl.ParseAclEntries | src/engines/self_defense.cpp:213-233 | the entries up to the count or the first truncated one |
| SelfDefenseAcl.BuildAclWithPrependedDeny | src/engines/self_defense.cpp:235-278 | the header, the deny entry and the original entries, or nothing for exactly the lists it refuses |
| SelfDefenseAcl.EntriesMoved | src/engines/self_defense.cpp:220-231 | entries are read the same wherever their bytes lie |
| SelfDefenseAcl.BuiltListParses | src/engines/self_defense.cpp:235-278 | parsing the result gives the deny entry with the requested mask and then exactly what parsing the original gives, and the 16-bit size and count fields are right |
| SelfDefenseAcl.BuiltListIsAccepted | src/engines/self_defense.cpp:239-255 | the result can be extended again if and only if size and count leave room |
| SelfDefenseAcl.AcceptedLists | src/engines/self_defense.cpp:237-255 | the lists that are extended, by their size and count fields |
| SelfDefenseAcl.DenyEntryIsForEveryone | src/engines/self_defense.cpp:242-273 | the entry is an ACCESS_DENIED_ACE without flags, of its own size, with the mask, for the security identifier S-1-1-0, and the header has revision 2, size and count |
| SelfDefenseAcl.WrittenEntriesParse | src/engines/self_defense.cpp:213-233 | any entries that were written are read back, as many as the count says |
| SelfDefenseAcl.BadEntryEnds | src/engines/self_defense.cpp:221-227 | an entry that does not cover its header and mask, or is cut off, ends the list |
| Decimal.ValueOfToString | src/security/quarantine_executor.cpp:10 | decimal text has the value it was written for |
| Decimal.StoullRoundTrip | src/security/quarantine_executor.cpp:51-52 | every 64-bit number is read back from its decimal text |
| Decimal.StollRoundTrip | src/security/quarantine_executor.cpp:56-57 | every signed 64-bit number is read back from its decimal text |
| Decimal.ToStringIsCanonical | src/security/quarantine_executor.cpp:10 | decimal text has no superfluous zero |
| Decimal.AnyNumberIsRead | src/security/quarantine_executor.cpp:51-57 | after white space and a sign, and whatever follows: unsigned numbers are read modulo 2^64 when negative and refused from 2^64 on, signed ones exactly within their range |
| Observation.KeyTellsKind | include/gcad/security/observation.hpp:44-64 | observations of different kinds never share a key, whatever they name |
| Observation.KeyIgnoresSpelling | include/gcad/security/observation.hpp:45-62 | letter case and the direction of slashes never split a key |
| Observation.NormalizeMeans | include/gcad/security/observation.hpp:45-51 | normalising identifies exactly the spellings of one text: either case of a letter, either slash |
| Observation.HashDecides | include/gcad/security/observation.hpp:53-54 | observations with a hash share a key if and only if kind and hash agree, whatever else they name |
| Observation.PathDecides | include/gcad/security/observation.hpp:55-56 | those with a path and no hash, if and only if kind and path agree |
| Observation.ProcessDecides | include/gcad/security/observation.hpp:57-58 | those with neither, if and only if kind and process id agree |
| Observation.NameDecides | include/gcad/security/observation.hpp:59-60 | those with no process id either, if and only if kind and process name agree |
| TelemetryBus.PublishRaisesOneCounter | src/security/telemetry_bus.cpp:8-31 | every publish on the bus raises the counter of its answer by one and no other |
| TelemetryBus.TelemetryBus.constructor | src/security/telemetry_bus.cpp:5-6 | an open, empty bus of capacity at least one |
| TelemetryBus.TelemetryBus.Publish | src/security/telemetry_bus.cpp:8-31 | answer and new state, the checks in their order: invalid, closed, full |
| TelemetryBus.TelemetryBus.TryPop | src/security/telemetry_bus.cpp:33-48 | the oldest observation leaves the queue, or nothing changes |
| TelemetryBus.TelemetryBus.Close | src/security/telemetry_bus.cpp:50-56 | only the closed flag changes |
| TelemetryBus.FillsToCapacity | src/security/telemetry_bus.cpp:8-31 | an open bus takes valid observations in order until it holds as many as its capacity, and drops every one after that |
| TelemetryBus.RefusalsInOrder | src/security/telemetry_bus.cpp:9-19 | what is not valid is refused as such, by a closed bus as well |
| PipelineThreads.StepConserves | src/security/security_pipeline.cpp:84-93 | every action of any thread keeps accepted = processed ++ in hand ++ queued |
| PipelineThreads.RunKeepsInvariant | src/security/security_pipeline.cpp:12-37 | conservation, capacity, counters, validity and the life of the worker thread hold in every interleaving |
| PipelineThreads.EveryRunConserves | src/security/telemetry_bus.cpp:8-48 | in every interleaving accepted = processed ++ in hand ++ queued in order, the queue stays within its capacity, and each publish on the bus is counted once |
| PipelineThreads.NothingAcceptedAfterClose | src/security/telemetry_bus.cpp:16-19 | after close nothing is accepted in any continuation |
| PipelineThreads.NothingBeforeStart | src/security/security_pipeline.cpp:39-46 | nothing is accepted before the pipeline is started |
| PipelineThreads.StopLeavesOnlyTheQueue | src/security/security_pipeline.cpp:27-32 | once stop has returned the worker holds nothing: what was accepted and not processed is what the queue holds |
| PipelineThreads.StopDrainsExactly | src/security/security_pipeline.cpp:84-93 | stop leaves everything accepted processed if and only if, at the moment the bus closes, the worker is not between an empty pop and its look at closed() with something queued since |
| PipelineThreads.EveryStopDrainsExactly | src/security/security_pipeline.cpp:27-32 | the same for every run from the start, whatever comes before and after the close |
| PipelineThreads.StopCanLeaveAnObservation | src/security/security_pipeline.cpp:87-91 | a run in which that happens: stop returns with an accepted observation still queued |
| Policy.PathStartsWith | src/security/policy.cpp:13-21 | the loop decides the prefix relation of the normalised texts |
| Policy.IsProtectedPath | src/security/policy.cpp:25-29 | true if and only if some configured prefix applies |
| Policy.ProtectionCoversSubtree | src/security/policy.cpp:13-29 | everything below a protected path is protected, however it is spelled |
| Policy.CandidateFor | src/security/policy.cpp:31-52 | a candidate is pending, from a CRITICAL deterministic finding, with a non-empty unprotected path; when there is one is PipelineRuns.CandidatesAreComplete |
| Correlation.TotalWithout | src/security/correlation_engine.cpp:8-14 | the sum of source points does not depend on the order the hash map is walked in |
| Correlation.ScoreFor | src/security/correlation_engine.cpp:8-16 | the capped sum with the bonus for two sources |
| Correlation.CriticalNeedsTwoSources | src/security/correlation_engine.cpp:8-32 | one source never reaches CRITICAL, whatever its confidence |
| Correlation.AnySourceDeterministic | src/security/correlation_engine.cpp:18-24 | true if and only if some source is |
| Correlation.CorrelationEngine.constructor | src/security/correlation_engine.cpp:5-6 | nothing active, nothing found, ids from 1 |
| Correlation.CorrelationEngine.EvictOldest | src/security/correlation_engine.cpp:34-42 | a full map loses exactly one key, one of the oldest; otherwise nothing changes |
| Correlation.CorrelationEngine.Expire | src/security/correlation_engine.cpp:104-114 | exactly the keys outside the window go, the others stay as they are |
| Correlation.CorrelationEngine.Report | src/security/correlation_engine.cpp:54-101 | duplicate, silent update or finding, with the whole new state |
| Names.SortedIsInOrder | src/security/correlation_engine.cpp:93-97 | sorting names that differ puts them in strict lexicographic order |
| Names.BeforeMeans | src/security/correlation_engine.cpp:97 | and that order is the one by the first difference, a text before its continuations |
| Correlation.ListsIsUnique | src/security/correlation_engine.cpp:93-97 | the contributing sources of a finding do not depend on the order the hash map is walked in |
| Correlation.CorrelationEngine.SourceNames | src/security/correlation_engine.cpp:92-97 | each source once, in lexicographic order |
| Correlation.CorrelationEngine.Emit | src/security/correlation_engine.cpp:82-101 | the finding describes the key's state, its contributing sources in order, takes the next id, and the key remembers its score and level |
| Correlation.CorrelationEngine.Ingest | src/security/correlation_engine.cpp:44-102 | one step of the reference relation: refusal, or expiry, eviction and report |
| Accumulation.SourcesAccumulate | src/security/correlation_engine.cpp:44-102 | over any run: while nothing comes more than the window after the last counted observation of a key and it is not evicted, the key stays active and its state holds exactly the sources counted since it became active, each as last seen, and the first path, hash and evidence of them |
| Accumulation.FindingsTell | src/security/correlation_engine.cpp:54-101 | at each observation of such a key a finding goes out if and only if the observation counts and the score of all counted sources beats the last finding, and it counts and lists exactly those |
| Accumulation.TwoSourcesCorrelate | src/security/correlation_engine.cpp:44-102 | two sources within the window bring a finding that lists both, scores what they have together plus twenty, and is CRITICAL if and only if they bring seventy points |
| Accumulation.OldEvidenceIsForgotten | src/security/correlation_engine.cpp:54-57 | more than the window after the last counted observation nothing of it is left |
| CorrelationRuns.RisingIsShort | src/security/correlation_engine.cpp:79-80 | strictly rising scores of at most 100 make at most a hundred findings |
| CorrelationRuns.ReportRises | src/security/correlation_engine.cpp:75-80 | a finding that is reported beats the last reported score, and its level is not lower |
| CorrelationRuns.DescribedIsGrounded | src/security/correlation_engine.cpp:82-97 | a finding is borne out by earlier observations of its key: its sources, its determinism, its path, hash and rationale, two sources when CRITICAL |
| CorrelationRuns.StepKeepsInvariant | src/security/correlation_engine.cpp:44-114 | ingest and expire keep the limits, the numbering, every key's period and the grounding of every finding |
| CorrelationRuns.RunKeepsInvariant | src/security/correlation_engine.cpp:44-114 | so they hold after every run, whatever the clock does |
| CorrelationRuns.KeysRiseWhileActive | src/security/correlation_engine.cpp:34-102 | while a key is active its findings rise strictly in score and never fall in level, so at most 100 are emitted; the active map stays within its limit |
| CorrelationRuns.EvictionTakesTheOldest | src/security/correlation_engine.cpp:34-42 | with 4096 keys active a new one drives out exactly one, and none that stays was seen longer ago |
| CorrelationRuns.UnusableChangesNothing | src/security/correlation_engine.cpp:46 | an observation without source or evidence, with a confidence outside [0, 1] or of level SAFE changes nothing |
| CorrelationRuns.SourcesAreNamed | src/security/correlation_engine.cpp:92-97 | no finding names an empty source |
| Ledger.SplitFields | src/security/quarantine_executor.cpp:39-45 | the splitting loop delivers the fields between the bars |
| Ledger.LoadOne | src/security/quarantine_executor.cpp:37-66 | one line adds its record, or nothing when it is corrupt |
| Ledger.LoadLedger | src/security/quarantine_executor.cpp:32-68 | the reading loop against the recursive definition, for any text |
| Ledger.SplitJoin | src/security/quarantine_executor.cpp:39-45 | splitting undoes joining for fields without bars |
| Ledger.LineRoundTrip | src/security/quarantine_executor.cpp:7-14 | a record's line parses back to it, its time cut to seconds |
| Ledger.SevenFieldsLoad | src/security/quarantine_executor.cpp:47-61 | a line of the older seven fields is a record that is not shredded |
| Ledger.LoadRebuilds | src/security/quarantine_executor.cpp:32-92 | loading the written ledger gives the same records, their times cut to seconds |
| Ledger.CutTwice | src/security/quarantine_executor.cpp:8-9 | cutting to seconds is idempotent, so a second round trip changes nothing more |
| Ledger.SecondsTruncate | src/security/quarantine_executor.cpp:8-9 | times are cut toward the epoch, by less than a second |
| Ledger.CorruptLineIsSkipped | src/security/quarantine_executor.cpp:47-66 | a corrupt line anywhere costs only itself |
| Ledger.NextIdAfterLoad | src/security/quarantine_executor.cpp:63 | after loading any text the next id is above every loaded id if and only if no record has id 2^64 - 1 |
| Ledger.NextIdAtMost | src/security/quarantine_executor.cpp:63 | and it is no higher than it has to be |
| Quarantine.Disk.Rename | src/security/quarantine_executor.cpp:127-128 | rename replaces what is at the destination, or fails and changes nothing |
| Quarantine.Disk.CopyFile | src/security/quarantine_executor.cpp:132-134 | copying never overwrites, and when it fails may leave a partial file |
| Quarantine.QuarantineExecutor.constructor | src/security/quarantine_executor.cpp:24-30 | starts from what the ledger file holds |
| Quarantine.QuarantineExecutor.Check | src/security/quarantine_executor.cpp:95-119 | a hash for exactly the files that may be quarantined |
| Quarantine.QuarantineExecutor.MoveIn | src/security/quarantine_executor.cpp:127-144 | rename, or copy and remove, or the copy taken back; the files in each case |
| Quarantine.QuarantineExecutor.Quarantine | src/security/quarantine_executor.cpp:94-159 | code, ledger, next id, files and ledger file after the call, in every branch |
| Quarantine.QuarantineExecutor.AppendLedger | src/security/quarantine_executor.cpp:70-74 | as much of the line as was written follows the old text |
| Quarantine.QuarantineExecutor.RewriteLedger | src/security/quarantine_executor.cpp:76-92 | the written part of the whole text takes the ledger's place, or what a failed copy leaves |
| Quarantine.QuarantineExecutor.Restore | src/security/quarantine_executor.cpp:161-197 | code and state after the call, in every branch |
| Quarantine.QuarantineExecutor.Erase | src/security/quarantine_executor.cpp:208-227 | overwritten as far as the writes got and removed unless that fails |
| Quarantine.QuarantineExecutor.Shred | src/security/quarantine_executor.cpp:199-234 | code and state after the call, in every branch |
| QuarantineRuns.VaultPathsDiffer | src/security/quarantine_executor.cpp:124-125 | different ids have different vault paths |
| QuarantineRuns.OwnVaultPath | src/security/quarantine_executor.cpp:124-125 | two records never share a vault path |
| QuarantineRuns.QuarantineKeepsValid | src/security/quarantine_executor.cpp:94-159 | quarantine keeps the vault invariant, whichever rename, copy or remove fails |
| QuarantineRuns.RestoreKeepsValid | src/security/quarantine_executor.cpp:161-197 | restore keeps it |
| QuarantineRuns.ShredKeepsValid | src/security/quarantine_executor.cpp:199-234 | shred keeps it |
| QuarantineRuns.ElsewhereKeepsValid | src/security/quarantine_executor.cpp:94-234 | changes outside the vault by other programs keep it |
| QuarantineRuns.LiveRecordsAreKept | src/security/quarantine_executor.cpp:94-234 | along every run from a valid vault, fresh or loaded, each live record's bytes are at its own vault path and match its hash, and no record is both restored and shredded |
| QuarantineRuns.RenameLosesExactly | src/security/quarantine_executor.cpp:127-128 | a rename loses a file if and only if it goes over one that has no other copy |
| QuarantineRuns.QuarantineLosesExactly | src/security/quarantine_executor.cpp:94-159 | from any state: a quarantine loses a file if and only if its rename works and goes over a file at its vault path that has no other copy |
| QuarantineRuns.RestoreLosesExactly | src/security/quarantine_executor.cpp:161-197 | from any state: a restore loses a file if and only if its rename works and goes over a file at the original path that its failed probe did not see and that has no other copy |
| QuarantineRuns.OnlyShredLoses | src/security/quarantine_executor.cpp:94-197 | the two together, as one if and only if over both calls and every state |
| QuarantineRuns.ValidVaultLosesNothing | src/security/quarantine_executor.cpp:94-197 | in a valid vault no quarantine loses a file, nor a restore whose probe works |
| QuarantineRuns.RestoreCanLose | src/security/quarantine_executor.cpp:168-183 | and it happens: from a fresh vault, a quarantine, a new file in the place of the old one and a restore that cannot look there lose the only copy of the new file |
| QuarantineRuns.ShredErasesOnlyItsFile | src/security/quarantine_executor.cpp:199-234 | shredding a live record answers OK and marks it shredded in any case and touches no other file; its file is gone if and only if probe and remove work, and as it was if and only if the probe fails, or the remove fails and the overwriting changed nothing |
| QuarantineRuns.OnlyApprovedEnter | src/security/quarantine_executor.cpp:95-158 | a call succeeds exactly when it adds a record; then the candidate was approved, unprotected and of the expected hash, and the file is in the vault and no longer at its path |
| QuarantineRuns.RestoreGivesBack | src/security/quarantine_executor.cpp:182-194 | a restore that succeeds has put bytes with the recorded hash back at the original path |
| QuarantineRuns.RestoreUndoesQuarantine | src/security/quarantine_executor.cpp:94-197 | a restore after a quarantine gives back all files as they were |
| QuarantineAnswers.ApprovedFileEnters | src/security/quarantine_executor.cpp:94-159 | the quarantine of an approved, unprotected file of at most 200 MiB and of the expected hash succeeds while the ledger has fewer than 5000 records, and is refused as full otherwise |
| QuarantineAnswers.RestoreSucceedsExactly | src/security/quarantine_executor.cpp:168-197 | a live record is restored if and only if nothing is seen at the original path and something in the vault, and the rename works or, with nothing at all at the original path, the copy; otherwise the answer is ERR_ROLLBACK_FAIL and the ledger stays |
| QuarantineAnswers.RestoredStaysRestored | src/security/quarantine_executor.cpp:161-206 | a second restore answers OK and changes nothing, and a shred does not find the record |
| QuarantineAnswers.ShreddedStaysShredded | src/security/quarantine_executor.cpp:161-206 | a second shred answers OK and changes nothing, and a restore is refused |
| QuarantineAnswers.UnknownIsNotFound | src/security/quarantine_executor.cpp:161-206 | an id without a record is not found and nothing changes |
| QuarantineAnswers.LedgerIsBounded | src/security/quarantine_executor.cpp:120-121 | no run takes the ledger beyond 5000 records |
| QuarantineAnswers.UnopenedLedgerStays | src/security/quarantine_executor.cpp:70-80 | a ledger that cannot be opened stays as it is |
| QuarantineLedger.RewriteRepairs | src/security/quarantine_executor.cpp:76-92 | a rewrite that works makes the file the text of the ledger, whatever was wrong with it |
| QuarantineLedger.StepKeepsSync | src/security/quarantine_executor.cpp:70-92 | every call whose write works keeps the file equal to the text of the ledger |
| QuarantineLedger.RestartFindsTheLedger | src/security/quarantine_executor.cpp:32-92 | after every run whose writes work, loading gives the same records with times cut to seconds and a next id above all of theirs |
| QuarantineLedger.FreshIsStarted | src/security/quarantine_executor.cpp:24-35 | a fresh vault is how a first process begins |
| QuarantineRestarts.RestartIsValid | src/security/quarantine_executor.cpp:24-68 | whatever became of the ledger writes: the vault invariant holds after a restart if and only if the records read back are sound, their ids ascend, and no id between the last of them and the next id has anything at its vault path |
| QuarantineRestarts.LoadedFits | src/security/quarantine_executor.cpp:24-68 | and if the records read back are sound, in terms of them: the vault invariant survives if and only if each of those that is live is still in the vault and nothing lies behind the last of them |
| QuarantineRestarts.RestartSurvivesExactly | src/security/quarantine_executor.cpp:24-234 | for a process whose ledger writes each work or leave the file as it was: the next one finds the records last filed, and a valid vault if and only if each of those that is live is still in the vault and nothing lies behind the last of them |
| QuarantineRestarts.StepSettles | src/security/quarantine_executor.cpp:120-143 | a call that makes a record leaves nothing behind the last record; any other call leaves nothing if there was nothing and it is not a failed move that leaves something |
| QuarantineRestarts.TidyProcessSurvives | src/security/quarantine_executor.cpp:24-159 | when all those writes work, in terms of the calls: if and only if every failed move that left something behind was followed by a successful quarantine |
| QuarantineRestarts.EveryProcessStartsValid | src/security/quarantine_executor.cpp:24-234 | over any number of processes one after the other, whatever fails in them: each finds a valid vault if and only if each one before left a ledger file that fits its vault |
| QuarantineRestarts.LiveRecordsSurviveRestarts | src/security/quarantine_executor.cpp:24-234 | at any point of any of these processes each live record's bytes are at its own vault path and match its hash, and no record is both restored and shredded |
| QuarantineRestarts.FilesSurviveRestarts | src/security/quarantine_executor.cpp:24-197 | and no quarantine there loses a file, nor a restore whose probe works |
| QuarantineRestarts.RestartForgetsFailedMoves | src/security/quarantine_executor.cpp:124-143 | the invariant can fail: after a failed move whose copy stays behind, the restarted process would give its vault path out again |
| QuarantineRestarts.FailedAppendReusesId | src/security/quarantine_executor.cpp:70-74 | so it does after a quarantine that answers OK while its append cannot open the ledger: the next process gives the same id out again, with the file at that vault path |
| QuarantineRestarts.NextQuarantineLoses | src/security/quarantine_executor.cpp:120-128 | and its next quarantine loses that file if it is the only copy |
| QuarantineRestarts.QuarantineCanLose | src/security/quarantine_executor.cpp:70-159 | from a fresh vault with any two different files: two quarantines that both answer OK, with a restart between them, lose the first file |
| TornLedger.TornLineParses | src/security/quarantine_executor.cpp:37-66 | a line cut off anywhere is read back as its record if and only if it reaches past its sixth bar, with the flags that are still there |
| TornLedger.TruncatedLoads | src/security/quarantine_executor.cpp:32-92 | a ledger cut off anywhere gives back exactly the records whose lines reach past their sixth bars |
| TornLedger.LineBehindTornLine | src/security/quarantine_executor.cpp:37-74 | a line appended to a torn one: both records are lost if the tear is behind the id, otherwise the new one is filed under the two ids run together, or lost if that is 2^64 or more |
| TornWrites.TornAppendSurvives | src/security/quarantine_executor.cpp:24-159 | after any process whose ledger writes worked or changed nothing, and a last quarantine whose append got however far: the next process finds the records filed before, and the new one if and only if its line got past the sixth bar; it finds a valid vault if and only if that is so and the other live records on file are in the vault |
| TornWrites.TornRewriteSurvives | src/security/quarantine_executor.cpp:76-92 | however far the rewrite of a restore or shred got, and whatever the file held: the next process finds exactly the records whose lines got past their sixth bars, and a valid vault if and only if those that are live are in the vault and nothing lies behind the last of them |
| TornWrites.TornAppendCostsBoth | src/security/quarantine_executor.cpp:32-74 | such a torn line is read back by the next process, whose own complete append then costs both records in the process after it |
| SecurityPipeline.SecurityPipeline.constructor | src/security/security_pipeline.cpp:5-6 | an engine with the same policy and no candidates |
| SecurityPipeline.SecurityPipeline.Process | src/security/security_pipeline.cpp:95-110 | one ingest, then the candidate of its finding at the end of the list, the oldest dropped beyond 2000 |
| SecurityPipeline.SecurityPipeline.Find | src/security/security_pipeline.cpp:53-58 | the first candidate of a finding |
| SecurityPipeline.SecurityPipeline.TransitionCandidate | src/security/security_pipeline.cpp:61-73 | pending takes the decision, the same decision again is accepted, the opposite one refused, an unknown finding not found |
| SecurityPipeline.DecisionStays | src/security/security_pipeline.cpp:61-73 | a decision stays: the same again is accepted, the opposite refused, both without change |
| SecurityPipeline.SecurityPipeline.ExecuteQuarantine | src/engine_manager.cpp:313-322 | quarantine of the finding's candidate, not found when there is none |
| PipelineRuns.ProcessKeepsInvariant | src/security/security_pipeline.cpp:95-110 | processing keeps candidates founded, ids ascending and states decided |
| PipelineRuns.DecideKeepsInvariant | src/security/security_pipeline.cpp:61-82 | approving and rejecting keep them |
| PipelineRuns.NextKeepsInvariant | src/security/security_pipeline.cpp:53-110 | every event of the pipeline, the manager and the vault keeps them |
| PipelineRuns.CandidatesAreFounded | src/security/security_pipeline.cpp:95-110 | in every reachable state each candidate came from a CRITICAL finding with two distinct sources, one deterministic, and a non-empty unprotected path; path and hash were observed for its key; finding ids ascend |
| PipelineRuns.CandidatesAreComplete | src/security/security_pipeline.cpp:95-110 | a finding that was emitted has a candidate with its id if and only if it is deterministic, CRITICAL, at the threshold or above, and about a path that is neither empty nor protected |
| PipelineRuns.DecidedAtMostOnce | src/security/security_pipeline.cpp:61-73 | a candidate leaves PENDING_APPROVAL at most once over the whole run |
| PipelineRuns.VaultOnlyAfterApproval | src/engine_manager.cpp:305-322 | the manager changes the vault, its ledger or any file only for a finding approved earlier in the run and never rejected, a failed move that leaves its copy in the vault included |
| PipelineRuns.VaultedFileIsFounded | src/engine_manager.cpp:313-322 | and it is the file of a founded, approved candidate, unprotected, with the hash expected |
| ForensicTimeline.CauseIsExact | src/engines/forensic_timeline_engine.cpp:259-271 | the parent is the newest held event of the process before which no newer event is more than 300 seconds old, and there is none otherwise |
| ForensicTimeline.CauseIsEarlier | src/engines/forensic_timeline_engine.cpp:259-271 | a parent is an earlier event of the same process, also after events were evicted |
| ForensicTimeline.ForensicTimelineEngine.constructor | include/gcad/engines/forensic_timeline_engine.hpp:106-107 | an empty timeline, ids from 1 |
| ForensicTimeline.ForensicTimelineEngine.LinkCausal | src/engines/forensic_timeline_engine.cpp:259-271 | the backward loop finds that parent |
| ForensicTimeline.ForensicTimelineEngine.FindChain | src/engines/forensic_timeline_engine.cpp:277-279 | the first chain that holds an event |
| ForensicTimeline.ForensicTimelineEngine.UpdateChains | src/engines/forensic_timeline_engine.cpp:273-299 | the parent's chain grows, or a notable event starts one and the oldest goes beyond 200 |
| ForensicTimeline.ForensicTimelineEngine.TrimChains | src/engines/forensic_timeline_engine.cpp:297 | the newest 200 chains stay |
| ForensicTimeline.ForensicTimelineEngine.Ingest | src/engines/forensic_timeline_engine.cpp:203-257 | one event: number, parent, the newest 5000, chains |
| ForensicTimeline.ExtendedIsOk | src/engines/forensic_timeline_engine.cpp:276-287 | a chain that grows keeps ascending ids, one process, its exact maxima and its links |
| ForensicTimeline.ExtendedStaysDisjoint | src/engines/forensic_timeline_engine.cpp:276-287 | and shares no event with another chain |
| ForensicTimeline.IngestKeepsInvariant | src/engines/forensic_timeline_engine.cpp:203-299 | every ingest keeps all chains sound, the dropped ones included |
| ForensicTimeline.ChainsAreSound | src/engines/forensic_timeline_engine.cpp:203-299 | after every run each chain has strictly increasing ids, one process and maxima equal to the maximum over its members, every member but the first follows from an earlier one, no event is in two chains, and each parent id is below its child's |
| TimelineCoverage.DueEventsAreInOneChain | src/engines/forensic_timeline_engine.cpp:273-299 | after every run each event with a known stage or a level of at least MEDIUM is in exactly one chain, and every chain began with such an event |
| TimelineCoverage.ChainsAreLabelled | src/engines/forensic_timeline_engine.cpp:289-297 | chains are numbered in order and summed up by their first event |
| TimelineCoverage.NewestAreHeld | src/engines/forensic_timeline_engine.cpp:220-297 | exactly the newest 5000 events and the newest 200 chains are held |
| TimelineCoverage.TooOldMeans | src/engines/forensic_timeline_engine.cpp:268-269 | an event breaks the search for a cause if and only if it is 301 seconds old or more |

## Left out

- ShaDigest.ShaContext.Transform: the compression rounds of SHA-256 and SHA-384, and those of MD5, are
  parameters of the model; the initial values, blocks, padding and output are the source's. Nothing is said
  about collisions.
- Null pointers: a buffer is a byte sequence, so the null checks have no counterpart.
- Parsing of X.509 certificates and CMS SignedData beyond DER framing, object identifiers and the claimed image
  digest: `Authenticode` receives certificates, signer data and the content as records.
- The embedded trust anchors: any list of certificates. Revocation and validity dates are not checked by the
  source.
- Addresses of certificates: the walk compares positions in the issuer list, which is what the source's
  pointers stand for when the leaf comes from that list.
- PeAuthenticodeHash.HashCoversAllButExcluded: images whose raw ranges overlap are not covered; there the same
  byte may be hashed twice, and whether the bytes agree depends on what they are.
- QuarantineRestarts.RestartSurvivesExactly: ledger writes that work or leave the file as it was. A torn write at
  the end of such a process, and a torn rewrite anywhere, are `TornWrites.TornAppendSurvives` and
  `TornWrites.TornRewriteSurvives`; for further writes after a torn one, and for a ledger that a failed copy
  replaced by other text, `QuarantineRestarts.RestartIsValid` speaks in terms of what the file then holds.
- std::sort with equal section offsets: the model's order is stable; for distinct offsets the result is
  proved to be the only one.
- YARA rule text, `text_to_pattern` and `evaluate_condition`: one level above the search.
- Mutexes and condition variables: each critical section is one action; `wait_pop` is the pop after its wait.
- Concurrent start and stop calls: one thread makes them.
- Concurrent quarantine calls: the checks and the hash precede the lock in the source; a call is one step here.
- Floating point: confidence is a real number; how double precision rounds confidence * 50.0 is not modelled.
- Upper bounds of the 64-bit finding, event, chain and record ids and of the bus counters while a process
  runs: they count without wrapping. The wrap of the next record id on loading is modelled.
- `recent`, `records` and the query functions: slices of the modelled lists.
- Exceptions in `process`: an out-of-memory there drops the observation.
- Path equality: paths are texts, so two spellings of one file are two paths, and directories created by
  `restore` do not appear.
- Time-stamp arithmetic beyond 64 bits when a loaded ledger names a second outside the clock's range.
- Text-mode line ends: on Windows an appended line ends in two bytes that reading turns back into one.
- The mapping of threat categories and observation kinds to kill-chain stages and event types: lookup
  tables; the stage comes in with each event. So does everything about an event that no chain depends on.
- `detect_multi_stage`: counts stages of held events and edits summaries only.
- Concurrent ingests in the timeline: each call is one step.
- Sockets, registry, ETW sessions, process memory, services, views, reports and the keyword scores of the
  other engines: plumbing and lookup tables.
