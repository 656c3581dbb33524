# Verification of the 7h3 protocol library

A Dafny model of the algorithmic core of the library, and proofs of what that core promises: capability
delegation, the codecs and canonical forms that signatures cover, replay and rate state, the key log, the payment
ledger and signed event streams. `dafny verify dfyconfig.toml` checks the whole project.

## How the model is laid out

Each component has functions that say what the code computes, objects and loops in the shape of the source that
are proved against those functions, and lemmas about the functions. The functions are in turn proved equal to an
account of the same thing that shares nothing with them: bytes and texts as their formats have them, and verdicts
in terms of the documents, events or earlier calls they are about.

| files | component |
|---|---|
| `Glob`, `GlobFormat`, `GlobSubset`, `Capability` | `matchGlob`, what a pattern means, the syntactic glob comparison, tokens and delegation chains |
| `Bytes`, `Utf8`, `Utf8Format`, `Lex`, `Text`, `Prelude` | big-endian numbers and double rounding, the WHATWG UTF-8 codec and its bytes, lexicographic order, decimal text and maximal munch |
| `Json`, `JsonFormat`, `Envelope`, `SignedTexts` | `stableStringify` and its text, the canonical string of an envelope, and the texts that get signed |
| `Cbor`, `CborLaws`, `CborOrder`, `CborFormat`, `CborCodec`, `EnvelopeCbor`, `EnvelopeCborFormat` | deterministic CBOR, its round trip, its map order, its bytes, the encoder and decoder objects, envelopes over CBOR and their bytes |
| `Binary`, `BinaryFormat`, `ProtocolBinary` | the binary envelope format, its bytes, and its writer and reader objects |
| `StructuredFields`, `SfGrammar`, `SignatureInput`, `SignatureGrammar`, `SignatureVerifier`, `HttpSignatures` | structured fields and their grammar, `Signature-Input` and the signature base, which texts they are, what a verifier may conclude, the parser object and loops |
| `Base58`, `Base58Format` | base58btc, and its texts as numbers |
| `KeyLog`, `KeyLogHistory` | the hash-chained key log, checkpoints and readers, and what an accepted log looks like |
| `ReplayCache`, `Approval`, `ApprovalChecks`, `RateLimiter`, `RateHistory` | the replay cache with its heap, the fail-closed store with approval grants and what an accepted grant is, the sliding-window limiter and its answers in terms of earlier calls |
| `Mandate`, `MandateSessions`, `MandateChecks` | the spend ledger, interleaved payment verifications, and what a charged payment satisfies |
| `Sse`, `SseLines`, `SseEmptyChunk`, `SseDelivery`, `SseTrust`, `SseHonest`, `McpSse` | the event-stream reader unit by unit and line by line, empty chunks, what it may believe and who vouches for it, that honest streams get through, the reader and writer objects |

Conventions:

- Cryptography, key lookups and clocks are parameters. A signature check is a predicate, a hash is a function; the
  checkpoint theorem does not assume that SHA-256 is injective but exhibits a collision when histories differ.
  Unforgeability appears only as a premise: `Genuine` of the event-stream theorem, and `Unforgeable` of what an
  accepted chain, log or grant proves about its signers.
- Strings are sequences of Unicode scalar values (lone surrogates are not modelled, because UTF-8 cannot tell them
  apart); globs and event streams are sequences of UTF-16 code units, because the source slices those. Where the
  source only counts them, as in the length limits of the key log, `Text.Utf16Length` does.
- Integer-valued numbers are integers. Where a double could round, `Bytes.ToDouble` rounds it to the nearest double,
  ties to even. A double that is not an integer is named by its eight bytes (CBOR) or its ECMAScript text (JSON).
  Negative zero is not told apart from zero.
- `TextDecoder` is modelled as it is: ill-formed bytes become U+FFFD and a leading byte order mark is dropped.
- Paths that end in an exception end in an `Err`, a `None` or a named outcome.

## Where the code and its promises part

Each of these is a lemma with the input or the exact condition.

- `pathGlobIsSubset` is sound for well-formed globs only: `a**` counts as narrower than `*`, and `a` as narrower
  than `**/a` (`GlobSubset.IllFormedGlobsEscape`). Among the parents in which `**` is always a whole segment,
  `GlobSubset.SafeParentExactly` says which are safe against every child.
- An empty chunk between CR and LF ends an event early (`Sse.EmptyChunkCounterexample`);
  `SseEmptyChunk.EmptyChunkHarmlessExactly` says after which feeds an empty chunk can change a message or an exception.
- `maxEventBytes` bounds the data of an event, but between two chunks it also bounds the unfinished line, field name
  included: an honest event whose data line is up to five units too long passes or fails with the split
  (`SseHonest.LongDataLine`). `SseHonest.HonestSplitsExactly` and, for any body, `SseLines.SplitsAgreeExactly` give the
  exact condition.
- A full replay cache drops a live reservation to store an envelope that has already expired
  (`ReplayCache.ExpiredEnvelopeEvicts`); `ReplayCache.AgreesThroughoutExactly` says when the cache forgets nothing.
- An approval can be spent twice when the key lookup and the signature check together take longer than the clock
  skew; `Approval.SafeDelaysExactly` is the exact bound.
- The rate limiter judges "at quota" by stored timestamps, some of which may have left the window; a key that is at
  quota can then be dropped while one that is not stays (`RateLimiter.EvictionCounterexample`, from an empty limiter;
  `RateLimiter.EvictionUnfairExactly` says from which windows a call does so).
- A payment that needs an approval and comes with a grant and an empty list of approvers throws after its reservation,
  and stays charged for good although no call for it ever returns ok (`MandateSessions.EmptyApproversLeak`);
  `MandateSessions.EmptyApproversExactly` says when the ledger ends up right.
- The delegation limit of a scope (`maxDelegations`) is signed, but nothing enforces it; only the token's own limit counts.
- The binary format drops empty optional strings and rejects the intent `ENCRYPTED`; CBOR and binary both lose a
  leading byte order mark of a string (`Binary.RoundTripExactly`, `EnvelopeCbor.RoundTrip`,
  `EnvelopeCbor.CanonicalStringSurvives`).
- Printed signature times of 10^15 and more, or negative ones, do not parse back
  (`SignatureInput.ParsesBackExactly`).
- A key log writer accepts fields, times and operator names that the verifier then refuses
  (`KeyLog.WrittenEntryVerifies` says exactly which; `KeyLog.AstralReasonRefused` is one, a reason of 600 characters
  that count twice).

## Model

| member | source | states |
|---|---|---|
| Glob.MatchGlob | src/routePolicy.ts:44-74 | the compiling loop and the anchored test decide exactly the language the pattern's tokens denote |
| Glob.ReadBack | src/routePolicy.ts:44-74 | the regular expression engine reads the emitted source text back as the tokens that were meant: escaping is right |
| Glob.MatchesSplit | src/routePolicy.ts:44-74 | a text in the language of two token sequences splits into one text of each |
| Glob.GlobMatchesUncons | src/routePolicy.ts:44-74 | a first segment without `**` takes exactly the path up to its first slash |
| GlobFormat.MatchesExactly | src/routePolicy.ts:44-74 | a path matches if and only if it falls into parts that fit the pieces of the pattern one by one: `**` any run on one line, `*` any run without slash, `?` one code unit that is no slash, every other unit itself |
| GlobSubset.PathGlobIsSubset | src/capability.ts:140-173 | the two-cursor walk over segments decides the recursive segment comparison |
| GlobSubset.GlobSubsetNarrows | src/capability.ts:130-173 | for well-formed globs an accepted child matches only paths the parent matches |
| GlobSubset.SafeParentExactly | src/capability.ts:140-173 | a parent whose `**` are whole segments and that holds no line terminator is safe against every child the test accepts if and only if `**` comes last and a `*` is followed by nothing but `*` up to a final `**` |
| GlobSubset.SimpleGlobsDecided | src/capability.ts:140-173 | on literal segments, `*` and a final `**` the test accepts if and only if the languages are contained |
| GlobSubset.IllFormedGlobsEscape | src/capability.ts:140-173 | concrete accepted children outside well-formed globs that match a path their parent does not |
| GlobSubset.SubsetReflexive | src/capability.ts:157-173 | every glob is accepted under itself |
| GlobSubset.SubsetTransitive | src/capability.ts:157-173 | acceptance composes, for all globs |
| Capability.ScopeIsSubset | src/capability.ts:183-204 | path narrowing and method inclusion together, the cases without methods included |
| Capability.ScopesAreSubset | src/capability.ts:206-213 | every child scope is covered by some parent scope |
| Capability.TokenMatchesScope | src/capability.ts:415-434 | grants exactly the path and method pairs some scope covers |
| Capability.GrantsExactly | src/capability.ts:415-434 | a token grants a path if and only if some scope matches it and lists no methods or the upper-case form of the one asked for; a scope that lists methods grants nothing when none is asked for |
| Capability.VerifyCapabilityChain | src/capability.ts:312-406 | accepts exactly the chains in which no link fails any check, and otherwise names the first failing link and reason |
| Capability.AcceptedExactly | src/capability.ts:312-406 | a chain is accepted if and only if every token has its version, place, issuer, parent, scopes, limits, time and signature right, each spelled out |
| Capability.AcceptedHasNoFault | src/capability.ts:312-406 | a chain is accepted if and only if no fault at all holds at any index |
| Capability.FaultIsFirst | src/capability.ts:328-395 | a token is refused for the first thing that is wrong with it, and refused whenever something is |
| Capability.AcceptedWasIssued | src/capability.ts:387-395 | if what verifies under a registered key was signed by its owner, every token of an accepted chain was issued by the issuer it names |
| Capability.DelegationNarrows | src/capability.ts:312-434 | in an accepted chain of any length with well-formed globs, whatever the leaf grants every earlier token grants, and no ancestor expires before the leaf |
| Capability.HonestDelegationVerifies | src/capability.ts:215-283 | a chain built by issuing and delegating verifies at every time before the leaf expires, and is at most the root's delegation limit plus one long |
| Capability.ScopesSubsetReflexive | src/capability.ts:206-213 | delegating the same scopes is always allowed |
| Capability.ScopesSubsetTransitive | src/capability.ts:206-213 | scope inclusion composes along a chain |
| Bytes.ToDoubleExact | src/mandate.ts:118-133 | integers below 2^53 are doubles, and rounding never brings a larger one back below 2^53 |
| Bytes.NearestDouble | src/cborCodec.ts:331-347 | from 2^52 up rounding gives a double, 53 bits times a power of two, no more than half of that power away, and at exactly half the even one |
| Bytes.BigEndianRoundTrip | src/cborCodec.ts:193-221 | a big-endian field holds the number modulo its width |
| Utf8.RoundTrip | src/cborCodec.ts:9-10 | decoding the encoding of a string gives it back if and only if it has no leading U+FEFF, and loses exactly that otherwise |
| Utf8.DecodeCharRoundTrip | src/cborCodec.ts:9-10 | every scalar value's encoding is read back whole, whatever follows |
| Utf8.EncodeInjective | src/cborCodec.ts:9-10 | different strings have different bytes |
| Utf8Format.CharExactly | src/cborCodec.ts:9-10 | a character is written as its UTF-8 form, bit by bit, and no other bytes are that form (section 3 of RFC 3629) |
| Utf8Format.MaximalSubpart | src/cborCodec.ts:9-10 | the decoder takes the character in front if there is one, and otherwise puts U+FFFD for the longest beginning of one, at least one byte |
| Json.StableStringifyInjective | src/actionBinding.ts:93-112 | equal canonical texts come from equal values |
| Json.PrintCancel | src/actionBinding.ts:93-112 | canonical texts are self-delimiting: in front of any admissible continuation the value and the rest are determined |
| Json.ObjectCancel | src/actionBinding.ts:105-108 | objects delimit themselves in front of any text, whatever the order their members were set in |
| Json.QuoteCancel | src/actionBinding.ts:96-97 | quoted strings delimit themselves |
| JsonFormat.StableStringifyExactly | src/actionBinding.ts:93-112 | every value that can be represented has just one canonical text, which is what is printed: literals, escapes, items in order, members once each in the order of their UTF-16 code units; other values do not print |
| JsonFormat.KeyLessExactly | src/actionBinding.ts:105-108 | keys compare as their UTF-16 code units do |
| Envelope.SerializeHeaderCanonical | src/protocol.ts:66-79 | the hand-written serializer prints what the general canonical printer prints, absent fields left out |
| Envelope.SerializeBodyCanonical | src/protocol.ts:81-92 | likewise for the body |
| Envelope.CanonicalizeEnvelope | src/protocol.ts:193-195 | the string that gets signed is the canonical JSON of body and header |
| Envelope.CanonicalInjective | src/protocol.ts:66-92 | equal signed strings come from equal headers and bodies, absence of optional fields included |
| SignedTexts.EnvelopeText | src/protocol.ts:66-195 | the signed string letter by letter: which member names, in which order, with which values |
| Envelope.PrintedInOrder | src/protocol.ts:66-92 | fields joined in ascending order print as the sorted object does |
| Cbor.HeadRoundTrip | src/cborCodec.ts:193-221 | a head is read back as its major type and number, whatever follows |
| Cbor.HeadIsShortest | src/cborCodec.ts:193-221 | no head that decodes to the number is shorter (section 4.2.1 of RFC 8949) |
| CborFormat.HeadExactly | src/cborCodec.ts:193-221 | a head is the major type in three bits, then the number in the fewest of 0, 1, 2, 4 or 8 bytes, and nothing else is |
| CborFormat.EncodeExactly | src/cborCodec.ts:42-231 | some bytes are the encoding of a value if and only if they are its deterministic encoding by RFC 8949: type 0 for numbers from 0 up, 1 for negative ones, 2 to 5 for bytes, text, arrays and maps, items in order, entries by increasing key bytes, the simple values and floats |
| CborFormat.FirstByte | src/cborCodec.ts:12-31 | the first byte divided by 32 tells the kind of value, and numbers from -24 to 23 are one byte |
| CborFormat.OpensAs | src/cborCodec.ts:272-347 | whatever head announces it, shortest or not, major types 0 to 5 are read as numbers, negative numbers, bytes, text, arrays and maps, in double precision, and 6 is refused |
| CborFormat.OpensSimple | src/cborCodec.ts:318-347 | of major type 7 the bytes F4, F5, F6 and FB are read as false, true, null and a float, and everything else is refused, reserved lengths included |
| CborFormat.FieldsAreItems | src/cborCodec.ts:299-317 | a map of n entries is read as 2 n items in turn, the last value of a name stays, and a key without a name is an error |
| CborFormat.FieldsNeedItems | src/cborCodec.ts:299-317 | a map is read only where its items are |
| CborLaws.RoundTrip | src/cborCodec.ts:246-364 | decoding an encoding followed by any bytes returns the value and stops at its end if and only if it nests within the depth limit, and fails on depth alone otherwise |
| CborLaws.FieldsSorted | src/cborCodec.ts:121-171 | sorting the entries changes nothing about the object they decode to |
| CborOrder.SortOrdered | src/cborCodec.ts:121-171 | the keys of an encoded map strictly increase bytewise |
| CborOrder.InsertionOrderIrrelevant | src/cborCodec.ts:121-171 | maps with the same entries, text and integer keys alike, have identical bytes for every insertion order |
| CborOrder.SameBytesIffSameMeaning | src/cborCodec.ts:33-364 | two plain values have the same bytes if and only if they decode to the same data |
| CborOrder.EncodedKeyInjective | src/cborCodec.ts:121-140 | different keys have different encodings |
| CborCodec.CompareBytes | src/cborCodec.ts:173-180 | negative, zero or positive exactly as the lexicographic order has it |
| CborCodec.SortByKey | src/cborCodec.ts:134-161 | sorting with that comparison is the sort the bytes are specified by |
| CborCodec.CborEncoder.Encode | src/cborCodec.ts:36-40 | the chunks concatenated are the encoding of the value |
| CborCodec.CborEncoder.EncodeValue | src/cborCodec.ts:42-150 | pushes exactly the bytes of the value, for every kind of value |
| CborCodec.CborEncoder.EncodeMap | src/cborCodec.ts:121-171 | writes the entries in the order of their encoded keys |
| CborCodec.CborEncoder.Concat | src/cborCodec.ts:223-231 | copies the chunks into one buffer that they fill exactly |
| CborCodec.CborDecoder.Decode | src/cborCodec.ts:251-257 | on every input ends with the offset inside the data, the depth at zero, and the result the format determines |
| CborCodec.CborDecoder.DecodeNested | src/cborCodec.ts:260-270 | the depth is restored however the item ends, errors included |
| CborCodec.CborDecoder.DecodeUint | src/cborCodec.ts:331-347 | reads 1, 2, 4 and 8 byte arguments, the last through double precision |
| CborCodec.CborDecoder.DecodeArray | src/cborCodec.ts:291-297 | the counted loop reads the items one after the other and stops at the first error |
| CborCodec.CborDecoder.DecodeMap | src/cborCodec.ts:299-317 | keys and values in turn, later keys overwriting earlier ones |
| EnvelopeCbor.EncodeEnvelopeCbor | src/envelopeCbor.ts:36-75 | the bytes are the deterministic encoding of the integer-keyed maps |
| EnvelopeCbor.DecodeEnvelopeCbor | src/envelopeCbor.ts:105-167 | the shape and field checks, in order, on whatever the decoder returned |
| EnvelopeCbor.RoundTrip | src/envelopeCbor.ts:36-167 | every encoded envelope decodes; it is the same envelope if and only if no text field starts with U+FEFF |
| EnvelopeCbor.CanonicalStringSurvives | src/envelopeCbor.ts:36-167 | decoding what encoding produced gives an envelope with the same signed string if and only if no header or body text starts with U+FEFF |
| EnvelopeCborFormat.EnvelopeWritten | src/envelopeCbor.ts:36-75 | an envelope byte by byte: header, body and signature under 1, 2 and 3, header fields under 1 to 7, body fields under 1 to 4, signature fields under 1 to 3 |
| EnvelopeCborFormat.ReadExactly | src/envelopeCbor.ts:77-167 | decoded data are accepted if and only if they hold the fields of the envelope under those keys; an absent or null signature is none |
| Binary.DecodeFrame | src/protocolBinary.ts:141-312 | what decoding the frame of any envelope gives, size, version and intent refusals included |
| Binary.RoundTripExactly | src/protocolBinary.ts:141-312 | the envelope comes back if and only if its frame fits, version and intent are supported, times fit their fields, optional strings are absent or not empty, and no string starts with U+FEFF |
| Binary.FrameIsShort | src/protocolBinary.ts:141-204 | a frame within the limit has no string too long for its length field |
| BinaryFormat.FrameExactly | src/protocolBinary.ts:141-204 | the frame of an envelope is the one sequence of bytes that starts with AIPB, 1, the flag bits, time and lifetime at bytes 6 and 14, then the counted strings in their order, and the algorithm as 1 or 2 |
| BinaryFormat.DecodeExactly | src/protocolBinary.ts:206-312 | any bytes are accepted as an envelope if and only if they read as it: plain start, fields in order, optional ones where their flags are set, nothing left over |
| ProtocolBinary.EncodeEnvelopeBinary | src/protocolBinary.ts:141-204 | the writer fills the precomputed buffer exactly, with the frame |
| ProtocolBinary.SizeIsExact | src/protocolBinary.ts:47-176 | the size summed up from the string lengths before anything is written is the length of the frame |
| ProtocolBinary.BinaryWriter.WriteBytes | src/protocolBinary.ts:78-81 | appends to what was written and never passes the end of the buffer |
| ProtocolBinary.BinaryWriter.WriteString | src/protocolBinary.ts:83-86 | length, then bytes |
| ProtocolBinary.DecodeEnvelopeBinary | src/protocolBinary.ts:206-312 | every check in order; result and refusals as the format determines them on any bytes |
| ProtocolBinary.BinaryReader.String | src/protocolBinary.ts:134-138 | reads a counted string or reports the end of the data, without passing it |
| SignatureInput.ParsesBackExactly | src/httpMessageSignatures.ts:331-386 | parsing the printed member gives back components and parameters if and only if there are at most 32 components and both times lie in 0 to 10^15 - 1, and fails otherwise |
| SignatureInput.ComponentBack | src/httpMessageSignatures.ts:320-329 | a normalized component identifier is read back whole and serializes to itself |
| SignatureInput.BaseUnambiguous | src/httpMessageSignatures.ts:631-646 | equal signature bases come from the same components in the same order, the same values and the same parameter text |
| SignatureInput.SignedBaseUnambiguous | src/httpMessageSignatures.ts:631-660 | for a signer, also from the same parameters, for any number of components and any integers that print in decimal |
| SignatureVerifier.ParsedPlain | src/httpMessageSignatures.ts:198-386 | a `Signature-Input` value that parses has no line break, and its components are identifiers of well-formed components |
| SignatureVerifier.VerifiedBaseUnambiguous | src/httpMessageSignatures.ts:345-386 | verifiers that rebuild one base read the same `Signature-Input` value and the same component values |
| SignatureVerifier.VerifierReadsSigner | src/httpMessageSignatures.ts:331-660 | a base rebuilt from a parsed value equals one a signer built only if the value, components, parameters and component values are the signer's |
| SignatureInput.ParamsTextInjective | src/httpMessageSignatures.ts:331-343 | the printed parameters determine keys, order and values |
| SignatureGrammar.MemberExactly | src/httpMessageSignatures.ts:345-386 | a member is accepted, as certain components and parameters, if and only if its text is a parenthesised list of at most 32 components with flags and texts as parameters, followed by parameters none of which is repeated and that have their types |
| SignatureGrammar.InterpretExactly | src/httpMessageSignatures.ts:360-383 | the record holds exactly what the six known parameters say |
| SignatureGrammar.SerializeFormat | src/httpMessageSignatures.ts:331-343 | the printed parameters, name by name and in order |
| SignatureGrammar.BaseExactly | src/httpMessageSignatures.ts:631-646 | a base is built if and only if no component is repeated, each has a value without line breaks and all is ASCII; it is a line each and the parameters last |
| StructuredFields.ParamsBack | src/httpMessageSignatures.ts:278-292 | printed parameters are parsed back up to where they end |
| StructuredFields.StringBack | src/httpMessageSignatures.ts:230-244 | a printed string is parsed back, whatever follows |
| StructuredFields.NumberBack | src/httpMessageSignatures.ts:263-268 | a printed integer is read whole when it has at most 15 digits, and cut after 15 otherwise |
| SfGrammar.BareExactly | src/httpMessageSignatures.ts:230-276 | an item is parsed as a value if and only if the text writes it: strings, byte sequences, `?0` and `?1`, integers of up to 15 digits and tokens |
| SfGrammar.ParamsExactly | src/httpMessageSignatures.ts:278-292 | parameters are parsed if and only if the text writes them: semicolon, spaces, key, and a value after an equals sign or else true |
| SfGrammar.QuoteExactly | src/httpMessageSignatures.ts:299-303 | a printable text is quoted in just one way |
| SfGrammar.PrintedDecimal | src/httpMessageSignatures.ts:331-343 | an integer is printed as its decimal digits without leading zeros |
| HttpSignatures.SfParser.String | src/httpMessageSignatures.ts:230-244 | the scanning loop accepts, rejects and stops as the grammar says |
| HttpSignatures.SfParser.BareItem | src/httpMessageSignatures.ts:246-276 | strings, byte sequences, booleans, numbers and tokens, in the parser's order |
| HttpSignatures.SfParser.Params | src/httpMessageSignatures.ts:278-292 | the parameter loop, flags included |
| HttpSignatures.ParseSignatureInputMember | src/httpMessageSignatures.ts:345-386 | components, parameters and every refusal as specified |
| HttpSignatures.SerializeOne | src/httpMessageSignatures.ts:320-329 | prints flags and strings, refuses other parameters and characters outside printable ASCII |
| HttpSignatures.SerializeSignatureParams | src/httpMessageSignatures.ts:331-343 | prints the parameters in the fixed order, refusing strings outside printable ASCII |
| HttpSignatures.BuildSignatureBase | src/httpMessageSignatures.ts:631-646 | one line for each component, refusing duplicates, line breaks and non-ASCII text |
| Base58.Base58btcEncode | src/agentIdentity.ts:54-65 | leading zero bytes become ones and the number is written in base 58 |
| Base58.Base58btcDecode | src/agentIdentity.ts:68-83 | the inverse reading, refusing characters outside the alphabet |
| Base58.DecodeEncode | src/agentIdentity.ts:54-83 | decoding an encoding returns the bytes, leading zeros included, for every byte string |
| Base58.EncodeDecode | src/agentIdentity.ts:54-83 | exactly the texts over the alphabet decode, and encoding the result returns the text |
| Base58.RebaseInverse | src/agentIdentity.ts:54-83 | changing the base of a number and back loses nothing, leading zeros included |
| Base58Format.EncodeExactly | src/agentIdentity.ts:48-83 | a text is the encoding of some bytes, and decodes to them, if and only if both write the same number, over the alphabet and in base 256, most significant first, and start with equally many ones and zero bytes |
| KeyLog.KeyLogState.Apply | src/keyLog.ts:234-262 | refuses with the first broken rule and changes nothing, or has exactly the effect of the entry |
| KeyLog.VerifyKeyLog | src/keyLog.ts:277-330 | throws without an operator key; accepts exactly the logs in which every entry passes every check after the ones before it, lengths counted in UTF-16 code units, and otherwise names the first failure |
| KeyLogHistory.AcceptedExactly | src/keyLog.ts:227-330 | a log is accepted if and only if every entry has its fields in order, its number, the hash of the entry before, the operator, a signature that verifies and a time in order, and is permitted by the entries before it |
| KeyLogHistory.RulesExactly | src/keyLog.ts:227-263 | the rules in terms of the earlier entries: new key ids and public keys, a key in force for rotation and none for registration, revocation once and of keys introduced |
| KeyLogHistory.EntriesWereSigned | src/keyLog.ts:277-330 | if what verifies under the operator's key was signed by the operator, every entry of an accepted log was |
| KeyLogHistory.RefusalIsFirst | src/keyLog.ts:227-330 | an entry is refused for the first thing that is wrong with it, each reason said in terms of the earlier entries |
| SignedTexts.EntryPayloadText | src/keyLog.ts:68-81 | what is signed for an entry, letter by letter |
| KeyLog.LogExtendsCheckpoint | src/keyLog.ts:354-363 | holds exactly when the checkpoint is genuine and the first `size` entries verify and end in its hash |
| KeyLogHistory.CheckpointExactly | src/keyLog.ts:332-347 | a checkpoint counts if and only if it is well formed and its text, letter by letter, verifies under the operator's key |
| KeyLogHistory.ExtendsExactly | src/keyLog.ts:354-363 | a log extends a checkpoint if and only if the checkpoint counts and the first entries, as many as it says, are chained, permitted and end in its hash |
| KeyLog.CheckpointCommits | src/keyLog.ts:354-373 | two logs that extend one checkpoint agree field for field on the entries it covers, or exhibit two entries with one hash |
| KeyLog.ConflictsExactlyOnForks | src/keyLog.ts:354-373 | of two logs that extend two checkpoints of one size, the checkpoints conflict if and only if the histories differ, or there are two entries with one hash |
| KeyLog.ConflictIsEvidence | src/keyLog.ts:370-373 | logs that extend two conflicting checkpoints part at an entry both cover, so no log extends both |
| KeyLog.PreimageInjective | src/keyLog.ts:68-87 | the hashed text determines the entry, signature included |
| KeyLog.ResolveKeyLog | src/keyLog.ts:386-399 | the plain fold over the entries |
| KeyLog.ReadersAgree | src/keyLog.ts:227-399 | the fast reader and the rule-checking state agree on active and revoked keys |
| KeyLogHistory.ResolvedExactly | src/keyLog.ts:386-399 | of a log that keeps the rules, active is the key in force and revoked are the revoked ones, by the entries themselves |
| KeyLog.KeysAreUsedOnce | src/keyLog.ts:227-263 | no public key is introduced twice in a log that keeps the rules |
| KeyLog.RevocationIsFinal | src/keyLog.ts:227-263 | a revoked key id is never introduced or revoked again |
| KeyLog.ActiveKeyIsNeverRevoked | src/keyLog.ts:227-399 | the key a reader takes for active was introduced for that subject, revoked nowhere, and superseded by nothing |
| KeyLog.OneActiveKeyAtATime | src/keyLog.ts:227-263 | a subject registers only without an active key and rotates only with one |
| KeyLog.KeyLog.Append | src/keyLog.ts:150-166 | appends an entry that keeps every rule, or refuses and leaves the log as it was |
| KeyLog.WrittenEntryVerifies | src/keyLog.ts:106-179 | a written entry keeps the log verifiable if and only if its fields, time, index and operator name are in range |
| KeyLog.AstralReasonRefused | src/keyLog.ts:277-299 | a concrete entry the writer records and the verifier refuses, because its reason is counted in UTF-16 code units |
| KeyLog.WrittenLogVerifies | src/keyLog.ts:132-179 | every log left by sequential calls in range verifies from the time of its last entry on |
| ReplayCache.ExpiryMinHeap.Push | src/protocolReplay.ts:34-61 | keeps the heap ordered and adds exactly one entry |
| ReplayCache.ExpiryMinHeap.Pop | src/protocolReplay.ts:39-91 | takes off an entry of least expiry and keeps the rest, ordered |
| ReplayCache.InMemoryReplayCache.Prune | src/protocolReplay.ts:108-119 | keeps exactly the reservations after now, and heap and map in bijection |
| ReplayCache.InMemoryReplayCache.EvictOne | src/protocolReplay.ts:121-136 | the loop drops exactly one entry of least expiry when there is any, past stale heap entries too, and the fallback finds nothing |
| ReplayCache.InMemoryReplayCache.Consume | src/protocolReplay.ts:138-163 | the cache does to the map it stands for exactly what one call may do |
| ReplayCache.RefusesExactlyReplays | src/protocolReplay.ts:93-163 | over every run in which calls with a new key find room, a call is refused as a replay if and only if its key was accepted earlier with an expiry still after now, and otherwise accepted if and only if its own expiry is finite |
| ReplayCache.AgreesThroughoutExactly | src/protocolReplay.ts:93-163 | over every run, the map agrees with the history of live reservations after each call if and only if every call with a new key and a finite expiry found room |
| ReplayCache.KnowsNextExactly | src/protocolReplay.ts:121-163 | one call keeps that agreement if and only if it finds room |
| ReplayCache.FullCacheForgets | src/protocolReplay.ts:121-163 | a call accepted without room makes a cache that was in agreement forget a live reservation |
| ReplayCache.ForgetsSoonest | src/protocolReplay.ts:121-163 | it forgets just that one and keeps all others, and no other live reservation ends sooner |
| ReplayCache.NoFalseRefusal | src/protocolReplay.ts:138-163 | even with eviction only what was accepted before and is still live is refused |
| ReplayCache.NeverOverfull | src/protocolReplay.ts:121-163 | a cache of positive size never exceeds `maxEntries`, whatever the clock does |
| ReplayCache.ExpiredEnvelopeEvicts | src/protocolReplay.ts:138-163 | a concrete run in which storing an expired envelope lets a live one be replayed |
| ReplayCache.MakeKeyInjective | src/protocolReplay.ts:102-106 | different sender, message id and nonce make different keys, whatever characters they contain |
| Approval.MemoryReplayStore.Check | src/replayStores.ts:256-265 | reports a replay for a live key and, when full of live keys, for every key |
| Approval.MemoryReplayStore.Prune | src/replayStores.ts:250-254 | deletes exactly the expired entries |
| Approval.VerifyApproval | src/approval.ts:214-249 | the ordered checks, with a store or without; anything they refuse leaves the store as it was |
| Approval.SpentAtMostOnce | src/approval.ts:214-249 | over any run sharing one store, whatever else fills it, a grant is accepted at most once when presentations are prompt |
| Approval.SafeDelaysExactly | src/approval.ts:214-249 | grants are single-use if and only if no presentation takes longer than a non-negative skew to reach the store, or no grant can be accepted at all |
| Approval.AcceptedExactly | src/approval.ts:214-249 | a presentation is accepted if and only if it passes every check, the time its grant is to be remembered is positive, its key is not live and fewer than `maxEntries` keys are; one that fails a check leaves the store as it was |
| ApprovalChecks.PassesExactly | src/approval.ts:214-241 | a presentation passes the checks, and is accepted where there is no store, if and only if version, approver, subject, lifetime, times, action, key and signature are in order, field by field |
| ApprovalChecks.AcceptedWithStoreExactly | src/approval.ts:214-249 | with a store, if and only if it is so in order, no live entry bears the grant's id, fewer than `maxEntries` entries are live and the new one would live a while |
| ApprovalChecks.AcceptedIsRecorded | src/approval.ts:242-247 | an accepted grant is in the store for what is left of its life and the skew, and everything live stays |
| ApprovalChecks.AcceptedWasGranted | src/approval.ts:214-249 | if what verifies under an approver's key was granted by it, an accepted action was allowed by a listed approver other than the agent |
| ApprovalChecks.RefusalIsFirst | src/approval.ts:214-240 | a refusal before the store names the first thing that is wrong |
| Approval.NeverOverfull | src/replayStores.ts:238-272 | the store never holds more than `maxEntries` keys |
| RateLimiter.SlidingWindowRateLimiter.Consume | src/rateLimiter.ts:41-102 | the stored windows and the report after filtering, recording, reordering and the eviction passes |
| RateLimiter.SlidingWindowRateLimiter.Evict | src/rateLimiter.ts:57-92 | drops an expired window, else one under quota, else the least recently used |
| RateLimiter.SlidingWindowRateLimiter.Check | src/rateLimiter.ts:29-38 | reports without recording |
| RateLimiter.CountsExactly | src/rateLimiter.ts:28-102 | a call on a key that was never forgotten is allowed if and only if fewer than `requests` of its earlier allowed calls lie in the window ending now, reports what is left of the quota, and is predicted in both by `check` |
| RateHistory.AllowedExactly | src/rateLimiter.ts:28-102 | a call on a key that was never forgotten is allowed if and only if fewer than `requests` earlier calls of the key were allowed after `now - windowMs`, counted in the run itself, and is told, as by `check`, what they and it leave |
| RateHistory.ResetExactly | src/rateLimiter.ts:41-102 | a refused call is told exactly when the key is next allowed: a later call is allowed if and only if `resetMs` has passed |
| RateHistory.ResetIsOldest | src/rateLimiter.ts:41-102 | any call is told the time until the oldest call then counted, itself included, leaves the window |
| RateHistory.NothingForgotten | src/rateLimiter.ts:41-106 | where no more than `maxKeys` keys ever call and the key is not reset, nothing about it is forgotten |
| RateLimiter.ConsumedBound | src/rateLimiter.ts:57-92 | tracked keys never exceed `maxKeys` |
| RateLimiter.EvictedOnlyAmongEquals | src/rateLimiter.ts:57-92 | a live window that stores its quota is dropped only when every other key's does too |
| RateHistory.DroppedExactly | src/rateLimiter.ts:57-92 | when there are too many windows, the first of the lowest class goes, expired before under quota before the rest, and never the caller's |
| RateHistory.ExpiredExactly | src/rateLimiter.ts:57-76 | of stored times in order, a window is expired if and only if none is recent |
| RateLimiter.EvictionUnfairExactly | src/rateLimiter.ts:41-92 | a call drops a key at quota beside one that is not if and only if it stores a timestamp without room, all other windows are live and store their quota, the least recently used is at quota, and the timestamps of another straddle the start of the window |
| RateLimiter.EvictionCounterexample | src/rateLimiter.ts:57-92 | a concrete sequence of calls on an empty limiter after which a key at quota is dropped beside one that is not |
| Mandate.CheckedTotal | src/mandate.ts:121-133 | products and sums in doubles accept a cart if and only if the exact integers are safe, and equal them |
| Mandate.TotalIsSumOfProducts | src/mandate.ts:118-133 | the exact total is the sum of quantity times unit price |
| Mandate.MemorySpendLedger.ReservePayment | src/mandate.ts:336-349 | sums in doubles accept a payment if and only if the exact integers fit under the ceiling; duplicates and overruns change no payment |
| Mandate.MemorySpendLedger.ReleasePayment | src/mandate.ts:351-353 | removes that payment of that intent and nothing else |
| Mandate.MemorySpendLedger.FloatSum | src/mandate.ts:344-360 | a sum in doubles is exact while it is safe and never comes back in range once it is not |
| MandateSessions.VerifyPayment | src/mandate.ts:455-545 | one call on its own: the checks, the reservation, the approval with its exceptions, the release, and the total it reports |
| MandateChecks.PassesExactly | src/mandate.ts:415-521 | the checks pass if and only if three timely documents are signed by payer, merchant and agent, speak of the same ids, parties, currency and digest, carry the exact total of the cart, and keep every limit of the intent |
| MandateChecks.RefusalIsFirst | src/mandate.ts:455-521 | a refusal before the reservation names the first thing that is wrong |
| MandateChecks.ReservesExactly | src/mandate.ts:333-531 | a call gets its reservation if and only if its payment is in order, not charged yet, and fits under the ceiling |
| MandateChecks.ReservationRefusals | src/mandate.ts:524-531 | a payment in order is a duplicate if and only if its id is charged, and else exceeds the ceiling if and only if it does not fit; neither changes the payments |
| MandateChecks.ApprovalRefusals | src/mandate.ts:534-554 | above the limit a call without a grant is refused as needing one and a call whose grant is not accepted as invalid, and both hand the reservation back; otherwise the ledger stays |
| MandateChecks.AcceptedAloneExactly | src/mandate.ts:455-545 | alone it returns ok if and only if it also needs no approval or gets one |
| MandateChecks.HoldersAreInOrder | src/mandate.ts:333-545 | in every reachable state every call that holds money or returned ok presented a payment in order, and its amount is in the ledger |
| MandateSessions.StepKeeps | src/mandate.ts:333-545 | every step of every session keeps reservations matched one to one with sessions and money conserved |
| MandateSessions.RunKeeps | src/mandate.ts:333-545 | in every state reachable by any interleaving the exact sum reserved under an intent is at most its ceiling and equals what the sessions hold |
| MandateSessions.ChargedAtMostOnce | src/mandate.ts:333-545 | no two calls that returned ok share intent and payment id |
| MandateSessions.LedgerIsOkPaymentsExactly | src/mandate.ts:333-545 | when every call has finished, the ledger holds exactly the payments that returned ok if and only if at no step the approval threw for a call that held money |
| MandateSessions.EmptyApproversExactly | src/mandate.ts:520-545 | when no callback throws, that is the case if and only if no call that got its reservation needed an approval, had a grant and allowed no approver |
| MandateSessions.LeakIsForever | src/mandate.ts:333-545 | whatever steps follow a leak, the payment stays charged and no other call for it holds money or returns ok |
| MandateSessions.EmptyApproversLeak | src/mandate.ts:520-545 | a call with a grant and an empty list of approvers leaks so, among any other calls |
| MandateSessions.NoThrowNoLeak | src/mandate.ts:520-545 | when no callback throws and every call that has a grant it needs allows some approver, no reservation is left behind |
| Sse.ChunkingIrrelevant | src/mcpSse.ts:208-233 | any split of a body into non-empty chunks yields the same messages and leaves the same reader as the body fed whole, if no line is too long and no event fails |
| SseEmptyChunk.EmptyChunkHarmlessExactly | src/mcpSse.ts:208-256 | feeding an empty chunk changes no message and no exception of any later feed if and only if something was fed before and no data is pending behind a carriage return |
| SseEmptyChunk.FeedKeepsResting | src/mcpSse.ts:165-256 | the states that theorem speaks of are those a reader can be in: the new one, and every one after a feed that returned |
| Sse.EmptyChunkCounterexample | src/mcpSse.ts:208-233 | a concrete body that an empty chunk makes fail |
| SseLines.FeedByLines | src/mcpSse.ts:208-233 | feeding a chunk is taking the complete lines of the buffer (section 9.2 of the WHATWG HTML Standard) |
| SseLines.LinesAreRun | src/mcpSse.ts:219-230 | splitting at line ends does what taking code units one at a time does |
| Sse.FieldExactly | src/mcpSse.ts:235-256 | a field line is its name, a colon, one space dropped if there is one, and the value; without a colon the value is empty |
| Sse.JoinedLinesBack | src/mcpSse.ts:235-243 | the data lines of an event are the lines of its data |
| SseLines.SplitsAgreeExactly | src/mcpSse.ts:208-233 | when no event fails, all splits into non-empty chunks agree with the body fed whole if and only if no line is longer than `maxEventBytes` |
| SseDelivery.YieldsPrefixOfStream | src/mcpSse.ts:173-306 | whatever text in whatever chunks an adversary feeds, the messages yielded are a prefix of what the writer of the bound stream wrote; if `finish` returns they are all of them and the writer ended |
| SseTrust.YieldedIsVouched | src/mcpSse.ts:173-306 | whatever is fed, message k is carried, with number k on one stream, by an event k + 1 of at most `maxEvents` that the peer signed for this reader in answer to the expected request; if `finish` returns, the peer signed an end that counts them all |
| SseTrust.AcceptsExactly | src/mcpSse.ts:258-297 | an event is accepted if and only if the stream has not ended and the event is vouched for as the next one, with a JSON-RPC 2.0 message or the right count |
| SseTrust.RefusalIsFirst | src/mcpSse.ts:258-297 | an event is refused for the first thing that is wrong with it |
| SseDelivery.EventIsNext | src/mcpSse.ts:284-286 | the event accepted with number k is the k-th the writer wrote |
| SseDelivery.HandleKeepsDelivered | src/mcpSse.ts:258-297 | handling any event keeps what was handed out equal to the messages of a numbered prefix of the stream |
| SseHonest.HonestStreamDelivered | src/mcpSse.ts:67-306 | a reader that takes what a writer wrote unit by unit, keep-alives included, yields exactly its messages and may finish if and only if it ended |
| SseHonest.EventFormat | src/mcpSse.ts:77-90 | the text of an event letter by letter |
| SseHonest.HonestSplitsExactly | src/mcpSse.ts:67-306 | every split of that text into non-empty chunks is delivered if and only if every line, field name included, is within `maxEventBytes` |
| SseHonest.LongDataLine | src/mcpSse.ts:208-233 | a concrete split that makes `feed` throw for an event that is delivered whole |
| McpSse.SignedSseReader.Feed | src/mcpSse.ts:208-233 | the buffered line loop returns, throws and leaves the state the unit-by-unit machine determines |
| McpSse.SignedSseReader.Line | src/mcpSse.ts:235-256 | which lines add data, end an event, fail or are ignored |
| McpSse.SignedSseReader.HandleEvent | src/mcpSse.ts:258-297 | every check in order, and the state it leaves even when it fails |
| McpSse.SignedSseReader.Finish | src/mcpSse.ts:303-306 | returns only after a signed end event and no failure |
| McpSse.NewWriter | src/mcpSse.ts:72-75 | a writer exists exactly for stream ids of 1 to 128 permitted characters |
| McpSse.StreamIdExactly | src/mcpSse.ts:72-75 | which characters and lengths these are |
| McpSse.SignedSseWriter.Message | src/mcpSse.ts:77-96 | numbers rise by one with every call, failed signings included, and only signed events join the log |
| McpSse.SignedSseWriter.End | src/mcpSse.ts:99-105 | nothing is written after the end event |

## Left out

- Capability.VerifyCapabilityChain: the canonical string of a token is abstract (a signature is a predicate on the
  token), and upper-casing of methods is a parameter.
- KeyLog.VerifyKeyLog: entries of the wrong JavaScript type are not modelled; an entry always has typed fields.
- CborCodec.CborEncoder.EncodeValue: `undefined`, and `Map` keys that are negative or not integers, are not modelled.
- CborCodec.CborDecoder.DecodeMap: `String(key)` for keys that are neither text nor safe integers is a parameter.
- EnvelopeCbor.DecodeEnvelopeCbor: a header time that arrives as a float64 is refused here; the code accepts finite ones.
- SignatureInput.SignedBaseUnambiguous: integers of 10^21 and more, which JavaScript prints with an exponent, print in
  decimal here.
- Envelope.CanonicalInjective: header times are safe integers; other doubles are not modelled.
- HttpSignatures.BuildSignatureBase: `resolveComponent` is a parameter; URL parsing, query parameters, header folding
  and dictionary members are not modelled.
- HttpSignatures.SfParser.BareItem: byte sequences are named by their base64 text, and which texts are base64 is a
  parameter.
- MandateSessions.VerifyPayment: the canonical forms of the mandates and the digest are parameters; the outcome of
  `verifyApproval` is an input of the step (its own behaviour is in `Approval`). Issuing mandates is left out.
- Approval.VerifyApproval: times are whole milliseconds.
- RateLimiter.SlidingWindowRateLimiter.Consume: times, quotas and windows are integers.
- McpSse.SignedSseReader.Feed: the outcome of `receiveEnvelope` for the n-th event is a parameter; reading a response
  body and decoding its bytes (`readSignedSse`) are left out.
- McpSse.SignedSseWriter.Message: the signed wire text is an input of the call. Calls that are not awaited are left out.
- Key import, Ed25519, HMAC, SHA-256, X25519 conversion and WebCrypto caches: calls into other libraries.
- Transports, gateways, adapters, the Redis stores, the command line and telemetry: plumbing without deep invariants.
- Prompt-injection scanning and egress checks: heuristics.
- Streams, DPoP, attestation, provenance and the audit log: they repeat the verify, hash-chain and single-use shapes
  that are covered here.
