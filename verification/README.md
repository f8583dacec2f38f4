# Aurix in Dafny

Aurix is a voice platform: media servers that exchange AURX datagrams, a control API with
administrators, API keys, webhooks and an event stream, a command-line client, and a generator of
client libraries from an OpenAPI description. This project models the parts of it whose correctness
is hardest to see by reading, and proves what they promise for every input and every run.

| file | models |
|---|---|
| `Schema.dfy`, `Support.dfy`, `Loader.dfy` | the schema resolver of the library generator: a mutable loader over a possibly cyclic schema graph |
| `Utf8.dfy`, `Text.dfy`, `Sse.dfy`, `EventStream.dfy`, `SseMultiline.dfy`, `TypeFilter.dfy` | the event stream, from the server's bus to the client's incremental parser |
| `Words.dfy`, `Crc32.dfy`, `CrcDivision.dfy`, `Packet.dfy` | CRC-32, AURX datagrams, sealing, and the fuzz harness's checksum rewriting |
| `Replay.dfy` | the two anti-replay windows of the media protocol |
| `PathTemplate.dfy` | path rendering with percent-encoding |
| `Runs.dfy`, `Admin.dfy` | administrator accounts, single sign-on and tokens, over every run |
| `OidcState.dfy`, `Jwks.dfy` | the single sign-on state ledger and the signing-key cache |
| `Audit.dfy` | the hash-chained audit log over a lossy queue |
| `Wav.dfy`, `Recorder.dfy`, `Player.dfy` | WAV files, the recorder and the player of the voice console |
| `Decimal.dfy`, `Hex.dfy`, `WebhookSignature.dfy` | webhook signature headers |
| `ApiKeys.dfy` | API-key permissions and minting |
| `Analytics.dfy` | ranges, steps and buckets of the usage series |

Objects that the source updates in place are classes; loops that update variables are methods with
invariants; both are proved against functions on values, about which the theorems are stated. Machine
words are sequences of bits, bytes are bounded integers, and every wrap-around is written out; for the
checksum, the same is shown of bit-vectors of 32 and 8 bits.

## How the model reads the source

- Clocks, randomness, the network, HTTP bodies, decryption, keyed hashes and digests are parameters.
- Each method of a service is one atomic step. Steps of other tasks may come between methods; for
  `refresh_jwks`, which waits for the network, the parts before and after the wait are two methods.
- Two clock readings of one single sign-on callback may differ in the model, and readings may reach the
  ledger out of order; the single-use theorem names the readings it needs.
- The account table is a map. Queries by email and id see active rows only, the lookup by identity
  sees all rows, and `revoke = true` raises the token generation, as the queries do.
- Roles are an enumeration, because the service only ever stores their canonical names. Passwords are
  compared directly in place of their Argon2 hashes, and token signatures are taken as verified.
- The hash of the audit chain is an arbitrary function; results about it name the collision that a
  counterexample would have to contain, instead of excluding collisions by assumption.

Where the code does something other than its documentation says, the model follows the code:

- `with_fixed_checksum` in the fuzz harness looks for the Authenticated flag at bytes 5 and 6; the flags
  are at bytes 6 and 7. `Packet.FixedChecksumReachesPayload` gives the exact condition under which the
  rewritten datagram passes the gates.
- The model of a named schema can be displaced by that of an inline merge, and a named enum by an
  inline one (`Loader.InlineMergeDisplaces`, `Loader.InlineEnumDisplaces`).
- A named schema that is only a reference to itself is accepted by the resolver and leaves a reference
  to a model that does not exist (`Loader.SelfAliasDangles`).
- The audit data is a bare concatenation of its fields, and a first entry hashed onto "genesis" could have
  the same input as a later one (`Audit.DataIsAmbiguous`, `Audit.GenesisCanBeMistaken`).
- The start of a usage range is not widened when the widened start is out of the date library's range
  (`Analytics.HugeStepLosesFirstBucket`).
- The step check of the usage series admits ranges with up to two points more than the query returns
  (`Analytics.AcceptedStepCanLosePoints`), although its comment promises to stay under the limit.
- A recording of 2^32 bytes or more gets a header whose length has wrapped around, and cannot be read
  back in full (`Wav.RecordingReadsBack`).
- A recording started over the one that is running can keep bytes of the old one behind its audio, if
  the audio clock ticks in between (`Recorder.Recorder.Start`), and a reader can take them for the
  audio (`Wav.StaleDataReplacesAudio`).
- A WAV file below 50 Hz never finishes playing (`Player.SoundEndsExactlyWhen`).
- Timestamps 2^63 seconds or more from the clock get a wrong skew (`WebhookSignature.SkewIsDistance`),
  as the subtraction wraps around in an optimised build, and some of them count as in time
  (`WebhookSignature.InTimeExactlyWhen`).
- The name of an API key is limited to 128 bytes, not characters.

## Model

| member | source | states |
|---|---|---|
| `Loader.Loader.EnsureNamed` | tools/openapi-sdk/ir.py:134-156 | terminates on cyclic specs; returns a reference that exists now or once its building is finished; after success a name is defined exactly when it was before or its schema is not an alias of itself; what a new name stands for; and it succeeds whenever references may go there, for parts of merges with a model |
| `Loader.Loader.DefineNamed` | tools/openapi-sdk/ir.py:143-156 | a name seen for the first time is defined exactly unless it is an alias of itself, by the model its schema describes; existing definitions stay |
| `Loader.Loader.BuildNamed` | tools/openapi-sdk/ir.py:147-156 | the same for schemas that are resolved under their own name |
| `Loader.Loader.BeginNamed` | tools/openapi-sdk/ir.py:147 | there is one name less that resolution can still visit, which is why it ends, and the tables stay sound |
| `Loader.Loader.FinishNamed` | tools/openapi-sdk/ir.py:150-156 | accepts exactly references to the name itself, and keeps the tables sound without the name under construction |
| `Loader.Loader.ResolveUnder` | tools/openapi-sdk/ir.py:148-153 | a schema resolved under its own name is a model under that name if it is a merge, an object or that as the only alternative, and it succeeds whenever its references may be followed |
| `Loader.Loader.Resolve` | tools/openapi-sdk/ir.py:212-271 | the type returned has the shape of the schema, and all its references are closed over what is defined or being built; only readable nodes are resolved, all readable ones without references are, and those with references wherever these may go |
| `Loader.Loader.ResolveAllOf` | tools/openapi-sdk/ir.py:218-223 | an `allOf` becomes a reference to the merged model, registered under the hint, keeping closure |
| `Loader.Loader.RegisterMerge` | tools/openapi-sdk/ir.py:218-223 | the model under the hint is that of the `allOf` afterwards; every name stays defined, the tables stay sound, and only a name that may be the hint of an inline merge is displaced |
| `Loader.Loader.MergeAllOf` | tools/openapi-sdk/ir.py:158-178 | the merged model comes from exactly the models of its parts, in order |
| `Loader.Loader.ResolvePart` | tools/openapi-sdk/ir.py:162-177 | a part is the model of a named schema or of an inline object |
| `Loader.Loader.ObjectModel` | tools/openapi-sdk/ir.py:180-199 | the model has the object's properties as fields, and is registered under its own name when asked |
| `Loader.Loader.ResolveFields` | tools/openapi-sdk/ir.py:184-189 | one field for each property, in order, with its type and whether it is required |
| `Loader.Loader.ResolveAlternatives` | tools/openapi-sdk/ir.py:224-231 | `oneOf` and `anyOf` with the null alternative removed |
| `Loader.Loader.ResolveUnion` | tools/openapi-sdk/ir.py:230-231 | a union lists the types of all alternatives that are not null |
| `Loader.Loader.ResolveText` | tools/openapi-sdk/ir.py:248-257 | a text with more than one value is a reference to an enum with them, any other is plain |
| `Loader.Loader.ResolveEnum` | tools/openapi-sdk/ir.py:249-256 | the first enum with these values is reused; only when none has them the hint is registered with them, and nothing else changes |
| `Loader.Loader.ResolveScalar` | tools/openapi-sdk/ir.py:258-271 | numbers and booleans with their format; any other type name is refused, and only that |
| `Loader.Loader.ResolveObject` | tools/openapi-sdk/ir.py:263-270 | a model when there are properties, otherwise a map |
| `Loader.Loader.UniqueName` | tools/openapi-sdk/ir.py:201-210 | the name itself when it is free or under construction, otherwise the first free number from 2 on |
| `Loader.Loader.FirstFree` | tools/openapi-sdk/ir.py:207-210 | the loop terminates with the first number from 2 on whose name is free |
| `Loader.Loader.FindEnum` | tools/openapi-sdk/ir.py:252-254 | the first enum, in the order of insertion, with exactly these values, or none has them |
| `Loader.Loader.ResolveOperation` | tools/openapi-sdk/ir.py:275-344 | one type for each schema an operation uses, with its shape, closed; readable schemas without references, or with references that may be followed, do not fail |
| `Loader.Loader.Load` | tools/openapi-sdk/ir.py:347-360 | when loading succeeds, every reference in every model and operation names an existing model or enum of its kind or an alias of itself, every named schema has one or is one, and without such aliases nothing dangles; a named schema's model stands for it, and a named enum has its values, unless an inline merge or enum elsewhere may have that name as its hint; and a loadable spec loads: readable operations over named schemas that are string enums, only themselves, or readable models under their own names, ranked so that references do not go up and parts of merges go down |
| `Loader.Loader.LoadOperations` | tools/openapi-sdk/ir.py:275-344 | every operation resolved in order, keeping the tables sound, and all of them in a loadable spec |
| `Loader.SelfAliasDangles` | tools/openapi-sdk/ir.py:134-156 | a concrete spec that resolves to a reference to nothing |
| `Loader.InlineMergeDisplaces` | tools/openapi-sdk/ir.py:218-223 | a concrete spec in which both schemas resolve and an inline merge takes the place of a named object |
| `Loader.InlineEnumDisplaces` | tools/openapi-sdk/ir.py:249-256 | a concrete spec in which a named enum and an inline enum of other values resolve to the same name, which has the inline values |
| `Loader.Loader.CoverNamed` | tools/openapi-sdk/ir.py:134-156 | whatever a named schema can register while it is built is its own name or one that inline schemas may be registered under |
| `Loader.Loader.OpenDecides` | tools/openapi-sdk/ir.py:134-156 | in a ranked spec, a schema that is not above any name under construction resolves, to a model of its own |
| `Loader.TreeLoads` | tools/openapi-sdk/ir.py:347-360 | a concrete cyclic spec that loads |
| `Support.TypeNameMeans` | tools/openapi-sdk/ir.py:232-247 | which type a node has: its name, the one name in a list that is not "null", or that of an object with properties; nullable exactly if a list holds "null"; annotations alone have none |
| `Support.ShapeOfText` | tools/openapi-sdk/ir.py:248-257 | a text is an enum exactly if it lists two values or more |
| `Support.ShapeOfArray` | tools/openapi-sdk/ir.py:260-262 | an array of what its items are, or of anything |
| `Support.ShapeOfObject` | tools/openapi-sdk/ir.py:263-270 | an object is a model exactly if it has properties, otherwise a map of what else it may hold |
| `Support.AlternativesAre` | tools/openapi-sdk/ir.py:225-227 | the alternatives of `oneOf`, or of `anyOf` if there are none, without "null", in order |
| `Support.PascalSplits` | tools/openapi-sdk/ir.py:101-104 | words run together in capitals |
| `Schema.MergedModelFields` | tools/openapi-sdk/ir.py:158-178 | merged models have distinct field names, in order of first occurrence, each field from the last part defining it |
| `Schema.MergeNames` | tools/openapi-sdk/ir.py:158-178 | the names of merged fields are the first occurrences of the names of all fields |
| `Schema.MergeMembers` | tools/openapi-sdk/ir.py:158-178 | a field is in the merge exactly when it is the last one with its name |
| `Crc32.Checksum` | fuzz/src/lib.rs:82-97 | the nested loop computes the complement of the register fed with all bytes, which `CrcDivision.CrcIsRemainder` says is a remainder |
| `Crc32.FeedByte` | fuzz/src/lib.rs:86-95 | the inner loop folds a byte in and makes eight register steps |
| `Crc32.StepIsLinearBijection` | fuzz/src/lib.rs:88-94 | a register step has an inverse and is linear over XOR |
| `Crc32.CrcIsAffine` | fuzz/src/lib.rs:82-97 | the checksum of an XOR of three inputs is the XOR of their checksums |
| `Crc32.UpdateIsTableLookup` | fuzz/src/lib.rs:86-95 | eight bitwise steps are one table lookup, as in the sample code in section 8 of RFC 1952 |
| `Crc32.RegisterIsBitRegister` | fuzz/src/lib.rs:86-95 | feeding bytes is feeding their bits, low bit first |
| `Crc32.BurstChangesCrc` | fuzz/src/lib.rs:82-97 | inputs that differ only within 32 consecutive bits have different checksums |
| `Crc32.FourByteDamageChangesCrc` | fuzz/src/lib.rs:82-97 | inputs that differ only within four consecutive bytes have different checksums |
| `CrcDivision.CrcIsRemainder` | fuzz/src/lib.rs:82-97 | the complement of the checksum is the remainder of long division over GF(2) by the polynomial of IEEE 802.3, of the bits of the data times x^32 with the first 32 coefficients inverted |
| `CrcDivision.Division` | fuzz/src/lib.rs:82-97 | long division divides: the dividend is quotient times divisor plus remainder |
| `CrcDivision.CrcHolds` | fuzz/src/lib.rs:82-97 | the checksum has the bits that the loop computes in 32-bit machine words with the constant 0xEDB8_8320 |
| `CrcDivision.CheckValue` | fuzz/src/lib.rs:82-97 | the checksum of "123456789" is 0xCBF4_3926 |
| `Packet.ParseEncodedHeader` | crates/aurix-common/src/protocol.rs:168-209 | a header written and read back is itself |
| `Packet.EncodeParsedHeader` | crates/aurix-common/src/protocol.rs:168-209 | accepted header bytes written back are themselves |
| `Packet.HeaderSpells` | crates/aurix-common/src/protocol.rs:168-209 | the fields in numbers: magic, version, type, and the rest in big-endian order at their places |
| `Packet.DecodeAcceptsExactlyWires` | crates/aurix-common/src/protocol.rs:371-408 | the datagrams accepted are exactly the wire forms of well-formed packets within the size limit, and decode to them |
| `Packet.RefusalsAre` | crates/aurix-common/src/protocol.rs:371-408 | which gate refuses a datagram, by its bytes |
| `Packet.ReencodedPacketDecodes` | crates/aurix-common/src/protocol.rs:304-321 | an accepted packet encoded again decodes to itself without the tag |
| `Packet.DamagedPayloadIsRefused` | crates/aurix-common/src/protocol.rs:371-408 | damage to the payload within four consecutive bytes is always refused |
| `Packet.CtrIsInvolution` | crates/aurix-common/src/crypto.rs:60-80 | applying the keystream twice gives back the data |
| `Packet.SealedPacketOpens` | crates/aurix-common/src/protocol.rs:340-444 | a sealed packet decodes without keys, opens under its own, and yields the plaintext under the sender's header with only flags, length and checksum renewed |
| `Packet.OpensExactlyWhen` | crates/aurix-common/src/protocol.rs:410-444 | a decoded datagram opens exactly if its Authenticated flag is set and its last 16 bytes are the first 16 of the keyed hash of all bytes before them |
| `Packet.NonceDetermines` | crates/aurix-common/src/crypto.rs:60-70 | packets have the same nonce exactly if they agree in type, source, sequence and time |
| `Packet.WithFixedChecksum` | fuzz/src/lib.rs:66-80 | the in-place rewriting changes exactly the length and checksum fields, for the tag length it assumes |
| `Packet.FixedChecksumReachesPayload` | fuzz/src/lib.rs:66-80 | the rewritten datagram is accepted exactly when bit 0x04 of the packet type equals the Authenticated flag; otherwise the length gate refuses it, and how |
| `Packet.MisreadFlagIsRefused` | fuzz/src/lib.rs:66-80 | two concrete datagrams, one refused for trailing bytes and one as truncated |
| `Replay.ReplayWindow.CheckAndUpdate` | crates/aurix-common/src/protocol.rs:738-766 | the 64-bit bitmap decides exactly as the rule on the set of all accepted numbers does |
| `Replay.WideReplayWindow.ShiftLeft` | crates/aurix-common/src/protocol.rs:798-815 | the loop that shifts 64 words in place, top word first, is a shift of the whole bitmap |
| `Replay.WideReplayWindow.Advance` | crates/aurix-common/src/protocol.rs:826-831 | a number above the highest moves the window up and is recorded |
| `Replay.WideReplayWindow.Mark` | crates/aurix-common/src/protocol.rs:832-843 | a number inside the window is accepted exactly when it is not recorded, and then is |
| `Replay.WideReplayWindow.CheckAndUpdate` | crates/aurix-common/src/protocol.rs:818-843 | the 4096-bit bitmap decides exactly as the same rule with a wider window does |
| `Replay.AcceptedExactlyWhen` | crates/aurix-common/src/protocol.rs:724-767 | in every run, a number is accepted exactly when it arrives for the first time and nothing a whole window ahead arrived before it |
| `Replay.AcceptedAtMostOnce` | crates/aurix-common/src/protocol.rs:724-767 | in every run, no number is accepted twice |
| `Replay.WiderAcceptsMore` | crates/aurix-common/src/protocol.rs:769-843 | in every run, the wide window accepts whatever the narrow one does |
| `Utf8.LossyOfEncode` | crates/aurix-cli/src/http.rs:431-472 | lossy decoding undoes encoding |
| `Sse.SseParser.Push` | crates/aurix-cli/src/http.rs:431-472 | a push consumes exactly the complete lines of buffer and chunk, keeps the rest, and returns their events |
| `Sse.SseParser.Line` | crates/aurix-cli/src/http.rs:437-468 | one line changes the pending event, or hands it over |
| `Sse.SplitLinesIsUnique` | crates/aurix-cli/src/http.rs:435-437 | the lines are the one way to write the bytes as newline-free pieces and a rest |
| `Sse.PushAppend` | crates/aurix-cli/src/http.rs:431-472 | two pushes are one push of both chunks |
| `Sse.ChunkingDoesNotMatter` | crates/aurix-cli/src/http.rs:431-472 | however a byte stream is cut, outputs and final state are those of one push of the whole |
| `EventStream.EventStream.Next` | crates/aurix-api/src/webhooks.rs:440-480 | each frame is the next one owed; the stream ends only when nothing more is owed; what is owed is said by `EventStream.DeliveredExactly` |
| `EventStream.EventStream.constructor` | crates/aurix-api/src/webhooks.rs:435-445 | the greeting comes first, then everything owed |
| `EventStream.FieldRoundTrip` | crates/aurix-cli/src/http.rs:456-462 | a printed field reads back as its name and value |
| `EventStream.WireRoundTrip` | crates/aurix-cli/src/http.rs:431-472 | printed frames, cut anywhere, parse back to exactly their events, with nothing left over |
| `EventStream.StreamReachesClient` | crates/aurix-api/src/webhooks.rs:419-488 | for every run of bus results, keep-alives anywhere and any cutting, the client reads the greeting and then exactly what it is owed |
| `EventStream.PartialStreamIsPrefix` | crates/aurix-cli/src/http.rs:431-472 | at any moment the client has read a prefix of what the stream holds |
| `EventStream.OnlyWantedEventsAreDelivered` | crates/aurix-api/src/webhooks.rs:448-457 | every event with an id that the frames carry was published on the bus under this public type for the caller's tenant, and passes the filter, or is no noise without one |
| `EventStream.DeliveredExactly` | crates/aurix-api/src/webhooks.rs:446-480 | the events delivered are, in order, exactly those of the results before the bus is closed that are lag notices or serialisable public events of the caller's tenant that pass the filter, or are no noise without one |
| `SseMultiline.EventArrives` | crates/aurix-cli/src/http.rs:431-472 | an event with any number of data lines, with or without type and id, ended by CRLF or LF line by line and cut anywhere, is read with its data joined by newlines |
| `SseMultiline.TextSurvives` | crates/aurix-cli/src/http.rs:431-472 | so a text sent line by line is read as it is |
| `EventStream.ReadEvents` | crates/aurix-cli/src/http.rs:376-393 | hands over exactly the events up to where the callback stops, and returns the id of the last one that carries an id |
| `EventStream.HandOver` | crates/aurix-cli/src/http.rs:384-391 | the inner loop over one chunk's events |
| `TypeFilter.ParseTypeFilter` | crates/aurix-api/src/webhooks.rs:384-402 | no filter, exactly the listed types, or the first unknown one, decided by the first entry that is no public type |
| `TypeFilter.Collect` | crates/aurix-api/src/webhooks.rs:389-401 | the loop over the entries |
| `TypeFilter.ListReadsBack` | crates/aurix-api/src/webhooks.rs:384-402 | a comma-separated list of clean names is read back as these names |
| `PathTemplate.EncodeSegment` | crates/aurix-cli/src/openapi.rs:250-261 | the loop computes the percent-encoding of the UTF-8 bytes |
| `PathTemplate.DecodeOfEncode` | crates/aurix-cli/src/openapi.rs:250-261 | percent-decoding undoes it |
| `PathTemplate.EncodedIsInjective` | crates/aurix-cli/src/openapi.rs:250-261 | different values have different encodings |
| `PathTemplate.EncodedIsPlain` | crates/aurix-cli/src/openapi.rs:250-261 | encodings hold no brace and no slash |
| `PathTemplate.EncodedIsEscaped` | crates/aurix-cli/src/openapi.rs:250-261 | encodings hold only letters, digits, the marks `-._~`, and percent signs with two upper-case hexadecimal digits behind them |
| `PathTemplate.EncodedCharacter` | crates/aurix-cli/src/openapi.rs:250-261 | exactly letters, digits and these marks are left as they are; any other character becomes one escape for each of its bytes |
| `PathTemplate.KnownEncodings` | crates/aurix-cli/src/openapi.rs:250-261 | some known encodings |
| `PathTemplate.RenderPath` | crates/aurix-cli/src/openapi.rs:226-247 | renders by one replacement after the other when every parameter has a value and there is no other; otherwise names the first parameter at fault, or the first stray one in the order of the map |
| `PathTemplate.SequentialIsSimultaneous` | crates/aurix-cli/src/openapi.rs:226-247 | on templates whose braces only enclose names, that is the substitution of all parameters at once |
| `PathTemplate.FlatTextHasPieces` | crates/aurix-cli/src/openapi.rs:226-247 | these are all texts whose braces open and close in turn |
| `PathTemplate.NestedBracesDiffer` | crates/aurix-cli/src/openapi.rs:226-247 | with nested braces it is not |
| `PathTemplate.SegmentCountIsKept` | crates/aurix-cli/src/openapi.rs:226-247 | rendering keeps the number of segments of every such template with slash-free parameter names |
| `PathTemplate.RenderedSegments` | crates/aurix-cli/src/openapi.rs:226-247 | each segment of the rendered path is the rendering of that segment of the template, whatever stands next to its parameters |
| `PathTemplate.RenderingIsInjective` | crates/aurix-cli/src/openapi.rs:226-261 | when any two parameters of a segment have text between them with a character that no encoding holds, different complete parameter maps give different paths |
| `PathTemplate.SegmentDetermines` | crates/aurix-cli/src/openapi.rs:226-261 | the text of such a segment determines the value of every parameter in it |
| `PathTemplate.OneHoleIsSeparated` | crates/aurix-cli/src/openapi.rs:226-247 | a segment with at most one parameter is of this kind |
| `PathTemplate.UnseparatedIsAmbiguous` | crates/aurix-cli/src/openapi.rs:226-261 | two parameters with only unreserved text between them, or none, have different values with the same rendering, whatever the names and that text are |
| `Admin.NormalizeIsIdempotent` | crates/aurix-auth/src/admin.rs:565-576 | a normalised email is its own normal form |
| `Admin.ChangeKeepsValid` | crates/aurix-auth/src/admin.rs:505-516 | every step keeps one active account per email and one account per identity |
| `Admin.ChangeKeepsSuperadmin` | crates/aurix-auth/src/admin.rs:380-402 | no step removes the last active superadmin |
| `Admin.RunKeepsValid` | crates/aurix-auth/src/admin.rs:136-292 | in every run, at most one active account per normalised email and one account per identity |
| `Admin.RunKeepsSuperadmin` | crates/aurix-auth/src/admin.rs:380-458 | in every run, once a superadmin is active, one always is |
| `Admin.IdentityNeverMoves` | crates/aurix-auth/src/admin.rs:190-292 | in every run, a bound identity stays with its account and with no other |
| `Admin.RowFollows` | crates/aurix-auth/src/admin.rs:405-503 | in every run, accounts stay, generations never fall, and within one generation role and password are the same and an account does not become inactive |
| `Admin.AcceptedTwiceMeansUndisturbed` | crates/aurix-auth/src/admin.rs:297-320 | between two acceptances of a token, its account was active throughout with the same role, password and generation; so no token survives a change of these, undone or not |
| `Admin.RevokedTokenStaysRevoked` | crates/aurix-auth/src/admin.rs:297-320 | a token from before the account's generation is never accepted again |
| `Admin.AcceptedExactlyWhen` | crates/aurix-auth/src/admin.rs:297-341 | exactly which tokens are accepted: of the right type, not expired for more than 30 seconds, of an active account in its present generation |
| `Admin.IssuedTokenLives` | crates/aurix-auth/src/admin.rs:322-361 | a token of an undisturbed account is accepted for as long as it was issued for and 30 seconds more |
| `Admin.AdminAuthService.CreateAdmin` | crates/aurix-auth/src/admin.rs:136-159 | succeeds exactly for valid input and a free email, and adds exactly that account |
| `Admin.AdminAuthService.BootstrapAdmin` | crates/aurix-auth/src/admin.rs:114-134 | creates a superadmin only with the bootstrap token or while there is no active account |
| `Admin.AdminAuthService.Authenticate` | crates/aurix-auth/src/admin.rs:161-187 | signs in exactly the active account with this email and password, with a token that is accepted |
| `Admin.AdminAuthService.LoginSso` | crates/aurix-auth/src/admin.rs:190-292 | uses, binds or provisions the account of the identity, or refuses, in exactly the cases of the source; the token it returns is accepted after its own role sync; field by field, a new account has the provider's role and identity, no password and generation 0, and an existing one keeps everything but the identity and source of a first login and, if synchronised and not the last superadmin, its role and generation |
| `Admin.AdminAuthService.LoginKnown` | crates/aurix-auth/src/admin.rs:199-225 | a known identity signs in to its account when that is active, with the role synced unless that would remove the last superadmin |
| `Admin.AdminAuthService.BindAccount` | crates/aurix-auth/src/admin.rs:231-264 | an account found by email is bound unless it already has an identity |
| `Admin.AdminAuthService.UpdateAdmin` | crates/aurix-auth/src/admin.rs:405-458 | refuses changes of one's own role or activity, the loss of the last superadmin and clashing reactivations, and otherwise makes exactly the edit, field by field, with a new generation exactly on a role change or deactivation |
| `Admin.AdminAuthService.ChangeOwnPassword` | crates/aurix-auth/src/admin.rs:461-485 | succeeds exactly with the current password and a valid new one, and revokes earlier tokens |
| `Admin.AdminAuthService.ResetPassword` | crates/aurix-auth/src/admin.rs:488-495 | sets a valid password and revokes earlier tokens |
| `Admin.AdminAuthService.RevokeTokens` | crates/aurix-auth/src/admin.rs:498-503 | revokes every token of the account and changes nothing else |
| `OidcState.OpenState` | crates/aurix-auth/src/oidc.rs:382-403 | opens exactly what decrypts, is short enough and has not expired |
| `OidcState.OidcProvider.ConsumeState` | crates/aurix-auth/src/oidc.rs:405-415 | refuses exactly what is still in the pruned ledger, and records the state |
| `OidcState.OidcProvider.Complete` | crates/aurix-auth/src/oidc.rs:421-436 | the callback up to the code exchange: which of the four refusals, and the ledger after it |
| `OidcState.AcceptedExactlyWhen` | crates/aurix-auth/src/oidc.rs:382-436 | in every run and for any clock readings, a callback succeeds exactly when it reaches the ledger and its identifier was not filed before, or since it last was (or now) the ledger was reached after the expiry then filed |
| `OidcState.ReusedExactlyWhen` | crates/aurix-auth/src/oidc.rs:397-415 | with readings in order, a state accepted before is accepted again exactly when it was opened in time and the ledger is asked after its expiry |
| `OidcState.StateIsSingleUse` | crates/aurix-auth/src/oidc.rs:382-436 | with readings in order and one reading for both checks, a state is accepted at most once, although the ledger is pruned on every call |
| `OidcState.StraddlingReadingsReuse` | crates/aurix-auth/src/oidc.rs:397-415 | two readings on either side of the expiry let a state through twice |
| `OidcState.ReadingsOutOfOrderReuse` | crates/aurix-auth/src/oidc.rs:405-415 | so do readings that reach the ledger out of order, from a clock set back or from reading it before taking the lock |
| `Jwks.FilterKeys` | crates/aurix-auth/src/oidc.rs:280-301 | the loop keeps the last usable key of each name and the nameless ones in order, all of them asymmetric; it keeps none exactly when none is usable |
| `Jwks.OidcProvider.BeginRefresh` | crates/aurix-auth/src/oidc.rs:264-272 | a forced refetch starts exactly when 30 seconds have passed since the last start |
| `Jwks.OidcProvider.FinishRefresh` | crates/aurix-auth/src/oidc.rs:273-313 | the cache is replaced exactly when the response holds a usable key, and by what it holds |
| `Jwks.OidcProvider.RefreshJwks` | crates/aurix-auth/src/oidc.rs:263-313 | no start exactly when forced too early; after one, the cache is what the response holds if that has usable keys, and unchanged otherwise |
| `Jwks.OidcProvider.TryVerify` | crates/aurix-auth/src/oidc.rs:647-697 | unknown key, rejection, future token or acceptance, by whether any candidate is of the right family and validates the token |
| `Jwks.OidcProvider.VerifyIdToken` | crates/aurix-auth/src/oidc.rs:619-644 | acceptance needs an allowed algorithm and a cached key of its family; at most two fetches, none for other algorithms; a fresh cache that decides for the token needs none, and after a key rotation one forced fetch suffices; an unknown key is reported only when the cache has no candidate; whatever keys decide is decided by keys not older than an hour, and older ones are fetched again first |
| `Jwks.FamiliesAre` | crates/aurix-auth/src/oidc.rs:700-712 | which keys go with which tokens; symmetric algorithms with none |
| `Jwks.ForcedFetchesAreLimited` | crates/aurix-auth/src/oidc.rs:264-272 | in any window there is at most one forced fetch for every 30 seconds of its length, and one more |
| `Audit.Chain.Append` | crates/aurix-common/src/audit.rs:32-51 | the chain from "genesis" grows by one entry linked to its head |
| `Audit.AuditLogger.Clone` | crates/aurix-common/src/audit.rs:58-65 | a clone shares chain and queue |
| `Audit.AuditLogger.Log` | crates/aurix-common/src/audit.rs:22-55 | through any clone, the chain stays one chain, and the queue gets the entry exactly when it has room |
| `Audit.Channel.Receive` | crates/aurix-common/src/audit.rs:52-54 | what is received is what was kept of the log, in order |
| `Audit.EqualHeadsMeanEqualData` | crates/aurix-common/src/audit.rs:13-55 | logs with the same head logged the same data, or contain an explicit collision, or a hash that begins with "genesis" |
| `Audit.HashesAreDistinct` | crates/aurix-common/src/audit.rs:13-55 | no hash occurs twice in a chain, or there is a collision or a hash that begins with "genesis" |
| `Audit.LinkMeansNothingDropped` | crates/aurix-common/src/audit.rs:46-54 | entries received one after the other link up exactly when nothing was dropped between them, or there is a collision or a hash that begins with "genesis" |
| `Audit.DataDeterminesFields` | crates/aurix-common/src/audit.rs:33-36 | with the lengths of details and target type fixed, equal data means equal hashed fields |
| `Audit.DataIsAmbiguous` | crates/aurix-common/src/audit.rs:33-36 | without them it does not |
| `Audit.GenesisCanBeMistaken` | crates/aurix-common/src/audit.rs:13-37 | the last alternative is needed: with such a hash, records as callers can log them reach the same head by different data without a collision |
| `Wav.ScanChunks` | crates/aurix-client/examples/voice_cli.rs:429-445 | the index loop terminates in bounds and gathers what the walk over the chunks does |
| `Wav.ReadWav` | crates/aurix-client/examples/voice_cli.rs:424-460 | reads what the walk gathers, or says what is wrong |
| `Wav.ReadsAnyFormat` | crates/aurix-client/examples/voice_cli.rs:424-460 | a file of any rate in mono or stereo 16-bit PCM is read with its rate, its channels and its samples, and any other format is refused by its numbers |
| `Wav.ReadsNothingElse` | crates/aurix-client/examples/voice_cli.rs:424-460 | what is no RIFF file of type WAVE is refused, and nothing is read without a data chunk |
| `Wav.WalkWires` | crates/aurix-client/examples/voice_cli.rs:432-445 | the walk meets exactly the chunks a file was put together from, padding included |
| `Wav.WalkCut` | crates/aurix-client/examples/voice_cli.rs:434-435 | a last chunk that is cut short counts for as far as it goes |
| `Wav.UnknownChunkIsIgnored` | crates/aurix-client/examples/voice_cli.rs:436-444 | an unknown well-formed chunk changes nothing, wherever it is inserted |
| `Wav.SamplesOfAudio` | crates/aurix-client/examples/voice_cli.rs:452-454 | 16-bit samples written and read back are themselves |
| `Wav.WavHeader` | crates/aurix-client/examples/voice_cli.rs:405-421 | the appended buffer is the 44-byte header |
| `Wav.HeaderBytes` | crates/aurix-client/examples/voice_cli.rs:405-421 | the header byte for byte: 16-bit stereo at 48 kHz |
| `Wav.ReadRecording` | crates/aurix-client/examples/voice_cli.rs:405-460 | the reader understands the header as 48 kHz 16-bit stereo, and walks on from its data chunk |
| `Wav.RecordingReadsBack` | crates/aurix-client/examples/voice_cli.rs:388-460 | a finished recording reads back as exactly its samples if and only if their bytes can be counted in 32 bits |
| `Recorder.Quantize` | crates/aurix-client/examples/voice_cli.rs:97-100 | in range, never louder than the clamped sample, and off by less than one step |
| `Wav.TailIsWalked` | crates/aurix-client/examples/voice_cli.rs:388-460 | bytes behind the audio of a recording are read as further chunks |
| `Wav.StaleDataReplacesAudio` | crates/aurix-client/examples/voice_cli.rs:436-444 | another data chunk there is what the reader gets instead of the audio |
| `Recorder.Recorder.Start` | crates/aurix-client/examples/voice_cli.rs:296-307 | a new recording starts empty, and a running one is finished first, even one to the same file; ticks of the audio clock in between are in the old recording, or, when it is to the same file, leave bytes behind the new one, which nothing else does |
| `Recorder.Recorder.Prepare` | crates/aurix-client/examples/voice_cli.rs:298-300 | the file is emptied and gets a header while a running recording goes on, to another file or to this one |
| `Recorder.Recorder.Ticks` | crates/aurix-client/examples/voice_cli.rs:93-103 | ticks in a row record all their audio and keep a valid recording valid |
| `Recorder.Recorder.Tick` | crates/aurix-client/examples/voice_cli.rs:93-103 | a tick writes the quantised mix at its position, also in a file emptied meanwhile, and keeps a valid recording valid, its frames counted modulo 2^32 |
| `Recorder.Recorder.Finish` | crates/aurix-client/examples/voice_cli.rs:388-402 | the first 44 bytes are rewritten in place; the file then reads back as the samples taken if and only if their bytes fit 32 bits, and what is behind them is read as further chunks |
| `Player.Player.Tick` | crates/aurix-client/examples/voice_cli.rs:77-92 | what has been pushed is the sound over and over up to the position; the end is reached, looped or reported as the source does |
| `Player.Player.Run` | crates/aurix-client/examples/voice_cli.rs:73-92 | after n ticks a sound has been pushed up to n frames, and is over exactly when they cover it |
| `Player.SoundEndsExactlyWhen` | crates/aurix-client/examples/voice_cli.rs:78-91 | a sound ends exactly when it has channels and at least 50 Hz, or no samples |
| `Decimal.ParseOfPrint` | crates/aurix-cli/src/webhook_sig.rs:7-29 | printed 64-bit numbers parse back |
| `WebhookSignature.HexRoundTrip` | crates/aurix-cli/src/webhook_sig.rs:13-41 | hex text decodes to the bytes it was made from |
| `WebhookSignature.MessageIsInjective` | crates/aurix-cli/src/webhook_sig.rs:10-12 | the signed message determines timestamp and body |
| `WebhookSignature.Verify` | crates/aurix-cli/src/webhook_sig.rs:17-50 | accepts exactly headers whose last timestamp is in time and whose last digest is that of this timestamp and the body, and says what is wrong with any other |
| `WebhookSignature.Expected` | crates/aurix-cli/src/webhook_sig.rs:39-41 | the digest cut out of the verifier's own signature is the keyed hash |
| `WebhookSignature.SignedHeaderReadsBack` | crates/aurix-cli/src/webhook_sig.rs:7-50 | a signed header verifies, under any secret and body, exactly when in time and the two digests agree, and yields its timestamp |
| `WebhookSignature.SignedHeaderVerifies` | crates/aurix-cli/src/webhook_sig.rs:7-50 | a signature verifies under its own secret and body exactly while it is in time |
| `WebhookSignature.SkewIsDistance` | crates/aurix-cli/src/webhook_sig.rs:35 | the skew is the distance in time exactly when that fits 63 bits |
| `WebhookSignature.InTimeExactlyWhen` | crates/aurix-cli/src/webhook_sig.rs:35-38 | exactly which timestamps count as in time: those within the tolerance, at a distance of 2^63, or of 2^64 less the tolerance or more |
| `WebhookSignature.FarTimestampIsInTime` | crates/aurix-cli/src/webhook_sig.rs:35-38 | at every clock reading since 1970 a timestamp 2^63 seconds before it counts as in time, whatever the tolerance |
| `ApiKeys.RolesAreNested` | crates/aurix-api/src/middleware.rs:96-138 | a higher role may do whatever a lower one may |
| `ApiKeys.ViewersOnlyRead` | crates/aurix-api/src/middleware.rs:94-105 | the read-only role gets read permissions and nothing else |
| `ApiKeys.WhoMayManageKeys` | crates/aurix-api/src/middleware.rs:94-140 | keys are for administrators, and erasing users is for superadmins alone |
| `ApiKeys.ValidatePermissions` | crates/aurix-api/src/handlers.rs:2860-2878 | accepts exactly 1 to 32 known permission names |
| `ApiKeys.FirstNotHeld` | crates/aurix-api/src/handlers.rs:2917-2932 | finds a permission asked for and not held, exactly when there is one |
| `ApiKeys.EntriesBound` | crates/aurix-api/src/middleware.rs:70-80 | holding every entry of an array, wildcard included, is being allowed whatever it allows |
| `ApiKeys.ApiKeyService.CreateApiKey` | crates/aurix-api/src/handlers.rs:2902-2947 | mints exactly when the caller may manage keys, the request is valid and asks for nothing the caller cannot do; otherwise reports the first check that fails |
| `ApiKeys.ApiKeyService.CreateAppKey` | crates/aurix-api/src/handlers.rs:4228-4238 | the key an application starts with |
| `ApiKeys.MintingNeverEscalates` | crates/aurix-api/src/handlers.rs:2902-2947 | no key can do anything that some key or role it descends from, at any distance, cannot |
| `Analytics.CoveredExactlyWhen` | crates/aurix-api/src/analytics.rs:52-61 | every instant of a range, before 1970 too, is counted in a stored bucket that the widened range admits, exactly when the start could be widened or is the start of its bucket |
| `Analytics.OrdinaryStepsCover` | crates/aurix-api/src/analytics.rs:52-61 | from the year 0 on, that is so for every step of up to 262 thousand years |
| `Analytics.HugeStepLosesFirstBucket` | crates/aurix-api/src/analytics.rs:56-60 | an accepted range and step where the fallback to the start itself loses the first bucket |
| `Analytics.WideningIsLeast` | crates/aurix-api/src/analytics.rs:52-61 | the first bucket admitted still reaches into the range |
| `Analytics.PointsAreCounted` | crates/aurix-db/src/usage.rs:443-505 | the points of a series are the counted buckets of its step: all of them when the start could be widened, otherwise all but perhaps the first |
| `Analytics.CountFollowsSpan` | crates/aurix-api/src/analytics.rs:87-110 | there are as many buckets as steps in the range, or one or two more |
| `Analytics.ParseRange` | crates/aurix-api/src/analytics.rs:63-83 | accepted ranges are not empty and at most 400 days long, all such ranges are accepted as given, and the defaults end now and span the default days |
| `Analytics.ResolveStep` | crates/aurix-api/src/analytics.rs:87-110 | which steps are accepted, the automatic one is the finest that stays under its limit and always exists, and at most 10002 and 5002 buckets result |
| `Analytics.RollUpIsBucket` | crates/aurix-db/src/usage.rs:465-505 | rolling up the stored bucket of an instant gives the coarser bucket of that instant |
| `Analytics.AcceptedStepCanLosePoints` | crates/aurix-api/src/analytics.rs:87-110 | an accepted range and step with two points more than the query returns |
| `Analytics.NothingIsLostExactlyWhen` | crates/aurix-db/src/usage.rs:443-461 | no point is cut off exactly when the range ends within as many steps of the bucket it starts in as the query returns points |

## Left out

- Loader.Loader.Load: does not say that a name which may be the hint of an inline merge or enum is in fact displaced: that depends on the order of resolution, on the numbers that free names get, and on enums with equal values being reused.
- Loader.Loader.Load: a spec that is not ranked may still load, in some order of its schemas and not in others, which is not characterised.
- Loader.Loader.Resolve: the shape leaves open the nullability of a reference, which the source takes from the schema on the first reference and drops on later ones, and which of several enums with equal values a text refers to is said at `ResolveEnum`.
- Loader.Loader.ResolveOperation: an operation is the list of schemas it uses; the order and mismatch checks of path parameters, skipped operations and metadata would only add easy members.
- Loader.Loader.UniqueName: does not claim that lifted names are unique in the end, because the source picks a name before the fields of the object are resolved.
- Recorder.Recorder.Start: the audio clock ticks between the steps of starting, not in the middle of one write.
- Recorder.Recorder.Tick: samples are real numbers; the rounding of 32-bit floats and NaN are not modelled. Failing writes are not modelled.
- Analytics.NothingIsLostExactlyWhen: counts buckets, of which the table may hold fewer.
- Jwks.OidcProvider.VerifyIdToken: one clock reading serves the whole call; discovery, the code exchange and the mapping of claims to roles are left out.
- Packet.SealedPacketOpens: the keystream and the keyed hash are arbitrary functions; their strength is no part of the model.
- Admin.AdminAuthService.LoginSso: steps of other requests between the queries of one method are not modelled.
- Rate limits, expiry and revocation of API keys only restrict them further and have no theorem.
- The relay envelope around AURX datagrams, forward error correction, jitter buffering, mixing and the media server.
- REST routing, SQL text, Redis, metrics, WebSocket relaying, TURN, the dashboard and the release scripts.
- The emitters of the library generator, which format what the loader returns.
- Configuration precedence, command-line parsing and the token claims of voice clients.
