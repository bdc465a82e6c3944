# dig-stun, verified

A Dafny model of the three cores of `dig-stun`, with proofs about whole runs of them:

* **The observation limiter** (`TokenBuckets`, `Observe`, `ObserveRuns`, `History`, `Evictions`, `ZeroCapacity`,
  `RollingWindows`, `Saturation`). Two bounded maps of fixed-window token buckets and one global bucket.
  `Observe.ObserveLimiter` is the limiter itself, updated in place; a ghost field records every call and which bucket
  each map evicted. Hash-map iteration order is unspecified, so among equally old buckets the victim is not
  determined. One dimension is a machine of its own (`TokenBuckets`), generic in its keys; sessions and sources are
  two instances of it. `History` and `Evictions` say all of it from outside: which calls are granted and who is
  evicted, by requests, grants and evictions so far.
* **The signed-Binding exchange** (`Bits`, `Tlv`, `Codec`, `Base64Url`, `Wire`, `Request`, `RequestWriter`,
  `Signature`, `Response`, `Nonce`, `Server`, `LeastSizes`, `Replay`, `LimitedServer`, `SignedClient`, `Exchange`;
  what bytes mean and how messages are laid out, by index and with every constant spelled out, in `TlvLayout`,
  `Headers`, `WireLayout`, `RequestShapes`, `ResponseShapes`, `Utf8` and `Replies`). Byte codecs, the nonce, the
  server's pipeline and the client's receive loop, composed over real bytes. HMAC-SHA256 with its key and ECDSA are
  parameters: a function from messages to 32 bytes, a signer and a verifier. Transaction ids, send failures and the
  outside world of the client are parameters too: ids and failures by number of the send, and a sequence of events (a
  datagram, the deadline, a receive error). A datagram longer than the 512-byte buffer loses its end.
* **Agreement** (`Scope`, `Grammar`, `Spelling`, `Establish`, `Agreement`, `ByClass`). Address scopes, the grammar of
  sources, and the verdict on untrusted readings.

Machine integers are subset types of `int` (`Prelude.dfy`); wrap-around, truncation to 16 bits and saturation are
written out where the source has them. Loops of the source are methods with loops, each proved to compute a
function or a declarative statement about the whole input; the theorems are lemmas about those. The server is
composed from the crate's parts in the order section 14.5 of the dig-stun Normative Specification prescribes; a
datagram that is no Binding request gets no reply.

`dafny verify dfyconfig.toml` checks everything.

## Where the code and its documentation differ

The model follows the code. Each point is a lemma.

* `src/observe.rs:219-220` says a zero capacity denies every request. A bucket that meets a window other than its own
  answers yes before it looks at its tokens. `History.HistoryDecides` gives every answer of every limiter from its
  history, zero capacities included: a narrow zero denies exactly the keys that, since they were last evicted, never
  asked before, or were first seen or last granted something in this minute (`History.ZeroNarrowCapacity`); a global
  zero alone denies everything exactly as long as every call falls into the clock's first second
  (`ZeroCapacity.ZeroGlobalCapacity`).
* `src/observe.rs:209-211` promises a session and a source at most the capacity per rolling minute. Windows are
  aligned. While nobody is evicted and the capacity is positive, the promise holds for the minute from `from` on
  exactly if that minute is an aligned one or the global budget of the 60 or 61 seconds it meets is no larger than the
  capacity; with no capacity it holds exactly if the minute ends before the clock's third
  (`Saturation.KeepsMinuteIff`). It holds for all minutes exactly if 61 times the global budget is no larger than the
  capacity (`Saturation.RollingIff`); with dig-stun's own 6 and 64 it is larger. A global capacity of zero counts as a
  budget of one here, and as none in the clock's first second. The worst such minute is known exactly
  (`Saturation.WorstMinute`), and every span of every run, with evictions, is bounded (`RollingWindows.SpanBound`).
* `src/observe.rs:185-187` and `src/observe.rs:235-237` say one abuser can never drain the budget shared by everyone.
  While nobody is evicted, and with positive capacities, one session or one source alone can use up a second exactly
  if the narrow capacity is at least the global one (`Saturation.DrainsAloneIff`, which has the zero cases too);
  otherwise it takes as many callers as narrow capacities fit into the global one (`RollingWindows.SharedSecond`).
* `src/credential/request.rs:27` gives the three attributes an order. Of the six orders the server accepts two, those
  with the signature last, and takes both for the same request (`RequestWriter.TwoOrdersAccepted`).
* `src/credential/request.rs:154-155` and section 14.9 of the dig-stun Normative Specification promise a signed
  request of at most 228 bytes. The nonce is echoed as it came, whatever its length, so with signatures of every
  admissible size the promise holds exactly for nonces of at most 28 bytes (`RequestWriter.KeepsSizeIff`).
* `src/credential/signed_client.rs:64-67` has the client discard every datagram under another transaction id. It
  discards only well-headed responses; a datagram from the server that is neither a success nor an error response, or
  too short to tell, ends the exchange whatever its id (`SignedClient.IgnoredIffNoise`,
  `SignedClient.ForeignIdEndsExchange`).
* The table of error responses in section 14.3.3 of the dig-stun Normative Specification takes every malformed request
  to be at least 116 bytes long. 24 bytes are enough, and the 40-byte reply is no larger than the request exactly when
  at least 40 bytes were sent (`Server.MalformedReply`, `Server.SmallestMalformed`). It takes a request with a stale
  nonce to be at least 212 bytes long and the 84-byte reply to be less than four tenths of it. 161 bytes are enough,
  and the reply is less than four tenths exactly of requests of at least 211 (`LeastSizes.StaleReply`,
  `LeastSizes.SmallestStale`).
* Item 11 in section 11 of the dig-stun Normative Specification wants a nonce with any flipped byte to be invalid. Two
  bits of the text's last character are unused, so four texts spell each nonce (`Nonce.FourTextsOneVerdict`); unless
  tags collide, that is the only single character whose change is not noticed (`Nonce.OneCharacterChanged`).
* Section 7.2 of the dig-stun Normative Specification has the parser of sources refuse whatever the grammar does not
  print. It accepts signs, extra zeros and upper-case digits; a string that parses prints back exactly when its
  numerals have none of these (`Grammar.PrintsBackIffPlain`). Sources are counted as strings, so three spellings of
  one peer group establish an address (`Agreement.OneGroupEstablishes`), while among plain spellings the count is that
  of the classes (`Agreement.EstablishedCountsClasses`).
* Section 14.4 of the dig-stun Normative Specification gives a nonce 60 to 120 seconds. The bucket counter has 32
  bits, so the nonce is fresh again a whole turn of it later (`Nonce.FreshAfterWrapAround`).

## Model

| member | source | states |
|---|---|---|
| `TokenBuckets.LeastRecentlySeen` | src/observe.rs:172-179 | the victim is some least recently seen key of a non-empty map, whichever order the map is walked in |
| `TokenBuckets.GetOrCreate` | src/observe.rs:165-183 | evicts exactly when the key is new and the map full, then only a least recently seen bucket, and leaves every other bucket alone |
| `TokenBuckets.BudgetInvariant` | src/observe.rs:146-183 | what a bucket says about a minute, at every point of every run, however often it was evicted |
| `TokenBuckets.CountInvariant` | src/observe.rs:146-161 | without evictions a bucket's tokens plus the grants of its minute are the capacity, and no later minute has grants |
| `TokenBuckets.PermitsIsOracle` | src/observe.rs:146-148 | without evictions, peeking answers exactly whether the history of the key's minute leaves budget |
| `TokenBuckets.EvictionGuarantee` | src/observe.rs:163-183 | a key last attended to at time t is evicted only when at least 4096 other keys have asked at t or later |
| `TokenBuckets.SpentIsGranted` | src/observe.rs:150-160 | without evictions, the tokens missing from all buckets of the current minute are the grants made in it |
| `Observe.ObserveLimiter.constructor` | src/observe.rs:221-229 | starts with no history, in the state of the empty run |
| `Observe.ObserveLimiter.Allow` | src/observe.rs:238-293 | appends exactly this request to the history, keeps the fields equal to what the history leads to, and answers what that history implies |
| `Observe.ObserveLimiter.Commit` | src/observe.rs:273-291 | takes one token from the two tracked buckets and the global one and touches nothing else |
| `ObserveRuns.LimiterRefinesOracle` | src/observe.rs:238-293 | until somebody is evicted, every answer of every run is the one of an oracle that only counts past grants per session and minute, per folded source and minute, and per second |
| `ObserveRuns.FewCallersRefineOracle` | src/observe.rs:118-121 | in particular whenever at most 4096 sessions and 4096 folded sources ask |
| `History.HistoryDecides` | src/observe.rs:145-293 | every answer of every chronological run, evictions included and for all capacities, is determined by the lines of its past: with a positive capacity a session, or a source, is open exactly if the grants to it in this minute since it was last evicted are fewer than the capacity, and the second if its grants are fewer than the global one |
| `Evictions.RunsIff` | src/observe.rs:163-183 | a chronological sequence of calls is a run exactly if nobody leaves while the key is tracked or fewer than 4096 are, and otherwise one leaves that was not noticed for longest, where a key is noticed when it is new, granted something or refused by its own budget |
| `History.NewcomerGranted` | src/observe.rs:180-182 | with positive capacities, whoever never asked since its last eviction, from a source that never did, is granted exactly if the second has anything left, however full the maps |
| `History.ZeroNarrowCapacity` | src/observe.rs:219-220 | without a narrow budget a call is denied exactly if its session or source, since it was last evicted, never asked before, or was first seen or last granted something in this minute, or the global budget is used up |
| `ObserveRuns.SessionBound` | src/observe.rs:129-183 | grants to a session in a minute never exceed the capacity times one plus the evictions of its bucket in that minute |
| `ObserveRuns.SourceBound` | src/observe.rs:129-183 | the same for a source address |
| `ObserveRuns.GlobalBound` | src/observe.rs:269-291 | no second ever sees more grants than the global capacity, whatever is evicted |
| `ObserveRuns.MapsStayBounded` | src/observe.rs:118-121 | neither map ever holds more than 4096 buckets |
| `ObserveRuns.EvictionIsFair` | src/observe.rs:163-183 | the eviction guarantee for the sessions and sources of any run of the limiter |
| `ObserveRuns.GrantSpendsThree` | src/observe.rs:273-291 | a grant takes exactly one token in each dimension and changes no other bucket's tokens or window |
| `ObserveRuns.RefusalSpendsNothing` | src/observe.rs:250-271 | a refusal leaves the global bucket and the tokens and window of every surviving bucket alone |
| `ObserveRuns.MinuteConserved` | src/observe.rs:238-293 | tokens of the current minute spent over all session buckets equal those spent over all source buckets, and equal the grants made |
| `RollingWindows.SpanBound` | src/observe.rs:146-183 | over every run, for all capacities, a span of time grants a session, a source or everyone at most their capacity (one if that is zero) once per aligned window it meets, of which there are at most (L-1)/window + 2, and once more per eviction of their bucket in those windows |
| `Saturation.WorstMinute` | src/observe.rs:209-211 | for all capacities, the most a session or source can be granted in the minute from any moment on, while nobody is evicted: an exact maximum, which no run exceeds and some run reaches |
| `Saturation.KeepsMinuteIff` | src/observe.rs:209-211 | for all capacities, exactly when no eviction-free run grants more than the capacity in the minute from `from` on: `from` aligned or the global budget of the seconds met no larger than a positive capacity, and with no capacity a minute that ends before the clock's third |
| `Saturation.RollingIff` | src/observe.rs:209-211 | for all capacities, the capacity holds for every minute, wherever it begins, exactly if 61 times the global capacity (or 61, if that is zero) is no larger |
| `Saturation.OnlyAlignedMinutes` | src/observe.rs:209-211 | limiters of all positive narrow capacities hold the minute from `from` on exactly if it is aligned, limiters of all capacities exactly if it is one of the first two of the clock |
| `Saturation.DrainsAloneIff` | src/observe.rs:185-187 | for all capacities, exactly when one session or one source alone can use up a second of the global budget: if its own capacity is at least the global one, a zero counting as one and the clock being late enough for a grant, or if there was nothing to use up |
| `RollingWindows.SharedSecond` | src/observe.rs:235-237 | while nobody is evicted, the grants of a second are at most the narrow capacity times the number of sessions granted anything in it, and times the number of sources |
| `ZeroCapacity.NothingEarly` | src/observe.rs:146-157 | in no run, evictions included, is anything granted in the clock's first two minutes without a narrow budget, or in its first second without a global one |
| `ZeroCapacity.ZeroGlobalCapacity` | src/observe.rs:219-229 | with a zero global and a positive narrow capacity nothing is granted in a run exactly if all of it happens in the first second of the clock |
| `ZeroCapacity.ZeroCapacityGrants` | src/observe.rs:219-220 | a concrete run in which a limiter without any budget grants |
| `Bits.MaskInPlace` | src/codec.rs:208-223 | masks every octet in place with the key byte at its position |
| `Bits.ConstantTimeEq` | src/credential/nonce.rs:152-161 | the or-ed differences are zero exactly when the two byte strings are equal, lengths included |
| `Bits.Xor8Iff` | src/codec.rs:204-223 | the masking of an octet is the one number whose bit at each place tells the two bits there apart |
| `Bits.Xor16Iff` | src/codec.rs:200-203 | the same for a port |
| `Tlv.DecodeInvertsEncode` | src/credential/wire.rs:98-106 | any list of attributes of encodable length is read back exactly, with no overrun |
| `Tlv.DecodeEncoded` | src/credential/wire.rs:98-106 | the same in the middle of any bytes: the written attributes, then whatever follows them |
| `TlvLayout.DecodesIff` | src/codec.rs:123-148 | exactly what any bytes decode to: attributes of which each lies, head and value, where the one before and its padding end, until fewer than four bytes are left, or, with an overrun, until a head announces more than there is; padding may hold anything or be cut off |
| `Headers.RequestIff` | src/codec.rs:163-183 | a datagram is a Binding request under an id exactly if its first twenty bytes say so and the announced length is there |
| `Headers.RequestErrors` | src/codec.rs:163-183 | the error for each way not to be one, in the order they are noticed |
| `WireLayout.AttrIsLaid` | src/credential/wire.rs:98-106 | an attribute byte by byte: type, length, value, zeros up to a multiple of four |
| `WireLayout.MessageIsFramed` | src/credential/wire.rs:108-123 | a message byte by byte: type, length of the area, magic cookie, id, area |
| `Codec.MessageReadsBack` | src/codec.rs:104-122 | a message with a short enough area announces its type, id and area, and the area decodes to its attributes |
| `Codec.DecodeMapped` | src/codec.rs:254-302 | the address decoder, both families, masked or not, with its error cases |
| `Codec.MappedAddressRoundTrip` | src/codec.rs:197-302 | unmasking what was masked gives the address and port back, in both families |
| `WireLayout.MappedValueBytes` | src/codec.rs:197-230 | a masked address octet by octet: each octet against that of the cookie or the id at its place, the port against 0x2112 |
| `WireLayout.DecodedAddress` | src/codec.rs:254-302 | what any address value decodes to, masked or not: family, each octet and the port, and the error for each way to fail |
| `Codec.EncodeBindingSuccess` | src/codec.rs:197-247 | writes a header and one masked address attribute holding the folded address |
| `Codec.WalkResponse` | src/codec.rs:123-148 | the first masked address decides even if a later attribute overruns; else an overrun is an error; else the first legacy address that decodes at all |
| `Codec.ParseBindingResponse` | src/codec.rs:97-149 | the checks in their order, then the walk |
| `Codec.SuccessRoundTrip` | src/codec.rs:184-247 | a success response parses to the folded address under its own id and is a mismatch under any other |
| `Codec.NativeRoundTrip` | src/codec.rs:184-247 | a native address, IPv4 or an IPv6 address that is no IPv4 address in disguise, comes back as itself, port included |
| `Codec.DisguisedRoundTrip` | src/codec.rs:184-247 | an IPv4 address in its mapped or compatible IPv6 form comes back as the IPv4 address |
| `WireLayout.SuccessBytes` | src/codec.rs:197-247 | a success response for a native address byte by byte |
| `ResponseShapes.SuccessIff` | src/codec.rs:97-149 | a success response with a complete area is taken for what its attributes say |
| `ResponseShapes.SuccessErrors` | src/codec.rs:97-121 | the error for each way not to be a success response to this id, in the order they are noticed |
| `ResponseShapes.AddressByPlace` | src/codec.rs:123-148 | by the places of the attributes: the first masked address decides, whatever follows; without one an overrun is an error; else the first plain address that decodes; else there is none |
| `Codec.GuardSurvivesRoundTrip` | src/credential/signed_client.rs:110-115 | the scope guard judges the parsed address as it would the encoded one |
| `Base64Url.EncodeLoop` | src/credential/wire.rs:131-148 | the chunk loop computes the encoding of the whole input |
| `Base64Url.DecodeLoop` | src/credential/wire.rs:154-196 | the group loop computes the decoding of the whole text, or nothing |
| `Base64Url.RoundTrip` | src/credential/wire.rs:127-196 | decoding an encoding gives the bytes back |
| `Base64Url.DecodeSucceedsIff` | src/credential/wire.rs:150-196 | decoding succeeds exactly on texts of the alphabet whose length is not 1 modulo 4, and gives three quarters of the length in bytes |
| `Base64Url.DecodesIff` | src/credential/wire.rs:166-195 | a text decodes to given bytes exactly if it equals their encoding but for the unused low bits of its last character |
| `Base64Url.PreimageCount` | src/credential/wire.rs:166-195 | exactly 1, 16 or 4 texts decode to given bytes, by their length modulo 3 |
| `Base64Url.AlphabetIsTable2` | src/credential/wire.rs:126-128 | the alphabet is that of table 2 of RFC 4648, character by character |
| `Base64Url.EncodedAt` | src/credential/wire.rs:131-148 | the i-th group of characters encodes the i-th three bytes, or the one or two that are left |
| `Base64Url.GroupChars` | src/credential/wire.rs:131-148 | a group of characters bit field by bit field |
| `Request.ClassifyAttrs` | src/credential/request.rs:61-130 | the walk computes a classification stated over the decoded attributes as a whole: how many there are of each kind, their shape, what comes last, and whether anything overran |
| `Request.Classify` | src/credential/request.rs:50-59 | the ordinary request checks first, then the classification of the announced area |
| `RequestShapes.SignedIff` | src/credential/request.rs:61-130 | attributes are a signed request exactly if nothing overran and key, nonce and signature each stand in one place, the signature last, key and signature in a value of version 1 and of the right length, the key in the encoding of an uncompressed P-256 point, byte by byte |
| `RequestShapes.IdentityOnlyIff` | src/credential/request.rs:119-127 | an identity request exactly if nothing overran, such a key stands in one place, and there is neither nonce nor signature |
| `RequestShapes.BareIff` | src/credential/request.rs:119-127 | bare exactly if nothing overran and there is none of the three |
| `RequestShapes.MalformedIff` | src/credential/request.rs:61-130 | malformed exactly if none of these |
| `RequestShapes.FlawIsMalformed` | src/credential/request.rs:86-112 | a key or signature of another version, length, prefix or point marker anywhere makes a request malformed |
| `RequestWriter.EncodeSignedRequest` | src/credential/request.rs:158-184 | writes key, nonce and signature, the signature made over this id, nonce and key |
| `RequestWriter.IdentityRequestClassifies` | src/credential/request.rs:132-152 | an identity request is 116 bytes long and a server takes it for exactly that key |
| `RequestWriter.SignedRequestClassifies` | src/credential/request.rs:154-184 | a server takes a signed request for exactly the key, nonce and signature it was made from |
| `RequestWriter.SignedRequestSize` | src/credential/request.rs:158-184 | a signed request has 124 bytes and, each rounded up to a multiple of four, its nonce and its versioned signature |
| `WireLayout.IdentityRequestBytes` | src/credential/request.rs:132-152 | the identity request byte by byte |
| `WireLayout.SignedRequestBytes` | src/credential/request.rs:158-184 | the signed request byte by byte |
| `RequestWriter.KeepsSizeIff` | src/credential/request.rs:154-155 | no signature of admissible size makes a request longer than 228 bytes exactly if the nonce has at most 28 |
| `RequestWriter.OrderDoesNotMatter` | src/credential/request.rs:68-129 | permuting everything before the last attribute never changes the classification |
| `RequestWriter.TwoOrdersAccepted` | src/credential/request.rs:27 | of the six orders of key, nonce and signature a server accepts exactly the two with the signature last, as the same request, and calls the others malformed |
| `RequestWriter.UnknownIgnored` | src/credential/request.rs:114-117 | removing an unknown attribute that is not the last one never changes the classification |
| `Signature.SigningMessageInjective` | src/credential/signature.rs:27-38 | a signed message determines the transaction id, the nonce text and the key |
| `WireLayout.SigningMessageBytes` | src/credential/signature.rs:27-38 | every byte of the signed message by its place |
| `WireLayout.PointBytes` | src/credential/signature.rs:113 | the point is the 65 bytes of the key from byte 26 on, and begins with 4 |
| `Response.EncodeChallenge` | src/credential/response.rs:46-68 | writes an error code, and with a nonce the realm and its text |
| `Response.WalkError` | src/credential/response.rs:101-133 | for code, realm and nonce the last readable attribute wins, and an overrun only ends the reading |
| `Response.ParseChallenge` | src/credential/response.rs:80-134 | the checks in their order, then the walk |
| `Response.ErrorRoundTrip` | src/credential/response.rs:46-134 | a client reads back exactly the code, realm and nonce text written, and only under the same id |
| `Response.ErrorSizes` | src/credential/response.rs:38-45 | the four shapes are 44, 88, 84 and 40 bytes long |
| `WireLayout.RefusalBytes` | src/credential/response.rs:46-68 | the two error responses without a nonce byte by byte |
| `WireLayout.ChallengeBytes` | src/credential/response.rs:46-68 | the two with a nonce byte by byte |
| `ResponseShapes.ErrorIff` | src/credential/response.rs:80-134 | an error response with a complete area is taken for what its attributes say |
| `ResponseShapes.ErrorErrors` | src/credential/response.rs:80-99 | the error for each way not to be an error response to this id, in the order they are noticed |
| `ResponseShapes.ChallengeByPlace` | src/credential/response.rs:101-133 | by the places of the attributes: the last code of at least four bytes counts, as class times a hundred plus number, the last realm that is text, the last nonce |
| `ResponseShapes.CodesReadBack` | src/credential/response.rs:117-119 | every code from 300 to 699, whatever its reason phrase, is read back from class and number |
| `Utf8.Utf8Iff` | src/credential/response.rs:120-124 | a realm is text exactly if it is the encoding of a sequence of Unicode scalar values (section 3 of RFC 3629) |
| `Nonce.IssueNonce` | src/credential/nonce.rs:83-90 | fills an array with bucket and tag |
| `Nonce.CheckNonce` | src/credential/nonce.rs:96-118 | decodes, compares the tag of the nonce's own bucket, then judges the bucket |
| `Nonce.TagMessageInjective` | src/credential/nonce.rs:124-139 | the tagged message determines the bucket, the folded address and the port |
| `WireLayout.TagMessageBytes` | src/credential/nonce.rs:124-139 | every byte of the tagged message by its place |
| `WireLayout.NonceBytes` | src/credential/nonce.rs:83-90 | a nonce is its bucket, seconds by sixty in four bytes, and the first sixteen bytes of the keyed hash |
| `Nonce.NonceLifetime` | src/credential/nonce.rs:83-118 | a nonce shown to its issuer from the same folded source is fresh exactly if the distance in buckets is 0 or 1 modulo 2^32, else stale, and never invalid |
| `Nonce.FreshExactlyTwoBuckets` | src/credential/nonce.rs:79-118 | short of a whole turn of the counter: fresh in its bucket and the next, surely up to 60 seconds and surely not from 120 |
| `Nonce.FreshAfterWrapAround` | src/credential/nonce.rs:112-114 | a whole turn later it is fresh again |
| `Nonce.OtherSource` | src/credential/nonce.rs:107-111 | from another source it is invalid exactly when the two sources' tags differ |
| `Nonce.NotInvalidIffIssued` | src/credential/nonce.rs:92-111 | a text is not invalid exactly if it spells a nonce this issuer mints for this source at some time |
| `Nonce.FourTextsOneVerdict` | src/credential/nonce.rs:102-118 | exactly four texts spell an issued nonce and all get its verdict |
| `Nonce.OneCharacterChanged` | src/credential/nonce.rs:92-118 | unless tags collide, changing one character of an issued text makes it invalid, except that the last character keeps the verdict exactly if its upper four bits stay |
| `Replies.RepliesIff` | src/credential/decide.rs:63-97 | a datagram is replied to exactly if it is a Binding request |
| `Replies.ReplySays` | src/credential/decide.rs:63-97 | what the client that asked reads in the reply, from the bytes of the request alone: its folded address exactly if the request has none of the three attributes and the server is advisory, or it is signed, the nonce fresh and the signature accepted; 401 and nothing else exactly if it has none and the server requires credentials; 401 with a new nonce exactly for a key without proof, a nonce of no value or a rejected signature; 438 with a new nonce exactly for a stale one; 400 exactly for anything else |
| `Server.ChallengeBeforeVerification` | src/credential/decide.rs:79-87 | over any run shorter than a turn of the bucket counter, without tag collisions or unissued tags, a signed request reaches the verifier only if it completes an earlier challenge to the same folded address and port in this bucket or the previous one, whatever its signature |
| `Server.ChallengeBeforeAnswer` | src/credential/decide.rs:63-97 | in particular an answer to an identity completes such a challenge, under a signature by the identity's own key |
| `Server.DomainsSeparate` | src/credential/nonce.rs:19-21 | no tagged message is ever a signed message |
| `Server.CredentialRepliesShrink` | src/credential/response.rs:38-45 | whoever presents a credential gets a reply smaller than their datagram |
| `Server.MalformedReply` | src/credential/request.rs:45-47 | the 40-byte reply to a malformed request is no larger than it exactly if at least 40 bytes were sent |
| `Server.SmallestMalformed` | src/credential/request.rs:79-82 | a malformed request of 24 bytes exists |
| `LeastSizes.StaleReply` | src/credential/response.rs:38-45 | a request with a stale nonce has at least 161 bytes, its reply 84, which is less than four tenths exactly of 211 bytes or more |
| `LeastSizes.SmallestStale` | src/credential/request.rs:67-130 | some request of 161 bytes is told its nonce is stale: the signature's padding may be left out |
| `Replay.ReplayVerdict` | src/credential/nonce.rs:92-118 | a datagram once answered with an identity, presented again from any source at any time: answered with the same identity exactly if the tag of the nonce's bucket is the same for both sources and that bucket is this one or the one before on the wrapped counter; with another tag it is challenged, with the same tag too late called stale |
| `Replay.ReplayedReply` | src/credential/decide.rs:63-97 | from the same folded address and port a replay in time yields the very bytes the first reply was, and later one the stale verdict |
| `Replay.ReplayEnds` | src/credential/nonce.rs:112-118 | from two minutes after the answer on, short of a turn of the bucket counter, a replay is stale |
| `LimitedServer.PassesIff` | src/observe.rs:238-293 | with the limiter between classification and nonce check, a datagram is let through exactly if it is a Binding request and all three budgets are open by the history |
| `LimitedServer.VerifierLoad` | src/observe.rs:269-291 | with the limiter between classification and nonce check, in no second of any run, whoever is evicted, does the verifier, or the server at all, see more datagrams than the global capacity (one if that is zero) |
| `LimitedServer.LimitedVerification` | src/credential/decide.rs:79-87 | and each datagram that reaches the verifier completes an earlier challenge that the limiter let through too |
| `SignedClient.QuerySigned` | src/credential/signed_client.rs:68-168 | the receive loop ends where stepping the client through the events ends |
| `SignedClient.IgnoredIffNoise` | src/credential/signed_client.rs:101-124 | a waiting client ignores an event exactly if it is not from the server or is a well-headed response to another transaction |
| `SignedClient.ForeignIdEndsExchange` | src/credential/signed_client.rs:163-165 | a 20-byte datagram from the server of any other type, under any id but the outstanding one, ends the exchange |
| `SignedClient.NoiseInvariance` | src/credential/signed_client.rs:64-67 | deleting any of the noise from any event sequence changes neither what is sent nor the outcome |
| `SignedClient.StepAdvances` | src/credential/signed_client.rs:45-56 | a step never takes back a datagram, sends at most one, and a change of state while waiting is exactly one stage forward |
| `SignedClient.EveryRunJustified` | src/credential/signed_client.rs:68-168 | every run sends at most three datagrams, the first the identity request, each later one prompted by the server's challenge to its predecessor, which came when exactly the datagrams before it had been sent; every result has the event that caused it, come while the client waited for a reply to its latest datagram |
| `SignedClient.ResultIff` | src/credential/signed_client.rs:91-167 | a run ends with a given address, refusal code or error exactly if its start failed that way or some event, come while the client waited, meant it: a dialable address, an error response that asks for nothing more, a faulty datagram, a failed send or receive, or the deadline |
| `SignedClient.AwaitsInOrder` | src/credential/signed_client.rs:45-56 | the events that prompt the datagrams come in the order of the datagrams, and the one that ends the exchange after them |
| `SignedClient.SentDatagramsClassify` | src/credential/signed_client.rs:126-149 | a server classifies the first datagram as the identity and each later one as signed under its own id with exactly the nonce of the challenge that caused it, and that challenge came when just its predecessors had been sent |
| `Exchange.HonestExchange` | src/credential/signed_client.rs:68-168 | in either mode, for all sources and times: two datagrams and the folded address if the first nonce is fresh, three if it went stale once, refusal 438 after three if twice, and no address if it is not dialable |
| `Exchange.HonestNativeExchange` | src/credential/signed_client.rs:68-168 | a client at a native address is told exactly that address and port |
| `Exchange.NoisyExchange` | src/credential/signed_client.rs:64-67 | mixing any noise into the server's replies leaves the exchange where it would have ended |
| `Exchange.HonestRunMeetsHypotheses` | src/credential/decide.rs:63-97 | an honest client's identity request and its signed answer to the challenge, within a turn of the bucket counter, form a run that meets every hypothesis of the challenge-before-answer theorem and ends in an answer to exactly that client's key, so the theorem speaks of real runs |
| `Scope.FoldKeepsScope` | src/scope.rs:43-72 | folding never changes the scope of a socket address |
| `Scope.FoldsToIff` | src/scope.rs:43-51 | exactly which addresses fold to an IPv4 address: itself, and the sixteen octets that are ten zeros, two zeros or two 0xff, and it |
| `Scope.FoldsToItselfIff` | src/scope.rs:43-51 | every other address, and no other IPv6 address, is its own fold |
| `Scope.ScopeIsTheTable` | src/scope.rs:58-72 | for every socket address: never dialable with port 0, else what the IPv4 table says of the four octets of an IPv4 address in any of its three forms, and what the IPv6 table says of any other |
| `Scope.ScopeV4IsTheTable` | src/scope.rs:92-132 | the octet tests agree with the fifteen address blocks of the normative table, for every address |
| `Scope.ScopeV6IsTheTable` | src/scope.rs:138-167 | the segment tests agree with the address blocks of the normative table, for every address that does not fold |
| `Grammar.PeerClassIsGroup` | src/establish.rs:125-136 | two peers have one class exactly if they share an IPv4 /16 or an IPv6 /32 after folding |
| `Grammar.ParsePrint` | src/establish.rs:148-194 | every class is read back from its printed form, hosts with colons and empty hosts included |
| `Grammar.PrintInjective` | src/establish.rs:184-194 | printed forms are equal exactly if the classes are |
| `Grammar.PrintedSources` | src/establish.rs:184-194 | a printed source of each kind, character by character |
| `Spelling.ParseIff` | src/establish.rs:148-181 | exactly which strings are parsed to which class: the prefix, and host or numerals, where a numeral has at least one digit, any zeros in front and perhaps a plus |
| `Spelling.DigitValueIff` | src/establish.rs:173-178 | the digits of a radix, in either case |
| `Grammar.PrintsBackIffPlain` | src/establish.rs:148-181 | a string that parses prints back exactly if its numerals have no sign, no extra zero and no upper-case digit |
| `Grammar.OneClassThreeStrings` | src/establish.rs:166-172 | three different strings that parse to one class |
| `Grammar.PlainIsUnique` | src/establish.rs:166-181 | strings that parse and have plain numerals are equal exactly if their classes are |
| `Establish.VerdictForFamily` | src/establish.rs:295-337 | computes the verdict function whose cases `Agreement.VerdictIff` characterises |
| `Establish.EstablishVerdicts` | src/establish.rs:276-292 | partitions the readings by folded family, in order, and judges each |
| `Establish.SortedUnique` | src/establish.rs:300-310 | a sorted and deduplicated vector is determined by its elements alone |
| `Agreement.VerdictIff` | src/establish.rs:294-337 | each verdict with its fields holds exactly under its condition on the set of pairs: unanimity, enough different sources, three of them or one that is no peer, and global scope; the fields are the addresses named in order, the number of different sources, and whether all are peers |
| `ByClass.PeerClassIs` | src/establish.rs:125-136 | a peer's class is the first two octets of an IPv4 address in any of its three forms, and the first four of any other IPv6 address |
| `ByClass.IsPeerSourceIff` | src/establish.rs:138-144 | a source counts as a peer exactly if it parses to the class of some transport address |
| `ByClass.PeersPrinted` | src/establish.rs:138-144 | in particular a printed class does exactly if it is no operator, relay or public |
| `ByClass.EstablishedIff` | src/establish.rs:294-337 | readings whose sources are printed classes establish an address exactly if all name it, it is global, and the classes behind them are at least three, or at least two of which one is an operator, a relay or public; the insufficient and not-global verdicts likewise, with their fields |
| `ByClass.DisagreementIff` | src/establish.rs:300-306 | two or more addresses of a family are in disagreement, and the verdict lists every one named, once, in ascending order of octets; without a reading there is no verdict |
| `Agreement.OrderFree` | src/establish.rs:276-337 | readings that say the same set of (folded address, source) pairs get the same verdicts |
| `Agreement.Monotone` | src/establish.rs:276-337 | more readings only move a verdict up, never from one judged address to another; counted sources never become fewer, peers alone may be joined by others but not the reverse, and addresses in disagreement stay so |
| `Agreement.PeersNeedThreeNetworks` | src/establish.rs:17-20 | among peers alone an address is established exactly if all named it, it is global, and three peers lie in pairwise different groups |
| `Agreement.OneTruthfulReading` | src/establish.rs:300-306 | with one truthful reading in a family nothing but the truth is established there |
| `Agreement.EstablishedCountsClasses` | src/establish.rs:308-337 | for plainly spelled sources the count in a verdict is the number of different classes |
| `Agreement.OneGroupEstablishes` | src/establish.rs:308-337 | three spellings of one peer group establish any global address, although there is only one class behind them |

## Left out

- UDP sockets, timers and clocks: events and times are given; that a real deadline eventually passes is not provable
  from the code.
- `src/client.rs`: the same receive loop with one stage.
- `src/transaction_id.rs` and the random secret: randomness; ids and the keyed hash are inputs.
- HMAC-SHA256 and ECDSA: parameters; that tags do not collide and are not guessed is a stated hypothesis of
  `Server.ChallengeBeforeAnswer`, that the verifier accepts the signer's output one of `Exchange.HonestExchange`.
- Constant-time behaviour: only the result of the comparison is modelled.
- `observe` and the accessors of verdicts: a few branches with nothing to relate.
- The relay's own response limiter: `LimitedServer` puts the observation limiter in its place, the other one dig-stun
  names for it.
- Flow information and scope ids of socket addresses: addresses are compared by IP and port.
- Sorting: `sort` and `dedup` of the standard library are one function that inserts into a sorted sequence, not an
  in-place algorithm.
- Capacity reservations and debug assertions: no effect on results.
- Saturation.WorstMinute, and with it `Saturation.KeepsMinuteIff`, `Saturation.RollingIff` and
  `Saturation.OnlyAlignedMinutes`: minutes that end before the 64-bit clock does.
- Nonce.OneCharacterChanged: takes as given that no other bucket's tag for the source ends in the same fifteen bytes,
  which only the keyed hash could promise.
