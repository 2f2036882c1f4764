# Verification model of the S3 SigV4 presigned-URL verifier

This project models the verifier core, the presigner that accompanies its benchmarks, and the
credential directive of the module configuration, and proves properties of the model. Functions state
what is decided; methods and classes follow the loops and mutable state of the source and are proved
equal to those functions.

- `ByteStrings`, `Seqs`, `Wrappers`: bytes, Unicode trimming, UTF-8 (section 4 of RFC 3629), splitting
  and joining, flat-maps, the bytewise order.
- `Percent`, `Queries`: the percent codec (sections 2.1 and 2.3 of RFC 3986), the query parser with its
  record of known parameters, and the canonical query.
- `Paths`: path validation, dot-segment removal (section 5.2.4 of RFC 3986), the prefix policy, the
  canonical path (escape case as in section 6.2.2.1 of RFC 3986).
- `Decimals`, `Calendar`, `Timestamps`: saturating digit readers, the era-based day count, the timestamp
  parser, the validity window in clamped 64-bit arithmetic.
- `Crypto`, `SigningCache`, `CacheProtocol`: hex, the four-step key derivation, the bounded cache as a
  class, and the same cache under every interleaving of threads as a state machine over lock steps.
- `Compile`, `VerifierCore`: configuration compiling and `verify`, as a function and as code.
- `Decisions`, `Reasons`, `Verdicts`, `Framing`: what an allowed request is, which reason is reported,
  what a result cannot depend on, and what the signed bytes determine.
- `Presign`: the independent signer and the round trip with the verifier.
- `Durations`, `Directives`, `Allowlists`: the configuration side, and the claim across both crates that
  a written allowlist never becomes an open one.
- `Alphabets`, `Unicode`, `Tokens`, `QueryGrammar`, `SignedText`, `DirectiveText`: independent descriptions. Tables of
  byte classes, code points, percent-encoded tokens, the grammar and order of queries, the signed lines and words,
  and the argument texts; each is proved equivalent to what the code computes.
- `ConcurrentVerify`, `Enforcement`, `SignatureName`: whole-system statements. Any number of `verify` calls at
  once; the chain from directive texts to verdicts; what an allowed target must contain.

SHA-256 and HMAC-SHA256 are parameters: arbitrary functions to 32 bytes, about which nothing is assumed.
All statements about what is bound by a signature are about the byte strings handed to them.
Every configuration error is one failure value, and the current instant is a parameter in whole seconds.

Three statements about the source came out different from what one might expect. Each has its exact condition:

- The clock is clamped before the skew is added. The future-dated test and the validity interval agree with
  unbounded arithmetic at every clock reading, for one timestamp, exactly when: up to the Unix epoch the skew is
  not 2^63 - 1 plus the epoch; after it the skew is at most 2^63 - 1 (`Timestamps.FutureTestIsExactIff`,
  `Verdicts.AllowedSecondsAreAnInterval`). The order of the reasons over time does not depend on it.
- The documentation calls the key cache LRU, but read hits do not reorder it. It behaves as LRU exactly on the
  runs in which every call misses or repeats the newest missed scope (`SigningCache.AgreesWithLruIff`).
- The fuzz target for `verify` asserts that an allowed target contains the bytes `X-Amz-Signature`. It need not:
  the name may be escaped (`SignatureName.RespelledIsAllowed`, `SignatureName.SignatureNameAppearsIff`).

A clock reading is a signed 64-bit number of seconds; statements that do not say so hold for every integer.

## Model

| member | source | states |
|---|---|---|
| VerifierCore.Verifier.Verify | rust/sigv4-verifier/src/lib.rs:199-382 | With any sound key caches, the result equals the cache-free decision function on every request, error cases and reasons included, and the caches stay sound; the unwrapped second lookup of the signature cannot fail. |
| Decisions.AllowedIffGranted | rust/sigv4-verifier/src/lib.rs:199-382 | A request is allowed if and only if a grant exists: each of the six parameters occurs exactly once by decoded name with the value assembled from the grant, the expiry is a numeral of one second to seven days within the cap, target, policy and window conditions hold in exact arithmetic, and the signature is, letter case aside, the hex of the HMAC of the assembled lines under the fold of HMAC over the scope words. The conditions have no order and assemble texts instead of parsing them. |
| Decisions.GrantIsAllowed | rust/sigv4-verifier/src/lib.rs:374-381 | A granted request gets exactly the allowed result: reason ok, its own raw path, and the access key and key hash of the configured credential. |
| Reasons.ResultIsFirstFailure | rust/sigv4-verifier/src/lib.rs:199-382 | The whole result, with reason, path, access key and key label, is that of the first failing check of one fixed list of twenty-two checks, and the success of the configured credential if none fails. |
| Reasons.AllowedIffAllPass | rust/sigv4-verifier/src/lib.rs:199-382 | A request is allowed exactly when every check of the list passes, and exactly then its reason is ok. |
| Reasons.HashIsLabel | rust/sigv4-verifier/src/lib.rs:1087-1099 | The label of an access key is `sha256:` and the first sixteen hex digits of its SHA-256, or nothing for the empty key. |
| VerifierCore.ExtractClaims | rust/sigv4-verifier/src/lib.rs:235-316 | On a record filled by the query parser, the ordered parameter checks compute the claims, or the refusal, determined by the decoded parameter list alone. |
| Decisions.GrantedIsAuthorized | rust/sigv4-verifier/src/lib.rs:318-372 | Past the parameter checks, a request is allowed if and only if its credential is configured, enabled, and its policy admits method, host, path and expiry, the instant lies in the window, and the signature is the hex of the expected HMAC; the result then carries the configured key and hash. |
| Decisions.BuiltScopeParses | rust/sigv4-verifier/src/lib.rs:540-574 | A credential scope assembled from five acceptable parts parses to those parts and to the text after its first slash. |
| Decisions.ParsedScopeIsBuilt | rust/sigv4-verifier/src/lib.rs:540-574 | Every scope that parses is the assembly of its parts: no other spelling is accepted. |
| Verdicts.VerdictDependsOnDecodedParts | rust/sigv4-verifier/src/lib.rs:199-382 | Two targets with one path whose queries have the same multiset of decoded parts (undecodable parts counted) get the same whole result. |
| Verdicts.ReorderingKeepsVerdict | rust/sigv4-verifier/src/lib.rs:702-784 | Permuting the `&`-separated parts never changes the result, rejected targets included. |
| Verdicts.ReencodingKeepsVerdict | rust/sigv4-verifier/src/lib.rs:850-889 | Replacing any component by another encoding of the same bytes never changes the result, provided the target stays equally free of rejected bytes. |
| Verdicts.AllowedSecondsAreAnInterval | rust/sigv4-verifier/src/lib.rs:339-350 | For a fixed request and configuration either no second is allowed, or the clock readings (signed 64-bit seconds) at which it is allowed are exactly those from the epoch minus the skew to the epoch plus the expiry, if and only if: for an epoch up to 0 the skew is not 2^63 - 1 plus the epoch, for a later epoch the skew is at most 2^63 - 1. |
| Verdicts.UnclampedInterval | rust/sigv4-verifier/src/lib.rs:339-350 | When the skew is at most 2^63 - 1 and below 2^63 - 1 plus the epoch, the interval is exact on all integers. |
| Verdicts.ClampedVerdict | rust/sigv4-verifier/src/lib.rs:339-343 | At the remaining skews a clock reading shows it: for an epoch after 0 a request that could succeed is refused as future-dated inside its window, for an earlier one it is allowed before its window. |
| Verdicts.ReasonsAdvance | rust/sigv4-verifier/src/lib.rs:339-350 | As time passes the result only moves from future-dated, through one in-window verdict, to expired, for every skew. |
| Verdicts.AllowedAtIff | rust/sigv4-verifier/src/lib.rs:339-350 | For every skew: a request is allowed at a second exactly when it can succeed, the second is not after the expiry, and it is not before the epoch minus the skew capped at 2^63 - 1, unless that start lies below the range of the clock. |
| Framing.CanonicalRequestIsInjective | rust/sigv4-verifier/src/lib.rs:931-954 | Canonical-request bytes determine method, path, query and host, even when the host contains newlines. |
| Framing.StringToSignIsInjective | rust/sigv4-verifier/src/lib.rs:956-976 | String-to-sign bytes determine timestamp, scope text and request hash, whatever bytes the region contains. |
| Framing.SameRequestBytesSameMeaning | rust/sigv4-verifier/src/lib.rs:931-954 | Two accepted requests with the same canonical-request bytes have the same method, host, decoded path and multiset of decoded signed parameters. |
| Framing.SameSignedBytesSameScope | rust/sigv4-verifier/src/lib.rs:956-976 | Two accepted requests that sign the same string have the same timestamp, region and request hash. |
| VerifierCore.HashCanonicalRequest | rust/sigv4-verifier/src/lib.rs:931-954 | The appended buffer that is hashed is the canonical request. |
| VerifierCore.Sign | rust/sigv4-verifier/src/lib.rs:956-976 | The signature is the HMAC of the string to sign under the four-step derived key, whether or not the key came from the cache. |
| SignedText.DeriveKeyIsFold | rust/sigv4-verifier/src/lib.rs:1006-1009 | The signing key is the fold of HMAC, from the secret seed, over the words date, region, service, `aws4_request`, in this order. |
| SignedText.KeyOfScopeText | rust/sigv4-verifier/src/lib.rs:1006-1009 | Hence, when no word contains a slash, it is the fold over the `/`-separated words of the scope text that is signed. |
| SignedText.RequestIsLines | rust/sigv4-verifier/src/lib.rs:931-954 | The canonical request is seven lines: method, path, query, `host:` and the host, an empty line, `host`, `UNSIGNED-PAYLOAD`. |
| SignedText.StringIsLines | rust/sigv4-verifier/src/lib.rs:956-976 | The string to sign is four lines: the algorithm, the timestamp, the scope words joined by slashes, the hex of the request hash. |
| Decisions.GrantedSignatureIs | rust/sigv4-verifier/src/lib.rs:956-976 | The HMAC assembled from words and lines is the one the verifier computes. |
| Presign.SignerVerifierRoundTrip | rust/sigv4-verifier/benches/support/presign.rs:59-110 | Every target the presigner builds from an input inside the envelope is allowed with reason ok, the same raw path, and the credential it was signed for; the instant is any accepted timestamp whose window holds. |
| Presign.Signature | rust/sigv4-verifier/benches/support/presign.rs:283-295 | Four keyed steps from `AWS4` and the secret, then the HMAC of the text. |
| Presign.OwnKeyIs | rust/sigv4-verifier/benches/support/presign.rs:283-295 | The key that the signer derives by its own four HMAC calls equals the key of the verifier. |
| Presign.OwnSignatureIsGranted | rust/sigv4-verifier/benches/support/presign.rs:59-110 | What the signer computes from its own request text, string to sign and key is the HMAC the verifier will demand. |
| Presign.PresignedParses | rust/sigv4-verifier/benches/support/presign.rs:59-110 | The finished query is accepted and says exactly the five base parameters, the decoded extra ones, and the signature. |
| Presign.PresignedUri | rust/sigv4-verifier/benches/support/presign.rs:59-110 | The step-by-step builder returns path, `?`, and the rendered parameters followed by the signature parameter. |
| Presign.CanonicalisersAgree | rust/sigv4-verifier/benches/support/presign.rs:176-206 | On every non-empty query the verifier accepts, the decode-encode-sort-join form equals the canonical query of the verifier. |
| Presign.CanonicalisersDifferOnEmpty | rust/sigv4-verifier/benches/support/presign.rs:176-206 | On the empty query the presigner yields `=` and the verifier the empty string. |
| Presign.PresignCanonicalQuery | rust/sigv4-verifier/benches/support/presign.rs:176-206 | The presigner loop computes decode, drop the signature, encode, sort, join, on all input whose escapes are well formed. |
| Presign.UriEncode | rust/sigv4-verifier/benches/support/presign.rs:240-250 | The encoding loop computes the shared canonical encoding. |
| Presign.PresignDecode | rust/sigv4-verifier/benches/support/presign.rs:252-266 | On well-formed input the unchecked decoder agrees with the checked one. |
| Presign.SignatureIsNotSigned | rust/sigv4-verifier/benches/support/presign.rs:92-110 | The canonical query of the finished target is the one that was signed before the signature was appended. |
| Percent.CanonicalizeQueryComponent | rust/sigv4-verifier/src/lib.rs:850-889 | Errs exactly when decoding errs; otherwise, on the borrowed and the owned branch alike, the encoded part is the encoding of the decoding, and the decoded part, when wanted, is the decoding. |
| Percent.QueryComponentNeedsSlowPath | rust/sigv4-verifier/src/lib.rs:891-910 | Errs exactly when decoding errs; otherwise tells whether some byte is not unreserved. |
| Percent.PercentDecode | rust/sigv4-verifier/src/lib.rs:912-929 | The loop computes the recursive decoding, errors included. |
| Percent.DecodeEncode | rust/sigv4-verifier/src/lib.rs:912-929 | Decoding any encoding returns the original bytes. |
| Percent.EncodeInjective | rust/sigv4-verifier/src/lib.rs:874-888 | Different byte strings have different encodings. |
| Percent.FixedPointIffEncoded | rust/sigv4-verifier/src/lib.rs:850-889 | A component is left unchanged by decode-then-encode exactly when it is the encoding of something. |
| Percent.UnreservedIsFixed | rust/sigv4-verifier/src/lib.rs:856-866 | On unreserved bytes decoding and encoding are the identity, which is why the fast path may borrow its input. |
| Percent.EncodeAlphabet | rust/sigv4-verifier/src/lib.rs:874-888 | An encoded component consists of unreserved bytes and escapes, so no separator can occur in it. |
| Tokens.DecodeIff | rust/sigv4-verifier/src/lib.rs:912-929 | Decoding succeeds exactly on sequences of tokens, each a byte other than `%` or `%` and two hex digits, and gives the bytes they stand for. |
| Tokens.EncodeIff | rust/sigv4-verifier/src/lib.rs:874-888 | The encoding of a byte string is its only spelling in which unreserved bytes, and only they, stand for themselves and escapes use upper-case digits. |
| Alphabets.UnreservedIsTable | rust/sigv4-verifier/src/lib.rs:1207-1209 | The unreserved bytes are letters, digits, hyphen, dot, underscore and tilde. |
| Alphabets.HexIsTable | rust/sigv4-verifier/src/lib.rs:1211-1221 | The hex digits are those of the two tables, and each has its place there as value. |
| Alphabets.DigitsAreTable | rust/sigv4-verifier/src/lib.rs:1135-1155 | The digits accepted are those of the table. |
| Alphabets.DigitIsTable | rust/sigv4-verifier/src/lib.rs:1135-1155 | A printed digit has its value as place in the table. |
| SignedText.FixedWords | rust/sigv4-verifier/src/lib.rs:25-27 | The algorithm, the signed header and the service are the literal words. |
| Alphabets.HexOfIsTable | rust/sigv4-verifier/src/lib.rs:1200-1205 | Lower-case hex spells the high half of each byte before the low half, by table. |
| Alphabets.CaseByTable | rust/sigv4-verifier/src/lib.rs:502-516 | Upper- and lower-casing exchange the letters of the two alphabets and leave every other byte alone. |
| Queries.CanonicalQuery | rust/sigv4-verifier/src/lib.rs:702-784 | Accepts exactly the empty query and the queries all of whose parts parse; the result renders the sorted encoded parameters without the signature; the record holds each known parameter and its number of occurrences. |
| QueryGrammar.AcceptedIff | rust/sigv4-verifier/src/lib.rs:702-767 | A query is accepted exactly when it is a list of parts joined by `&`, each a non-empty name of tokens with or without `=` and a value of tokens, the values of the six reserved names being UTF-8 text. |
| QueryGrammar.QueryOfParts | rust/sigv4-verifier/src/lib.rs:720-767 | Such a query says what its parts stand for; a part without `=` has the empty value. |
| QueryGrammar.CanonicalIff | rust/sigv4-verifier/src/lib.rs:731-783 | The canonical string is the text of the one arrangement of the encoded parameters, the signature left out, in which of two the earlier name is equal, a proper prefix, or smaller at the first difference, and the same for values under equal names. |
| QueryGrammar.CanonicalQueryIff | rust/sigv4-verifier/src/lib.rs:702-784 | The same, from the parts of the query to its canonical string. |
| QueryGrammar.LexIsBefore | rust/sigv4-verifier/src/lib.rs:768-770 | The bytewise order is: equal, a proper prefix, or the smaller byte at the first difference. |
| Queries.CanonicalQueryIsCompleteInvariant | rust/sigv4-verifier/src/lib.rs:731-783 | Two accepted queries have equal canonical strings if and only if their multisets of decoded parameters, every one named `X-Amz-Signature` removed, are equal. |
| Queries.CanonicalQueryIsFixedPoint | rust/sigv4-verifier/fuzz/fuzz_targets/fuzz_canonical_query.rs:6-17 | The canonical string of an accepted query is accepted, is its own canonical string, and carries the same signed parameters. |
| Queries.SortedUnique | rust/sigv4-verifier/src/lib.rs:768-770 | A multiset of parameters has only one sorted arrangement, so the unstable sort is deterministic. |
| Queries.RenderInjective | rust/sigv4-verifier/src/lib.rs:771-783 | Rendering with `=` and `&` is injective on encoded parameters. |
| Queries.PermutedPartsSayTheSame | rust/sigv4-verifier/src/lib.rs:702-784 | Acceptance, canonical string and every single-valued lookup depend only on the multiset of decoded parts. |
| Queries.CollectParams | rust/sigv4-verifier/src/lib.rs:710-767 | The parsing loop succeeds exactly when every part parses, and then has recorded and collected exactly what the parts say. |
| Queries.AddPart | rust/sigv4-verifier/src/lib.rs:720-767 | One part is accepted exactly when it parses; it contributes its encoding unless it is the signature, and updates only the field of its own name. |
| Queries.SigV4Query.Set | rust/sigv4-verifier/src/lib.rs:792-827 | Recording a known name replaces its field and increments its counter, fails on invalid UTF-8 for known names, and leaves every other field as it was. |
| Queries.RecordedSingles | rust/sigv4-verifier/src/lib.rs:842-844 | A field lookup yields a value exactly when the parameter of that name occurs once. |
| Queries.JoinParams | rust/sigv4-verifier/src/lib.rs:771-783 | The joining loop renders the parameters. |
| Paths.ValidateRawPath | rust/sigv4-verifier/src/lib.rs:594-646 | The two scans accept exactly the declarative valid paths. |
| Tokens.ScanIff | rust/sigv4-verifier/src/lib.rs:602-628 | The byte scan accepts exactly the sequences of tokens that are a byte above 0x20 other than `%` and DEL, or an escape of a byte that is neither slash nor backslash. |
| Tokens.ScannedKeepsSlashes | rust/sigv4-verifier/src/lib.rs:602-628 | A scanned path decodes to exactly as many slashes and as many backslashes as it shows. |
| Tokens.ValidPathIff | rust/sigv4-verifier/src/lib.rs:594-646 | A path is accepted exactly when it begins with a slash, is a sequence of path tokens, no segment but the last is empty, and no segment decodes to `.` or `..`. |
| Paths.ScanEscapes | rust/sigv4-verifier/src/lib.rs:602-628 | The byte scan accepts exactly the strings without spaces or control bytes, without malformed escapes, and without an escaped slash or backslash. |
| Paths.ScanSegments | rust/sigv4-verifier/src/lib.rs:630-644 | The segment scan accepts exactly when every segment decodes and none decodes to a dot segment. |
| Paths.SegmentDecodeErrorUnreachable | rust/sigv4-verifier/src/lib.rs:637-638 | After the byte scan every segment decodes, so the decode error of the segment scan cannot happen. |
| Paths.SplitDecode | rust/sigv4-verifier/src/lib.rs:594-646 | Splitting on `/` commutes with decoding for every scanned string. |
| Paths.DecodingKeepsStructure | rust/sigv4-verifier/src/lib.rs:594-646 | The decoded accepted path has exactly the decoded raw segments, none is `.` or `..`, and only the last may be empty. |
| Paths.AcceptedPathHasNoDots | rust/sigv4-verifier/src/lib.rs:594-646 | Dot-segment removal of section 5.2.4 of RFC 3986 is the identity on the decoded accepted path. |
| Paths.PrefixPolicyIsSegmentwise | rust/sigv4-verifier/src/lib.rs:1039-1043 | The byte-prefix test holds exactly when the prefix segments begin the path segments, strictly so for a prefix that ends in a slash. |
| Paths.PrefixPolicySurvivesDecoding | rust/sigv4-verifier/src/lib.rs:1030-1043 | A path admitted by a prefix lies under the decoded prefix after decoding and dot-segment removal. |
| Paths.CanonicalUriFromValidPath | rust/sigv4-verifier/src/lib.rs:648-677 | Borrowed or rebuilt, the result is the rewritten path. |
| Paths.RewritePath | rust/sigv4-verifier/benches/support/presign.rs:208-234 | The rewriting loop, shared by the slow branch and the presigner, computes the recursive rewriting of every byte string. |
| Tokens.CanonicalPathOfTokens | rust/sigv4-verifier/src/lib.rs:648-677 | The rewriting keeps slashes and unreserved bytes, escapes every other byte, and upper-cases the digits of escapes, token by token. |
| Paths.IsCanonicalPath | rust/sigv4-verifier/src/lib.rs:679-700 | The loop decides membership in the grammar of slashes, unreserved bytes and upper-case escapes. |
| Paths.FixedPointIffGrammar | rust/sigv4-verifier/src/lib.rs:648-700 | For every byte string the borrow test holds exactly when the rewriting loop returns its input. |
| Paths.CanonicalPathInGrammar | rust/sigv4-verifier/fuzz/fuzz_targets/fuzz_canonical_path.rs:36-54 | Every result of the rewriting loop is in the grammar. |
| Paths.CanonicalPathIdempotent | rust/sigv4-verifier/fuzz/fuzz_targets/fuzz_canonical_path.rs:36-54 | Rewriting twice is rewriting once. |
| Paths.CanonicalPathKeepsMeaning | rust/sigv4-verifier/src/lib.rs:648-677 | A path that decodes still decodes to the same bytes after rewriting. |
| Paths.SameCanonicalPathIff | rust/sigv4-verifier/src/lib.rs:648-677 | Two paths that decode have the same canonical form if and only if they decode to the same bytes and write the same of these bytes as escapes although the byte could stand for itself. |
| Paths.CanonicalPathIsNotDecodingComplete | rust/sigv4-verifier/src/lib.rs:648-677 | The decoding alone does not decide the canonical form of accepted paths: `/%41` and `/A`. |
| Paths.SplitAssembledUri | rust/sigv4-verifier/src/lib.rs:576-592 | An accepted path and a clean query, assembled with `?`, split back into the two. |
| Tokens.SplitTargetIff | rust/sigv4-verifier/src/lib.rs:576-592 | A target splits exactly into an accepted path without `?`, alone or followed by `?` and a query, when it holds no line break, tab, space or `#`. |
| SigningCache.SigningKeyCache.SigningKey | rust/sigv4-verifier/src/lib.rs:979-1020 | Returns the four-step derivation and leaves exactly the contents of one sequential call: a hit changes nothing, a miss goes through the write section. |
| SigningCache.SigningKeyCache.FindOrInsert | rust/sigv4-verifier/src/lib.rs:993-1019 | The write section returns the derived key; a found entry moves to the front, a new one is pushed and the oldest beyond 32 is dropped. |
| SigningCache.SigningKeyCache.Find | rust/sigv4-verifier/src/lib.rs:985-991 | The read section returns the derived key exactly when the scope is cached. |
| SigningCache.WriteKeepsGood | rust/sigv4-verifier/src/lib.rs:993-1019 | A write section keeps the cache within 32 entries, free of duplicate scopes, and every entry correct. |
| SigningCache.SequentialContents | rust/sigv4-verifier/src/lib.rs:979-1020 | Sequential use leaves exactly the last 32 missed scopes, newest first. |
| SigningCache.HitDoesNotRefresh | docs/rust-nginx-module.md:412-413 | The cache is not least-recently-used: in a full cache a hit on the oldest entry does not save it from the next miss. |
| SigningCache.LruStepIff | docs/rust-nginx-module.md:412-413 | On a sound cache one call does what a least-recently-used cache would do if and only if it misses or hits the entry in front. |
| SigningCache.AgreesWithLruIff | docs/rust-nginx-module.md:412-413 | From an empty cache, the contents agree with a least-recently-used cache after every prefix of the calls if and only if every call misses or asks again for the newest missed scope. |
| CacheProtocol.ConcurrentCacheIsTransparent | rust/sigv4-verifier/src/lib.rs:979-1020 | In every interleaving of any number of calls each answer is the derived key of the scope its thread last called with, a writer excludes every other holder, no scope is ever cached twice and every cached key is the derived one, write sections included; the cache holds at most 32 entries, 33 inside a write section. |
| CacheProtocol.PhaseIsLastCall | rust/sigv4-verifier/src/lib.rs:979-984 | In every run a thread works on the scope of its own last call. |
| ConcurrentVerify.ConcurrentVerdicts | rust/sigv4-verifier/src/lib.rs:199-382 | In every interleaving of any number of concurrent `verify` calls over the shared key caches, every call that has ended has the result of the sequential decision for the request that last arrived at its thread. |
| ConcurrentVerify.WaitingCallsProgress | rust/sigv4-verifier/src/lib.rs:199-382 | No deadlock: while a call waits for a signing key, some waiting call can take a step. |
| ConcurrentVerify.OutcomeIsDecision | rust/sigv4-verifier/src/lib.rs:199-382 | Splitting a call into its cache-free part, the key, and the comparison does not change the decision. |
| CacheProtocol.RunKeepsInvariant | rust/sigv4-verifier/src/lib.rs:979-1020 | Lock discipline, derived answers and the progress of the current write section are kept by every step of every run. |
| CacheProtocol.WriteSectionIsAtomic | rust/sigv4-verifier/src/lib.rs:993-1019 | When a writer unlocks, the cache is what the sequential write section makes of the cache it started from. |
| CacheProtocol.UnfinishedCallsProgress | rust/sigv4-verifier/src/lib.rs:979-1020 | No deadlock: while a call is unfinished, some unfinished call can take a step. |
| Crypto.SignatureSpellsDigest | rust/sigv4-verifier/src/lib.rs:1060-1075 | A signature text decodes to a digest exactly when it is hex and, lower-cased, the hex of that digest. |
| Crypto.DecodeSignature | rust/sigv4-verifier/src/lib.rs:1060-1075 | The loop accepts exactly the texts of 64 hex digits and returns their 32 bytes. |
| Crypto.HexOfInjective | rust/sigv4-verifier/src/lib.rs:1200-1205 | Lower-case hex is injective. |
| Crypto.DecodeHexOf | rust/sigv4-verifier/src/lib.rs:1060-1075 | The hex of a digest decodes to the digest. |
| Calendar.DaysFromCivilIsDayNumber | rust/sigv4-verifier/src/lib.rs:1171-1181 | For every integer year and valid date the era formula equals the count of days from 1970-01-01 summed from month lengths and leap years, year 0 January and February included. |
| Calendar.EraIsFloor | rust/sigv4-verifier/src/lib.rs:1173-1174 | The adjusted truncating division is a floor division, also for negative shifted years. |
| Calendar.DaysAdvanceByOne | rust/sigv4-verifier/src/lib.rs:1171-1181 | From each date to the next the count grows by exactly 1. |
| Calendar.DaysStrictlyIncrease | rust/sigv4-verifier/src/lib.rs:1171-1181 | The count is strictly increasing in calendar order, hence injective. |
| Timestamps.ParseAmzDate | rust/sigv4-verifier/src/lib.rs:1101-1133 | With its saturating reads and arithmetic the parser accepts exactly the well-formed timestamps and returns the unbounded-integer epoch. |
| Timestamps.NoOverflow | rust/sigv4-verifier/src/lib.rs:1171-1181 | No intermediate i32 or i64 value, partial sums included, leaves its type for any accepted date. |
| Timestamps.SaturatingEpochIsExact | rust/sigv4-verifier/src/lib.rs:1120-1132 | The saturating chain never saturates. |
| Timestamps.ReadPrinted | rust/sigv4-verifier/src/lib.rs:1101-1133 | Printing any valid stamp and reading it gives the stamp. |
| Timestamps.PrintRead | rust/sigv4-verifier/src/lib.rs:1101-1133 | Every accepted timestamp is the printing of the stamp it reads as. |
| Timestamps.EveryInstantHasAStamp | rust/sigv4-verifier/src/lib.rs:1101-1133 | Every second of the years 0 to 9999 is the instant of exactly one accepted timestamp. |
| Timestamps.StampText | rust/sigv4-verifier/src/lib.rs:1101-1133 | A timestamp is year, month, day, `T`, hour, minute, second, `Z`, in four and two digits. |
| Timestamps.TimestampOrderEmbedding | rust/sigv4-verifier/src/lib.rs:1101-1133 | Accepted timestamps compare bytewise exactly as their epochs compare, equality included. |
| Timestamps.ExpiryIsExact | rust/sigv4-verifier/src/lib.rs:344-350 | The clamped expiry test equals the unbounded one for every instant. |
| Timestamps.FutureTestIsExactBelowBound | rust/sigv4-verifier/src/lib.rs:339-343 | The clamped future test equals the unbounded one at every clock reading and for every accepted timestamp if and only if the skew is below 2^63 - 1 - 62167219200. |
| Timestamps.FutureTestIsExactIff | rust/sigv4-verifier/src/lib.rs:339-343 | For one accepted timestamp, the clamped future test equals the unbounded one at every clock reading if and only if: for an epoch up to 0 the skew is not 2^63 - 1 plus the epoch, for a later epoch the skew is at most 2^63 - 1. |
| Timestamps.FutureTestUnclamped | rust/sigv4-verifier/src/lib.rs:339-343 | When the skew is at most 2^63 - 1 and below 2^63 - 1 plus the epoch, the two tests agree at every integer. |
| Presign.PresignedRefusedInsideWindow | rust/sigv4-verifier/src/lib.rs:339-343 | A presigned target inside the envelope, with a timestamp after the Unix epoch and a skew of 2^63 or more, is refused as future-dated at the clock reading 2^63 before its timestamp, although that reading lies in its window. |
| Decimals.ParseDigits | rust/sigv4-verifier/src/lib.rs:1135-1155 | Accepts exactly digit strings and returns the value capped at the maximum of the type. |
| Decimals.ParseU64Iff | rust/sigv4-verifier/src/lib.rs:295-301 | A text reads as n exactly when it is an optional plus sign, any number of zeros, and n in decimal, and n fits in a u64. |
| Decimals.ParseU64Decimal | rust/sigv4-verifier/src/lib.rs:295-301 | A printed u64 reads back. |
| Compile.CompileState | rust/sigv4-verifier/src/lib.rs:385-428 | Succeeds exactly on the declarative conditions; the table maps each access key to its own compiled policy and holds nothing else; supported methods are among GET and HEAD. |
| Compile.CompileCredential | rust/sigv4-verifier/src/lib.rs:430-500 | Succeeds exactly on the declarative conditions and yields the compiled policy. |
| Compile.CompileHosts | rust/sigv4-verifier/src/lib.rs:454-460 | Rejects if any host is ambiguous, otherwise gives the set of non-empty normalised hosts. |
| Compile.CompilePrefixes | rust/sigv4-verifier/src/lib.rs:471-481 | Rejects if any non-empty prefix is not a valid path, otherwise keeps each non-empty prefix once, in order of first occurrence. |
| Compile.PrefixListMembers | rust/sigv4-verifier/src/lib.rs:471-481 | The compiled prefixes are exactly the non-empty configured ones. |
| Alphabets.NormalizeHostIff | rust/sigv4-verifier/src/lib.rs:526-538 | A host normalises to its trimmed lower case, exactly when that holds no slash, backslash, `?`, `#` or white space of the ASCII kinds. |
| Alphabets.NormalizeMethodIff | rust/sigv4-verifier/src/lib.rs:518-524 | A method normalises to its trimmed upper case, exactly when that is GET or HEAD. |
| DirectiveText.CredentialCompilesIff | rust/sigv4-verifier/src/lib.rs:430-500 | What compilation asks of a credential, in plain terms. |
| DirectiveText.StateCompilesIff | rust/sigv4-verifier/src/lib.rs:385-428 | What compilation asks of the settings and credentials together, in plain terms. |
| DirectiveText.DefaultCap | rust/sigv4-verifier/src/lib.rs:389-391 | The default cap is the configured one between one second and seven days, and seven days otherwise. |
| Unicode.TrimIs | rust/sigv4-verifier/src/lib.rs:502-538 | Trimming removes encoded code points with the White_Space property from both ends and leaves none there. |
| Unicode.ValidUtf8Iff | rust/sigv4-verifier/src/lib.rs:792-827 | The UTF-8 test accepts exactly the encodings of sequences of code points that are not surrogates. |
| Durations.ParseDuration | rust/module-config/src/lib.rs:103-144 | Succeeds exactly on non-empty strings of the grammar whose unbounded value fits in a u64, and returns that value. |
| Durations.DurationIsGrammar | rust/module-config/src/lib.rs:103-144 | The greedy reading has a value exactly when the string is a sequence of number-unit pieces and an optional bare number, and the value is the unbounded sum of number times unit. |
| Durations.UnitTable | rust/module-config/src/lib.rs:127-132 | The units are s, m, h, d and w, of 1, 60, 3600, 86400 and 604800 seconds. |
| Durations.TermAtLeastNumber | rust/module-config/src/lib.rs:116-122 | A number that overflows while being read already makes the whole sum overflow, so the early error is the right one. |
| Durations.SecondsRoundTrip | rust/module-config/src/lib.rs:103-144 | Any u64 printed as seconds parses back. |
| Durations.CompoundRoundTrip | rust/module-config/src/lib.rs:103-144 | Any u64 printed as weeks, days, hours, minutes and seconds parses back. |
| Directives.CredentialDirective.Parse | rust/module-config/src/lib.rs:188-279 | Accepts exactly the argument lists that meet order-free conditions; every field then records what the arguments say. |
| Directives.CredentialDirective.TakeArgument | rust/module-config/src/lib.rs:211-275 | One argument is taken exactly when it reads on its own and does not repeat a once-only one; the fields then also record it. |
| Directives.CredentialDirective.SetSecret | rust/module-config/src/lib.rs:281-290 | A second secret source is refused. |
| Directives.CredentialDirective.Validate | rust/module-config/src/lib.rs:292-338 | Passes exactly when there is a secret, for each restriction either the flag or a list, and a cap between 1 second and 7 days if any. |
| Directives.CredentialDirective.Resolve | rust/module-config/src/lib.rs:345-360 | The credential for the verifier has the recorded lists, enabled by default, and cap 0 when none was given. |
| Allowlists.NoAllowlistCollapse | rust/module-config/src/lib.rs:248-262 | Across parsing, resolving and compiling, each compiled restriction is empty exactly when its flag was written, and the compiled cap is above zero and at most 7 days. |
| Allowlists.CompiledListsAreTheTexts | rust/sigv4-verifier/src/lib.rs:454-481 | A host or method is compiled exactly when some list argument spells it up to trimming and case; a prefix exactly when it was listed. |
| Allowlists.PolicyIsTheText | rust/sigv4-verifier/src/lib.rs:1022-1036 | The compiled policy lets a method, host and path through exactly when the text of the directive does. |
| DirectiveText.PolicyByText | rust/module-config/src/lib.rs:345-360 | From the argument texts: the policy is enabled unless `enabled=off` is written, its cap is the written one or the default, its seed is `AWS4` and the written or loaded secret, and it carries the trimmed access key and its label. |
| DirectiveText.DirectiveOkIff | rust/module-config/src/lib.rs:188-338 | A directive is accepted exactly when its text has an access key without `=` and arguments of the known forms: one secret, at most one enable flag and one cap of one second to seven days, and for each restriction either its flag or a list. |
| DirectiveText.ReadsIff | rust/module-config/src/lib.rs:211-275 | An argument reads exactly when it has one of the known forms. |
| Allowlists.AllowedIsListed | docs/security-scan/threat_model.md:48-49 | A request that is allowed is one that the text of its directive lets through. |
| Enforcement.Configure | rust/nginx-module/src/lib.rs:475-531 | Parsing and resolving all directives and compiling them succeeds exactly when every directive resolves and the compiled state is acceptable, and yields the configuration they stand for. |
| Enforcement.AllowedObeysItsDirective | docs/security-scan/threat_model.md:48-49 | When a verifier configured from any list of directives allows a request, exactly one directive has the reported access key, its text does not switch the credential off, lets method, host and path through, and covers the requested expiry; the result shows the label of that key. |
| Enforcement.EveryDirectiveConfigures | rust/sigv4-verifier/src/lib.rs:385-428 | Every directive is configured under its own trimmed key. |
| Enforcement.SettingsConfigure | rust/sigv4-verifier/src/lib.rs:385-428 | The skew is the configured one, the service is `s3`, and the supported methods are GET and HEAD or the configured ones. |
| SignatureName.SignatureNameAppearsIff | rust/sigv4-verifier/fuzz/fuzz_targets/fuzz_verify.rs:49-61 | An allowed target contains the text `X-Amz-Signature` if and only if the name of its signature parameter is spelled without escapes, or the text occurs in the path or in another part. |
| SignatureName.RespelledIsAllowed | rust/sigv4-verifier/fuzz/fuzz_targets/fuzz_verify.rs:49-61 | Every presigned target inside the envelope stays allowed when its signature name is spelled `X%2DAmz-Signature`; the text then occurs exactly if the path or the query contained it before signing. |
| Allowlists.ListSpelling | rust/module-config/src/lib.rs:228-273 | An argument lists a value under a key exactly when it is the key, `=`, and a value that is not blank. |
| Allowlists.ReorderedDirective | rust/module-config/src/lib.rs:211-278 | Permuting the arguments after the access key changes neither acceptance, nor secret, enable flag and cap, nor what the text lets through. |

## Left out

- `rust/nginx-module`: foreign calls, request pools and status mapping.
- SHA-256, HMAC and zeroisation internals; constant-time comparison is modelled as equality.
- Lock poisoning; reading a secret file is a parameter, given after its trailing newlines are removed and its UTF-8 is checked.
- Texts of configuration errors and log records.
- Sub-second time: instants and durations are whole seconds.
- `Mode` parsing and merging: one-branch facts.
- Vec capacities, allocation and borrowing: a borrowed result is modelled by the value it shows.
- The two branches of the query loop that decode a value before recording it, for the signature and for the other known names, are written once, in `Queries.TakeValue`.
- The library sort is given by its contract, a sorted permutation, and carried out by insertion.
- The fixed instant and service constant of the presigner: the instant is generalised to any stamp.
- Presign.PresignDecode: on malformed escapes the original decoder indexes past the end, or its arithmetic overflows as the build profile decides, so the method requires well-formed input.
- Presign.PresignCanonicalQuery: requires well-formed escapes in every part, because it decodes with `PresignDecode`.
- Presign.PresignedUri: requires well-formed escapes in the extra parameters, for the same reason; every input inside the envelope has them.
- The index of the duration parser into its string is modelled by the suffix that begins there.
- Reload, which replaces the whole state between calls; `ConcurrentVerify` fixes one state.
- The start-up code of the nginx module around the three steps of `Enforcement.Configure`: its defaults for settings, and its early check for duplicate access keys, which fail in `Compile.CompileState` as well.
