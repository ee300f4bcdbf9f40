# A verified model of crudeoauth

crudeoauth is a PAM module and a Cyrus SASL plugin for OAUTHBEARER (RFC 7628).
This project models its five hard parts in Dafny and proves what they promise:

1. **The two-level cache of the PAM module** (`CacheModel`, `CacheInvariant`,
   `CacheTheorems`, `CacheInstants`, `CacheHits`, `CacheLogin`, `CacheAnswers`,
   `Cache`, `CacheRefinement`). A transition system in which threads, file writes,
   renames and clock ticks take turns; a call is split into stat, lock and
   compare, open with fstat, read, settle check and store. The theorems range
   over every reachable state. `Cache` holds the same two operations as objects
   that update a map and a slot; `CacheRefinement` ties them to the transition
   system.
2. **The client response of RFC 7628** (`Utf8`, `Rfc7628`, `Rfc7628Theorems`).
   The printer escapes characters, the parser unescapes bytes; UTF-8 (section 4
   of RFC 3629) is modelled and proved to round-trip in both directions. The
   parser is proved equal to a declarative grammar, and every refusal to the
   first thing that is wrong with the message.
3. **The client and the server of the exchange** (`SaslFfi`, `SaslClient`,
   `SaslServer`, `PromptCycle`, `ClientValues`, `ServerRuns`, `Exchange`). Steps over mutable
   contexts, output parameters, buffers and a prompt array from a foreign
   allocator; then whole prompt cycles, server runs and composed exchanges.
4. **The JWKS loader and the token policy** (`Jwt`, `JwtTheorems`,
   `TokenTheorems`).
5. **The option readers** (`Text`, `Options`, `Pam`, `OptionTheorems`,
   `FileTheorems`, `FrontEnds`).

Code that updates state in place is a class or a loop here too, proved equal to
a specification function; the theorems are lemmas about these functions. What
the theorems say of values (files, arguments, prompts, keys, claims, messages)
is spelled in their fields and in literal names, numbers and bytes, apart from
the functions of the model that decide the same things. `Plain` holds the words
they share.

## What the proofs found

- **The cache, exactly.** A hit on a value read no later than the call's stat
  equals rereading the file at that stat, in every run, if and only if the time
  from fstat to settle check plus one ctime tick is at most `SETTLE_TIME`
  (`CacheTheorems.SettleBoundIsExact`). The code samples the clock after the
  read and the build, so the bound is a hypothesis about the machine, not
  something the code enforces; `CacheTheorems.LateCheckServesStale` is the run
  that breaks it.
- **The stat comes before the lock.** If the fill that stored the entry read the
  file after this call's stat, the hit returns those later contents, whatever
  the bound (`CacheTheorems.OverlappingFillServesLater`), and they may be
  younger than SETTLE_TIME (`CacheHits.YoungContentsServed`). All hits are fresh
  at their own stat if and only if files are never rewritten in place
  (`CacheInstants.FreshAtStatIsExact`).
- **One instant, exactly.** Within the bound every call returns what a file's
  contents give at some instant of the call, and its path named that file at
  some instant of the call (`CacheTheorems.Linearizable`). That the two are one
  instant is false in general: between open and read the path can move away
  and the opened file be rewritten, and the call returns what its path never
  gave (`CacheInstants.RepointedMeanwhile`). It holds in all runs if and only if
  files are never rewritten in place, or names never move and the settle check
  is in time (`CacheInstants.OneInstantIsExact`).
- **The message format** carries a token and an authzid exactly when the token
  is not empty and neither contains %x01 (`Rfc7628Theorems.RoundTrip`). The
  parser accepts raw commas in the authzid, which section 4 of RFC 5801 does
  not allow, besides an empty authzid, other fields, and "bearer" in any case;
  a message is what printing its meaning gives exactly if it has none of these
  (`Rfc7628Theorems.CanonicalExactly`).
- **Prompts.** A client that can make requests asks at most once if and only if
  it does not start from an array that answers one of two wanted values
  (`PromptCycle.AskedAtMostOnce`): each request replaces the array, so a partial
  array leads to requests forever. An empty slot is never partial. Stepping
  again after an answered round asks again, because the array is gone.
- **canon_user.** What the server accepts is proved for every canon_user. That a
  step does not depend on earlier ones is true of an input exactly if it does
  not reach a canon_user whose code depends on the output parameters
  (`ServerRuns.ForgetsExactly`); with one that names an identity only once, the
  same input is accepted and then refused (`ServerRuns.OnceOnlyRemembers`).
- **Branches that never run.** Unescaping UTF-8 gives UTF-8, so the last error
  of `decode_saslname` cannot occur; a verified uid has no control characters,
  so the server's own SASL_NOUSER cannot occur (canon_user may still return it).

## Assumptions made explicit

`Library` holds arbitrary deterministic functions for JSON, JWK, header and
token decoding. `World` holds the ctime tick and the bound on the settle check.
Every change of a file sets its ctime to the clock rounded down to a tick, and
the clock never runs backwards. canon_user is an arbitrary function of name,
flags and output parameters; corollaries about recorded names are for
`ServerRuns.Recording` of an arbitrary mapping of names. SASL codes and flags
are those of Cyrus SASL.

## Model

| member | source | states |
|---|---|---|
| CacheTheorems.SettleBoundIsExact | pam/src/cache.rs:132-155 | in every run and at either level a hit whose value was read no later than the call's stat is what rereading at that stat would give, if and only if delay plus tick is at most SETTLE_TIME |
| CacheTheorems.CacheFreshness | pam/src/cache.rs:75-103 | the positive half, for any reachable state and any number of threads |
| CacheTheorems.LateCheckServesStale | pam/src/cache.rs:148-155 | a reachable state with a stale hit, for every world outside the bound |
| CacheTheorems.OverlappingFillServesLater | pam/src/cache.rs:38-66 | a hit that differs from rereading at its own stat, because the fill read after that stat |
| CacheTheorems.Linearizable | pam/src/cache.rs:38-103 | every successful call on a file returns what a file's contents give at an instant of the call, and its path names that file at an instant of the call, not later; the two are one instant if the path still names the file when it is read, or the contents are those the call opened |
| CacheInstants.OneInstantIsExact | pam/src/cache.rs:38-103 | path, file and contents of every answer are those of one instant of its call, in every run that follows a discipline, if and only if that forbids rewriting files in place, or forbids moving names and the settle check is in time |
| CacheInstants.WithoutRewrites | pam/src/cache.rs:62-101 | where files are only replaced whole, every answer is one of a single instant, with no bound on the settle check |
| CacheInstants.WithoutRepoints | pam/src/cache.rs:62-101 | where names never move, the same within the bound |
| CacheInstants.RepointedMeanwhile | pam/src/lib.rs:95-109 | a reachable call that returns what its path gives at no instant of the history |
| CacheInstants.LateHitAtNoInstant | pam/src/cache.rs:148-155 | for every world outside the bound, a reachable hit that is the answer of no instant of its call, though names never move |
| CacheInstants.FreshAtStatIsExact | pam/src/cache.rs:38-66 | every hit is what its path gives at the call's own stat, in every run that follows a discipline, if and only if that forbids rewriting files in place, whatever the bound |
| CacheHits.HitExactly | pam/src/cache.rs:52-70 | after a fill and until the next store for the same call, a call is a hit, with the value of the fill, exactly if the file as the fill opened it was two seconds old at the settle check and the call finds the same device, number, length and times; otherwise it reads again |
| CacheHits.HitsAreAged | pam/src/cache.rs:132-155 | the version the fill opened had not changed for SETTLE_TIME when the hit serves what the fill read, whatever the bound |
| CacheHits.SettledHitsAreAged | pam/src/cache.rs:87-101 | within the bound that is also true of the version whose contents are served, if they were read no later than the call's stat |
| CacheHits.YoungContentsServed | pam/src/cache.rs:93-101 | for every world, a reachable hit that serves contents younger than SETTLE_TIME: the file was rewritten while the fill had it open |
| CacheHits.AgedIsExact | pam/src/cache.rs:132-155 | every hit serves contents of a version at least SETTLE_TIME old, in all runs, if and only if existing files never change |
| CacheTheorems.InlineAnswers | pam/src/cache.rs:52-68 | a successful call with inline arguments returns their parse, cached or not |
| CacheTheorems.TwoLevelIsolation | pam/src/cache.rs:105-118 | a Config's slot holds, and its calls return, only verifiers whose policy agrees with that Config's own arguments component by component, in every reachable state, whatever became of its map entry |
| CacheAnswers.TokensExactly | pam/src/cache.rs:75-118 | a verifier handed out in any reachable state accepts exactly the tokens that every clause holds of over the fields of its Config's arguments, with the keys of the JWKS as read at one instant |
| CacheAnswers.ConfigFilesAreSafe | pam/src/lib.rs:100-105 | in every reachable state, every cached and every returned configuration comes from a file that was regular and not writable by group or others when it was opened |
| CacheAnswers.OpensExactly | pam/src/lib.rs:95-105 | a fill opens its file exactly if its path names one that, for a configuration, is regular and unshared; a JWKS file may be anything |
| CacheTheorems.EndToEnd | pam/src/cache.rs:38-103 | a verifier that is handed out was loaded from the JWKS of one instant under the policy of the arguments, and these were parsed inline, or from the safe configuration file of another instant that was the only argument, even if its Config has left the map |
| CacheLogin.OneLogin | pam/src/cache.rs:38-103 | a thread that gets a Config and then a verifier of it: the verifier is the load of the JWKS as at an instant of the second call, under the policy of its arguments or of the configuration file as at an instant of the first |
| CacheTheorems.OnlySuccessWrites | pam/src/cache.rs:62-102 | a step changes at most one entry of one level, and only in a call that succeeds; a failing call changes neither level |
| CacheTheorems.WaitsExactly | pam/src/cache.rs:48-50 | a call waits for the lock exactly while another one is filling the same level: the map, or the slot of the same Config |
| CacheTheorems.MutualExclusion | pam/src/cache.rs:48-50 | two fills of one level never overlap, and no finished call holds a lock |
| CacheInvariant.SameStampSameFile | pam/src/cache.rs:121-130 | an equal stamp means an unchanged file, unless its ctime was too recent when it was taken |
| CacheInvariant.SettledIsNotLate | pam/src/cache.rs:147-155 | a stamp that passes the settle check in time is not too recent |
| CacheInvariant.StepKeeps | pam/src/cache.rs:38-103 | every step of every thread, file system and clock keeps the invariant of both levels |
| CacheInvariant.ReachableInv | pam/src/cache.rs:36-103 | every reachable state satisfies it, with no bound assumed |
| Cache.ConfigDecided | pam/src/cache.rs:38-72 | a configuration file is served from the cache exactly if an entry has its stamp; otherwise it is taken exactly if it is regular, unshared, UTF-8 and parses, with a stamp exactly if it was two seconds old |
| Cache.VerifierDecided | pam/src/cache.rs:75-103 | the same for a JWKS file, with no condition on its type or mode, loaded under the policy of the arguments' fields |
| Cache.InlineDecided | pam/src/cache.rs:52-68 | inline arguments are parsed once, and refused as often as they do not parse |
| Cache.ConfigObject.GetVerifier | pam/src/cache.rs:75-103 | the slot and result after a call for all answers of stat, open, read and clock; a refused call leaves the slot alone, and a changed slot has the policy of the arguments |
| Cache.ConfigCache.GetConfig | pam/src/cache.rs:38-72 | the map and result after a call; a fill installs a fresh Config with an empty slot, a hit shares the cached one; a fill from a file had opened a regular one that group and others may not write |
| CacheRefinement.GetVerifierFollowsModel | pam/src/cache.rs:75-103 | an uninterrupted call in the transition system can end as GetVerifier decides: same slot, stamp and answer |
| CacheRefinement.GetVerifierEveryRun | pam/src/cache.rs:75-103 | every run of the thread alone in which the call returns ends so, or is a failed call that changes nothing |
| CacheRefinement.GetConfigFollowsModel | pam/src/cache.rs:38-72 | the same for GetConfig: same entry, arguments and answer |
| CacheRefinement.GetConfigEveryRun | pam/src/cache.rs:38-72 | the same for every run of the thread alone |
| Utf8.DecodeEncode | core/src/rfc7628.rs:64 | decoding the encoding of any string gives it back |
| Utf8.EncodeDecode | core/src/rfc7628.rs:39 | bytes that decode are the encoding of what they decode to |
| Utf8.EncodesExactly | core/src/rfc7628.rs:78 | each character is encoded in its one form of section 3 of RFC 3629 |
| Rfc7628.UnescapeBytesIsUnescapeName | core/src/rfc7628.rs:88-101 | unescaping the bytes of any string gives the bytes of the unescaped string, so the result is always UTF-8 |
| Rfc7628.DecodeSaslname | core/src/rfc7628.rs:88-101 | the byte loop returns the unescaped name or InvalidSaslName, never InvalidUtf8 |
| Rfc7628.EncodeSaslname | core/src/rfc7628.rs:103-113 | the character loop computes the escaped name |
| Rfc7628.UnescapeEscape | core/src/rfc7628.rs:88-113 | decoding inverts encoding for every Unicode string |
| Rfc7628.EscapeUnescape | core/src/rfc7628.rs:88-113 | encoding inverts decoding exactly when the input has no raw comma |
| Rfc7628.SliceInBounds | core/src/rfc7628.rs:49-50 | the slice of fields exists for every input that reaches it |
| Rfc7628.FindAuth | core/src/rfc7628.rs:49-58 | the field loop finds the value of the last auth field, or the first malformed field |
| Rfc7628.ParseClientResponse | core/src/rfc7628.rs:32-70 | the method computes the parse, error cases included and in the order of the source |
| Rfc7628.BuildClientResponse | core/src/rfc7628.rs:72-86 | the buffer holds the printed response |
| Rfc7628Theorems.UnescapeExactly | core/src/rfc7628.rs:88-101 | a name is unescaped from exactly the texts that write it character by character, "=2C", "=3D", or any other character but '=' as itself |
| Rfc7628Theorems.EscapeExactly | core/src/rfc7628.rs:103-113 | the escaped name is the one such text without a raw comma |
| Rfc7628Theorems.ParserRefinesGrammar | core/src/rfc7628.rs:32-70 | the parser returns r for exactly the messages the grammar gives the meaning r: header, terminated fields with '=', last auth field "Bearer " with each letter as it is or 0x20 away, and a non-empty UTF-8 token |
| Rfc7628Theorems.AnyCaseAccepted | core/src/rfc7628.rs:61 | every spelling of "Bearer " in either case, after any header, is accepted with the same meaning |
| Rfc7628Theorems.ParserRefuses | core/src/rfc7628.rs:32-70 | every other message is refused with the error of the first thing wrong with it: header, terminator, fields, auth value |
| Rfc7628Theorems.PrintedExactly | core/src/rfc7628.rs:72-86 | what is printed, byte by byte |
| Rfc7628Theorems.RoundTrip | core/src/rfc7628.rs:32-86 | parsing what was printed gives token and authzid back exactly when the token is non-empty and neither contains %x01; an empty authzid becomes absent |
| Rfc7628Theorems.ParsedCarries | core/src/rfc7628.rs:32-70 | whatever is parsed can be printed |
| Rfc7628Theorems.CanonicalForm | core/src/rfc7628.rs:32-86 | reprinting an accepted message gives an accepted message with the same meaning, and is idempotent |
| Rfc7628Theorems.RawCommasAccepted | core/src/rfc7628.rs:38-40 | a response with any authzid that can be unescaped, otherwise as printed, is accepted, and reprinting gives the same bytes exactly if the authzid is not empty and has no raw comma |
| Rfc7628Theorems.CanonicalExactly | core/src/rfc7628.rs:32-86 | an accepted message is what reprinting it gives exactly if its header has no empty authzid and no raw comma, and its body is one field that spells "auth=Bearer " in that case |
| SaslFfi.FindEntryAt | sasl/src/ffi.rs:243-258 | the entry found is the first with that id before the end marker |
| SaslFfi.Prompts.Find | sasl/src/ffi.rs:243-258 | the walk stays inside any array with an end marker and finds that entry |
| SaslFfi.Prompts.Release | sasl/src/ffi.rs:261-266 | the slot is emptied and its array freed once; without a free function it stays allocated |
| SaslFfi.Prompts.Request | sasl/src/ffi.rs:271-310 | a fresh array with exactly the wanted ids, unanswered, and an end marker, whatever the slot held, or SASL_FAIL or SASL_NOMEM and nothing changed |
| SaslFfi.Prompts.GetSimpleValue | sasl/src/ffi.rs:110-157 | a prompt result first, up to its length or its terminator, then the callback; an unregistered one is an absent value |
| SaslFfi.Prompts.GetPasswordValue | sasl/src/ffi.rs:161-209 | the same for the token, where a NULL prompt result or a missing callback is a failure |
| ClientValues.NameExactly | sasl/src/ffi.rs:110-157 | the name is the first entry's value for 0x4001 (NULL, its len bytes, or up to the terminator if len is 0), or else the callback's answer; it is to be prompted for, or fails with a code, exactly in the remaining cases |
| ClientValues.TokenExactly | sasl/src/ffi.rs:161-209 | the same for the token under 0x4004: the entry's len bytes or the callback's secret, and a code where there is none |
| ClientValues.HoldsExactly | sasl/src/client.rs:90-128 | the client collects exactly the authzid and token that entries and callbacks supply, an empty authzid as none |
| SaslFfi.OutParams.Finish | sasl/src/ffi.rs:326-335 | done, no security layer, no coding functions; the names stay |
| SaslClient.Stepper.Run | sasl/src/client.rs:50-156 | code, output, parameters and prompt array of a step for all inputs; the array read is freed after its values were copied, and only then |
| PromptCycle.RequestsMissing | sasl/src/client.rs:77-88 | a step asks for exactly the values wanted by callbacks and not answered by the array, with SASL_INTERACT |
| PromptCycle.AskedAtMostOnce | sasl/src/client.rs:77-102 | with stable callbacks and filled arrays the application is asked at most once, if and only if the array at the start is not partial, or no request can be made |
| PromptCycle.PartialArrayAsksForever | sasl/src/client.rs:80-88 | from a partial array every answer leads to another request |
| PromptCycle.RepeatedStepAsksAgain | sasl/src/client.rs:80-88 | a step repeated after one that did not ask asks again |
| PromptCycle.InteractExactly | sasl/src/client.rs:84-151 | a step returns SASL_INTERACT exactly if it asks, or if nothing is missing and a callback it asks, or a call to canon_user, returns that code; never both |
| PromptCycle.InteractWithoutArray | sasl/src/ffi.rs:143-147 | a callback that fails with SASL_INTERACT: the code, and no array |
| PromptCycle.AllocationSafety | sasl/src/ffi.rs:260-310 | over any run no array is freed twice or used after it was freed, and if every step that harvests can free, at most one is live, the one in the slot |
| PromptCycle.NeverLeaksExactly | sasl/src/ffi.rs:215-266 | every run with one application keeps at most one array live if and only if it can free, or its steps never harvest, or it has no place for an array |
| PromptCycle.StepFreesWhatItRead | sasl/src/client.rs:80-82 | a step that reaches the release frees the array it read and no other; any other step frees nothing |
| PromptCycle.LeakWithoutFree | sasl/src/ffi.rs:215-219 | without a free function the client's own array, once answered, stays allocated with an empty slot |
| SaslServer.ServerContext.Step | sasl/src/server.rs:36-128 | code, output and parameters of a step for all inputs |
| ServerRuns.AcceptsExactly | sasl/src/server.rs:72-127 | for every canon_user: SASL_OK exactly when the step's own input parses, its own token verifies, TLS suffices, and canon_user is there and takes that token's uid and the authzid; then the parameters are those it left, done |
| ServerRuns.ServerCodes | sasl/src/server.rs:36-128 | which code a step returns, in numbers, the first case that applies |
| ServerRuns.RecordingTakes | sasl/src/server.rs:108-120 | a canon_user that records names leaves that uid as authid, and the authzid or else the uid as user |
| ServerRuns.RefusesExactly | sasl/src/server.rs:80-91 | the JSON refusal is published exactly for a well-formed response whose token does not verify |
| ServerRuns.VerifiedUidIsCString | sasl/src/server.rs:100-106 | a verified uid is not empty and has no NUL, so this SASL_NOUSER never happens |
| ServerRuns.ForgetsExactly | sasl/src/server.rs:36-128 | an input gets the same reply in every context if and only if it does not reach a canon_user whose code depends on the output parameters |
| ServerRuns.DecidedByNameForgets | sasl/src/server.rs:108-120 | a canon_user whose codes depend on names and flags alone meets that condition for every input |
| ServerRuns.RunForgets | sasl/src/server.rs:36-128 | in every sequence of inputs, each such input is answered as if it were the only one, whatever the others do |
| ServerRuns.OnlyParamsMatter | sasl/src/server.rs:36-128 | for every canon_user, a reply depends on earlier steps at most through the output parameters |
| ServerRuns.OnceOnlyRemembers | sasl/src/server.rs:108-120 | with a canon_user that names an identity only once, the same input is accepted and then refused |
| ServerRuns.StepDoneExactly | sasl/src/server.rs:66-127 | one step makes the server done exactly by accepting or by the completion byte, in every context, if and only if canon_user leaves the flag alone where it refuses |
| ServerRuns.DoneExactly | sasl/src/server.rs:66-70 | over a run of such steps the server is done exactly when it accepted a token or got the completion byte |
| ServerRuns.FinishingIsDone | sasl/src/server.rs:121-124 | with a canon_user that sets the flag, a refused input leaves the server done |
| Exchange.ClientSendsExactly | sasl/src/client.rs:90-156 | the client opens exactly when the application supplied a token, by entry or callback, and its names are taken, and the message prints the authzid and token supplied |
| Exchange.ClientCodes | sasl/src/client.rs:50-156 | which code a client step returns, in numbers, the first case that applies, from the values supplied and the calls to canon_user |
| Exchange.ClientNames | sasl/src/client.rs:130-151 | for every canon_user, the two calls that decide whether the client opens, and the parameters they leave |
| Exchange.ClientNamesRecorded | sasl/src/client.rs:130-151 | where it records names, the client goes by "anonymous" and acts as its authzid, or "anonymous" without one |
| Exchange.ServerReadsClient | sasl/src/server.rs:72-78 | the server reads exactly the authzid and token the application supplied if and only if the format carries them |
| Exchange.AtMostThreeMessages | sasl/src/client.rs:56-68 | whatever both ends do, an exchange has at most three messages and is over after four turns |
| Exchange.ComposedExchange | sasl/src/server.rs:80-127 | for every canon_user the server verifies exactly the client's token; a refusal ends with the JSON, one %x01, both ends done and SASL_BADAUTH, a verified token with one message, and SASL_OK exactly if canon_user takes the uid and the client's authzid |
| Exchange.RecordedExchange | sasl/src/server.rs:93-127 | where it records names, an accepted client goes by the token's uid and acts as its own authzid, canonicalised |
| Jwt.FromJwksJson | core/src/jwt.rs:111-219 | the loop over the keys loads what the filtering fold loads, error cases included |
| JwtTheorems.LoadKeysMeaning | core/src/jwt.rs:134-210 | keys load exactly when all are objects with pairwise distinct kids, ignored ones included, and give exactly the usable keys |
| JwtTheorems.LoadSucceeds | core/src/jwt.rs:111-219 | exactly when a JWKS loads, and which keys it gives |
| JwtTheorems.KeyOrderIndependence | core/src/jwt.rs:134-218 | a permutation of the keys loads alike, or fails alike |
| JwtTheorems.LoaderTransparency | core/src/jwt.rs:166-184 | verifying with the filtered keys accepts the same tokens with the same uid as with all decodable keys; only the refusal of an ignored key differs |
| JwtTheorems.IgnoredIsRefused | core/src/jwt.rs:273-291 | the metadata check refuses every ignored key for every algorithm |
| JwtTheorems.LoadsExactly | core/src/jwt.rs:111-219 | a JWKS loads exactly if the policy has audiences, an issuer and no empty allow-list, and the document is an array of objects without a repeated kid, one of which verifies signatures and decodes |
| JwtTheorems.LoadedKeys | core/src/jwt.rs:134-210 | the loaded keys are those of the document that do, each under its kid with its own alg, use, key_ops, kty and crv |
| TokenTheorems.VerifyAccepts | core/src/jwt.rs:221-265 | a token is accepted with a uid exactly when every clause holds: 16 bytes and two dots, an algorithm that is configured, or not HMAC, and not disallowed, a key that may verify with it, issuer, audience, party, dates, scopes, uid, and no denied name in any case |
| TokenTheorems.VerifyRefuses | core/src/jwt.rs:221-265 | any other token is refused with the error of the first clause that fails |
| TokenTheorems.PolicyMonotone | core/src/jwt.rs:246-399 | what a policy accepts, one that is laxer list by list accepts at the same time with the same uid |
| TokenTheorems.TimeWindow | core/src/jwt.rs:332-360 | the saturating comparisons accept exactly the instants from the later of nbf and iat minus the grace to exp plus the grace, in unbounded integers |
| TokenTheorems.AcceptedInstants | core/src/jwt.rs:332-360 | the accepted instants form one interval, and a larger grace accepts all of them |
| Options.GetIndexed | core/src/config.rs:98-112 | the open-ended loop stops within one lookup more than there are entries, with the indexed values |
| Options.RunFits | core/src/config.rs:103-104 | n consecutive numbered names need n entries, because the names are pairwise distinct |
| Options.IndexedIsMaximalRun | core/src/config.rs:98-112 | it succeeds with exactly the maximal consecutive run from index 0, all non-empty |
| Options.ParseAlgorithms | core/src/config.rs:65-75 | the loop reads the names, first occurrences only, or refuses at the first unknown one |
| Text.WordsAreRunsInOrder | core/src/config.rs:91-95 | the pieces of a list are its maximal runs without separators, all of them, in the order of their positions |
| Text.ParseShowI64 | core/src/config.rs:29-31 | every 64-bit number is read back from its decimal form |
| OptionTheorems.NumbersExactly | core/src/config.rs:29-31 | a number is read from exactly the texts that spell it: sign, zeros, decimal form, within 64 bits |
| OptionTheorems.ConfigPathExactly | pam/src/lib.rs:52-63 | a file is read exactly if its path is the only argument, and none exactly if no argument names one |
| OptionTheorems.InlineExactly | pam/src/lib.rs:65-204 | inline options are read exactly if every grace is a number, every algorithm has a name, and iss and jwks are given once at most; the arguments are then the lists in order, the last single values, the hosts between commas, and the defaults |
| FileTheorems.LinesExactly | pam/src/lib.rs:117 | the lines of a file, ended by a line feed with or without one carriage return, the last one perhaps by nothing |
| FileTheorems.ReadLineExactly | pam/src/lib.rs:117-131 | a line is the entry it holds, a key in any case made lower case and a trimmed value; blank lines and comments are skipped; any other is bad |
| FileTheorems.EntriesExactly | pam/src/lib.rs:116-131 | the entries are those of all lines in order, or the first bad line is reported |
| FileTheorems.OptionsExactly | core/src/config.rs:27-112 | the options mean what the first entries of their names say, numbered or in one list, with the defaults, or are refused for a grace that is no number, an empty numbered value or an unknown algorithm |
| FileTheorems.FileExactly | pam/src/lib.rs:115-150 | the same from the text of the file on |
| Pam.MutableArgs.ApplyOption | pam/src/lib.rs:152-204 | the arguments after one option, and why it is refused; a repeated iss or jwks is refused after it replaced the first |
| Pam.ParseInlineArgs | pam/src/lib.rs:65-75 | the loop reads the options left to right and stops at the first refusal |
| Pam.ReadEntries | pam/src/lib.rs:116-131 | the loop reads the lines of a file into entries, or gives the number of the first bad line |
| FrontEnds.FrontEndsAgree | pam/src/lib.rs:46-204 | any policy of non-empty, trimmed, single-line values reads the same from inline options and from a numbered file, each selected by its own form of arguments |
| FrontEnds.InlineDenotes | pam/src/lib.rs:65-75 | the inline form reads back as the policy, algorithms once each, absent allow-list absent |
| FrontEnds.FileDenotes | pam/src/lib.rs:115-150 | the numbered file reads back as the same policy |
| FrontEnds.FirstEntryWins | pam/src/lib.rs:112-136 | a configuration file means what the first entry of each of its keys means; later entries change nothing |

## Left out

- Signature verification, base64, JSON and JWK decoding: arbitrary functions in `Library`; nothing is claimed about forged tokens.
- Rounding in `numeric_date`: a floating-point date is given by the 64-bit integer it rounds to, or as none; IEEE arithmetic is not modelled.
- A clock beyond 2^63 seconds, where the cast in `check_validity_dates` would wrap, and a ctime beyond the range of the system time, where `Stamp::settled` would panic.
- Error texts and logging: errors keep their variants only; set_error and log calls are dropped, and all ConfigError texts are one.
- ServerRuns.DoneExactly: is about runs whose canon_user leaves the done flag alone where it refuses; StepDoneExactly shows that this is needed.
- CacheRefinement.GetVerifierFollowsModel: is about uninterrupted calls, as is GetConfigFollowsModel; interleaved calls are covered by the transition system, not by the objects.
- Reading a file is one atomic step, at any time after the open; torn reads are not modelled. Deleting an inode is not a step of its own: an unlinked file keeps its contents, and reuse of its number is a change of it.
- A failed read or build is a step that any fill may take at any time, so the transition system fails in more runs than the code.
- Mutex poisoning, thread panics, and the linker flag that keeps the module mapped.
- Published output is modelled by value; that the buffer outlives the step is not.
- Prompt results, callback strings and secrets are byte sequences as long as they claim to be, which the plugin interface asks of the application; a C string without terminator ends with its buffer.
- The entry points and their NULL checks, plugin registration, panic guards, and dispose functions.
- `authenticate` of the PAM module, `only_from_allows` and the PAM conversation: early returns over libpam.
- `ServerConfig::from_sasl` and `Utils::option`: the options behind them are those of `Options`.
- File permissions and types beyond the two checks on a configuration file, and paths as anything but names.
