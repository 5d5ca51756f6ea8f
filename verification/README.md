# Furnace: stateful cores, modelled and proved

Furnace is a local identity provider written in Go. Below its HTTP layer are a few stateful
cores whose promises quantify over every document, run, interleaving or clock. This project
models those cores in Dafny and proves those promises. `dafny verify dfyconfig.toml` checks
everything.

| file | what it holds |
|---|---|
| `Common.dfy` | Option, byte-wise string order, sorting and its uniqueness |
| `C14n.dfy`, `C14nPrelude.dfy`, `Canonicaliser.dfy` | the exclusive XML canonicaliser: a recursive tree serialiser, the cutting off of blanks and the XML declaration, and the streaming loop over a shared decoder, an output buffer and a mutable namespace stack, proved equal to the serialiser |
| `XmlReader.dfy`, `C14nMeaning.dfy`, `C14nDocuments.dfy` | an independent XML reader and namespace resolver; exactly when canonical output keeps the document's meaning; documents for which it does, and three for which it does not |
| `C14nWritten.dfy` | what a written start tag holds and in which order, without the sort; what is never written |
| `C14nOrder.dfy`, `C14nReordered.dfy` | exactly when the order of attributes and declarations shows: in one start tag, and in a whole document |
| `FlowEngine.dfy`, `Stores.dfy`, `FlowHandlers.dfy`, `Oidc.dfy` | the login state machine, the in-memory stores, and the handlers that write flows |
| `FlowChanges.dfy` | what one write of a handler may do to a flow |
| `Interleavings.dfy` | handlers split into a store read and a store write, in every interleaving |
| `Logins.dfy` | what is enough for a login to end in tokens, among whatever else runs |
| `Sequential.dfy` | the same handlers run one at a time |
| `Refresh.dfy`, `RefreshRaces.dfy` | refresh-token rotation: one request at a time, and split into a read and a write in every interleaving |
| `RateLimiter.dfy` | the token bucket with eviction |
| `KeyManager.dfy` | signing-key rotation with an overlap window |
| `AuditChain.dfy` | the audit log's hash chain |
| `Tenanted.dfy` | tenant-prefixed stores over one shared store |
| `Redaction.dfy`, `DecisionLog.dfy` | decision-log redaction: on trees, and in place on a cloned graph of mutable maps |
| `Broadcaster.dfy` | the SSE broadcaster |
| `Base64.dfy`, `Phc.dfy` | the PHC password-hash codec |

## What the proofs found

Where a promise does not hold of the code on all inputs, the code is modelled as it is, a
lemma holds a concrete input that fails, and the exact condition is proved, in both directions.

- **Canonicalisation.** `needsDeclaration` looks at every ancestor frame, and a frame also holds
  bindings that were declared but never written out; and it never looks at the element's own
  frame. So an inherited fallback prefix can end up undeclared (`InheritedPrefixLost`), a binding
  used twice on one element is declared twice, which is not well-formed XML
  (`RepeatedUseMalformed`), and an element in no namespace is captured by a default namespace
  above it (`DefaultNamespaceCaptures`). `MeaningPreserved` gives the condition, element by
  element, under which the output means what the input means.
- **Attribute order.** Distinct names and one prefix per URI are not enough for order independence:
  two attributes whose namespaces were declared further up both fall back to the empty
  prefix, and the last one wins (`OrderMattersForOnePrefix`, at a token stream). In one start tag
  order never shows if and only if every namespace used has at most one declaration there and no prefix
  is needed by the attributes for two namespaces (`HeadOrderExact`); in a whole document such a
  clash shows only if a descendant asks which namespace the prefix has
  (`CanonicalOrderExact`). Where the output keeps the meaning, and no element declares a namespace
  it uses twice, order never shows (`PreservedIsOrderFree`).
- **Interleavings of logins.** A write from an old read can take a completed flow back to
  `mfa_pending` (`StaleSelectionReopensFlow`). A terminal record survives whatever a thread may
  still write if and only if that thread's snapshot has the same state and time, is denied or in
  error, or is complete with no redirect URI (`AbsorptionExact`, `TerminalSurvivesExactly` for
  every point of every run). Single use of authorization codes survives every interleaving
  (`CodeConsumedOnce`).
- **Interleavings of refreshes.** Two requests that both read the session before either writes are
  both accepted (`StaleReadAcceptsTwice`, a run from the empty store). With fresh tokens and no
  collision that is the only way: a token is accepted twice if and only if two accepted requests of
  its session both read it before the first of them wrote (`TwiceExactlyWhenOverlapping`).
- **Rate limiter.** Evictions leave every answer as it is, and keep the bound on admissions, if and
  only if `limit * refill` is at most five minutes and one nanosecond (`EvictionUnobservable`,
  `AdmissionBound`); a longer window admits two bursts (`TwoBursts`). A refusal ends at the announced
  time, evictions or not, if and only if `refill` alone is at most that (`RefusalEndsAtReset`).
- **Tenants** are isolated if and only if neither tenant's `id::` begins the other's
  (`IsolationExact`); colon-free ids are enough, `a` and `a::b` are not (`NestedTenantLeaks`).
- **Audit chain.** The comment on the store promises that any later modification of a row is
  reported. The id column, the removal of the newest rows (`NotCovered`) and the newest row rewritten
  together with its hash (`NewestRewritten`) are not covered. `RewriteExact` and `DeletionExact` say of
  any rewriting or deletion of one row exactly when it goes unreported.

## Model

| member | source | states |
|---|---|---|
| Canonicaliser.NsStack.NeedsDeclaration | server/internal/saml/c14n.go:70-78 | the inside-out search of the frames below the top answers as a lookup in the ancestors' flattened scope |
| Canonicaliser.CanonicaliseNode | server/internal/saml/c14n.go:87-222 | one call consumes exactly one element body (or a truncated stream's remainder), restores the stack, and appends what the recursive serialiser with an immutable scope writes for it; it terminates on tokens left |
| Canonicaliser.CanonicaliseElement | server/internal/saml/c14n.go:91-206 | the start-tag branch writes one whole element, attributes sorted, and leaves the stack as it was |
| Canonicaliser.OpenTag | server/internal/saml/c14n.go:94-196 | the start tag holds the sorted needed declarations and then the sorted attributes, and the element's frame is on top |
| Canonicaliser.CollectDecls | server/internal/saml/c14n.go:128-159 | the needed declarations are those of the ancestors' scope, whatever the top frame holds |
| C14nWritten.StartTagWritten | server/internal/saml/c14n.go:128-196 | the written start tag holds exactly the declarations in visible use that no ancestor registered, default one first, then by prefix, then by URI; and then exactly the other attributes under their prefixes, by namespace URI and then local name |
| C14nWritten.FirstDeclarationNames | server/internal/saml/c14n.go:239-249 | the first declaration of a namespace on the element gives its prefix |
| C14nWritten.UndeclaredNames | server/internal/saml/c14n.go:249-264 | without one, six namespaces keep their usual prefixes and any other has none |
| C14nWritten.CommentsNeverShow | server/internal/saml/c14n.go:207-221 | comments, processing instructions and directives anywhere leave the output as it is |
| Canonicaliser.ExclC14N | server/internal/saml/c14n.go:31-50 | blanks and one declaration are cut off, an unended declaration is the only error, and the output is the printed canonical forest, in the root scope, of the tokens decoded from the rest |
| Canonicaliser.DeclarationOmitted | server/internal/saml/c14n.go:31-40 | whatever an XML declaration says and whatever blanks surround the parts, a document has the canonical form of the bare document |
| C14nPrelude.DeclarationNeverShows | server/internal/saml/c14n.go:31-40 | what is decoded is the document between the blanks behind the first end of the declaration |
| C14nPrelude.MalformedExactly | server/internal/saml/c14n.go:35-38 | the error is given if and only if the data is blanks and then a declaration that nothing ends |
| C14n.EscapeTextChar | server/internal/saml/c14n.go:266-272 | the four successive replacements turn a character into its reference or leave it, because the ampersand goes first |
| C14n.EscapeAttrChar | server/internal/saml/c14n.go:274-282 | the same for the six replacements in attribute values |
| C14n.EscapeTextConcat | server/internal/saml/c14n.go:266-272 | escaping a string is escaping its characters one by one |
| XmlReader.DocumentRead | server/internal/saml/c14n.go:87-222 | an XML reader applied to the output gives back the written markup: tags nest, values and text are unescaped to what they were |
| XmlReader.ValueRead | server/internal/saml/c14n.go:274-282 | reading an escaped, quoted attribute value gives back the value and what follows it |
| C14nMeaning.MeaningPreserved | server/internal/saml/c14n.go:87-282 | for every token stream of namespace-well-formed names the output is well nested, and a namespace-resolving reader recovers the input's tree of expanded names, attributes and text if and only if every element passes the `Faithful` check |
| C14nMeaning.HeadResolves | server/internal/saml/c14n.go:94-196 | the same for one start tag, both directions |
| C14nDocuments.SelfContainedPreserved | server/internal/saml/c14n.go:87-282 | meaning is kept for documents whose elements are in a namespace, declare only what they visibly use, use no prefix twice and give every attribute namespace a prefix |
| C14nDocuments.RegisteredIsRendered | server/internal/saml/c14n.go:94-172 | on such an element the namespaces registered for the children are exactly those written out |
| C14nDocuments.InheritedPrefixLost | server/internal/saml/c14n.go:239-264 | a document whose canonical form does not mean what the document means: an inherited fallback prefix is never declared |
| C14nDocuments.RepeatedUseMalformed | server/internal/saml/c14n.go:128-159 | a document whose canonical form repeats a declaration because one binding is used twice |
| C14nDocuments.DefaultNamespaceCaptures | server/internal/saml/c14n.go:128-159 | a document whose element in no namespace loses its xmlns="" and is read in the default namespace above it |
| C14nOrder.HeadOrderExact | server/internal/saml/c14n.go:98-189 | for one start tag with distinct names: every order of its attributes gives the same tag and the same scope for the children if and only if each namespace used has at most one declaration on it and no prefix is needed by the attributes for two namespaces |
| C14nReordered.OrderIrrelevant | server/internal/saml/c14n.go:98-189 | order-free documents that differ only in the order of attributes and declarations have one canonical tree, in any scope |
| C14nReordered.ForestOrderExact | server/internal/saml/c14n.go:98-189 | a forest is serialised alike in every order if and only if each namespace used has at most one declaration on its element and, where attributes need a prefix for two namespaces, no descendant asks which before registering the prefix anew |
| C14nReordered.CanonicalOrderExact | server/internal/saml/c14n.go:31-50 | the same if and only if for the text written for a token stream and for every reordering of it |
| C14nReordered.PreservedIsOrderFree | server/internal/saml/c14n.go:87-282 | a document whose meaning is kept, with at most one declaration on an element for each namespace it uses, has one canonical form in every order |
| C14nReordered.OrderMattersForOnePrefix | server/internal/saml/c14n.go:226-264 | two token streams that differ in the order of two attributes and are written differently, because one prefix stands for two URIs |
| Common.SortedUnique | server/internal/saml/c14n.go:175-189 | a sort by a key that determines the element has one result, so the library's choice of algorithm does not matter |
| Common.LessIsLexicographic | server/internal/saml/c14n.go:175-189 | strings are ordered by the byte where they first part, or by which ends there |
| FlowEngine.PathsDescend | server/internal/flow/state_machine.go:26-62 | no path leaves a terminal state, and every path lowers the rank |
| FlowEngine.LoginPathsExactly | server/internal/flow/state_machine.go:26-62 | the sequences of states from a new flow to a terminal one are exactly nine: none completes a pending factor without approval |
| Stores.FlowStore.ConsumeAuthCode | server/internal/store/memory/flows.go:69-84 | one atomic step: some flow with the code is returned as it was and only its code is cleared, or nothing changes and no flow carries the code |
| Stores.FlowStore.List | server/internal/store/memory/flows.go:38-47 | every record once, in id order |
| Stores.FlowStore.DeleteExpired | server/internal/store/memory/flows.go:86-97 | a flow stays exactly while now is not past its expiry, unchanged, and the count says how many went |
| Stores.SessionStore.GetByRefreshToken | server/internal/store/memory/sessions.go:38-47 | some session with that token hash, or none exists |
| FlowHandlers.ApplySelectUser | server/internal/httpapi/flow_login.go:395-466 | success exactly for a known user and a new flow of the expected state; then the flow is locked, waits for the factor of the user's method, or is complete and stamped; nothing is written otherwise; the scenario is reset exactly when a flow completed at once |
| FlowHandlers.ApplyVerifyMFA | server/internal/httpapi/flow_login.go:468-510 | success exactly for a pending flow of the expected state, a code that is not blank and no first attempt of mfa_fail; the record is then approved, and every attempt on a pending flow is counted |
| FlowHandlers.ApplyApproveOrDeny | server/internal/httpapi/flow_login.go:513-552 | success exactly for a pending flow of the expected state whose slow_mfa delay is over when approving; the record is then approved, or denied and stamped; the users afterwards, with and without a user store |
| FlowHandlers.GetAndAutoAdvance | server/internal/httpapi/flow_login.go:565-582 | a slow_mfa flow is approved after ten seconds and nothing else is written |
| FlowHandlers.LoginMFAPage | server/internal/httpapi/flow_login.go:294-307 | an approved flow, or one whose delay is over, is complete and stamped afterwards, and no other is written |
| FlowHandlers.LoginMagic | server/internal/httpapi/router.go:1024-1064 | the flow touched is the first in id order that carries the unused token; the reply, and the scenario reset of its user, for every case |
| FlowHandlers.WebAuthnBeginHandler | server/internal/httpapi/webauthn_handlers.go:76-120 | a session is stored only on a webauthn_pending flow |
| FlowHandlers.WebAuthnFinishRegisterHandler | server/internal/httpapi/webauthn_handlers.go:124-176 | a registration clears the session, leaves the state alone and stores the user's new credentials, exactly when the reply is a success; the reply is one exactly for a verified registration with a session and a known user |
| FlowHandlers.WebAuthnResponseHandler | server/internal/httpapi/webauthn_handlers.go:228-311 | only a successful assertion approves, stores the user's credentials and resets the scenario, exactly when the reply is a success; the reply is one exactly for a verified assertion on a pending flow with a session and a known user |
| FlowHandlers.ListNotifications | server/internal/httpapi/router.go:956-987 | at most the one missing secret of the user's method is added |
| FlowHandlers.ListAllNotifications | server/internal/httpapi/router.go:990-1020 | after the loop exactly the pending flows have their missing secrets |
| Oidc.AuthorizeHandler | server/internal/oidc/router.go:108-171 | an untouched flow that remembers every part of the request for thirty minutes is stored exactly when client, redirect URI, code response and an S256 challenge are there |
| Oidc.AuthorizeCompleteHandler | server/internal/oidc/router.go:177-220 | a code is stored and sent exactly for a complete flow with a redirect URI |
| Oidc.HandleAuthCodeGrant | server/internal/oidc/router.go:246-326 | the code is spent if any flow carries it; tokens and a session, field by field, exactly when the flow is complete and unexpired, the redirect URI is its own or omitted, the verifier hashes to its challenge and its user is known |
| Oidc.RedeemableIsEarned | server/internal/oidc/router.go:246-326 | the checks in the order of the code let through exactly who earns tokens, in either spelling of S256 |
| Interleavings.WrittenOK | server/internal/httpapi/flow_login.go:395-631 | every handler turns a good record into a good record of the same flow and parameters, with no code but one just drawn |
| Interleavings.CodeConsumedOnce | server/internal/store/memory/flows.go:69-84 | in every interleaving no authorization code is consumed twice |
| Interleavings.EveryRecordGood | server/internal/oidc/router.go:177-220 | in every interleaving every record stored or in flight has CompletedAt exactly in a terminal state, is never user_picked, has a code only when complete and a WebAuthn session only when webauthn_pending |
| Interleavings.TokensBoundToRequest | server/internal/oidc/router.go:246-326 | in every interleaving tokens leave only for a flow complete and unexpired, to a verifier whose S256 is the challenge, with the creating authorize request's parameters, once per code |
| Logins.CodeIsHonoured | server/internal/oidc/router.go:246-326 | at any point of any run, whoever brings a stored flow's code and earns its tokens gets them, whatever other requests do between the consume and the checks |
| Logins.RedeemExact | server/internal/oidc/router.go:246-326 | a consumed code is answered with tokens if and only if they are earned |
| Logins.LoginEndsInTokens | server/internal/oidc/router.go:108-326 | from any state, authorize, pick, code and redemption give a user without a second factor tokens for that user and request |
| Logins.FactorLoginEndsInTokens | server/internal/httpapi/flow_login.go:294-582 | the same for a user with a factor, through any handler that passes it for the flow as picked and the page that completes the flow |
| Interleavings.StaleSelectionReopensFlow | server/internal/httpapi/flow_login.go:395-466 | five steps that take a completed flow back to mfa_pending |
| Interleavings.AbsorptionExact | server/internal/httpapi/flow_login.go:395-631 | every handler's write from a snapshot keeps a terminal record's state and time if and only if the snapshot has that state and time, is denied or in error, or is complete without a redirect URI |
| Interleavings.TerminalSurvivesExactly | server/internal/httpapi/flow_login.go:395-631 | the same at every point of every run, for whatever a thread that has read may still write |
| Sequential.ChangesAreLegal | server/internal/flow/state_machine.go:26-62 | one at a time, every stored change is a path of the table, terminal states absorb, CompletedAt is set exactly there and kept, and a flow sees at most three state changes |
| Sequential.CompletionNeedsFactor | server/internal/httpapi/flow_login.go:395-582 | one at a time, a flow is complete only if its user needed no factor when picked or a factor was passed; a locked pick stays in error |
| Sequential.PassedFactorCompletes | server/internal/httpapi/flow_login.go:294-582 | in every run a passed factor and the page after it complete the flow at that time |
| FlowChanges.WriteLegal | server/internal/httpapi/flow_login.go:395-631 | one write of any handler follows the table, keeps terminal states, and has its reason for every approval and completion |
| FlowChanges.OutcomeExact | server/internal/httpapi/flow_login.go:395-631 | a handler approves a flow if and only if a factor was passed, and completes it if and only if it was approved or its user was picked free |
| Sequential.OneAtATimeIsAnInterleaving | server/internal/httpapi/flow_login.go:565-582 | the two models agree: a handler run alone is a read followed at once by its write |
| Refresh.HandleRefreshGrant | server/internal/oidc/router.go:328-375 | accepted exactly for the unexpired session with that token hash and a known user; the session afterwards field by field, its expiry ttl from now; an expired one is deleted, and nothing else changes |
| Refresh.RefreshChain | server/internal/oidc/router.go:306-375 | one at a time and without hash collisions, a request is accepted if and only if it brings the newest token of a stored, unexpired session with a known user; the next link is the token drawn then, and no token is accepted twice |
| Refresh.AcceptedExtends | server/internal/oidc/router.go:357-370 | an accepted request leaves that session with the new token's hash, ttl more to live and one more event, and every other as it was |
| RefreshRaces.AloneIsRefresh | server/internal/oidc/router.go:328-375 | a read followed at once by its write leaves the sessions as the undivided request does |
| RefreshRaces.FinishExact | server/internal/oidc/router.go:334-375 | the write accepts if and only if the session it read had not expired and the user is known, and stores the new hash and expiry if the session is still there |
| RefreshRaces.PairExact | server/internal/oidc/router.go:328-375 | in every interleaving, with fresh tokens and no collision, two accepted requests presented one token if and only if they are of one session and nothing was stored in it between their reads |
| RefreshRaces.TwiceExactlyWhenOverlapping | server/internal/oidc/router.go:328-375 | in every interleaving, with fresh tokens and no collision, some token is accepted twice if and only if two accepted requests of one session had read before the first of them wrote |
| RefreshRaces.StaleReadAcceptsTwice | server/internal/oidc/router.go:328-375 | a run from the empty store in which two requests read before either writes and both are accepted |
| RateLimiter.RateLimiter.AllowWithInfo | server/internal/httpapi/middleware.go:108-137 | answer and bucket of the pure step; the limiter's buckets and answers are one step further in the run the theorems are about |
| RateLimiter.RateLimiter.Evict | server/internal/httpapi/middleware.go:139-148 | a bucket stays exactly while it has been idle for at most five minutes, unchanged, as one step of the run |
| RateLimiter.AdmissionBoundOfRequests | server/internal/httpapi/middleware.go:108-137 | without evictions and with a non-decreasing clock at most limit + floor((e - s) / refill) requests of one IP are admitted in any interval from s to e |
| RateLimiter.AdmissionBound | server/internal/httpapi/middleware.go:108-148 | with evictions anywhere every run keeps that bound if and only if limit * refill is at most five minutes and a nanosecond |
| RateLimiter.TokensInRange | server/internal/httpapi/middleware.go:108-137 | between calls every bucket holds 0 to limit - 1 tokens, evictions included |
| RateLimiter.BurstExact | server/internal/httpapi/middleware.go:108-137 | of requests at one time a bucket with T tokens, touched at u, admits exactly the first min(limit, T + floor((now - u) / refill)), counting down what remains, and refuses the rest; a new one admits limit |
| RateLimiter.IdleBurstAdmitted | server/internal/httpapi/middleware.go:108-148 | in every run, evictions included, after an idle time d a burst of min(limit, floor(d / refill)) requests is admitted in full |
| RateLimiter.EvictionUnobservable | server/internal/httpapi/middleware.go:139-148 | evictions anywhere leave every answer as it is if and only if limit * refill is at most five minutes and a nanosecond |
| RateLimiter.ShortWindow | server/internal/httpapi/middleware.go:82-96 | a limiter built for a window of at most five minutes meets that condition |
| RateLimiter.RefusalEndsForRequests | server/internal/httpapi/middleware.go:127-133 | without evictions, after a refusal requests are refused until resetAt however many are tried, and the first one from then on is admitted |
| RateLimiter.RefusalEndsAtReset | server/internal/httpapi/middleware.go:127-148 | with evictions anywhere that is so in every run if and only if refill is at most five minutes and a nanosecond |
| RateLimiter.SpacedNeverRefused | server/internal/httpapi/middleware.go:108-137 | a request at least one refill after all earlier ones of its IP is admitted, whatever is evicted when |
| KeyManager.KeyManager.Rotate | server/internal/oidc/keys.go:85-126 | the in-place manager holds the keys of the pure run extended by this rotation; a failed key generation changes nothing |
| KeyManager.KeyManager.PruneInPlace | server/internal/oidc/keys.go:113-119 | the loop that overwrites the slice it reads leaves in front exactly what a functional filter keeps |
| KeyManager.KeyManager.JWKS | server/internal/oidc/keys.go:168-176 | the published ids are those of the keys held, in order |
| KeyManager.KeyManager.VerifySignature | server/internal/oidc/keys.go:182-204 | a token verifies if and only if some published key verifies it |
| KeyManager.NewKeyManagerWithOverlap | server/internal/oidc/keys.go:64-79 | a manager after one rotation, a negative overlap read as zero |
| KeyManager.PruneOnce | server/internal/oidc/keys.go:106-119 | pruning at every rotation leaves what pruning the whole history once leaves |
| KeyManager.RotationDropsSuffix | server/internal/oidc/keys.go:106-125 | after any run the keys are the history less a suffix, the newest is the only unretired one, and a retired key is there exactly while its overlap had not passed at the last rotation |
| KeyManager.SignerStaysPublished | server/internal/oidc/keys.go:81-126 | a signing key is published at every time within the overlap of its retirement, and not longer than the last rotation allows |
| KeyManager.SizeBound | server/internal/oidc/keys.go:113-125 | rotations at least d apart keep at most 1 + ceiling(overlap / d) keys |
| KeyManager.SizeBoundReached | server/internal/oidc/keys.go:113-125 | rotations exactly d apart reach that bound |
| AuditChain.AuditStore.Append | server/internal/store/sqlite/audit.go:39-58 | a known id leaves the table alone; otherwise one row is added with the digest of the last hash followed by the JSON |
| AuditChain.AuditStore.Verify | server/internal/store/sqlite/audit.go:96-123 | ok exactly for a chained table; otherwise the first row that breaks the chain is named |
| AuditChain.LogChained | server/internal/store/sqlite/audit.go:39-58 | every log built by appends verifies |
| AuditChain.LogKeepsFirst | server/internal/store/sqlite/audit.go:51-57 | a log holds, per id, the JSON of the first event appended with it and no other |
| AuditChain.LogIsFirsts | server/internal/store/sqlite/audit.go:39-58 | a log's rows are exactly the events that use their id first, in the order appended |
| AuditChain.SameLengthCollision | server/internal/store/sqlite/audit.go:31-34 | two different logs of one length that verify and end in one hash yield two explicit different strings with one digest |
| AuditChain.SameHashSameLog | server/internal/store/sqlite/audit.go:31-34 | the same for logs of any two lengths, for hex digests and JSON objects |
| AuditChain.EditReported | server/internal/store/sqlite/audit.go:96-123 | rewriting one row's JSON breaks the chain, and at that row, if and only if the new text does not collide with the old |
| AuditChain.RewriteExact | server/internal/store/sqlite/audit.go:96-123 | any rewriting of one row goes unreported if and only if its hash fits its JSON and the row before, and it is the newest row, keeps its hash, or collides in the next row's digest |
| AuditChain.DeletionExact | server/internal/store/sqlite/audit.go:96-123 | deleting one row goes unreported if and only if it is the newest, repeats the hash before it, or the next row's digest collides |
| AuditChain.HashRewriteReported | server/internal/store/sqlite/audit.go:96-123 | rewriting a hash alone is always reported |
| AuditChain.NotCovered | server/internal/store/sqlite/audit.go:96-123 | rewriting an id and dropping the newest rows go unreported |
| AuditChain.NewestRewritten | server/internal/store/sqlite/audit.go:96-123 | the newest row replaced by any event, with the hash that fits, goes unreported |
| Tenanted.MemoryStore.List | server/internal/store/memory/groups.go:37-46 | every record once, in id order |
| Tenanted.TenantStore.Create | server/internal/store/tenanted/tenanted.go:94-102 | the wrapper's answer is the shared store's, wrapped and unwrapped |
| Tenanted.TenantStore.List | server/internal/store/tenanted/tenanted.go:113-126 | the loop lists the tenant's own records, stripped, in the shared order |
| Tenanted.TenantStore.Update | server/internal/store/tenanted/tenanted.go:128-136 | the wrapper's answer is the shared store's, not-found included |
| Tenanted.TenantStore.Delete | server/internal/store/tenanted/tenanted.go:138-140 | the wrapper's answer is the shared store's |
| Tenanted.OwnStep | server/internal/store/tenanted/tenanted.go:90-140 | every operation is an operation of the tenant's private store with the same answer, sorted lists included |
| Tenanted.OtherStep | server/internal/store/tenanted/tenanted.go:90-140 | no other tenant's private store moves |
| Tenanted.TenantsAreIsolated | server/internal/store/tenanted/tenanted.go:90-140 | over any run of any tenants with colon-free ids, creating, reading, listing, updating and deleting answers each exactly as a store of its own |
| Tenanted.AnswerDetermined | server/internal/store/memory/groups.go:20-66 | a store leaves no choice of answer or of next state |
| Tenanted.IsolationExact | server/internal/store/tenanted/tenanted.go:16-22 | two tenants never disturb each other if and only if neither prefix begins the other |
| Tenanted.NestedTenantLeaks | server/internal/store/tenanted/tenanted.go:18-22 | tenant `a` reads a group of tenant `a::b` |
| Redaction.RedactionIsOfTheSet | server/internal/opa/engine.go:407-420 | redacting path after path is redacting the set of paths |
| Redaction.SegmentsSplit | server/internal/opa/engine.go:407-420 | a path is its dot-free segments joined by dots |
| Redaction.OrderAndRepetitionIrrelevant | server/internal/opa/engine.go:385-391 | lists with the same paths give one result |
| Redaction.ExtraPathsHideMore | server/internal/opa/engine.go:372-384 | tenant additions turn more values into "[REDACTED]" and restore none |
| Redaction.HiddenExactlyWhenListed | server/internal/opa/engine.go:407-420 | a value is logged unchanged when neither its path nor a beginning of it is listed, and otherwise is gone or "[REDACTED]" |
| DecisionLog.JsonMap.RedactPath | server/internal/opa/engine.go:407-420 | in place, on a tree of maps, the tree afterwards is the redacted tree |
| DecisionLog.DeepClone | server/internal/opa/engine.go:424-434 | a fresh tree of maps for any finite input, shared maps included; nothing that existed is written |
| DecisionLog.Write | server/internal/opa/engine.go:367-403 | the input logged is the caller's less the configured paths together with the tenant's, and the policy is scrubbed when either asks for it; no map of the caller changes |
| DecisionLog.TenantPathsHidden | server/internal/opa/engine.go:372-394 | a value at or under a configured or a tenant's path is "[REDACTED]" or gone, and any other is logged as it is |
| Broadcaster.SSEBroadcaster.Send | server/internal/httpapi/sse.go:46-55 | the loop over subscribers is one step of the run: each gets the event if it has a free slot, and no closed channel is sent to |
| Broadcaster.SSEBroadcaster.Unsubscribe | server/internal/httpapi/sse.go:35-43 | one step of the run: the channel is closed once, and not again after a shutdown |
| Broadcaster.SSEBroadcaster.Shutdown | server/internal/httpapi/sse.go:59-66 | the loop is one step of the run: every subscriber is closed once and dropped |
| Broadcaster.SSEBroadcaster.Receive | server/internal/httpapi/sse.go:96-101 | one step of the run: the oldest buffered event goes to the receiver, from a closed channel too |
| Broadcaster.NoPanic | server/internal/httpapi/sse.go:27-66 | in every interleaving no channel is closed twice or sent to when closed, and none holds more than its slots |
| Broadcaster.SubscribedWhenLive | server/internal/httpapi/sse.go:27-66 | the subscribed channels are those made and not unsubscribed or shut down since |
| Broadcaster.Delivery | server/internal/httpapi/sse.go:46-55 | received and buffered events are those sent while subscribed less those that met sixteen waiting ones |
| Broadcaster.ReceivedInOrder | server/internal/httpapi/sse.go:46-55 | they are an in-order subsequence of what was sent, and all of it exactly when none met a full buffer |
| Base64.RoundTrip | server/internal/platform/password/password.go:98-103 | decoding inverts encoding for every byte string |
| Base64.StandardAlphabet | server/internal/platform/password/password.go:98-103 | the symbols are those of the standard alphabet, in order |
| Base64.StandardGroups | server/internal/platform/password/password.go:98-103 | four symbols hold the 24 bits of three bytes, most significant first |
| Base64.DecodeExactly | server/internal/platform/password/password.go:122-128 | decoding fails if and only if a foreign character occurs or the last group has one symbol |
| Phc.PhcRoundTrip | server/internal/platform/password/password.go:97-130 | decodePHC inverts encodePHC for all salts, keys and parameters of their Go types |
| Phc.EncodingInjective | server/internal/platform/password/password.go:97-104 | different hashes have different texts |
| Phc.ParamsRoundTrip | server/internal/platform/password/password.go:118-121 | the scanned parameters are the printed ones |
| Phc.ParamsExactly | server/internal/platform/password/password.go:118-121 | parameters beyond their Go types are an error and are not wrapped |
| Phc.HashText | server/internal/platform/password/password.go:46-54 | the text of a new hash, with its algorithm, version and parameters |
| Phc.OtherFormatsRejected | server/internal/platform/password/password.go:109-117 | another algorithm or another version is not decoded |
| Phc.VerifyAcceptsItsHash | server/internal/platform/password/password.go:46-82 | a stored hash accepts exactly the passwords with the same derived key, and asks for no rehash |
| Phc.RehashExactly | server/internal/platform/password/password.go:70-82 | a matching hash asks for a rehash if and only if a parameter or its key length is not the current one |

## Left out

- HTTP parsing, redirects, templates, JSON encoding, metrics and the SSE wire format: decoded values are inputs.
- Cryptography and randomness: digests, key derivation and WebAuthn verdicts are parameters; random codes, tokens and ids are inputs with explicit freshness or no-collision hypotheses, and key ids are assumed distinct where a theorem says so.
- Text is bytes: a `char` stands for one byte, so folding and trimming cover ASCII only, and names and text are not decoded further.
- The XML tokeniser: decoding is a parameter, a function from text to tokens, and the theorems on meaning ask for names as a namespace-well-formed document gives them. Comments and processing instructions are dropped as the code drops them.
- Byte-for-byte conformance with Exclusive XML Canonicalization 1.0: the code may change prefixes, so meaning is what is proved.
- sort.Slice: modelled as an insertion sort on values; the sorted result is proved unique.
- A flow's fields that no handler assigns are grouped in one immutable value; sessions carry the fields that the grants read or write.
- A WebAuthn user's stored credentials are one opaque text, written by the two finishing handlers; the loop that replaces one credential in them is not modelled.
- Random generators that fail (a notification that then writes nothing) and store errors other than not-found.
- Interleavings of user-record writes, and what tokens contain, the expired_token lifetime included.
- Defensive copies of slices in the stores: records are values.
- Concurrent Append on the audit table, whose read and insert are separate statements; its timestamp column; event filtering in List.
- Tenanted.TenantsAreIsolated: ConsumeAuthCode, DeleteExpired and GetByRefreshToken search the shared store by other keys than the id and are not operations of the model; global e-mail uniqueness is not modelled.
- The credential scrubber's patterns (a function parameter), where a tenant's overrides come from, and lists inside an input, which redaction does not enter.
- Two time readings within one handler are one input; durations that overflow int64 and the zero time as a retirement time are not modelled.
- Non-ASCII spaces in front of a number in a PHC text; bcrypt, whose verdict is an input; the two scanning functions follow the documented behaviour of Go's fmt and encoding/base64 packages, whose source is not part of this model.
- Rego evaluation, personalities, SAML and WS-Fed pages, exports, server wiring: library calls or single-branch claims.
