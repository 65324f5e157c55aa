# Deployment control: the trust registry, host admission and the signed documents

This project models the part of `dotmac_deployment_control` that decides which key speaks for a subject, whether
a host may be admitted, and what a signed document means, and proves what those parts promise.

**The registry** (`TrustRegistry`, `RegistryInvariant`, `RegistryChains`, `RegistryReaders`). Two append-only tables,
enrolments and closures keyed by fingerprint, and a pointer for each subject that says which enrolment is current.
A table is a map from its unique key to the rest of the row, so every value of `Tables` is a set of rows that the
unique keys allow, whoever wrote it; the reader theorems are about all of them, the run theorems about those that
commands reach from empty tables. `RegistrySession` is the same thing as the source writes it: a session object
whose tables are updated row by row inside savepoints, with the locks it takes, each method proved to reach exactly
what the function of the same name says. `HostAttesterEnrolment` is the pure decision over two maps and `Refinement`
shows that the registry answers the same questions.

**Host admission** (`HostAdmissionService`, `HostAdmissionCoordinator`, `HostAdmissionSession`). For each target a
history of host associations and one of admission policies, each with a pointer; a resolver that reads without locks;
a finaliser that locks, re-derives every fact and compares. Between the two, any host, policy or root command may
run on anything, and other code may rewrite targets, credentials and stored dispatches at will. `IntervalStability`
holds the main theorem, `PolicyStaleness` what stays closed for ever and the converse of the main theorem,
`LockScripts` and `LockOrder` the lock order and freedom from deadlock.

**Signed documents** (`CanonicalJson`, `CanonicalDocuments`, `Fields`, `KeyEncoding`, `Images`, `ContextDigest`,
`SignedStatements`, `AuthorizationV3`, `Dispatch`). Canonical bytes with a complete printer and a strict reader
(sections 4 to 7 of RFC 8259 for the values these documents build); keys and digests as text; the canonical image
set; statements as records of typed fields with the real field names; issuing and verifying. Text is a sequence of
code points, surrogates included, as Python strings are.

**The answers, written out** (`RegistryRows`, `HostAdmissionRows`, `AdmissionRows`, `CanonicalForm`, `ImageRows`,
`KeyRows`, `ContextRows`, `StatementRows`, `AuthorizationRows`, `DispatchRows`). The theorems above speak through the
functions that model the code. For every operation these modules say the same in rows, fields and literals: which
check refuses first and with which code, exactly when it succeeds, what is then stored or answered, column by column
and key by key, and that nothing else changed.

What the outside supplies is a parameter: the hash, key digests, signing and verifying, how identifiers and instants
are written as text, the clock (an instant argument), the installed version. A lemma that needs something of them
says so: the verifier accepts what the signer produced, the reader reads back a written instant, the hash tells two
given byte strings apart.

## Where the code and its own words differ

- `fingerprint_standing` is said to mirror the pure function exactly. A current-root row that names another
  fingerprint reads WRONG_HOST in the registry and REGISTRY_DISAGREEMENT in the pure function
  (`Refinement.StandingsDiffer`), and the registry sees an ambiguity that two maps cannot hold
  (`Refinement.AmbiguityDiffers`). `Refinement.StandingExact` says exactly when the two agree; under the invariant
  they always do (`Refinement.StandingRefines`).
- `canonical_json` does not identify every text: a high surrogate code point directly before a low one prints as the
  code point the two encode (`CanonicalDocuments.CanonicalConfusesSurrogates`). A text shares its bytes with no other
  exactly when it has no such pair and no code point beyond the basic plane (`CanonicalDocuments.TextIdentityExact`);
  among texts without such a pair there is no confusion (`CanonicalDocuments.PlainTextsIdentified`). For whole values
  `CanonicalDocuments.CanonicalAlike` is unconditional.
- The finaliser compares association id and policy id but not the association the policy itself binds.
  `PolicyStaleness.FinaliserIgnoresPolicyBinding` shows it; the interval theorem therefore takes a context that the
  resolver made and uses that policy rows never change.
- The finaliser loads the credential by locking that credential's own target, so its locks are in order exactly when
  that target is the context's (`LockOrder.FinaliserClimbs`); a context from the resolver has this. Where credentials
  cross, two finalisers can block each other (`LockOrder.CrossedContextsDeadlock`).
- An image built directly, not read from a mapping, skips the name rules. Such an image is signed, and the signed
  statement does not read back (`AuthorizationV3.IllNamedIsIssued`, and concretely `AuthorizationV3.BlankImageIsIssued`;
  the exact condition is `AuthorizationV3.IssuedRoundTrip`).
- A refused enrolment whose first savepoint is committed after all leaves two open enrolments. Callers are told to roll
  refusals back; where one does not, a context still holds throughout exactly if neither of its subjects was
  enrolled so (`IntervalStability.IntervalStableExact`).

## Model

| member | source | states |
|---|---|---|
| AdmissionRows.AdmitWritten | src/dotmac_deployment_control/host_admission_coordinator.py:593-822 | the finaliser admits if and only if the execution names the context, the presentation is live and verifies under the one credential of its key id, every row is still what the context names, the digest over those rows is the context's, and all ten fields of the evidence report the context, roots field by field |
| AdmissionRows.ResolveWritten | src/dotmac_deployment_control/host_admission_coordinator.py:453-590 | the resolver answers a context if and only if every part of it stands in the rows: the one credential of the key id, in use, its signature and lifetime, the target, the host, the policy for that host, both roots inside their windows, and the stored dispatch |
| IntervalStability.IntervalStable | src/dotmac_deployment_control/host_admission_coordinator.py:525-590 | no ABA: a context resolved in one state and admitted after any events held in every state in between, to the row ids, as long as no refused enrolment of its two subjects is committed; nothing is assumed of the starting tables |
| IntervalStability.IntervalStableExact | src/dotmac_deployment_control/host_admission_coordinator.py:525-590 | that condition is exact: the context held in every state in between if and only if no event half-enrolled one of its subjects |
| IntervalStability.IntervalStableOver | src/dotmac_deployment_control/host_admission_coordinator.py:453-590 | the lock-free resolver may read credential, target, host, policy, each root and the dispatch at eight different points of the run: from the last root read on, all it found held together in every state until the admission |
| PolicyStaleness.UndisturbedIsAdmitted | src/dotmac_deployment_control/host_admission_coordinator.py:593-822 | the converse: events that close none of the four things, half-enrol neither subject and leave the target's, the credential's and the dispatch's own rows alone cannot make an honest admission inside its windows fail |
| PolicyStaleness.StaleForever | src/dotmac_deployment_control/host_admission_coordinator.py:525-531 | once the association a policy binds is closed the policy never resolves again, whatever host id the target returns to |
| PolicyStaleness.OnlyNewPolicyRestores | src/dotmac_deployment_control/host_admission_service.py:491-545 | only a policy row written later serves the target again |
| PolicyStaleness.ClosedAssociationNeverAdmitted | src/dotmac_deployment_control/host_admission_coordinator.py:676-685 | a context whose association was closed at any later point is refused |
| PolicyStaleness.FinaliserIgnoresPolicyBinding | src/dotmac_deployment_control/host_admission_coordinator.py:676-685 | the finaliser never reads which association the policy binds: rewriting that column changes no outcome, so the theorem needs a context from the resolver |
| PolicyStaleness.ReachableBindings | src/dotmac_deployment_control/host_admission_service.py:378-564 | over every run each target has at most one open association and one open policy, named by its pointer, and the readers never report drift or ambiguity |
| LockOrder.ProtocolNeverDeadlocks | src/dotmac_deployment_control/attestation_trust_registry.py:272-311 | any set of concurrent host, policy, registry and finaliser transactions, each however far: waits form no cycle, and while one has locks some transaction can move |
| LockOrder.FinaliserClimbs | src/dotmac_deployment_control/host_admission_coordinator.py:653-690 | the finaliser takes its row locks in the global rank, at every point it can stop, exactly when the credential's own target is the context's target |
| LockOrder.CrossedContextsDeadlock | src/dotmac_deployment_control/service.py:1417-1432 | two finalisers whose contexts name each other's targets by credential, both target rows matching, run as far as they can: once each has its first lock each waits for the other, a cycle of two waits |
| RegistryInvariant.ReachableInv | src/dotmac_deployment_control/attestation_trust_registry.py:71-87 | the invariant holds after every run of commands from empty tables, refusals rolled back |
| RegistryInvariant.CommandKeepsInv | src/dotmac_deployment_control/attestation_trust_registry.py:802-1126 | every committed command keeps: keys match fingerprints, a subject has at most one open enrolment and the current-root row is exactly it, supersedes links and SUPERSEDED closures match one to one inside a subject, links are well founded |
| RegistryInvariant.ReachableReaders | src/dotmac_deployment_control/attestation_trust_registry.py:314-410 | on every reachable state there is no drift, at most one open enrolment, and a root resolves exactly when one is open; ABSENT means nothing is open |
| RegistryInvariant.HalfEnrolmentContained | src/dotmac_deployment_control/attestation_trust_registry.py:834-882 | if an enrolment refused at its second savepoint is committed instead of rolled back, both open fingerprints read REGISTRY_DISAGREEMENT, no root resolves and repair refuses |
| RegistryInvariant.HalfEnrolmentRecovered | src/dotmac_deployment_control/attestation_trust_registry.py:1060-1126 | revoking the extra fingerprint of such an enrolment restores the whole invariant with the original root current |
| RegistryInvariant.RefusalIsClean | src/dotmac_deployment_control/attestation_trust_registry.py:549-557 | a refusal from an invariant state writes nothing but a lock row, except the enrolment refused at its second savepoint |
| RegistryChains.ReachableChains | src/dotmac_deployment_control/attestation_trust_registry.py:802-1126 | on every reachable state each enrolment lies on exactly one chain and both counts balance |
| RegistryChains.Conservation | src/dotmac_deployment_control/attestation_trust_registry.py:1086-1125 | enrolments = closures + (1 if a root is current), and initial enrolments = REVOKED closures + (1 if a root is current) |
| RegistryReaders.ClosedForever | src/dotmac_deployment_control/attestation_trust_registry.py:997-1026 | first closer wins for good: the closure never changes and the fingerprint is never again VALID, resolved, enrolled, rotated from or revoked |
| RegistryReaders.NonInterference | src/dotmac_deployment_control/attestation_trust_registry.py:938-959 | on arbitrary tables, pointers corrupted across subjects included, a committed command leaves every other subject's root and every other subject's fingerprints' standing unchanged |
| RegistryReaders.ResolveExact | src/dotmac_deployment_control/attestation_trust_registry.py:714-756 | on arbitrary tables `resolve_current_root` answers a root exactly when the current-root row names the sole open enrolment of that subject and its fingerprint re-derives from its key, and answers that row |
| RegistryReaders.RefusalExact | src/dotmac_deployment_control/attestation_trust_registry.py:564-613 | on arbitrary tables, exactly which of ABSENT, DISAGREEMENT and DRIFT a subject without root gets |
| RegistryReaders.RepairConverges | src/dotmac_deployment_control/attestation_trust_registry.py:413-475 | on arbitrary tables repair refuses exactly on ambiguity writing only its lock row, or leaves no drift, is idempotent and touches nothing but that subject's pointer |
| RegistryRows.EnrolledResolves | src/dotmac_deployment_control/attestation_trust_registry.py:759-884 | end to end: on a subject without a root, terms that meet the written-out conditions under a new key and id are enrolled, and the root is then answered with just those terms |
| RegistryRows.RotatedResolves | src/dotmac_deployment_control/attestation_trust_registry.py:759-1057 | end to end: a current root is rotated by such terms, and the root is then answered with just those terms |
| RegistryRows.EnrolAnswer | src/dotmac_deployment_control/attestation_trust_registry.py:802-884 | on arbitrary tables, the first check that fails decides the refusal of `enrol_root`, and it succeeds exactly when none does |
| RegistryRows.RotateAnswer | src/dotmac_deployment_control/attestation_trust_registry.py:887-1057 | the same decision list for `rotate_root`, its key, descriptor, custody, race and conflict checks in order |
| RegistryRows.ResolveAnswer | src/dotmac_deployment_control/attestation_trust_registry.py:564-799 | on arbitrary tables, which refusal or which root `resolve_admission_root` answers, column by column |
| Refinement.ReachableRefinement | src/dotmac_deployment_control/host_attester_enrolment.py:857-1001 | both refinements hold after every run from empty tables |
| Refinement.EnrolRefines | src/dotmac_deployment_control/host_attester_enrolment.py:857-971 | on arbitrary tables, `enrol_root` in the host domain succeeds exactly when the pure decision over the two abstracted maps raises nothing |
| Refinement.RotateRefines | src/dotmac_deployment_control/host_attester_enrolment.py:857-971 | the same for `rotate_root` where pointers and links are exact |
| Refinement.StandingExact | src/dotmac_deployment_control/host_attester_enrolment.py:974-1001 | on arbitrary tables, the two standings of a fingerprint are equal exactly when it is unknown, closed, or the current-root row names another fingerprint if and only if several enrolments are open |
| Refinement.StandingsDiffer | src/dotmac_deployment_control/host_attester_enrolment.py:974-1001 | tables where they differ: one open enrolment and a current-root row that names something else |
| Refinement.AmbiguityDiffers | src/dotmac_deployment_control/host_attester_enrolment.py:974-1001 | tables where they differ: two open enrolments, one of them current |
| AuthorizationRows.VerifyAnswer | src/dotmac_deployment_control/authorization_v3.py:1066-1249 | which verdict a parsed V3 envelope gets, as one decision list over its terms, the two approved statuses written as literals and the subject compared term by term |
| AuthorizationRows.SealAnswer | src/dotmac_deployment_control/authorization_v3.py:1029-1060 | how the issue of a mapping that reads ends: the times, the decision (APPROVAL_NOT_STANDING), then the signature |
| AuthorizationRows.IssuedTerms | src/dotmac_deployment_control/authorization_v3.py:992-1034 | what is issued names the installed version, the signing key, the purpose and the digest of the evidence |
| AuthorizationRows.IssuedGiven | src/dotmac_deployment_control/authorization_v3.py:992-1034 | what the caller gave under any other key is what the issued statement says there |
| AuthorizationV3.IssuedVerifies | src/dotmac_deployment_control/authorization_v3.py:1066-1249 | what is issued verifies for its own subject at exactly the instants in [issued_at, expires_at), and elsewhere is refused for what the instant alone gives |
| AuthorizationV3.VerifyExact | src/dotmac_deployment_control/authorization_v3.py:1066-1249 | acceptance in full: signature, times, standing, digest, evidence and every subject term, and nothing else |
| AuthorizationV3.IssueComplete | src/dotmac_deployment_control/authorization_v3.py:926-1060 | every valid, standing statement can be issued: supplying its fields, in any form that reads as them, with the evidence and signer it names gives the statement itself under its own digest |
| AuthorizationV3.IssuedRoundTrip | src/dotmac_deployment_control/authorization_v3.py:997-1034 | the issued statement survives `as_mapping` and parsing exactly when every listed image has well-formed names |
| AuthorizationV3.IllNamedIsIssued | src/dotmac_deployment_control/authorization_v3.py:926-1060 | a statement with an ill-named image, supplied as an object, is issued and does not read back |
| AuthorizationV3.PlanDigestIdentifies | src/dotmac_deployment_control/authorization_v3.py:552-589 | two statements with one re-derived control plan digest are one statement, if the hash tells them apart |
| AuthorizationV3.FinalRederives | src/dotmac_deployment_control/authorization_v3.py:997-1034 | the issued statement carries a digest that re-derives from its own final mapping, the placeholder notwithstanding |
| DispatchRows.DispatchVerdict | src/dotmac_deployment_control/dispatch_envelope.py:367-434 | which verdict a parsed dispatch gets over a parsed authorization, as one decision list |
| DispatchRows.DispatchTaken | src/dotmac_deployment_control/dispatch_envelope.py:317-346 | what a dispatch takes over: thirteen terms under their names, plan id, control version, key id and fingerprint under another name, and the digest of the authorization's envelope |
| DispatchRows.DispatchAnswer | src/dotmac_deployment_control/dispatch_envelope.py:298-364 | how issuing a dispatch ends: another key, the lifetime, the id, then the statement's own checks and the signature |
| Dispatch.DispatchVerifies | src/dotmac_deployment_control/dispatch_envelope.py:298-434 | a dispatch verifies against its authorization at exactly the instants from its issue to the authorization's expiry, of which there is one, and other instants are too early or expired |
| Dispatch.DispatchExact | src/dotmac_deployment_control/dispatch_envelope.py:298-364 | a well-formed authorization can be dispatched exactly by another key, within its lifetime, under a well-formed id and as a positive attempt |
| Dispatch.DispatchBindsOne | src/dotmac_deployment_control/dispatch_envelope.py:414-420 | a dispatch that verifies against one authorization envelope verifies against no other that the hash tells apart |
| Dispatch.DispatchRoundTrip | src/dotmac_deployment_control/dispatch_envelope.py:518-568 | the dispatch survives `as_mapping` and parsing exactly when the authorization's images are well named |
| StatementRows.ParseAnswer | src/dotmac_deployment_control/authorization_v3.py:1302-1366 | a mapping is read as a statement if and only if it has the literal header, the record's keys and no others, every field reads as the statement's value, and the statement has no fault |
| SignedStatements.SignedBytesIdentify | src/dotmac_deployment_control/authorization_v3.py:718-759 | signed bytes are equal exactly for the same statement of the same schema and version |
| SignedStatements.RoundTrip | src/dotmac_deployment_control/authorization_v3.py:1302-1366 | a statement survives `as_mapping` and parsing exactly when its images and component codes are well named |
| CanonicalForm.DocumentSpelt | src/dotmac_deployment_control/foundation_consumption.py:180-198 | the strict reader answers an object exactly for the bytes that spell it with ascending keys, texts without adjacent surrogates and floats under the literals written for them |
| CanonicalForm.CanonicalSpelt | src/dotmac_deployment_control/digests.py:109-118 | canonical bytes are the spelling of the same value with every object's keys ascending |
| CanonicalDocuments.CanonicalIdentifies | src/dotmac_deployment_control/digests.py:109-118 | canonical bytes are equal exactly for equal values, insertion order aside, where no text has a high surrogate directly before a low one |
| CanonicalDocuments.CanonicalAlike | src/dotmac_deployment_control/digests.py:109-118 | for all values and with no condition, exactly which have the same canonical bytes: those that are equal once entries are sorted and adjacent surrogates joined |
| CanonicalDocuments.TextIdentityExact | src/dotmac_deployment_control/digests.py:109-118 | a text shares its canonical bytes with no other text exactly when it has no such pair and no code point beyond the basic plane |
| CanonicalDocuments.DocumentExact | src/dotmac_deployment_control/foundation_consumption.py:180-198 | `_document` accepts exactly the canonical bytes of an object whose texts survive printing and whose floats are written as they would be written again, and answers that object |
| CanonicalDocuments.FloatAccepted | src/dotmac_deployment_control/foundation_consumption.py:180-198 | a float, NaN and the infinities included, stands in an accepted document exactly under the literal that is written for it |
| CanonicalJson.ParsePrinted | src/dotmac_deployment_control/digests.py:109-118 | reading what was printed gives the value back, adjacent surrogates joined, whatever follows it |
| ContextDigest.ContextDigestIdentifies | src/dotmac_deployment_control/digests.py:154-211 | equal context digests mean contexts equal in every coordinate, if the hash tells the preimages apart |
| ContextDigest.AdmittedCoordinate | src/dotmac_deployment_control/host_admission_coordinator.py:725-744 | the finaliser stages only what re-derives to the very coordinate its digest was taken over |
| ImageRows.ImageSetAnswer | src/dotmac_deployment_control/images.py:231-274 | a listing gives this set exactly when every item reads, no service and repository occur twice, the set holds the images listed, and it ascends by service and then by repository |
| Images.PayloadRoundTrip | src/dotmac_deployment_control/images.py:277-308 | payload write then read is the identity exactly on no set and on canonical sets of well-named images |
| Images.OrderIrrelevant | src/dotmac_deployment_control/images.py:231-274 | two permutations of one listing are both refused or give the same result |
| KeyEncoding.AcceptedExact | src/dotmac_deployment_control/digests.py:600-625 | exactly the unpadded base64url texts of non-empty byte strings are accepted (sections 3.2, 3.5 and 5 of RFC 4648) |
| RegistryInvariant.PointerIsOpenSet | src/dotmac_deployment_control/attestation_trust_registry.py:314-348 | under the invariant the current-root row, the set of open enrolments and the derived current fingerprint are the same thing |
| RegistryInvariant.RepairChangesNothing | src/dotmac_deployment_control/attestation_trust_registry.py:413-475 | under the invariant repair writes nothing but its lock row |
| RegistryChains.ChainsCover | src/dotmac_deployment_control/attestation_trust_registry.py:965-1045 | every enrolment lies on a chain that starts at an initial enrolment and ends at a current root or a revoked fingerprint |
| RegistryChains.ChainShape | src/dotmac_deployment_control/attestation_trust_registry.py:965-1045 | a chain repeats nothing, stays inside one subject, and everything before its end is SUPERSEDED |
| RegistryChains.ChainsDisjoint | src/dotmac_deployment_control/attestation_trust_registry.py:965-1045 | two chains that share a fingerprint are the same chain |
| RegistryChains.RotationsMatchClosures | src/dotmac_deployment_control/attestation_trust_registry.py:965-1026 | a subject has as many rotations as SUPERSEDED closures |
| RegistryReaders.ReadersAgree | src/dotmac_deployment_control/attestation_trust_registry.py:314-410 | a resolved root is also the derived one, shows no drift and stands VALID |
| RegistryReaders.ValidExact | src/dotmac_deployment_control/attestation_trust_registry.py:492-561 | `fingerprint_standing` says VALID exactly for the sole open enrolment the current-root row of its own subject names |
| RegistryReaders.AtMostOneValid | src/dotmac_deployment_control/attestation_trust_registry.py:527-561 | two VALID fingerprints of one subject are equal, and the VALID one resolves exactly when its key agrees |
| RegistryReaders.StepsGrow | src/dotmac_deployment_control/attestation_trust_registry.py:71-87 | over any run, refused writes kept or rolled back, enrolments and closures only grow and never change |
| Refinement.StandingRelation | src/dotmac_deployment_control/host_attester_enrolment.py:974-1001 | on arbitrary tables, how registry standing and pure standing relate case by case; registry VALID implies pure VALID |
| Refinement.StandingRefines | src/dotmac_deployment_control/attestation_trust_registry.py:492-561 | where pointers are exact the two standings are equal |
| RegistrySession.Session.LockSubject | src/dotmac_deployment_control/attestation_trust_registry.py:272-298 | creates the lock row once, locks it, touches nothing else |
| RegistrySession.Session.LockAttestationSubjects | src/dotmac_deployment_control/attestation_trust_registry.py:301-311 | locks every listed subject once, in sorted order |
| RegistrySession.Session.InsertEnrolmentRow | src/dotmac_deployment_control/attestation_trust_registry.py:834-864 | one savepoint: enrolment and descriptor both, or a conflict and neither |
| RegistrySession.Session.InsertPointer | src/dotmac_deployment_control/attestation_trust_registry.py:866-882 | the insert of the current-root row, refused when the subject has one |
| RegistrySession.Session.InsertClosure | src/dotmac_deployment_control/attestation_trust_registry.py:997-1026 | the closure insert, refused when the fingerprint has one |
| RegistrySession.Session.MovePointer | src/dotmac_deployment_control/attestation_trust_registry.py:1028-1054 | moves the current-root row only while it still names the superseded fingerprint, and reports how many rows moved |
| RegistrySession.Session.DeletePointerNaming | src/dotmac_deployment_control/attestation_trust_registry.py:1115-1126 | deletes the current-root row only while it names the revoked fingerprint |
| RegistrySession.Session.EnrolRoot | src/dotmac_deployment_control/attestation_trust_registry.py:802-884 | row by row, the command reaches exactly the outcome and tables of the specification, taking its one lock |
| RegistrySession.Session.RotateRoot | src/dotmac_deployment_control/attestation_trust_registry.py:887-1057 | row by row, the same for rotation |
| RegistrySession.Session.RevokeRoot | src/dotmac_deployment_control/attestation_trust_registry.py:1060-1126 | row by row, the same for revocation; an unknown fingerprint takes no lock |
| RegistrySession.Session.Derive | src/dotmac_deployment_control/attestation_trust_registry.py:314-348 | the query over the append-only tables gives the single open enrolment or nothing |
| RegistrySession.Session.RepairCurrentRoot | src/dotmac_deployment_control/attestation_trust_registry.py:413-475 | row by row, the same for repair |
| Locks.SortedSubjectsCorrect | src/dotmac_deployment_control/attestation_trust_registry.py:301-311 | the lock order is strictly increasing and holds exactly the subjects listed |
| Locks.SortedSubjectsCanonical | src/dotmac_deployment_control/attestation_trust_registry.py:301-311 | two listings of the same subjects are locked in the same order |
| HostAdmissionService.HostStays | src/dotmac_deployment_control/host_admission_service.py:125-258 | a current host stays the current host through any command that does not close its association |
| HostAdmissionService.PolicyStays | src/dotmac_deployment_control/host_admission_service.py:260-375 | the same for the current policy |
| HostAdmissionSession.Session.LockTarget | src/dotmac_deployment_control/host_admission_service.py:112-122 | locks the target row exactly when it exists |
| HostAdmissionSession.Session.RequireHostLocked | src/dotmac_deployment_control/host_admission_service.py:148-196 | reads the current host as the specification does, locking the current-host row if there is one |
| HostAdmissionSession.Session.RequirePolicyLocked | src/dotmac_deployment_control/host_admission_service.py:297-324 | the same for the policy |
| HostAdmissionSession.Session.BindTargetHost | src/dotmac_deployment_control/host_admission_service.py:378-408 | field by field, binding reaches exactly the specified outcome, state and locks |
| HostAdmissionSession.Session.RotateTargetHost | src/dotmac_deployment_control/host_admission_service.py:411-437 | the same for rotating the host |
| HostAdmissionSession.Session.RevokeTargetHost | src/dotmac_deployment_control/host_admission_service.py:440-454 | the same for revoking the host |
| HostAdmissionSession.Session.SetTargetAdmissionPolicy | src/dotmac_deployment_control/host_admission_service.py:491-517 | the same for setting a policy |
| HostAdmissionSession.Session.ReviseTargetAdmissionPolicy | src/dotmac_deployment_control/host_admission_service.py:520-545 | the same for revising a policy |
| HostAdmissionSession.Session.RevokeTargetAdmissionPolicy | src/dotmac_deployment_control/host_admission_service.py:548-564 | the same for revoking a policy |
| HostAdmissionSession.Session.LoadCredentialForUpdate | src/dotmac_deployment_control/service.py:1417-1432 | locks the credential's own target, then the credential |
| HostAdmissionSession.Session.LockBindings | src/dotmac_deployment_control/host_admission_coordinator.py:653-682 | target, credential, host and policy are locked in this order up to the point reached, and the facts read are the specified ones |
| HostAdmissionSession.Session.LockSubjects | src/dotmac_deployment_control/host_admission_coordinator.py:686-724 | both attestation subjects are locked in sorted order and the re-derivation from there on is the specified one |
| HostAdmissionSession.Session.RederiveLocked | src/dotmac_deployment_control/host_admission_coordinator.py:653-740 | the whole locked re-derivation gives the specified coordinate or refusal |
| HostAdmissionSession.Session.CompareRoots | src/dotmac_deployment_control/host_admission_coordinator.py:691-724 | roots and stored dispatch are compared as specified, reading only |
| HostAdmissionSession.Session.FindCredential | src/dotmac_deployment_control/service.py:302-305 | the credential of a key id, when there is exactly one |
| HostAdmissionSession.Session.AdmitAndConsume | src/dotmac_deployment_control/host_admission_coordinator.py:593-822 | up to the staging call the finaliser gives the specified answer, changes only lock rows and takes the specified locks |
| IntervalStability.ResolveAtOnce | src/dotmac_deployment_control/host_admission_coordinator.py:453-590 | when all eight reads happen at the start that resolver is the one that reads a single state |
| IntervalStability.HalfEnrolmentDisturbs | src/dotmac_deployment_control/attestation_trust_registry.py:834-882 | a refused enrolment that is committed takes the subject's admission root away |
| IntervalStability.RolledBackHasNone | src/dotmac_deployment_control/attestation_trust_registry.py:71-87 | where refusals are rolled back nothing is half-enrolled |
| IntervalStability.HoldsThroughout | src/dotmac_deployment_control/host_admission_coordinator.py:653-724 | what is still unclosed at the end of a run held all along |
| IntervalStability.ResolveEstablishes | src/dotmac_deployment_control/host_admission_coordinator.py:453-590 | a resolved context is what the state resolves to, the policy's own association included |
| IntervalStability.AdmitShows | src/dotmac_deployment_control/host_admission_coordinator.py:680-724 | a successful re-derivation shows that none of the four things named was closed |
| IntervalStability.RootStays | src/dotmac_deployment_control/attestation_trust_registry.py:759-799 | an admission root stays the same through any registry command on any subject, its refusal kept or not, that neither closes it nor half-enrols its subject |
| LockOrder.HostCommandClimbs | src/dotmac_deployment_control/host_admission_service.py:112-147 | every host and policy command takes its row locks in the global rank |
| LockOrder.RegistryCommandClimbs | src/dotmac_deployment_control/attestation_trust_registry.py:272-311 | every registry command does |
| LockOrder.ResolvedFinaliserClimbs | src/dotmac_deployment_control/host_admission_coordinator.py:453-590 | so it takes them in rank for a context from the resolver while the credential still names the same target |
| LockOrder.NoWaitCycle | src/dotmac_deployment_control/attestation_trust_registry.py:301-311 | transactions that take locks in rank never wait in a cycle |
| LockOrder.SomeoneCanMove | src/dotmac_deployment_control/attestation_trust_registry.py:301-311 | while any of them has locks to take, some transaction can move |
| CanonicalDocuments.CanonicalConfusesSurrogates | src/dotmac_deployment_control/digests.py:109-118 | without that condition two different texts have the same canonical bytes |
| CanonicalDocuments.PlainTextsIdentified | src/dotmac_deployment_control/digests.py:109-118 | among texts without such a pair, canonical bytes identify the text |
| CanonicalDocuments.PrintAlike | src/dotmac_deployment_control/digests.py:109-118 | exactly which values print alike with their entries in the order given |
| CanonicalDocuments.InsertionOrderIrrelevant | src/dotmac_deployment_control/digests.py:109-118 | the insertion order of keys does not reach the bytes |
| CanonicalDocuments.UniquePairs | src/dotmac_deployment_control/foundation_consumption.py:184-190 | the pairs hook refuses exactly on a repeated key and otherwise builds the dictionary |
| Fields.DocIdentifies | src/dotmac_deployment_control/digests.py:109-118 | two documents over the real field names have the same canonical bytes exactly when they agree field by field |
| Fields.ReadDoc | src/dotmac_deployment_control/digests.py:109-118 | a mapping written as a document reads back as itself |
| KeyEncoding.EncodedIsAccepted | src/dotmac_deployment_control/host_admission.py:329-352 | every non-empty byte string of any length has one accepted text and no other, of the expected length |
| KeyEncoding.FoundationKeyExact | src/dotmac_deployment_control/host_admission.py:281-290 | the conversion succeeds exactly for an accepted key with its own fingerprint |
| KeyEncoding.FoundationKeyInjective | src/dotmac_deployment_control/host_admission.py:281-290 | the padded form (section 4 of RFC 4648) identifies key and fingerprint |
| KeyEncoding.FingerprintIdentifiesKey | src/dotmac_deployment_control/digests.py:600-625 | keys that the hash tells apart have different fingerprints |
| KeyEncoding.DigestSpellings | src/dotmac_deployment_control/digests.py:222-299 | a digest has exactly one accepted spelling, and exactly one more where the legacy form is allowed |
| ContextDigest.PresentationDigestIdentifies | src/dotmac_deployment_control/digests.py:142-151 | equal presentation digests mean the same statement and the same signature |
| Images.AuthorizedImageSet | src/dotmac_deployment_control/images.py:231-274 | the loop over `seen` and the sort compute the specified set, refusal or absence |
| Images.SetExact | src/dotmac_deployment_control/images.py:231-274 | an accepted listing comes out strictly sorted, one entry for each service and repository, holding exactly the images listed |
| Images.SetFixedPoint | src/dotmac_deployment_control/images.py:231-274 | an accepted set is a fixed point |
| Images.CanonicalExact | src/dotmac_deployment_control/authorization_v3.py:691-698 | the check a statement makes of its images passes exactly on canonical sets |
| Images.EqualIffSameImages | src/dotmac_deployment_control/images.py:231-274 | two results are equal exactly when the listings hold the same images |
| Images.ImageRoundTrip | src/dotmac_deployment_control/images.py:149-200 | a written image reads back exactly when its names are well formed |
| Images.ReadIsStorable | src/dotmac_deployment_control/images.py:286-308 | whatever was read is written and read back unchanged |
| Images.PayloadIdentifies | src/dotmac_deployment_control/images.py:277-283 | payloads tell sets apart, and nothing declared from the empty set |
| SignedStatements.PlainTermsExact | src/dotmac_deployment_control/authorization_v3.py:718-759 | what a statement writes survives printing exactly when its own texts, codes, image names and instants hold no high surrogate directly before a low one |
| SignedStatements.RosterExact | src/dotmac_deployment_control/authorization_v3.py:663-684 | the roster check passes exactly on non-empty strictly increasing rosters |
| SignedStatements.FaultFree | src/dotmac_deployment_control/authorization_v3.py:623-716 | what a statement that passes its own checks guarantees |
| AuthorizationV3.IssueEnvelope | src/dotmac_deployment_control/authorization_v3.py:926-1060 | the step-by-step issuance, overwriting the provisional mapping, gives the specified envelope or refusal |
| AuthorizationV3.RenderTimes | src/dotmac_deployment_control/authorization_v3.py:992-995 | the loop turns instants under the three time fields into text and leaves everything else |
| AuthorizationV3.PreimageIgnoresDigest | src/dotmac_deployment_control/authorization_v3.py:844-887 | the digest field does not reach its own preimage |
| AuthorizationV3.ReadAgain | src/dotmac_deployment_control/authorization_v3.py:1029-1034 | parsing again with another digest gives the same statement with that digest |
| AuthorizationV3.WindowExact | src/dotmac_deployment_control/authorization_v3.py:1105-1131 | for a statement without fault the instants split at evaluated_at, issued_at, expires_at and valid_until into FUTURE_DATED, NOT_YET_VALID, accepted, EXPIRED and EVIDENCE_EXPIRED |
| AuthorizationV3.MismatchExact | src/dotmac_deployment_control/authorization_v3.py:1159-1249 | a mismatching subject is refused with the code of the first term that differs |
| AuthorizationV3.JsonSupplies | src/dotmac_deployment_control/authorization_v3.py:926-1060 | a readable statement's fields as JSON values are such a form |
| AuthorizationV3.ObjectsSupply | src/dotmac_deployment_control/authorization_v3.py:926-1060 | with the images as objects, whatever their names, they are such a form too |
| AuthorizationV3.AnyImagesIssued | src/dotmac_deployment_control/authorization_v3.py:926-1060 | any issuable statement into which a canonical set with an ill-named image is put is issued and does not read back |
| AuthorizationV3.BlankImageIsIssued | src/dotmac_deployment_control/authorization_v3.py:926-1060 | a concrete one: an image with an empty service name is signed and its statement does not read back |
| AuthorizationV3.ValidStatementExists | src/dotmac_deployment_control/authorization_v3.py:623-716 | there are statements that pass every check, so the theorems about them are about something |
| AuthorizationV3.IssuedBinds | src/dotmac_deployment_control/authorization_v3.py:947-1020 | the statement binds the presented evidence: digest, times and exactly its component codes, and no derived field was supplied |
| Dispatch.IssueAuthorization | src/dotmac_deployment_control/authorization.py:389-443 | the step-by-step V2 issuance gives the specified envelope or refusal |
| Dispatch.IssuedIsAuthentic | src/dotmac_deployment_control/authorization.py:389-443 | what V2 issues is well formed, standing and accepted by the agreeing verifier |
| Dispatch.StatementBinds | src/dotmac_deployment_control/dispatch_envelope.py:317-346 | the dispatch statement says exactly what the authorization and the signer say |
| Dispatch.EnvelopeIdentified | src/dotmac_deployment_control/authorization.py:367-372 | envelope bytes are equal exactly for the same statement and signature |
| RegistryRows.DescriptorExact | src/dotmac_deployment_control/attestation_trust_registry.py:174-208 | which fault descriptor terms have: the purpose must be the literal one of the domain's literal name, issuer and key id not empty and not padded, and the window must end after the enrolment |
| RegistryRows.CustodyExact | src/dotmac_deployment_control/host_attester_enrolment.py:441-472 | a custody pointer is at most 512 characters beginning `bao://`, with no blank at either end and no space or line break inside |
| RegistryRows.EnrolRows | src/dotmac_deployment_control/attestation_trust_registry.py:834-884 | the rows of a successful enrolment, column by column, and that no other row of any table changes |
| RegistryRows.RotateRows | src/dotmac_deployment_control/attestation_trust_registry.py:965-1057 | the rows of a successful rotation: the SUPERSEDED closure, the successor with its link, the moved current-root row |
| RegistryRows.RevokeRows | src/dotmac_deployment_control/attestation_trust_registry.py:1060-1126 | the answer of `revoke_root` and its rows: the closure, and the current-root row deleted only when it named the fingerprint |
| RegistryRows.RepairRows | src/dotmac_deployment_control/attestation_trust_registry.py:413-475 | the answer of `repair_current_root` and its rows |
| RegistryRows.StandingAnswer | src/dotmac_deployment_control/attestation_trust_registry.py:492-561 | on arbitrary tables, which standing a fingerprint has, as one decision list over rows |
| RegistryRows.ReconcileAnswer | src/dotmac_deployment_control/attestation_trust_registry.py:365-410 | no drift means that nothing is open and no current-root row is there, or that the row names the one open enrolment |
| Refinement.EvaluateAnswer | src/dotmac_deployment_control/host_attester_enrolment.py:857-971 | which of its ten refusals the pure decision answers over the maps the tables give, in the order of its checks |
| Refinement.PureStandingAnswer | src/dotmac_deployment_control/host_attester_enrolment.py:974-1001 | which standing the pure function answers over those maps, as one decision list over rows |
| HostAdmissionRows.HostAnswer | src/dotmac_deployment_control/host_admission_service.py:148-258 | on arbitrary tables, which refusal or which association the current-host reader answers |
| HostAdmissionRows.PolicyAnswer | src/dotmac_deployment_control/host_admission_service.py:297-375 | the same for the current policy |
| HostAdmissionRows.BindRows | src/dotmac_deployment_control/host_admission_service.py:378-408 | the answer of `bind_target_host` in the order of its checks and, when it succeeds, its rows |
| HostAdmissionRows.RotateHostRows | src/dotmac_deployment_control/host_admission_service.py:411-437 | the same for `rotate_target_host`: the old association closed as SUPERSEDED, the pointer moved |
| HostAdmissionRows.RevokeHostRows | src/dotmac_deployment_control/host_admission_service.py:440-454 | the same for `revoke_target_host` |
| HostAdmissionRows.SetPolicyRows | src/dotmac_deployment_control/host_admission_service.py:457-517 | the same for `set_target_admission_policy`: the stored policy, text by text, for the current association |
| HostAdmissionRows.RevisePolicyRows | src/dotmac_deployment_control/host_admission_service.py:520-545 | the same for `revise_target_admission_policy` |
| HostAdmissionRows.RevokePolicyRows | src/dotmac_deployment_control/host_admission_service.py:548-564 | the same for `revoke_target_admission_policy` |
| HostAdmissionRows.BoundIsRead | src/dotmac_deployment_control/host_admission_service.py:148-408 | end to end: a target without associations is bound, and its current host is then just what was bound |
| HostAdmissionRows.SetIsRead | src/dotmac_deployment_control/host_admission_service.py:297-517 | end to end: a bound target without policies is given one, and its current policy is then just what was set, for its current association |
| AdmissionRows.ResolveUnknown | src/dotmac_deployment_control/host_admission_coordinator.py:472-479 | no credential with its terms has the key id alone: authentication fails |
| AdmissionRows.ResolveRefusal | src/dotmac_deployment_control/host_admission_coordinator.py:453-590 | under a known credential, the first check that fails decides the resolver's refusal |
| AdmissionRows.AdmitUnknown | src/dotmac_deployment_control/host_admission_coordinator.py:632-644 | no credential with its terms has the key id alone: authentication fails |
| AdmissionRows.AdmitRefusal | src/dotmac_deployment_control/host_admission_coordinator.py:593-822 | under a known credential, the first check that fails decides the finaliser's refusal |
| AdmissionRows.HoldsWritten | src/dotmac_deployment_control/host_admission_coordinator.py:653-724 | what holding throughout an interval means for a coordinate, in rows |
| CanonicalForm.SortedAscends | src/dotmac_deployment_control/digests.py:109-118 | sorting a dictionary puts the keys of every object, nested ones included, in ascending order of code points: a proper prefix first, otherwise the smaller code point at the first difference |
| CanonicalForm.AscendingIsSorted | src/dotmac_deployment_control/digests.py:109-118 | what ascends already is left as it is |
| CanonicalForm.PrintSpelt | src/dotmac_deployment_control/digests.py:109-118 | printing is the spelling that the separators, escapes, digits and names give, written out apart from the printer |
| CanonicalForm.DigitBytes | src/dotmac_deployment_control/foundation_consumption.py:180-198 | the digits of a float literal are the ten decimal ones |
| CanonicalForm.TwoKeysSpelt | src/dotmac_deployment_control/digests.py:109-118 | an object of two keys comes out in order, whichever was inserted first |
| Texts.LessExact | src/dotmac_deployment_control/digests.py:109-118 | the order of keys: before another means a proper prefix of it, or the smaller code point where they first differ |
| KeyRows.Alphabets | src/dotmac_deployment_control/host_admission.py:281-290 | the characters of the two alphabets, which differ in the last two |
| KeyRows.CutAnswer | src/dotmac_deployment_control/host_admission.py:329-352 | four groups of six bits are the twenty-four bits of three bytes |
| KeyRows.EncodeAnswer | src/dotmac_deployment_control/host_admission.py:329-352 | the unpadded text of any bytes, three at a time, written out |
| KeyRows.FingerprintAnswer | src/dotmac_deployment_control/digests.py:600-625 | a key text has a fingerprint exactly when it is the text of some bytes, and it is the digest text of their hash |
| KeyRows.FoundationAnswer | src/dotmac_deployment_control/host_admission.py:281-290 | the conversion gives the padded text of the key's bytes exactly when the fingerprint is that key's |
| KeyRows.PaddedDecodes | src/dotmac_deployment_control/host_admission.py:281-290 | the padded text decodes to the bytes under the standard alphabet |
| KeyRows.PaddedSize | src/dotmac_deployment_control/host_admission.py:281-290 | it has four characters for every three bytes begun |
| KeyRows.PaddedChars | src/dotmac_deployment_control/host_admission.py:281-290 | at most the last two characters are padding, and none is one of the two that only the URL-safe alphabet has |
| KeyRows.DigestAnswer | src/dotmac_deployment_control/digests.py:362-364 | a digest is written as the name of the hash, a colon and two lower-case hexadecimal digits for each byte |
| ContextRows.StatementHeader | src/dotmac_deployment_control/host_admission.py:96-113 | which eleven entries a presentation's statement has, and the four that are fixed |
| ContextRows.StatementEntries | src/dotmac_deployment_control/host_admission.py:96-113 | and the seven it says |
| ContextRows.PresentationEntries | src/dotmac_deployment_control/digests.py:142-151 | the presentation is that statement with its signature, and its digest the hash of the canonical bytes |
| ContextRows.RootNames | src/dotmac_deployment_control/host_admission_coordinator.py:370-374 | the entries of a root under their literal names: whose it is and what it is for |
| ContextRows.RootKey | src/dotmac_deployment_control/host_admission_coordinator.py:370-374 | and its window, its key and its standing |
| ContextRows.ContextDispatch | src/dotmac_deployment_control/host_admission_coordinator.py:377-427 | the entries of a context under their literal names: the header, the presentation and the dispatch |
| ContextRows.ContextCredential | src/dotmac_deployment_control/host_admission_coordinator.py:377-427 | the credential |
| ContextRows.ContextBinding | src/dotmac_deployment_control/host_admission_coordinator.py:377-427 | the association, the policy and both roots |
| ContextRows.ContextEntries | src/dotmac_deployment_control/host_admission_coordinator.py:377-427 | those entries all stand in the context |
| ContextRows.ContextSize | src/dotmac_deployment_control/digests.py:154-211 | there are twenty and no others, and the digest is the hash of the canonical bytes |
| ImageRows.ImageAnswer | src/dotmac_deployment_control/images.py:92-200 | a mapping reads as an image exactly when it is the object of that image's three texts, its names well formed |
| ImageRows.ListableExact | src/dotmac_deployment_control/images.py:231-274 | and gives none exactly when an item does not read or a pair occurs twice |
| StatementRows.V2Record | src/dotmac_deployment_control/authorization.py:211-239 | the schema, version, purpose and fields of a V2 authorization, all of them |
| StatementRows.V3Record | src/dotmac_deployment_control/authorization_v3.py:581-621 | those of a V3 authorization |
| StatementRows.DispatchRecord | src/dotmac_deployment_control/dispatch_envelope.py:126-152 | those of a dispatch |
| StatementRows.WriteAnswer | src/dotmac_deployment_control/authorization_v3.py:718-756 | how a field of each type is written |
| StatementRows.TermUnder | src/dotmac_deployment_control/authorization_v3.py:718-756 | every field stands under its own key, written so |
| StatementRows.HeaderUnder | src/dotmac_deployment_control/authorization_v3.py:718-756 | schema and version stand under theirs |
| StatementRows.MappingSize | src/dotmac_deployment_control/authorization_v3.py:718-756 | and there are no other entries |
| StatementRows.ReadAnswer | src/dotmac_deployment_control/authorization_v3.py:1302-1366 | a field is read as a value exactly when the input reads as it and it has the field's type |
| StatementRows.ParseRefusal | src/dotmac_deployment_control/authorization_v3.py:1302-1366 | which refusal any other mapping earns, in the order of the checks |
| StatementRows.TextFaultAnswer | src/dotmac_deployment_control/authorization_v3.py:623-661 | which fault the texts of a statement have, in order: bounded, purpose, digests |
| StatementRows.OtherFaultAnswer | src/dotmac_deployment_control/authorization_v3.py:663-716 | which other fault it has, in order: roster, count, images, times |
| StatementRows.FaultAnswer | src/dotmac_deployment_control/authorization_v3.py:623-716 | faults of texts come before all others |
| AuthorizationRows.IdentityAnswer | src/dotmac_deployment_control/authorization_v3.py:1066-1100 | the key identity a statement is verified under is the one it names |
| AuthorizationRows.VerifiedIsApproved | src/dotmac_deployment_control/authorization_v3.py:1252-1258 | what is verified has the status `granted` or `approval_exempt` |
| AuthorizationRows.SubjectAnswer | src/dotmac_deployment_control/authorization_v3.py:1159-1249 | the first term of the subject that differs decides the refusal, and which code it is |
| AuthorizationRows.IssueGuards | src/dotmac_deployment_control/authorization_v3.py:926-990 | what is checked before anything is read, in order: the evidence's signature, the roster asked for, the roster the evidence has, then derived fields the caller supplied |
| AuthorizationRows.ProvisionalBound | src/dotmac_deployment_control/authorization_v3.py:997-1013 | the keys Control writes into the mapping, whatever the caller gave |
| AuthorizationRows.ProvisionalGiven | src/dotmac_deployment_control/authorization_v3.py:992-1000 | everything else in it is the header and the caller's fields, instants under the three time keys written as text |
| AuthorizationRows.RenderedAnswer | src/dotmac_deployment_control/authorization_v3.py:992-995 | which instants are written as text |
| AuthorizationRows.SignAnswer | src/dotmac_deployment_control/authorization_v3.py:1044-1060 | how signing ends: another identity, no signature, an unbounded one, or the envelope |
| AuthorizationRows.SealUnread | src/dotmac_deployment_control/authorization_v3.py:1029-1034 | a mapping that is no statement is refused for what it lacks |
| AuthorizationRows.IssuedIsApproved | src/dotmac_deployment_control/authorization_v3.py:1029-1060 | what is issued has one of the two approved statuses |
| AuthorizationRows.PlanPreimage | src/dotmac_deployment_control/authorization_v3.py:844-887 | the control plan digest is taken over every entry of the mapping but its own |
| DispatchRows.V2Answer | src/dotmac_deployment_control/authorization.py:446-491 | which verdict a parsed V2 envelope gets, as one decision list |
| DispatchRows.IssueV2Answer | src/dotmac_deployment_control/authorization.py:389-443 | how issuing a V2 authorization ends, in the order of its checks, APPROVAL_NOT_STANDING included |
| DispatchRows.ProvisionalV2Bound | src/dotmac_deployment_control/authorization.py:410-425 | the keys Control writes into the V2 mapping |
| DispatchRows.ProvisionalV2Given | src/dotmac_deployment_control/authorization.py:405-425 | and that the rest is the header and the caller's fields |
| DispatchRows.V2IsApproved | src/dotmac_deployment_control/authorization.py:483-491 | what V2 verifies has one of the two approved statuses |
| DispatchRows.IssuedV2IsApproved | src/dotmac_deployment_control/authorization.py:483-491 | what V2 issues has one of the two approved statuses |
| DispatchRows.EnvelopeUnder | src/dotmac_deployment_control/authorization.py:367-372 | an envelope is the object of the statement's mapping and the signature, and nothing else |
| DispatchRows.DispatchOwn | src/dotmac_deployment_control/dispatch_envelope.py:317-346 | what it says of itself: id, attempt, instant and installed version |
| DispatchRows.DispatchKey | src/dotmac_deployment_control/dispatch_envelope.py:317-346 | and of the key that signs it |
| DispatchRows.BindsAnswer | src/dotmac_deployment_control/dispatch_envelope.py:437-515 | the two projections agree if and only if those seventeen terms and that digest do, term by term |
| TrustRegistry.EnrolEffect | src/dotmac_deployment_control/attestation_trust_registry.py:802-884 | `enrol_root` succeeds exactly on well-formed terms whose fingerprint and id are new and whose subject has no current root, and then changes precisely the enrolment, descriptor, pointer and lock rows |
| TrustRegistry.RotateEffect | src/dotmac_deployment_control/attestation_trust_registry.py:887-1057 | `rotate_root` succeeds exactly when the named fingerprint is open, current for the very subject and not yet succeeded, and then closes it as SUPERSEDED, adds the successor and moves the current-root row |
| TrustRegistry.RevokeEffect | src/dotmac_deployment_control/attestation_trust_registry.py:1060-1126 | `revoke_root` succeeds exactly on an enrolled fingerprint without closure; the closure is added and the current-root row removed only if it named that fingerprint |
| TrustRegistry.RepairEffect | src/dotmac_deployment_control/attestation_trust_registry.py:413-475 | `repair_current_root` succeeds exactly when at most one enrolment is open and then sets the current-root row to what the append-only tables give |
| TrustRegistry.EnrolRefusal | src/dotmac_deployment_control/attestation_trust_registry.py:834-882 | what a refused `enrol_root` leaves in the transaction: nothing, the lock row, or the enrolment whose pointer insert was refused |
| TrustRegistry.RotateRefusal | src/dotmac_deployment_control/attestation_trust_registry.py:965-1026 | a refused `rotate_root` leaves more than its lock row only if the current-root row named a fingerprint that was already closed |
| HostAdmissionService.AppliedGrows | src/dotmac_deployment_control/host_admission_service.py:378-587 | associations, policies and their closures only grow, and none of their rows changes |
| Dispatch.OwnKeyRefused | src/dotmac_deployment_control/dispatch_envelope.py:300-304 | issuing is refused for key reuse exactly when the dispatch key is the authorization's key |

## Left out

- HostAdmissionSession.Session.AdmitAndConsume: stops at the staging call; the plan and rollout locks taken after it and the consumption ledger are not modelled.
- LockOrder.NoWaitCycle: covers the explicit row locks; waits on unique-index entries between two inserting transactions are not modelled.
- TrustRegistry.EnrolEffect: a primary key that is already taken is a refusal like any other conflict, so ids are not assumed fresh; column lengths and database type errors are not modelled.
- IntervalStability.IntervalStableOver: each single read of the resolver, and each host or root command, is one step; the few statements inside one of them are not taken apart, and writing commands are kept apart by their subject or target lock.
- Refinement.EnrolRefines: asks that the new row id is not taken, since the pure decision knows no row ids.
- CanonicalDocuments.DocumentExact: the reader refuses whitespace and raw non-ASCII bytes outright, where the source refuses them after reading, because they do not print back; a float is the literal written for it, and which literal that is, is a parameter; the reader's limits on nesting depth and on integers over 4300 digits are not modelled.
- AuthorizationV3.IssueEnvelope: takes the health-evidence document already parsed, with its bytes, times, codes and the verdict on its signature.
- AuthorizationV3.VerifyExact: is about parsed envelopes; a mapping is parsed first, and a key that is no field of any document is refused before that.
- Dispatch.DispatchVerifies: is about parsed envelopes; that parsing reports digest and image faults as malformed is not modelled.
- Instants are integers; naive datetimes, time zones and the ISO grammar are not modelled.
- Refusal texts: only the codes are kept.
- The purpose and identity type checks on injected signer and verifier objects.
- The signed enrolment statement of `host_attester_enrolment.py` and its issue and verify pair: the same pattern as dispatch.
- The presentation's own parser and the check of the Foundation execution pair, which enters as three compared terms.
- V1 authorizations, execution observations, recovery grants, rehearsals, `service.py` beyond the two credential lookups, migrations and row-level security.
