# Ente: SRP server, emergency-recovery guards and the album share drawer

This project models three parts of the Ente photo service and proves
properties about them.

- **SRP-6a server** (`server/pkg/srp/server.go`). This is the server side of the
  password-authenticated key exchange. `NewServer` derives the public value B from
  the verifier v and the secret b. `SetA` takes the client's A and derives the
  scrambler u, the premaster secret S, the session key K and the proofs M1 and M2.
  `CheckM1` releases M2 only to a client that presents the same M1. `ComputeK`
  returns K. The proofs show two things. The decoded B is B = (k·v + g^b) mod N
  (section 2.5.3 of RFC 5054). The decoded S is S = (A·v^u)^b mod N (section 2.6
  of RFC 5054).
- **Emergency recovery** (`server/pkg/controller/emergency/recovery_contact.go`).
  `StartRecovery`, `RejectRecovery` and `StopRecovery` each run two identity
  checks in a fixed order. Then they call the repository. The repository is a
  class holding the active contact pairs, the recovery rows and a log of the calls
  made to it.
- **Album share drawer** (`web/apps/photos/src/components/Collections/CollectionShare.tsx`).
  This covers:
  - public-link expiry and the expiry choices;
  - the password gate of the public link;
  - the candidate e-mail list and the `collectionShare` loop;
  - the multi-select toggle and the avatar overflow counter;
  - the role-change no-op and the collaborator/viewer lists;
  - the mapping from sharing errors to messages.

Modules:

| Module | File | Contents |
|---|---|---|
| `Wrappers` | `wrappers.dfy` | `Option` and `Result` |
| `ModArith` | `modarith.dfy` | Modular exponentiation and its congruence lemmas |
| `ByteCodec` | `bytecodec.dfy` | A big-endian byte codec |
| `Srp` | `srp.dfy` | The SRP server |
| `Recovery` | `recovery.dfy` | The recovery controller |
| `SharingErrors` | `sharing_errors.dfy` | Sharing errors and their messages |
| `ShareLink` | `share_link.dfy` | Public-link rules |
| `Sharees` | `sharees.dfy` | E-mail sharing rules |

Some effects are outside the model. They enter as parameters:

| Effect | Parameter |
|---|---|
| Clock | `nowMs`; for the expiry change, `renderMs` (options rendered) and `setMs` (value written) |
| Calendar arithmetic of `Date` | `calendar` |
| Key derivation | `deriveInteractiveKey` |
| Fresh salt | `salt` |
| Result of a remote sharing call | `shareOutcome` |
| Remote request failure | `remoteError` |
| Database failure | `dbError` |
| Id of a new recovery row | `newId` |

The SRP hash and byte helpers are fields of a `Primitives` value and are left
uninterpreted. The server's arithmetic needs one fact from them: `intFromBytes`
undoes `padToN` below N. `Srp.BigEndianRoundTrips` shows that a big-endian codec
padding to the length of N has this property.

Where the code behaves as follows, the model does the same:

- The password form sets `passwordEnabled` even when the remote request fails.
  `updatePublicShareURLHelper` catches the failure and only records a message.
- The expiry change writes `validTill` even when the remote request fails, for
  the same reason.
- `serverGetS` rejects an A outside 1..N−1, which is stricter than section 2.5.4
  of RFC 5054. That section only requires A mod N ≠ 0.
  `Srp.GuardStricterThanRfc` exhibits A = N + 1. The code panics on such an A;
  the model returns an error.

## Model

| member | source | states |
|---|---|---|
| Srp.GetB | server/pkg/srp/server.go:98-112 | Decoded, the padded value is B = (k·v + g^b) mod N and lies below N. |
| Srp.ServerGetS | server/pkg/srp/server.go:76-96 | Succeeds exactly when 0 < A < N, and otherwise fails with the invalid-A error. On success the decoded result is the premaster secret (A·v^u)^b mod N, below N. |
| Srp.SecretMatchesRfc | server/pkg/srp/server.go:83-93 | Reducing v^u mod N before multiplying by A and exponentiating gives the same residue as the unreduced formula (A·v^u)^b mod N. |
| Srp.GuardStricterThanRfc | server/pkg/srp/server.go:77-81 | For N > 1, A = N + 1 has A mod N ≠ 0, so it passes the RFC check, yet `serverGetS` rejects it. |
| Srp.GuardImpliesRfcCheck | server/pkg/srp/server.go:77-81 | Every A the guard accepts has A mod N ≠ 0. |
| Srp.BigEndianRoundTrips | server/pkg/srp/server.go:95 | A big-endian `padToN`/`intFromBytes` pair round-trips every value below N whenever N fits in the padded length. |
| ByteCodec.IntFromPadTo | server/pkg/srp/server.go:41 | Padding x < 256^len to len big-endian bytes and decoding gives back x. |
| Srp.SrpServer.NewServer | server/pkg/srp/server.go:23-38 | Stores the decoded verifier and secret. B is the decoded `getB` result, equal to (k·v + g^b) mod N. M1, M2, K, u and s start empty. |
| Srp.SrpServer.ComputeB | server/pkg/srp/server.go:40-42 | Returns PAD(B), which decodes back to B. |
| Srp.SrpServer.SetA | server/pkg/srp/server.go:44-57 | An invalid A fails and leaves M1, M2, K, u and s unchanged. A valid A sets K = getK(S), M1 = getM1(A, PAD(B), S), M2 = getM2(A, M1, K), u and s. S is `serverGetS` with u = getu(A, B). v, b and the parameters are unchanged. |
| Srp.SrpServer.CheckM1 | server/pkg/srp/server.go:59-68 | Succeeds exactly when the client's M1 equals the stored M1, and then returns M2. A length difference is the length error carrying both lengths. Equal length with different bytes is the password error. |
| Srp.SrpServer.ComputeK | server/pkg/srp/server.go:70-72 | Returns the stored session key K. |
| Srp.HonestExchange | server/pkg/srp/server.go:23-72 | A fresh server accepts A exactly when 0 < A < N. When it does, presenting its own M1 yields getM2(A, M1, K), and K = getK(S) for the RFC secret S. |
| Recovery.StartGuard | server/pkg/controller/emergency/recovery_contact.go:13-18 | Contact equal to user gives the bad-request error first. Otherwise the call passes exactly when the actor is the emergency contact; if not, permission is denied. |
| Recovery.RejectGuard | server/pkg/controller/emergency/recovery_contact.go:39-44 | Contact equal to user gives the bad-request error first. Otherwise the call passes exactly when the caller is the account owner; if not, permission is denied. |
| Recovery.StopGuard | server/pkg/controller/emergency/recovery_contact.go:59-64 | Contact equal to user gives the bad-request error first. Otherwise the call passes exactly when the caller is the emergency contact; if not, permission is denied. |
| Recovery.WithStatus | server/pkg/controller/emergency/recovery_contact.go:45 | Changes the status of row `id` only. The key set and every other row are unchanged. |
| Recovery.RecoveryStore.GetActiveEmergencyContact | server/pkg/controller/emergency/recovery_contact.go:20-23 | Logs the lookup. Succeeds exactly when the pair is an active contact; otherwise returns not found. |
| Recovery.RecoveryStore.InsertIntoRecovery | server/pkg/controller/emergency/recovery_contact.go:25-32 | Logs the insert. A database error is returned and changes nothing. Otherwise a waiting row is added exactly when the pair has no waiting recovery, and `hasUpdate` says whether it was added. |
| Recovery.RecoveryStore.UpdateRecoveryStatusForID | server/pkg/controller/emergency/recovery_contact.go:45-52 | Logs the update. A database error changes nothing. Otherwise the row's status is set, and `hasUpdate` says whether the row existed. |
| Recovery.Controller.StartRecovery | server/pkg/controller/emergency/recovery_contact.go:10-34 | A failed guard returns its error with no repository call. A pair that is not an active contact stops after the lookup with not found. Otherwise a waiting recovery is inserted unless one exists. Only the insert's database error is returned; "no update" still succeeds. |
| Recovery.Controller.RejectRecovery | server/pkg/controller/emergency/recovery_contact.go:36-54 | A failed guard returns its error with no repository call. Otherwise exactly one update sets row `req.id` to Rejected. The error returned is exactly the update's database error, if any. |
| Recovery.Controller.StopRecovery | server/pkg/controller/emergency/recovery_contact.go:56-73 | A failed guard returns its error with no repository call. Otherwise exactly one update sets row `req.id` to Stopped. The error returned is exactly the update's database error, if any. |
| SharingErrors.HandleSharingErrors | web/apps/photos/src/components/Collections/CollectionShare.tsx:314-331 | Each of the three known codes has its own message. Only an unknown error gives the generic retry text, and that text carries the error's message. |
| ShareLink.IsLinkExpired | web/apps/photos/src/components/Collections/CollectionShare.tsx:1307-1309 | A `validTill` of 0 is never expired. Any other value is expired exactly when it lies before now, in microseconds. |
| ShareLink.ShareExpiryOptions | web/apps/photos/src/components/Collections/CollectionShare.tsx:1585-1592 | Six distinct choices, with "never" first and "hour" second. |
| ShareLink.ExpiryValue | web/apps/photos/src/components/Collections/CollectionShare.tsx:1585-1613 | "Never" is 0. "Hour" is (now + 3 600 000 ms)·1000 µs, which is after now. The other choices are the calendar time in microseconds. |
| ShareLink.HourExpiryWindow | web/apps/photos/src/components/Collections/CollectionShare.tsx:1597-1599 | A one-hour expiry is not expired at the moment the value is computed. It is expired exactly once the clock passes one hour after that moment. |
| ShareLink.TrimEmptyIffBlank | web/apps/photos/src/components/Collections/CollectionShare.tsx:1822 | `trim()` leaves at least one character exactly when the string has a character that is not JavaScript whitespace. |
| ShareLink.PasswordAccepted | web/apps/photos/src/components/Collections/CollectionShare.tsx:1822 | The passphrase passes exactly when it is present and has a character that is not whitespace. |
| ShareLink.ShareService.UpdatePublicShareUrl | web/apps/photos/src/components/Collections/CollectionShare.tsx:1339-1351 | Sends the request. A remote failure becomes the mapped link error message instead of propagating. |
| ShareLink.ChangeShareExpiryValue | web/apps/photos/src/components/Collections/CollectionShare.tsx:1497-1569 | The value is computed when the options render, sent, and then written, whether or not the request failed. When written it is not expired for "never". For "hour" it is not expired exactly when written within an hour of rendering. For a calendar choice it is not expired exactly when its time is 0 or not before the write. A remote failure gives exactly the `handleSharingErrors` message of that failure as the link error; success gives none. |
| ShareLink.SavePassword | web/apps/photos/src/components/Collections/CollectionShare.tsx:1818-1843 | A blank passphrase gives the "can not be empty" error and sends nothing. Otherwise one request carries the derived key, the salt as nonce and both limits, never the passphrase itself. `passwordEnabled` is then set, even when the request failed. A remote failure gives exactly the `handleSharingErrors` message of that failure as the link error; success gives none. |
| Sharees.NonSharedEmails | web/apps/photos/src/components/Collections/CollectionShare.tsx:484-491 | Keeps exactly the e-mails that no sharee has, and is never longer than its input. |
| Sharees.NonSharedEmailsAppend | web/apps/photos/src/components/Collections/CollectionShare.tsx:486-489 | The filter keeps order: filtering a concatenation concatenates the filtered parts. |
| Sharees.NonSharedEmailsKeepsAll | web/apps/photos/src/components/Collections/CollectionShare.tsx:486-489 | A list with no sharee's e-mail is kept whole. |
| Sharees.ToShareMembers | web/apps/photos/src/components/Collections/CollectionShare.tsx:515-522 | The loop shares with exactly the listed e-mails that are neither the user's own nor a sharee's. |
| Sharees.ToShareAppend | web/apps/photos/src/components/Collections/CollectionShare.tsx:515-522 | The loop keeps input order. The targets of a concatenated list are the first part's targets followed by the second part's. |
| Sharees.AttemptedStopsAtFirstFailure | web/apps/photos/src/components/Collections/CollectionShare.tsx:515-530 | The attempted e-mails are a prefix of the targets. Every attempt but the last succeeded, and the attempts stop short only at a failure. An error is reported exactly when some target fails. |
| Sharees.CollectionShare | web/apps/photos/src/components/Collections/CollectionShare.tsx:498-531 | A typed e-mail that is the user's own, or a sharee's, is rejected with its message before any call. Otherwise the calls are the attempted prefix of the filtered list, and the error is the first failure's message. A typed e-mail replaces the picked list. |
| Sharees.ShareEach | web/apps/photos/src/components/Collections/CollectionShare.tsx:515-530 | The loop calls exactly the attempted prefix of the filtered list, in order, and returns the first failure's message, if any. |
| Sharees.NeverSharesWithSelfOrSharee | web/apps/photos/src/components/Collections/CollectionShare.tsx:504-522 | Every e-mail `collectionShare` calls is from its list and is neither the user's own nor a sharee's. |
| Sharees.ToggleOption | web/apps/photos/src/components/Collections/CollectionShare.tsx:698-721 | The clicked option ends up selected exactly when it was not. Every other option keeps its state. An unselected option is appended at the end. |
| Sharees.ToggleTwiceRestores | web/apps/photos/src/components/Collections/CollectionShare.tsx:698-721 | Selecting an unselected option and clicking it again restores the selection exactly. |
| Sharees.ParticipantForm.Toggle | web/apps/photos/src/components/Collections/CollectionShare.tsx:698-721 | Updates `selectedOptions` to the toggled selection and flips the clicked option. |
| Sharees.ParticipantForm.ClickInputField | web/apps/photos/src/components/Collections/CollectionShare.tsx:635-637 | Clicking the input field clears the selected options. |
| Sharees.AvatarGroup | web/apps/photos/src/components/Collections/CollectionShare.tsx:441-465 | Shows the first min(length, 6) sharees. A "+n" counter with n = length − 6 > 0 appears exactly when there are more than six. Avatars plus counter account for every sharee. |
| Sharees.RoleChangeRequest | web/apps/photos/src/components/Collections/CollectionShare.tsx:1024-1028 | Choosing the current role requests nothing. Any other role requests exactly that change for this participant. |
| Sharees.EmailsWithRole | web/apps/photos/src/components/Collections/CollectionShare.tsx:862-869 | The list holds exactly the e-mails of sharees with the given role. |
| Sharees.EmailsWithRoleAppend | web/apps/photos/src/components/Collections/CollectionShare.tsx:862-869 | The filter-then-map keeps the sharees' order. The list of a concatenation is the first part's list followed by the second part's. |
| Sharees.RoleListsPartition | web/apps/photos/src/components/Collections/CollectionShare.tsx:155-162 | Collaborators plus viewers plus sharees with other roles number exactly the sharees, so each appears in one list at most. |

## Left out

- `web/apps/photos/src/components/Sidebar/UtilitySection.tsx` is not part of this model. It is navigation and rendering only.
- The hash functions `getMultiplier`, `getu`, `getK`, `getM1` and `getM2`, and the byte helpers `padToN` and `intFromBytes`, are defined outside `server.go`. They are uninterpreted fields of `Primitives`. Their definitions are not part of this model. `ByteCodec` is one reading of the byte helpers, used only to discharge the round-trip assumption.
- Srp.SrpServer.SetA: the panic of `serverGetS` on an invalid A becomes an error result. The model does not capture unwinding of the caller.
- Logging (`logrus`, and the "no update" warnings of the recovery controller) is not modelled. It has no effect on state or results.
- `big.Int` aliasing and Go's pointer fields are not modelled. Integers are unbounded, and so are the `int64` user ids.
- Recovery.RecoveryStore.InsertIntoRecovery: the repository's SQL is not part of this model. The "no new row while one is waiting" rule and the fresh id `newId` abstract it.
- Recovery.RecoveryStore.UpdateRecoveryStatusForID: the SQL's row filter is not part of this model. The update changes the row with that id whatever its current status.
- Recovery.RecoveryStore.GetActiveEmergencyContact: only "not found" is modelled as a lookup failure. Other database errors of the lookup are not.
- Gin request contexts and `stacktrace` wrapping are left out. Errors are returned unwrapped.
- Calendar arithmetic of `microsecsAfter` for "day", "week", "month" and "year" (`setDate`, `setMonth`, `setFullYear` in local time) is the parameter `calendar`. Only "never" and "hour" are computed.
- `deriveInteractiveKey` and `generateSaltToDeriveKey` are parameters. The key derivation function is not modelled.
- ShareLink.SavePassword: a failure of `sharedCryptoWorker`, `generateSaltToDeriveKey` or `deriveInteractiveKey` is not modelled. These calls are awaited outside the request helper's `try`. In the code such a failure escapes `savePassword` before any request is sent, and `passwordEnabled` stays unchanged. The model treats the derivation as always succeeding.
- `syncWithRemote` after a share is folded into the per-e-mail `shareOutcome`. Its own failure is not distinguished from a sharing failure.
- `setPublicShareProp(response)` in `updatePublicShareURLHelper` is left out. The server's returned link is not modelled; only the in-place writes to `publicShareProp` are.
- `parseSharingErrorCodes` and the `CustomError` constants are not part of this model. A parsed error is one of the three named codes or another message.
- React rendering, Formik and Yup validation, dialogs, loading flags and the clipboard are not modelled.
- ShareLink.IsLinkExpired: an undefined `validTill` is modelled as 0. Both are falsy, so both mean "never expires".
- `COLLECTION_ROLE` is not part of this model. The roles are Viewer, Collaborator, Owner and any other value.
- Sharees.AvatarGroup: an undefined `sharees` (which renders nothing) is modelled as the empty list.
