# Secret Santa assignment engine

This is a Dafny model of the engine of a small Secret Santa web application. The application keeps a
document `{users, assignments}`:

- Logging in always refuses an e-mail whose trimmed, lower-cased form is `admin@walmart.com`,
  whether or not it is stored. Any other e-mail is looked up ignoring case. An unknown one is
  admitted as a new user when its lower-cased form contains `@walmart.com` anywhere (not only at
  the end), and refused otherwise.
- A user who has not picked yet draws a random recipient. The recipient is anyone except
  themselves and anyone who has already been drawn.
- An administrator can reset one user's pick or everybody's picks.

The engine exists twice in the repository, and both versions are modelled:

- `DataManager` (frontend/src/utils/dataManager.js) works on a persisted document.
  It becomes the class `Engine.DataManager`. Its fields `users`, `assignments` and `persisted`
  are updated in place. The class's methods are proved against the functions `Validate`, `Pick`
  and `ResetUser` on whole documents, and the lemmas beside those functions state what
  the code promises.
- The in-memory mock (frontend/src/utils/mockApi.js) becomes the class `MockApi.MockBackend`.
  Its draw is specified by `MockPick`. `mockValidateUser` changes no state, so it is the
  function `Login` over the roster.

Files:

- `collections.dfy` (module `Collections`): `Array.prototype.find`/`findIndex` and `filter`,
  with the facts about filtering that the proofs use.
- `text.dfy` (module `JsText`): the string operations the engine applies to e-mail addresses.
  These are `toLowerCase`, `trim`, `includes`, `split("@")[0]`, `replace(/[._]/g, " ")` and
  `replace(/\b\w/g, …toUpperCase())`.
- `jsmath.dfy` (module `JsMath`): `Math.floor(Math.random() * n)`. The value of `Math.random()`
  is a parameter `rand` with `0 <= rand < 1`.
- `engine.dfy` (module `Engine`): dataManager.js.
- `mock_api.dfy` (module `MockApi`): mockApi.js, including its 33-user roster.

Some behaviours of the code are worth knowing before reading the lemmas:

- Logging in twice is not idempotent for e-mails typed with surrounding white space.
  `validateUser` looks up the trimmed key but stores the untrimmed lower-cased e-mail, so every
  such login appends the user again (`UntrimmedLoginAdmitsAgain`, `LeadingSpaceIsUntrimmed`).
  Idempotence holds when the e-mail has no surrounding white space (`LoginIsIdempotent`). The
  login form trims before calling (frontend/src/components/Login.jsx:36), so the application
  itself does not reach the case.
- Nothing in the code keeps user e-mails unique or ties `hasPicked` to a non-empty
  `pickedRecipient`. The model assumes neither. Lookups take the first match, and a user
  stored twice is twice as likely to be drawn.
- A refused pick of a user who has already picked reports only the refusal. It does not report
  the recipient already drawn.
- There is no lock between loading, computing and saving. Every operation is modelled as one
  uninterrupted step.

## Model

| member | source | states |
|---|---|---|
| Collections.FirstIndex | frontend/src/utils/dataManager.js:237-240 | the index returned satisfies the predicate and no earlier element does; None exactly when no element does (the -1 of `findIndex`) |
| Collections.Filter | frontend/src/utils/dataManager.js:261-265 | the result holds exactly the elements of the input that satisfy the predicate, each as often as in the input, in input order, and is no longer than the input |
| JsText.Lower | frontend/src/utils/dataManager.js:170 | `toLowerCase` keeps the length and maps every ASCII upper-case letter to its lower-case letter, leaving every other character |
| JsText.Trim | frontend/src/utils/dataManager.js:170 | `trim` yields the infix of the input left after removing the white space before and after it; that infix neither starts nor ends with white space, and equals the input when it has no surrounding white space |
| JsText.Contains | frontend/src/utils/dataManager.js:198 | `includes` is true exactly when the pattern occurs at some position |
| JsText.LocalPart | frontend/src/utils/dataManager.js:201 | `split("@")[0]` is a prefix without `@`, followed by `@` in the input when shorter than the input |
| JsText.ReplaceSeparators | frontend/src/utils/dataManager.js:201 | every `.` and `_` becomes a space and every other character stays |
| JsText.CapitalizeWords | frontend/src/utils/dataManager.js:202-204 | exactly the characters at word starts (a `\w` character not preceded by one) are upper-cased |
| JsMath.PickIndex | frontend/src/utils/dataManager.js:276 | the random index is `floor(rand * n)`: `k <= rand * n < k + 1`, so it is a valid index and each index is drawn by an interval of `rand` of width 1/n |
| JsMath.EveryIndexReachable | frontend/src/utils/dataManager.js:276 | for every index k there is a value of `Math.random()` (namely k/n) that draws it |
| Engine.Key | frontend/src/utils/dataManager.js:170 | the lookup key is never longer than the e-mail; `KeyIsTrimmed` states exactly what it is |
| Engine.KeyIsTrimmed | frontend/src/utils/dataManager.js:170 | the key is the lower-cased e-mail with the white space before and after it removed: an infix surrounded only by white space that neither starts nor ends with white space |
| Engine.KeyIsLowered | frontend/src/utils/dataManager.js:161-181 | the key is already lower case, so `findUser` lower-casing it again looks up the key itself |
| Engine.DisplayNameChars | frontend/src/utils/dataManager.js:201-204 | the new user's name has one character per character before the first `@`, contains no `@`, `.` or `_`, and differs from the local part with separators spaced only in letter case |
| Engine.DisplayNameWords | frontend/src/utils/dataManager.js:201-204 | every word of the name starts with a character that is not a lower-case letter; every other character is the local part's, with separators turned into spaces |
| Engine.IndexOfKey | frontend/src/utils/dataManager.js:237-240 | the first user whose lower-cased e-mail equals the key; None exactly when there is none |
| Engine.AssignedRecipients | frontend/src/utils/dataManager.js:255-258 | exactly the lower-cased recipient e-mails of the assignments |
| Engine.Candidates | frontend/src/utils/dataManager.js:260-265 | exactly the users who are not the giver and whom nobody has drawn, each as often as in the user list, in document order |
| Engine.WithoutGiver | frontend/src/utils/dataManager.js:339-341 | exactly the assignments whose giver does not match the key, each as often as before, in their order |
| Engine.DisplayName | frontend/src/utils/dataManager.js:201-204 | the derived name has one character per character before the first `@`; `DisplayNameChars` and `DisplayNameWords` fix each character |
| Engine.Validate | frontend/src/utils/dataManager.js:168-229 | a login never changes the assignments; a refused login changes nothing; any change is appending the new user with the lower-cased e-mail and the derived name |
| Engine.Admission | frontend/src/utils/dataManager.js:173-228 | once the key, the lower-cased e-mail, the domain test and the name are computed: the assignments stay, a refusal changes nothing, any change is appending the new user, and the login is accepted exactly when the key is not the admin's and the user is known or the domain test passed |
| Engine.ValidateOutcomes | frontend/src/utils/dataManager.js:173-228 | a login is accepted exactly when the key is not the admin's and the user is known or the lower-cased e-mail contains `@walmart.com` |
| Engine.KnownUserLogin | frontend/src/utils/dataManager.js:181-194 | a non-admin login matching a stored user reports that user's `hasPicked`, e-mail, name and `pickedRecipient` and leaves the document as it was |
| Engine.NewCompanyUserAdmitted | frontend/src/utils/dataManager.js:196-222 | an unknown company e-mail appends exactly one user at the end (lower-cased e-mail, derived name, not picked, empty recipient) and reports it as not picked |
| Engine.LoginRefusals | frontend/src/utils/dataManager.js:173-228 | the admin refusal happens exactly for the admin key; the domain refusal happens exactly for an unknown e-mail without `@walmart.com` |
| Engine.LoginIsIdempotent | frontend/src/utils/dataManager.js:181-213 | for an e-mail without surrounding white space a second login changes nothing and reports the same user as the first |
| Engine.UntrimmedLoginAdmitsAgain | frontend/src/utils/dataManager.js:170-213 | for an unknown company e-mail whose key differs from its lower-cased form, two logins add two users |
| Engine.LeadingSpaceIsUntrimmed | frontend/src/utils/dataManager.js:170-207 | an e-mail starting with a space has a key different from the stored lower-cased e-mail |
| Engine.Pick | frontend/src/utils/dataManager.js:232-306 | a refused draw leaves the document unchanged; no draw changes the number of users |
| Engine.PickRefusals | frontend/src/utils/dataManager.js:237-273 | the draw is refused as "user not found", "already picked" or "no recipients" exactly when the giver is missing, has picked, or has no candidates |
| Engine.PickAppendsAssignment | frontend/src/utils/dataManager.js:254-305 | a successful draw appends exactly one assignment after the old ones: it is given by the key under the given name and timestamp, and its recipient is an existing user who is not the giver, whom nobody had drawn, and whose name is returned |
| Engine.PickUpdatesGiver | frontend/src/utils/dataManager.js:293-294 | a successful draw marks the giver as picked with the recipient's name and changes no other user |
| Engine.PickKeepsValid | frontend/src/utils/dataManager.js:254-292 | a draw keeps the recipients pairwise distinct and keeps every assignment free of self-draws |
| Engine.EveryCandidateCanBeDrawn | frontend/src/utils/dataManager.js:275-277 | every candidate is the recipient for some value of `Math.random()` |
| Engine.ResetUser | frontend/src/utils/dataManager.js:325-341 | resetting keeps the number of users and every user's e-mail and name |
| Engine.ResetUserEffects | frontend/src/utils/dataManager.js:330-341 | the first matching user is cleared and no other user changes (none for an unknown key); the assignments kept are exactly those not given by the key |
| Engine.ResetUserKeepsValid | frontend/src/utils/dataManager.js:338-341 | resetting a user keeps recipients distinct and keeps every assignment free of self-draws |
| Engine.ResetOfUnpickedIsNoOp | frontend/src/utils/dataManager.js:330-341 | resetting a user who holds no pick and gave no assignment changes nothing |
| Engine.ResetUserIdempotent | frontend/src/utils/dataManager.js:330-341 | resetting a user twice is the same as resetting them once |
| Engine.ResetUndoesPick | frontend/src/utils/dataManager.js:280-341 | resetting a user right after their first draw restores the document before the draw |
| Engine.RemainingAreUnpicked | frontend/src/utils/dataManager.js:377-386 | `usersRemaining`, total minus pickers, is the number of users who have not picked |
| Engine.DataManager.constructor | frontend/src/utils/dataManager.js:9-14 | the manager holds the loaded document, which is also the stored one |
| Engine.DataManager.Save | frontend/src/utils/dataManager.js:79-132 | the stored document becomes the current document |
| Engine.DataManager.ResetData | frontend/src/utils/dataManager.js:144-148 | the document, in memory and in storage, is replaced by the seed |
| Engine.DataManager.FindUser | frontend/src/utils/dataManager.js:161-165 | the user found is the first in the list whose e-mail matches ignoring case; nothing is found exactly when no user matches |
| Engine.DataManager.GetStats | frontend/src/utils/dataManager.js:376-393 | the counts are the number of users and assignments; the pickers are the users with `hasPicked`, zero exactly when nobody has picked; `usersRemaining` is `totalUsers - usersWhoPickedCount`, which is the number of users who have not picked |
| Engine.DataManager.ValidateUser | frontend/src/utils/dataManager.js:168-229 | the response and the new document are those of `Validate`; the document is saved exactly when a user was admitted |
| Engine.DataManager.Admit | frontend/src/utils/dataManager.js:173-228 | on the computed key, lower-cased e-mail, domain test and name, the response and new document are those of `Admission`; the new user is pushed and the document saved exactly on an admission |
| Engine.DataManager.PickRecipient | frontend/src/utils/dataManager.js:232-306 | the response and the new document are those of `Pick` on the key; the document is saved exactly when a draw succeeded |
| Engine.DataManager.Record | frontend/src/utils/dataManager.js:289-297 | the assignment is pushed, only the giver's record is marked with the recipient's name, and the document is saved |
| Engine.DataManager.ResetUserAssignment | frontend/src/utils/dataManager.js:325-348 | the new document is `ResetUser` of the old one on the key, and it is saved |
| Engine.DataManager.ResetAllAssignments | frontend/src/utils/dataManager.js:351-368 | every user is cleared in place with order, e-mail and name kept; the assignments are emptied and saved; `getStats` then reports no pickers and every user remaining |
| MockApi.RosterUnpicked | frontend/src/utils/mockApi.js:8-207 | no user on the initial roster has picked |
| MockApi.GuestName | frontend/src/utils/mockApi.js:226 | the guest name is the local part with `.` and `_` turned into spaces and nothing else changed, and so contains no `@`, `.` or `_` |
| MockApi.Login | frontend/src/utils/mockApi.js:211-237 | a login matching some roster user ignoring case reports the first such user's `hasPicked`, `userId` and name; any other login reports a not-picked guest with the lower-cased e-mail as `userId` |
| MockApi.RecipientIds | frontend/src/utils/mockApi.js:258 | the recipient ids of the assignments, one per assignment, in order |
| MockApi.MockCandidates | frontend/src/utils/mockApi.js:258-261 | exactly the roster users whose `userId` is not the giver's and not any recipient's, each as often as on the roster, in roster order |
| MockApi.MockPick | frontend/src/utils/mockApi.js:239-291 | a refused draw leaves the state unchanged; no draw changes the number of users |
| MockApi.MockPickRefusals | frontend/src/utils/mockApi.js:242-270 | the draw is refused as "user not found", "already picked" or "no recipients" exactly when no user has that exact `userId`, the user has picked, or no candidate remains |
| MockApi.MockPickEffects | frontend/src/utils/mockApi.js:273-288 | a successful draw appends one assignment from the giver to a roster user who is not the giver and whom nobody had drawn, returns that user's name, sets `hasPicked` on the giver only and changes no other user |
| MockApi.MockEveryCandidateCanBeDrawn | frontend/src/utils/mockApi.js:273-279 | every mock candidate is the recipient for some value of `Math.random()` |
| MockApi.FreshStateValid | frontend/src/utils/mockApi.js:209 | a state with no assignments and nobody picked satisfies the invariant |
| MockApi.MockPickKeepsValid | frontend/src/utils/mockApi.js:249-283 | a draw keeps recipients distinct, assignments free of self-draws, and the number of assignments equal to the number of users who have picked |
| MockApi.LoginIdIsPickable | frontend/src/utils/mockApi.js:214-247 | the `userId` a login hands to a roster user is never refused as "user not found" |
| MockApi.InitialStateValid | frontend/src/utils/mockApi.js:8-209 | the state the module starts in satisfies the invariant, so after any sequence of draws it still does |
| MockApi.MockBackend.constructor | frontend/src/utils/mockApi.js:8-209 | the backend starts with the 33-user roster and no assignments, a state that satisfies the invariant |
| MockApi.MockBackend.PickRecipient | frontend/src/utils/mockApi.js:239-291 | the response and the new state are those of `MockPick` (through `Draw`); a backend satisfying the invariant (distinct recipients, no self-draws, one assignment per picker) still satisfies it after the call, so it holds over every sequence of draws |
| MockApi.MockBackend.Draw | frontend/src/utils/mockApi.js:242-288 | the steps of `mockPickRecipient` update the fields in place so that the response and the new state are those of `MockPick` |

## Left out

- Loading: `init`, its `initialized` latch, and `loadFromAPI` with its `fetch`, `localStorage` and `window.location` fallbacks are I/O. The loaded document is a constructor argument.
- The `assignments ||= []` patch-ups: the model's document always has both lists.
- Saving: `saveToAPI` and `saveToStorage` are I/O. A save is modelled as the whole current document becoming the `persisted` one, and a failed save is not modelled.
- `resetData`: the removal from `localStorage` and the reload are modelled as replacing the document with a seed supplied from outside (`ResetData`).
- `getUsers` and `getAssignments` are the class's `users` and `assignments` fields.
- `getData`: it only returns the document (`Doc`).
- `getAllAssignments`: it only reformats assignments for display, with `Date.toLocaleString`.
- `getStats.completionPercentage`: it is `Math.round` on a floating-point ratio.
- `exportData`: it is a `JSON.stringify` call.
- `Math.random()` is a parameter read as an exact real in [0, 1), not a 64-bit float. `new Date().toISOString()` is a string parameter.
- `toLowerCase` and `/\b\w/` are modelled on ASCII letters only. Non-ASCII case mapping is not modelled.
- Responses carry an error kind instead of the message strings. The `message` field of a successful login is not modelled.
- Concurrency and `async`/`await` interleaving: each operation is one uninterrupted step.
- The mock's Promise and `setTimeout` wrapping is not modelled. `useMockApi` only reads build flags.
- Aliasing: the objects `findUser` returns share identity with the stored records. The model holds user records as values.
- Engine.Pick: takes the key computed from the e-mail rather than the e-mail. `DataManager.PickRecipient` states the connection.
- Engine.ResetUser: takes the computed key in the same way. `DataManager.ResetUserAssignment` states the connection.
- The React components, the development server, the HTTP handler and the build configuration are not part of this model.
