# R.A.M. — debts and credentials behind a biometric gate

The app keeps two ordered lists on one screen (`ContentView` in RAM/RAMApp.swift):
debts owed to the user, and website credentials. The credentials are shown only after
biometric authentication. After every change, each list is written whole as JSON into
`UserDefaults` under its own key, "debts" or "passwords". When the screen appears while
not authenticated, both lists are read back; when it appears while authenticated,
nothing happens.

This project models that screen's state and actions in Dafny and proves their contracts:

- `Records` holds the two record types. `Amount` stands for a Swift `Double`: a finite
  value, an infinity, or NaN.
- `Offsets` models `remove(atOffsets:)` (`RemoveAt`). It also gives a reference
  definition of the surviving positions (`Kept`) and the lemmas linking the two.
- `Persistence` models the settings store (`UserDefaults`, a map from key to stored
  value). It also models JSON encoding and decoding of the lists, saving one key, and
  startup loading.
- `RamApp.ContentView` is a class with the screen's fields. Its methods follow the
  source's functions one by one: `AddDebt`, `DeleteDebts`, `SaveDebts`, `AddPassword`,
  `DeletePasswords`, `SavePasswords`, `AuthenticateWithBiometrics`,
  `CheckAuthenticationStatus`. `CompleteAuthentication` is the evaluation callback as a
  step of its own. `Valid()` keeps ids unique in each list.
- `DebtDisplay` models the positive-amount filter of the debt section. It exists to
  state the finding below and its correction.
- `Scenarios` holds whole-screen runs proved from the class contracts alone. These include
  a relaunch that reads the same store.

Points where the code's behaviour is easy to misread; the model follows the code:

- A missing key or a failed decode keeps the in-memory list as it was. It does not
  reset the list to empty.
- Reloading does not give back the same records. `let id = UUID()` is not decoded, so
  every loaded record gets a fresh id. The round-trip lemmas therefore state equal
  fields in equal order, under fresh ids.
- `JSONEncoder` refuses a non-finite `Double`, and `Double("inf")` parses. So
  `saveDebts` writes nothing while any debt's amount is infinite or NaN. Such a debt
  stays in the list, but it is shown only when its amount is plus infinity: a NaN or
  minus-infinity debt is hidden by the positive-amount filter. While it is in the list
  no change to the debts is saved, and it is lost on relaunch
  (`Scenarios.InfiniteAmountIsNotPersisted`, `Scenarios.NonFiniteDebtBlocksSaving`).
- A delete offset out of range crashes the Swift program. The model makes it a
  precondition.
- `authenticateWithBiometrics` does not check `isAuthenticated`. No path in the app
  calls it while authenticated: the tap target exists only while not authenticated, and
  `checkAuthenticationStatus` returns early when authenticated. So in the app,
  authentication lasts for the session. The model states the function as written: a
  request made while authenticated would start an evaluation, and a failed evaluation
  would clear `isAuthenticated`.

## Model

| member | source | states |
|---|---|---|
| Records.IsPositive | RAM/RAMApp.swift:69 | `amount > 0` on a Double: NaN and minus infinity are never positive, plus infinity always is, and a finite amount is positive exactly when it is above zero |
| Offsets.RemoveAt | RAM/RAMApp.swift:173 | `remove(atOffsets:)`: never lengthens the list and removes nothing for no offsets; its full meaning is RemoveAtSelects with KeptExactly |
| Offsets.RemoveAtSelects | RAM/RAMApp.swift:172-175 | the list after removal is the old list read at the kept positions, in their order |
| Offsets.KeptExactly | RAM/RAMApp.swift:172-175 | the kept positions are exactly those below the length and outside the offsets, each once, ascending: only the given positions go and survivors keep their relative order |
| Offsets.Kept | RAM/RAMApp.swift:172-175 | every kept position is inside the old list |
| Offsets.KeptLength | RAM/RAMApp.swift:172-175 | with all offsets in range, exactly as many positions are dropped as there are distinct offsets |
| Offsets.RemoveAtLength | RAM/RAMApp.swift:172-175 | with all offsets in range, the new length is the old length minus the number of distinct offsets |
| Offsets.RemoveAtKeepsDistinct | RAM/RAMApp.swift:198-201 | removal keeps ids distinct and introduces no record that was not in the list |
| Persistence.EncodeDebts | RAM/RAMApp.swift:177-181 | encoding the debt list succeeds exactly when every amount is finite |
| Persistence.EncodePasswords | RAM/RAMApp.swift:203-207 | encoding the credential list always succeeds |
| Persistence.RenumberedDebts | RAM/RAMApp.swift:148-153 | decoded debts keep each stored name and amount, in order, and get consecutive fresh ids |
| Persistence.RenumberedPasswords | RAM/RAMApp.swift:155-160 | decoded credentials keep each stored website, username and password, in order, and get consecutive fresh ids |
| Persistence.DecodeDebts | RAM/RAMApp.swift:149-150 | a stored debt list decodes with the same names and amounts in order; undecodable data and a non-empty credential list fail; decoded records get consecutive fresh ids |
| Persistence.DecodePasswords | RAM/RAMApp.swift:156-157 | a stored credential list decodes with the same fields in order; undecodable data and a non-empty debt list fail; decoded records get consecutive fresh ids |
| Persistence.LoadedDebts | RAM/RAMApp.swift:148-150 | startup finds a debt list exactly when the "debts" key is present and its value decodes |
| Persistence.LoadedPasswords | RAM/RAMApp.swift:155-157 | startup finds a credential list exactly when the "passwords" key is present and its value decodes |
| Persistence.Saved | RAM/RAMApp.swift:177-181 | a save writes only its own key, writes the encoding when there is one, and changes nothing when encoding fails |
| Persistence.StartupLoad | RAM/RAMApp.swift:148-160 | a missing key or an entry that fails to decode keeps that list; a stored list comes back with the same fields in the same order; the id counter never goes back |
| Persistence.LoadedIdsAreFresh | RAM/RAMApp.swift:148-160 | loaded records carry consecutive ids starting at the counter |
| Persistence.ReloadAfterSaveDebts | RAM/RAMApp.swift:177-181 | a saved all-finite debt list loads back with the same names and amounts, in order, under fresh ids |
| Persistence.ReloadAfterSavePasswords | RAM/RAMApp.swift:203-207 | a saved credential list loads back with the same fields, in order, under fresh ids |
| Persistence.SavesAreIndependent | RAM/RAMApp.swift:177-207 | saving debts never changes what loads for credentials, and the reverse |
| Persistence.UserDefaults.Set | RAM/RAMApp.swift:180 | setting a key overwrites that key alone |
| RamApp.ContentView.constructor | RAM/RAMApp.swift:47-57 | the screen starts with empty lists and fields, not authenticated, no request in flight |
| RamApp.ContentView.SaveDebts | RAM/RAMApp.swift:177-181 | the "debts" entry becomes the encoded list when encoding succeeds; every other key, "passwords" included, is unchanged |
| RamApp.ContentView.SavePasswords | RAM/RAMApp.swift:203-207 | the "passwords" entry becomes the encoded list; every other key, "debts" included, is unchanged |
| RamApp.ContentView.AddDebt | RAM/RAMApp.swift:163-170 | an unparsable amount changes nothing: lists, fields and store are untouched. Otherwise exactly one debt with the typed name and parsed amount is appended under a fresh id, earlier debts are unchanged, both debt fields are cleared and the debt list is saved; credentials and authentication are untouched |
| RamApp.ContentView.DeleteDebts | RAM/RAMApp.swift:172-175 | the debt list becomes the old list without the given positions, its length drops by the number of offsets, the list is saved, everything else is unchanged |
| RamApp.ContentView.DeleteDisplayedDebts | RAM/RAMApp.swift:69-72 | (corrected) deleting swiped rows of the positive-amount view removes exactly those rows from the view, and every hidden debt stays, in order |
| RamApp.ContentView.AddPassword | RAM/RAMApp.swift:184-196 | when not authenticated nothing changes, store included; when authenticated exactly one credential with the three typed fields is appended under a fresh id, the three fields are cleared and the full list is stored under "passwords" |
| RamApp.ContentView.DeletePasswords | RAM/RAMApp.swift:198-201 | the credential list becomes the old list without the given positions, its length drops by the number of offsets, the list is stored, everything else is unchanged |
| RamApp.ContentView.AuthenticateWithBiometrics | RAM/RAMApp.swift:211-243 | a request while one is in flight changes nothing; otherwise it starts an evaluation exactly when the platform can evaluate, and when it cannot, the gate ends closed with nothing in flight |
| RamApp.ContentView.CompleteAuthentication | RAM/RAMApp.swift:222-234 | on completion the gate equals the success flag and the in-flight flag is cleared, on success and on failure |
| RamApp.ContentView.LoadDebts | RAM/RAMApp.swift:148-153 | the debt list becomes the decoded stored list, or stays as it was when the key is missing or the decode fails |
| RamApp.ContentView.LoadPasswords | RAM/RAMApp.swift:155-160 | the credential list becomes the decoded stored list, or stays as it was when the key is missing or the decode fails |
| RamApp.ContentView.LoadStoredLists | RAM/RAMApp.swift:148-160 | both lists and the id counter are as the startup load computes them |
| RamApp.ContentView.CheckAuthenticationStatus | RAM/RAMApp.swift:135-161 | when already authenticated nothing changes; otherwise authentication is requested exactly when biometrics are available, and then both lists are loaded |
| DebtDisplay.Displayed | RAM/RAMApp.swift:69 | `debts.filter { $0.amount > 0 }` is never longer than the list; its rows are exactly the positive debts in list order through DisplayedPositions, DisplayedArePositive, DisplayedInOrder and PositiveAreDisplayed |
| DebtDisplay.Hidden | RAM/RAMApp.swift:69 | the debts the filter leaves out, in list order; never longer than the list; exactly the non-positive debts through HiddenAreNotPositive, NotPositiveAreHidden and DisplayedAndHiddenSplit |
| DebtDisplay.HiddenAreNotPositive | RAM/RAMApp.swift:69 | no debt left out by the filter has a positive amount |
| DebtDisplay.NotPositiveAreHidden | RAM/RAMApp.swift:69 | every debt whose amount is not positive (zero, negative, minus infinity, NaN) is left out by the filter |
| DebtDisplay.DisplayedAndHiddenSplit | RAM/RAMApp.swift:69 | the shown and the hidden debts together are the whole list as a multiset: none lost, none duplicated |
| DebtDisplay.DisplayedArePositive | RAM/RAMApp.swift:69 | every shown row is a debt with a positive amount |
| DebtDisplay.DisplayedInOrder | RAM/RAMApp.swift:69 | shown rows keep the order of the list |
| DebtDisplay.PositiveAreDisplayed | RAM/RAMApp.swift:69 | every debt with a positive amount is shown |
| DebtDisplay.DisplayedPositions | RAM/RAMApp.swift:69 | each displayed row is the debt at its recorded position in the whole list |
| DebtDisplay.ToDebtOffsets | RAM/RAMApp.swift:69-72 | translated offsets are all positions inside the debt list |
| DebtDisplay.DeleteThroughView | RAM/RAMApp.swift:69-72 | removing the translated positions leaves on display exactly the old display minus the swiped rows |
| DebtDisplay.DeleteKeepsHidden | RAM/RAMApp.swift:69-72 | removing the translated positions keeps every hidden (non-positive) debt, in order |
| DebtDisplay.MisdirectedDelete | RAM/RAMApp.swift:172-173 | as written, with a non-positive debt ahead of a positive one, swiping the only shown row removes the hidden debt from the list and the swiped row stays shown |
| Scenarios.DuplicateRequest | RAM/RAMApp.swift:211-215 | two requests before completion start exactly one evaluation |
| Scenarios.BiometricsUnavailable | RAM/RAMApp.swift:236-242 | without biometrics a request resolves at once to not authenticated, nothing in flight, no evaluation |
| Scenarios.FailedAuthenticationRefusesCredential | RAM/RAMApp.swift:184-195 | after a failed evaluation the gate is closed, nothing is in flight, and a typed credential is refused: not shown and not written to the store |
| Scenarios.SignedInWithTwoCredentials | RAM/RAMApp.swift:184-191 | after authenticating, two added credentials are in the list in order of addition |
| Scenarios.AddTwoCredentialsDeleteFirst | RAM/RAMApp.swift:198-207 | after deleting the first of two credentials, the store holds only the second |
| Scenarios.CredentialsSurviveRelaunch | RAM/RAMApp.swift:155-160 | a relaunched screen loads only the second credential, with its fields |
| Scenarios.DebtSurvivesRelaunch | RAM/RAMApp.swift:163-169 | a debt of 50 for Alice is loaded again by a relaunched screen |
| Scenarios.InfiniteAmountIsNotPersisted | RAM/RAMApp.swift:177-181 | a debt whose amount parses as infinity is shown but not saved, and a relaunch loads no debts |
| Scenarios.NonFiniteDebtBlocksSaving | RAM/RAMApp.swift:177-181 | a debt with an infinite or NaN amount anywhere in the list makes every debt save write nothing, and of those amounts only plus infinity passes the display filter of line 69 |

## Left out

- The SwiftUI layout, text-field bindings and navigation in `body`, and the `RAMApp` entry point. These are presentation. The scenarios assign the input fields directly, as the bindings do.
- `totalAmount` and the `%.2f` formatting. These are floating-point arithmetic and text formatting, and no action depends on them.
- `Double(_:)` parsing is the function parameter `parseAmount` of `AddDebt`. It is a library parser; the model keeps only that it may fail and which amount it gives.
- `LAContext` is not modelled. `canEvaluatePolicy` is a boolean input and `evaluatePolicy` is the pair `AuthenticateWithBiometrics` (start) and `CompleteAuthentication` (outcome).
- `CheckAuthenticationStatus` asks the platform twice in the source, through `canUseBiometricAuthentication` and again inside `authenticateWithBiometrics`. The model uses one boolean for both questions.
- `DispatchQueue.main.async` is not modelled. The completion is a separate sequential step; the only order that can be observed is request, then completion.
- RamApp.ContentView.CompleteAuthentication: requires a request in flight. The platform calls the callback only for an evaluation that was started, and the model does not otherwise bound how completions arrive.
- JSON text and the bytes in `UserDefaults` are not modelled. A stored value is the list it encodes, or a value that does not decode.
- `UUID()` is replaced by a counter of fresh ids. The model keeps uniqueness, not randomness.
- The `print` diagnostics are not modelled; they have no effect on state.

## Findings

| source | as written | input that shows it | evidently intended | confidence | as-written member | corrected member |
|---|---|---|---|---|---|---|
| RAM/RAMApp.swift:69-72 | the swipe offsets come from the positive-amount view `debts.filter { $0.amount > 0 }` but `deleteDebt` removes those offsets from the whole `debts` list | debts = [Bob −5, Alice 10]; the view shows only Alice; swiping her row (offset 0) removes Bob and Alice stays | the swiped rows, and only they, leave the list; hidden debts stay | high; not executed | DebtDisplay.MisdirectedDelete | RamApp.ContentView.DeleteDisplayedDebts |
