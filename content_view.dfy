/** The state and actions of the app's one screen: two record lists with their input
    fields, the authentication gate in front of the credentials, and startup loading. */
module RamApp {
  import opened Wrappers
  import opened Records
  import opened Offsets
  import opened Persistence
  import DebtDisplay

  class ContentView {
    var debts: seq<Debt>
    var newDebtName: string
    var newDebtAmount: string

    var passwords: seq<PasswordItem>
    var newPasswordWebsite: string
    var newPasswordUsername: string
    var newPassword: string

    var isAuthenticated: bool
    var isAuthenticating: bool

    /** The next fresh id; stands for `UUID()`. */
    var nextId: Id
    /** `UserDefaults.standard`, shared with later launches. */
    const defaults: UserDefaults

    /** Ids are unique within each list and all were drawn before `nextId`. */
    ghost predicate Valid()
      reads this
    {
      && DistinctDebtIds(debts)
      && DistinctPasswordIds(passwords)
      && (forall d :: d in debts ==> d.id < nextId)
      && (forall p :: p in passwords ==> p.id < nextId)
    }

    /** The debt list and its input fields are as before. */
    twostate predicate DebtsUnchanged()
      reads this
    {
      debts == old(debts) && newDebtName == old(newDebtName) && newDebtAmount == old(newDebtAmount)
    }

    /** The credential list and its input fields are as before. */
    twostate predicate PasswordsUnchanged()
      reads this
    {
      && passwords == old(passwords) && newPasswordWebsite == old(newPasswordWebsite)
      && newPasswordUsername == old(newPasswordUsername) && newPassword == old(newPassword)
    }

    twostate predicate AuthUnchanged()
      reads this
    {
      isAuthenticated == old(isAuthenticated) && isAuthenticating == old(isAuthenticating)
    }

    /** A fresh screen: empty lists and fields, not authenticated, no request in flight. */
    constructor (defaults: UserDefaults)
      ensures Valid() && this.defaults == defaults
      ensures debts == [] && newDebtName == "" && newDebtAmount == ""
      ensures passwords == [] && newPasswordWebsite == "" && newPasswordUsername == "" && newPassword == ""
      ensures !isAuthenticated && !isAuthenticating && nextId == 0
    {
      debts, newDebtName, newDebtAmount := [], "", "";
      passwords, newPasswordWebsite, newPasswordUsername, newPassword := [], "", "", "";
      isAuthenticated, isAuthenticating := false, false;
      nextId := 0;
      this.defaults := defaults;
    }

    /** Writes the whole debt list under "debts" when it encodes; every other key stays. */
    method SaveDebts()
      modifies defaults
      ensures defaults.entries == Saved(old(defaults.entries), DebtsKey, EncodeDebts(debts))
      ensures defaults.entries - {DebtsKey} == old(defaults.entries) - {DebtsKey}
    {
      var encoded := EncodeDebts(debts);
      if encoded.Some? {
        defaults.Set(encoded.value, DebtsKey);
      }
    }

    /** Writes the whole credential list under "passwords"; every other key stays. */
    method SavePasswords()
      modifies defaults
      ensures defaults.entries == old(defaults.entries)[PasswordsKey := PasswordsJson(passwords)]
      ensures defaults.entries - {PasswordsKey} == old(defaults.entries) - {PasswordsKey}
    {
      var encoded := EncodePasswords(passwords);
      if encoded.Some? {
        defaults.Set(encoded.value, PasswordsKey);
      }
    }

    /** Appends a debt built from the two input fields when the amount text parses
        (`parseAmount` stands for `Double(_:)`), clears the fields and saves. When it
        does not parse, nothing changes. */
    method AddDebt(parseAmount: string -> Option<Amount>)
      requires Valid()
      modifies this, defaults
      ensures Valid()
      ensures parseAmount(old(newDebtAmount)).None? ==>
                unchanged(this) && defaults.entries == old(defaults.entries)
      ensures parseAmount(old(newDebtAmount)).Some? ==>
                && debts == old(debts) + [Debt(old(nextId), old(newDebtName), parseAmount(old(newDebtAmount)).value)]
                && (forall i :: 0 <= i < |old(debts)| ==> debts[i].id != debts[|old(debts)|].id)
                && newDebtName == "" && newDebtAmount == ""
                && defaults.entries == Saved(old(defaults.entries), DebtsKey, EncodeDebts(debts))
                && nextId == old(nextId) + 1
      ensures PasswordsUnchanged() && AuthUnchanged()
    {
      var parsed := parseAmount(newDebtAmount);
      if parsed.None? {
        return;
      }
      var newDebt := Debt(nextId, newDebtName, parsed.value);
      debts := debts + [newDebt];
      nextId := nextId + 1;
      newDebtName := "";
      newDebtAmount := "";
      SaveDebts();
    }

    /** Removes the debts at `offsets` (positions in the whole list before removal) and saves. */
    method DeleteDebts(offsets: set<nat>)
      requires Valid()
      requires forall o :: o in offsets ==> o < |debts|
      modifies this, defaults
      ensures Valid()
      ensures debts == RemoveAt(old(debts), offsets)
      ensures |debts| == |old(debts)| - |offsets|
      ensures defaults.entries == Saved(old(defaults.entries), DebtsKey, EncodeDebts(debts))
      ensures newDebtName == old(newDebtName) && newDebtAmount == old(newDebtAmount)
      ensures nextId == old(nextId) && PasswordsUnchanged() && AuthUnchanged()
    {
      RemoveAtLength(debts, offsets);
      RemoveAtKeepsDistinct(debts, offsets, (d: Debt) => d.id);
      debts := RemoveAt(debts, offsets);
      SaveDebts();
    }

    /** Swipe-to-delete on the displayed (positive) debts with the view offsets
        translated to positions in the whole list: the swiped rows and no others leave
        the display, and every hidden debt stays. */
    method DeleteDisplayedDebts(viewOffsets: set<nat>)
      requires Valid()
      requires forall v :: v in viewOffsets ==> v < |DebtDisplay.Displayed(debts)|
      modifies this, defaults
      ensures Valid()
      ensures debts == RemoveAt(old(debts), DebtDisplay.ToDebtOffsets(old(debts), viewOffsets))
      ensures DebtDisplay.Displayed(debts) == RemoveAt(DebtDisplay.Displayed(old(debts)), viewOffsets)
      ensures DebtDisplay.Hidden(debts) == DebtDisplay.Hidden(old(debts))
      ensures defaults.entries == Saved(old(defaults.entries), DebtsKey, EncodeDebts(debts))
      ensures newDebtName == old(newDebtName) && newDebtAmount == old(newDebtAmount)
      ensures nextId == old(nextId) && PasswordsUnchanged() && AuthUnchanged()
    {
      DebtDisplay.DeleteThroughView(debts, viewOffsets);
      DebtDisplay.DeleteKeepsHidden(debts, viewOffsets);
      DeleteDebts(DebtDisplay.ToDebtOffsets(debts, viewOffsets));
    }

    /** Appends a credential built from the three input fields, clears them and saves,
        but only when authenticated; otherwise nothing changes. */
    method AddPassword()
      requires Valid()
      modifies this, defaults
      ensures Valid()
      ensures !old(isAuthenticated) ==> unchanged(this) && defaults.entries == old(defaults.entries)
      ensures old(isAuthenticated) ==>
                && passwords == old(passwords) + [PasswordItem(old(nextId), old(newPasswordWebsite),
                                                               old(newPasswordUsername), old(newPassword))]
                && (forall i :: 0 <= i < |old(passwords)| ==> passwords[i].id != passwords[|old(passwords)|].id)
                && newPasswordWebsite == "" && newPasswordUsername == "" && newPassword == ""
                && defaults.entries == old(defaults.entries)[PasswordsKey := PasswordsJson(passwords)]
                && nextId == old(nextId) + 1
      ensures DebtsUnchanged() && AuthUnchanged()
    {
      if isAuthenticated {
        var item := PasswordItem(nextId, newPasswordWebsite, newPasswordUsername, newPassword);
        passwords := passwords + [item];
        nextId := nextId + 1;
        newPasswordWebsite := "";
        newPasswordUsername := "";
        newPassword := "";
        SavePasswords();
      }
    }

    /** Removes the credentials at `offsets` (positions before removal) and saves. */
    method DeletePasswords(offsets: set<nat>)
      requires Valid()
      requires forall o :: o in offsets ==> o < |passwords|
      modifies this, defaults
      ensures Valid()
      ensures passwords == RemoveAt(old(passwords), offsets)
      ensures |passwords| == |old(passwords)| - |offsets|
      ensures defaults.entries == old(defaults.entries)[PasswordsKey := PasswordsJson(passwords)]
      ensures newPasswordWebsite == old(newPasswordWebsite) && newPasswordUsername == old(newPasswordUsername)
      ensures newPassword == old(newPassword)
      ensures nextId == old(nextId) && DebtsUnchanged() && AuthUnchanged()
    {
      RemoveAtLength(passwords, offsets);
      RemoveAtKeepsDistinct(passwords, offsets, (p: PasswordItem) => p.id);
      passwords := RemoveAt(passwords, offsets);
      SavePasswords();
    }

    /** A request for biometric authentication. `canEvaluate` is the platform's answer to
        `canEvaluatePolicy`. A request while one is in flight is dropped; otherwise the
        request either starts an evaluation (`evaluating`), whose outcome arrives later
        through `CompleteAuthentication`, or fails at once as unavailable. */
    method AuthenticateWithBiometrics(canEvaluate: bool) returns (evaluating: bool)
      requires Valid()
      modifies this
      ensures Valid()
      ensures old(isAuthenticating) ==> !evaluating && AuthUnchanged()
      ensures !old(isAuthenticating) ==> evaluating == canEvaluate
      ensures !old(isAuthenticating) && canEvaluate ==>
                isAuthenticating && isAuthenticated == old(isAuthenticated)
      ensures !old(isAuthenticating) && !canEvaluate ==> !isAuthenticating && !isAuthenticated
      ensures isAuthenticating <==> old(isAuthenticating) || evaluating
      ensures DebtsUnchanged() && PasswordsUnchanged() && nextId == old(nextId)
    {
      if isAuthenticating {
        return false;
      }
      isAuthenticating := true;
      if canEvaluate {
        evaluating := true;
      } else {
        isAuthenticated := false;
        isAuthenticating := false;
        evaluating := false;
      }
    }

    /** The evaluation's completion, delivered on the main queue: the gate takes the
        outcome and the in-flight flag is cleared. */
    method CompleteAuthentication(success: bool)
      requires Valid()
      requires isAuthenticating
      modifies this
      ensures Valid()
      ensures isAuthenticated == success && !isAuthenticating
      ensures DebtsUnchanged() && PasswordsUnchanged() && nextId == old(nextId)
    {
      if success {
        isAuthenticated := true;
      } else {
        isAuthenticated := false;
      }
      isAuthenticating := false;
    }

    /** Replaces the debt list with the stored one, under fresh ids; a missing key or a
        failed decode keeps the list as it was. */
    method LoadDebts()
      requires Valid()
      modifies this
      ensures Valid()
      ensures var loaded := LoadedDebts(defaults.entries, old(nextId));
              && debts == (if loaded.Some? then loaded.value else old(debts))
              && nextId == old(nextId) + (if loaded.Some? then |loaded.value| else 0)
      ensures newDebtName == old(newDebtName) && newDebtAmount == old(newDebtAmount)
      ensures PasswordsUnchanged() && AuthUnchanged()
    {
      var loaded := LoadedDebts(defaults.entries, nextId);
      LoadedIdsAreFresh(defaults.entries, nextId);
      if loaded.Some? {
        debts := loaded.value;
        nextId := nextId + |loaded.value|;
      }
    }

    /** Replaces the credential list with the stored one, under fresh ids; a missing key
        or a failed decode keeps the list as it was. */
    method LoadPasswords()
      requires Valid()
      modifies this
      ensures Valid()
      ensures var loaded := LoadedPasswords(defaults.entries, old(nextId));
              && passwords == (if loaded.Some? then loaded.value else old(passwords))
              && nextId == old(nextId) + (if loaded.Some? then |loaded.value| else 0)
      ensures newPasswordWebsite == old(newPasswordWebsite) && newPasswordUsername == old(newPasswordUsername)
      ensures newPassword == old(newPassword)
      ensures DebtsUnchanged() && AuthUnchanged()
    {
      var loaded := LoadedPasswords(defaults.entries, nextId);
      LoadedIdsAreFresh(defaults.entries, nextId);
      if loaded.Some? {
        passwords := loaded.value;
        nextId := nextId + |loaded.value|;
      }
    }

    /** Loads both lists, debts first. */
    method LoadStoredLists()
      requires Valid()
      modifies this
      ensures Valid()
      ensures (debts, passwords, nextId) == StartupLoad(defaults.entries, old(debts), old(passwords), old(nextId))
      ensures newDebtName == old(newDebtName) && newDebtAmount == old(newDebtAmount)
      ensures newPasswordWebsite == old(newPasswordWebsite) && newPasswordUsername == old(newPasswordUsername)
      ensures newPassword == old(newPassword) && AuthUnchanged()
    {
      LoadDebts();
      LoadPasswords();
    }

    /** Runs when the screen appears. Does nothing when already authenticated. Otherwise
        requests authentication if biometrics are available, then replaces each list with
        what is stored for it; a missing key or a failed decode keeps the list as it was. */
    method CheckAuthenticationStatus(biometricsAvailable: bool) returns (evaluating: bool)
      requires Valid()
      modifies this
      ensures Valid()
      ensures old(isAuthenticated) ==> !evaluating && unchanged(this)
      ensures !old(isAuthenticated) && !biometricsAvailable ==> !evaluating && AuthUnchanged()
      ensures !old(isAuthenticated) && biometricsAvailable ==>
                && evaluating == !old(isAuthenticating)
                && isAuthenticating && !isAuthenticated
      ensures !old(isAuthenticated) ==>
                (debts, passwords, nextId) == StartupLoad(defaults.entries, old(debts), old(passwords), old(nextId))
      ensures newDebtName == old(newDebtName) && newDebtAmount == old(newDebtAmount)
      ensures newPasswordWebsite == old(newPasswordWebsite) && newPasswordUsername == old(newPasswordUsername)
      ensures newPassword == old(newPassword)
    {
      if isAuthenticated {
        return false;
      }
      if biometricsAvailable {
        evaluating := AuthenticateWithBiometrics(true);
      } else {
        evaluating := false;
      }
      LoadStoredLists();
    }
  }
}
