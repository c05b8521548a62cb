/** Whole-screen runs built only from the contracts of `ContentView`: what a user sees
    after a sequence of actions, including a relaunch that reads the same settings store. */
module Scenarios {
  import opened Wrappers
  import opened Records
  import opened Persistence
  import opened RamApp
  import opened DebtDisplay

  /** Two taps on the locked credential list before the first evaluation completes
      start exactly one evaluation. */
  method DuplicateRequest() returns (first: bool, second: bool)
    ensures first && !second
  {
    var defaults := new UserDefaults(map[]);
    var view := new ContentView(defaults);
    first := view.AuthenticateWithBiometrics(true);
    second := view.AuthenticateWithBiometrics(true);
  }

  /** Without biometrics the request resolves at once: not authenticated, nothing in
      flight, no evaluation started. */
  method BiometricsUnavailable() returns (evaluating: bool, authenticated: bool, inFlight: bool)
    ensures !evaluating && !authenticated && !inFlight
  {
    var defaults := new UserDefaults(map[]);
    var view := new ContentView(defaults);
    evaluating := view.AuthenticateWithBiometrics(false);
    authenticated, inFlight := view.isAuthenticated, view.isAuthenticating;
  }

  /** A failed evaluation leaves the gate closed, and a credential typed in then is
      refused: it is neither shown nor written to the store. */
  method FailedAuthenticationRefusesCredential()
    returns (authenticated: bool, inFlight: bool, shown: seq<PasswordItem>, stored: map<string, Blob>)
    ensures !authenticated && !inFlight && shown == [] && stored == map[]
  {
    var defaults := new UserDefaults(map[]);
    var view := new ContentView(defaults);
    var started := view.AuthenticateWithBiometrics(true);
    view.CompleteAuthentication(false);
    view.newPasswordWebsite, view.newPasswordUsername, view.newPassword := "a.example", "ann", "pw1";
    view.AddPassword();
    authenticated, inFlight, shown, stored := view.isAuthenticated, view.isAuthenticating, view.passwords, defaults.entries;
  }

  /** Removing position 0 of a two-element list leaves the second element. */
  lemma RemoveFirstOfTwo<T>(a: T, b: T)
    ensures Offsets.RemoveAt([a, b], {0}) == [b]
  {
    assert [a, b][..1] == [a] && [a][..0] == [];
    assert Offsets.RemoveAt([a], {0}) == Offsets.RemoveAt([], {0}) + [];
    assert Offsets.RemoveAt([a, b], {0}) == Offsets.RemoveAt([a], {0}) + [b];
  }

  /** A screen after a successful authentication and two credentials typed in and added. */
  method SignedInWithTwoCredentials() returns (view: ContentView)
    ensures fresh(view) && fresh(view.defaults) && view.Valid()
    ensures view.passwords == [PasswordItem(0, "a.example", "ann", "pw1"), PasswordItem(1, "b.example", "bob", "pw2")]
  {
    var defaults := new UserDefaults(map[]);
    view := new ContentView(defaults);
    var started := view.AuthenticateWithBiometrics(true);
    view.CompleteAuthentication(true);
    view.newPasswordWebsite, view.newPasswordUsername, view.newPassword := "a.example", "ann", "pw1";
    view.AddPassword();
    view.newPasswordWebsite, view.newPasswordUsername, view.newPassword := "b.example", "bob", "pw2";
    view.AddPassword();
  }

  /** Two credentials added after authenticating and the first one deleted: the store
      holds just the second credential. */
  method AddTwoCredentialsDeleteFirst() returns (defaults: UserDefaults)
    ensures fresh(defaults)
    ensures PasswordsKey in defaults.entries
    ensures defaults.entries[PasswordsKey] == PasswordsJson([PasswordItem(1, "b.example", "bob", "pw2")])
  {
    var view := SignedInWithTwoCredentials();
    RemoveFirstOfTwo(PasswordItem(0, "a.example", "ann", "pw1"), PasswordItem(1, "b.example", "bob", "pw2"));
    view.DeletePasswords({0});
    defaults := view.defaults;
  }

  /** After that edit and a relaunch, the new screen loads just the second credential. */
  method CredentialsSurviveRelaunch() returns (reloaded: seq<PasswordItem>)
    ensures |reloaded| == 1
    ensures reloaded[0].website == "b.example" && reloaded[0].username == "bob" && reloaded[0].password == "pw2"
  {
    var defaults := AddTwoCredentialsDeleteFirst();
    var relaunched := new ContentView(defaults);
    var evaluating := relaunched.CheckAuthenticationStatus(false);
    reloaded := relaunched.passwords;
  }

  /** Alice's debt of 50 is added, the app relaunches, and the same debt loads again. */
  method DebtSurvivesRelaunch() returns (reloaded: seq<Debt>)
    ensures |reloaded| == 1 && reloaded[0].name == "Alice" && reloaded[0].amount == Finite(50.0)
  {
    var defaults := new UserDefaults(map[]);
    var view := new ContentView(defaults);
    view.newDebtName, view.newDebtAmount := "Alice", "50.0";
    view.AddDebt(s => if s == "50.0" then Some(Finite(50.0)) else None);
    var relaunched := new ContentView(defaults);
    var evaluating := relaunched.CheckAuthenticationStatus(false);
    reloaded := relaunched.debts;
  }

  /** A debt whose amount text parses as infinity stays on screen but is never written:
      JSON encoding fails, so the stored list is the one from before and a relaunch
      loses the debt. */
  method InfiniteAmountIsNotPersisted() returns (shown: seq<Debt>, reloaded: seq<Debt>)
    ensures |shown| == 1 && shown[0].amount == PlusInfinity
    ensures reloaded == []
  {
    var defaults := new UserDefaults(map[]);
    var view := new ContentView(defaults);
    view.newDebtName, view.newDebtAmount := "Carol", "inf";
    view.AddDebt(s => if s == "inf" then Some(PlusInfinity) else None);
    shown := view.debts;
    var relaunched := new ContentView(defaults);
    var evaluating := relaunched.CheckAuthenticationStatus(false);
    reloaded := relaunched.debts;
  }

  /** A debt whose amount is not finite blocks every save of the list it sits in,
      wherever it sits; of the non-finite amounts only plus infinity is shown. */
  lemma NonFiniteDebtBlocksSaving(before: seq<Debt>, d: Debt, after: seq<Debt>)
    requires !d.amount.Finite?
    ensures EncodeDebts(before + [d] + after).None?
    ensures Displayed([d]) == (if d.amount.PlusInfinity? then [d] else [])
  {
    var ds := before + [d] + after;
    assert ds[|before|] == d;
    DisplayedSingle(d);
  }
}
