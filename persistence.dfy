/** The app's use of `UserDefaults` with `JSONEncoder`/`JSONDecoder`: two keys, each
    holding the JSON of a whole list. JSON text itself is not modelled; a stored value
    is the list it encodes, or something that does not decode. */
module Persistence {
  import opened Wrappers
  import opened Records

  const DebtsKey: string := "debts"
  const PasswordsKey: string := "passwords"

  /** What a key of the settings store holds: the JSON of a debt list, the JSON of a
      credential list (both with the ids the encoder wrote), or data no decoder accepts. */
  datatype Blob = DebtsJson(debts: seq<Debt>) | PasswordsJson(items: seq<PasswordItem>) | Undecodable

  /** JSONEncoder's default strategy throws on a non-finite Double. */
  predicate AllFinite(ds: seq<Debt>)
  {
    forall i :: 0 <= i < |ds| ==> ds[i].amount.Finite?
  }

  /** `try? JSONEncoder().encode(debts)`: fails exactly when some amount is an infinity or NaN. */
  function EncodeDebts(ds: seq<Debt>): (r: Option<Blob>)
    ensures r.Some? <==> AllFinite(ds)
  {
    if AllFinite(ds) then Some(DebtsJson(ds)) else None
  }

  /** `try? JSONEncoder().encode(passwords)`: strings always encode. */
  function EncodePasswords(ps: seq<PasswordItem>): (r: Option<Blob>)
    ensures r.Some?
  {
    Some(PasswordsJson(ps))
  }

  /** The records as a decoder rebuilds them. `let id = UUID()` is not decoded: every
      record keeps its stored fields and gets a fresh id, here `first`, `first + 1`, ... */
  function RenumberedDebts(ds: seq<Debt>, first: Id): (r: seq<Debt>)
    ensures |r| == |ds|
    ensures forall i :: 0 <= i < |ds| ==>
              r[i].name == ds[i].name && r[i].amount == ds[i].amount && r[i].id == first + i
  {
    if ds == [] then [] else [ds[0].(id := first)] + RenumberedDebts(ds[1..], first + 1)
  }

  function RenumberedPasswords(ps: seq<PasswordItem>, first: Id): (r: seq<PasswordItem>)
    ensures |r| == |ps|
    ensures forall i :: 0 <= i < |ps| ==>
              r[i].website == ps[i].website && r[i].username == ps[i].username &&
              r[i].password == ps[i].password && r[i].id == first + i
  {
    if ps == [] then [] else [ps[0].(id := first)] + RenumberedPasswords(ps[1..], first + 1)
  }

  /** `try? JSONDecoder().decode([Debt].self, from:)`. An empty JSON array decodes as
      an array of any element type; a non-empty credential array lacks `name` and `amount`. */
  function DecodeDebts(b: Blob, first: Id): (r: Option<seq<Debt>>)
    ensures b.Undecodable? || (b.PasswordsJson? && b.items != []) ==> r.None?
    ensures b.DebtsJson? ==>
              && r.Some? && |r.value| == |b.debts|
              && forall i :: 0 <= i < |b.debts| ==>
                   r.value[i].name == b.debts[i].name && r.value[i].amount == b.debts[i].amount
    ensures r.Some? ==> forall i :: 0 <= i < |r.value| ==> r.value[i].id == first + i
  {
    match b
    case DebtsJson(ds) => Some(RenumberedDebts(ds, first))
    case PasswordsJson(ps) => if ps == [] then Some([]) else None
    case Undecodable => None
  }

  /** `try? JSONDecoder().decode([PasswordItem].self, from:)`. */
  function DecodePasswords(b: Blob, first: Id): (r: Option<seq<PasswordItem>>)
    ensures b.Undecodable? || (b.DebtsJson? && b.debts != []) ==> r.None?
    ensures b.PasswordsJson? ==>
              && r.Some? && |r.value| == |b.items|
              && forall i :: 0 <= i < |b.items| ==>
                   r.value[i].website == b.items[i].website && r.value[i].username == b.items[i].username &&
                   r.value[i].password == b.items[i].password
    ensures r.Some? ==> forall i :: 0 <= i < |r.value| ==> r.value[i].id == first + i
  {
    match b
    case PasswordsJson(ps) => Some(RenumberedPasswords(ps, first))
    case DebtsJson(ds) => if ds == [] then Some([]) else None
    case Undecodable => None
  }

  /** Writing an encoding result under `key`: `if let data = try? encode(...) { set(data, forKey: key) }`.
      A save overwrites its own key only, and a failed encoding writes nothing. */
  function Saved(entries: map<string, Blob>, key: string, encoded: Option<Blob>): (r: map<string, Blob>)
    ensures r - {key} == entries - {key}
    ensures encoded.Some? ==> key in r && r[key] == encoded.value
    ensures encoded.None? ==> r == entries
  {
    if encoded.Some? then entries[key := encoded.value] else entries
  }

  /** What startup loading finds under "debts": `None` for a missing key or a failed decode. */
  function LoadedDebts(entries: map<string, Blob>, first: Id): (r: Option<seq<Debt>>)
    ensures r.Some? <==> DebtsKey in entries && DecodeDebts(entries[DebtsKey], first).Some?
  {
    if DebtsKey in entries then DecodeDebts(entries[DebtsKey], first) else None
  }

  function LoadedPasswords(entries: map<string, Blob>, first: Id): (r: Option<seq<PasswordItem>>)
    ensures r.Some? <==> PasswordsKey in entries && DecodePasswords(entries[PasswordsKey], first).Some?
  {
    if PasswordsKey in entries then DecodePasswords(entries[PasswordsKey], first) else None
  }

  /** The lists and id counter after startup loading: each list is replaced by what is
      stored for it, debts first, and a missing key or a failed decode keeps a list. */
  function StartupLoad(entries: map<string, Blob>, ds: seq<Debt>, ps: seq<PasswordItem>, first: Id)
    : (r: (seq<Debt>, seq<PasswordItem>, Id))
    ensures LoadedDebts(entries, first).None? ==> r.0 == ds
    ensures LoadedPasswords(entries, first).None? ==> r.1 == ps
    ensures DebtsKey in entries && entries[DebtsKey].DebtsJson? ==>
              var stored := entries[DebtsKey].debts;
              |r.0| == |stored| &&
              forall i :: 0 <= i < |stored| ==> r.0[i].name == stored[i].name && r.0[i].amount == stored[i].amount
    ensures PasswordsKey in entries && entries[PasswordsKey].PasswordsJson? ==>
              var stored := entries[PasswordsKey].items;
              |r.1| == |stored| &&
              forall i :: 0 <= i < |stored| ==>
                r.1[i].website == stored[i].website && r.1[i].username == stored[i].username &&
                r.1[i].password == stored[i].password
    ensures first <= r.2
  {
    var loadedDebts := LoadedDebts(entries, first);
    var ds' := if loadedDebts.Some? then loadedDebts.value else ds;
    var mid := if loadedDebts.Some? then first + |loadedDebts.value| else first;
    var loadedPasswords := LoadedPasswords(entries, mid);
    if loadedPasswords.Some? then (ds', loadedPasswords.value, mid + |loadedPasswords.value|)
    else (ds', ps, mid)
  }

  /** Loaded records carry the consecutive fresh ids `first`, `first + 1`, ... */
  lemma LoadedIdsAreFresh(entries: map<string, Blob>, first: Id)
    ensures LoadedDebts(entries, first).Some? ==>
              forall i :: 0 <= i < |LoadedDebts(entries, first).value| ==>
                LoadedDebts(entries, first).value[i].id == first + i
    ensures LoadedPasswords(entries, first).Some? ==>
              forall i :: 0 <= i < |LoadedPasswords(entries, first).value| ==>
                LoadedPasswords(entries, first).value[i].id == first + i
  {
  }

  /** Saving a debt list whose amounts are all finite and loading it again gives back the
      same names and amounts in the same order, under fresh ids. */
  lemma ReloadAfterSaveDebts(entries: map<string, Blob>, ds: seq<Debt>, first: Id)
    requires AllFinite(ds)
    ensures var loaded := LoadedDebts(Saved(entries, DebtsKey, EncodeDebts(ds)), first);
            && loaded.Some? && |loaded.value| == |ds|
            && forall i :: 0 <= i < |ds| ==>
                 loaded.value[i].name == ds[i].name && loaded.value[i].amount == ds[i].amount &&
                 loaded.value[i].id == first + i
  {
  }

  /** Saving a credential list and loading it again gives back the same fields in the
      same order, under fresh ids. */
  lemma ReloadAfterSavePasswords(entries: map<string, Blob>, ps: seq<PasswordItem>, first: Id)
    ensures var loaded := LoadedPasswords(Saved(entries, PasswordsKey, EncodePasswords(ps)), first);
            && loaded.Some? && |loaded.value| == |ps|
            && forall i :: 0 <= i < |ps| ==>
                 loaded.value[i].website == ps[i].website && loaded.value[i].username == ps[i].username &&
                 loaded.value[i].password == ps[i].password && loaded.value[i].id == first + i
  {
  }

  /** The two collections are independent: saving one never changes what loads for the other. */
  lemma SavesAreIndependent(entries: map<string, Blob>, ds: seq<Debt>, ps: seq<PasswordItem>, first: Id)
    ensures LoadedPasswords(Saved(entries, DebtsKey, EncodeDebts(ds)), first) == LoadedPasswords(entries, first)
    ensures LoadedDebts(Saved(entries, PasswordsKey, EncodePasswords(ps)), first) == LoadedDebts(entries, first)
  {
  }

  /** `UserDefaults.standard`: a key-value store that outlives a `ContentView`. */
  class UserDefaults {
    var entries: map<string, Blob>

    constructor (entries: map<string, Blob>)
      ensures this.entries == entries
    {
      this.entries := entries;
    }

    /** `set(_:forKey:)` overwrites one key. */
    method Set(value: Blob, key: string)
      modifies this
      ensures entries == old(entries)[key := value]
    {
      entries := entries[key := value];
    }
  }
}
