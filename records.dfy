/** The two record types of the app: a debt owed to the user and a stored credential. */
module Records {

  /** A record identifier. The app draws a fresh UUID for every record it builds;
      the model draws fresh numbers instead. */
  type Id = nat

  /** A Swift Double as far as this model needs it: a finite value, one of the two
      infinities, or NaN. Arithmetic on it is not modelled. */
  datatype Amount = Finite(value: real) | PlusInfinity | MinusInfinity | NaN

  /** `amount > 0` on a Double: NaN compares false with everything. */
  predicate IsPositive(a: Amount): (b: bool)
    ensures a.NaN? || a.MinusInfinity? ==> !b
    ensures a.PlusInfinity? ==> b
    ensures a.Finite? ==> (b <==> a.value > 0.0)
  {
    match a
    case Finite(v) => v > 0.0
    case PlusInfinity => true
    case MinusInfinity => false
    case NaN => false
  }

  datatype Debt = Debt(id: Id, name: string, amount: Amount)

  datatype PasswordItem = PasswordItem(id: Id, website: string, username: string, password: string)

  /** No two records of `ds` share an id. */
  ghost predicate DistinctDebtIds(ds: seq<Debt>)
  {
    forall i, j :: 0 <= i < j < |ds| ==> ds[i].id != ds[j].id
  }

  ghost predicate DistinctPasswordIds(ps: seq<PasswordItem>)
  {
    forall i, j :: 0 <= i < j < |ps| ==> ps[i].id != ps[j].id
  }
}
