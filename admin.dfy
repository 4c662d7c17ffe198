/** The administrator registry: the single stored administrator identity,
    absent until the contract is initialised. */
module Admin {
  import opened Types

  /** `has_administrator`: whether an administrator has been stored. */
  function HasAdministrator(admin: Option<Address>): (r: bool)
    ensures r <==> ReadAdministrator(admin).Ok?
  {
    admin.Some?
  }

  /** `read_administrator`: the stored administrator; it panics rather than
      return a default when none is stored. */
  function ReadAdministrator(admin: Option<Address>): (r: Result<Address>)
    ensures r.Ok? <==> admin.Some?
    ensures r.Ok? ==> Some(r.value) == admin
    ensures r.Err? ==> r.error == Uninitialized
  {
    match admin
    case Some(a) => Ok(a)
    case None => Err(Uninitialized)
  }
}
