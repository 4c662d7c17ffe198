/** The `IndexToken` contract as an object whose storage the entry points
    update in place. Each state-changing method performs the source's calls
    in order and writes the fields as the source writes storage; a panic
    returns `Err` and leaves every field as it was on entry, because the host
    aborts the whole invocation. Each method is proved to agree with the
    function of the same entry point in IndexSpec. */
module Contract {
  import opened Types
  import opened Balance
  import opened Admin
  import IndexSpec

  class IndexToken {
    var admin: Option<Address>
    var metadata: Option<IndexSpec.TokenMetadata>
    var holdings: Holdings

    /** The stored fields as a value of the specification. */
    function Snapshot(): IndexSpec.State
      reads this
    {
      IndexSpec.State(admin, metadata, holdings)
    }

    ghost predicate Valid()
      reads this
    {
      IndexSpec.Valid(Snapshot())
    }

    /** A freshly deployed contract: no administrator, no metadata, no
        holdings. */
    constructor ()
      ensures Valid() && Snapshot() == IndexSpec.Genesis
    {
      admin := None;
      metadata := None;
      holdings := map[];
    }

    /** `initialize_index`. */
    method InitializeIndex(newAdmin: Address, decimal: U32, name: string, symbol: string)
      returns (r: Result<seq<IndexSpec.Event>>)
      requires Valid()
      modifies this
      ensures Valid()
      ensures var spec := IndexSpec.InitializeIndex(old(Snapshot()), newAdmin, decimal, name, symbol);
        Snapshot() == IndexSpec.Commit(old(Snapshot()), spec) && r == IndexSpec.Emitted(spec)
      ensures r.Err? ==> Snapshot() == old(Snapshot())
      ensures r.Ok? ==> admin == Some(newAdmin) && metadata == Some(IndexSpec.TokenMetadata(decimal, name, symbol))
      ensures holdings == old(holdings)
    {
      if HasAdministrator(admin) {
        return Err(AlreadyInitialized);
      }
      var before := admin;
      admin := Some(newAdmin);
      if decimal > IndexSpec.MAX_DECIMAL {
        // The panic aborts the invocation, so the host discards the write above.
        admin := before;
        return Err(InvalidDecimal);
      }
      metadata := Some(IndexSpec.TokenMetadata(decimal, name, symbol));
      return Ok([]);
    }

    /** `add_asset`. */
    method AddAsset(signers: set<Address>, asset: Address, amount: I128)
      returns (r: Result<seq<IndexSpec.Event>>)
      requires Valid()
      modifies this
      ensures Valid()
      ensures var spec := IndexSpec.AddAsset(old(Snapshot()), signers, asset, amount);
        Snapshot() == IndexSpec.Commit(old(Snapshot()), spec) && r == IndexSpec.Emitted(spec)
      ensures r.Err? ==> Snapshot() == old(Snapshot())
      ensures r.Ok? ==> GetAssetAmount(asset) == old(GetAssetAmount(asset)) + amount
      ensures admin == old(admin) && metadata == old(metadata)
    {
      var current: Address;
      :- RequireAuth(signers, asset);
      :- IndexSpec.CheckNonnegativeAmount(amount);
      current :- ReadAdministrator(admin);
      :- RequireAuth(signers, current);
      var updated :- ReceiveBalance(holdings, asset, amount);
      holdings := updated;
      return Ok([IndexSpec.Mint(current, asset, amount)]);
    }

    /** `remove_asset`. */
    method RemoveAsset(signers: set<Address>, asset: Address, amount: I128)
      returns (r: Result<seq<IndexSpec.Event>>)
      requires Valid()
      modifies this
      ensures Valid()
      ensures var spec := IndexSpec.RemoveAsset(old(Snapshot()), signers, asset, amount);
        Snapshot() == IndexSpec.Commit(old(Snapshot()), spec) && r == IndexSpec.Emitted(spec)
      ensures r.Err? ==> Snapshot() == old(Snapshot())
      ensures r.Ok? ==> GetAssetAmount(asset) == old(GetAssetAmount(asset)) - amount
      ensures admin == old(admin) && metadata == old(metadata)
    {
      var current: Address;
      :- RequireAuth(signers, asset);
      :- IndexSpec.CheckNonnegativeAmount(amount);
      current :- ReadAdministrator(admin);
      :- RequireAuth(signers, current);
      var updated :- SpendBalance(holdings, asset, amount);
      holdings := updated;
      return Ok([IndexSpec.Burn(asset, amount)]);
    }

    /** `get_asset_amount`: the holding of `asset`, 0 when it has none; never
        negative. */
    function GetAssetAmount(asset: Address): (r: I128)
      reads this
      requires Valid()
      ensures r >= 0
      ensures asset !in holdings ==> r == 0
    {
      IndexSpec.GetAssetAmount(Snapshot(), asset)
    }

    /** `set_admin`. */
    method SetAdmin(signers: set<Address>, newAdmin: Address)
      returns (r: Result<seq<IndexSpec.Event>>)
      requires Valid()
      modifies this
      ensures Valid()
      ensures var spec := IndexSpec.SetAdministrator(old(Snapshot()), signers, newAdmin);
        Snapshot() == IndexSpec.Commit(old(Snapshot()), spec) && r == IndexSpec.Emitted(spec)
      ensures r.Ok? <==> old(admin).Some? && old(admin).value in signers
      ensures r.Ok? ==> admin == Some(newAdmin)
      ensures r.Err? ==> admin == old(admin)
      ensures metadata == old(metadata) && holdings == old(holdings)
    {
      var current :- ReadAdministrator(admin);
      :- RequireAuth(signers, current);
      admin := Some(newAdmin);
      return Ok([IndexSpec.SetAdmin(current, newAdmin)]);
    }
  }

  /** A client of the contract: initialise, fill the pool, fail to over-draw
      it, rotate the administrator. Everything asserted follows from the
      method contracts alone. */
  method PoolLifecycle() {
    var token := new IndexToken();
    var r := token.InitializeIndex("A", 7, "Idx", "IDX");
    assert r.Ok? && token.metadata == Some(IndexSpec.TokenMetadata(7, "Idx", "IDX"));
    r := token.InitializeIndex("B", 7, "Other", "OTH");
    assert r == Err(AlreadyInitialized) && token.admin == Some("A");
    r := token.AddAsset({"A", "X"}, "X", 100);
    r := token.AddAsset({"A", "X"}, "X", 50);
    assert token.GetAssetAmount("X") == 150;
    r := token.RemoveAsset({"A", "X"}, "X", 200);
    assert r == Err(InsufficientBalance) && token.GetAssetAmount("X") == 150;
    r := token.AddAsset({"X"}, "X", 1);
    assert r == Err(NotAuthorized);
    r := token.SetAdmin({"A"}, "B");
    r := token.AddAsset({"A", "X"}, "X", 1);
    assert r == Err(NotAuthorized) && token.GetAssetAmount("X") == 150;
  }
}
