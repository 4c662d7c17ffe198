# Index token: administrator and asset-pool state machine

A Dafny model of the `IndexToken` Soroban contract in
`contracts/cyrpto-index/src/index_token.rs`. The contract stores three things:

- an administrator, written once by `initialize_index` and handed on by `set_admin`;
- token metadata (decimal precision at most 18, name, symbol), written once by `initialize_index`;
- an address-keyed balance map holding the amount of each underlying asset in the pool.

`add_asset` and `remove_asset` credit and debit that map. They need the signature
of both the asset and the administrator, and they reject negative amounts.
`get_asset_amount` reads the map, with 0 for an address that holds nothing.

A panic aborts the whole Soroban invocation. It is modelled as an `Err` result
that leaves every field of the storage exactly as it was.

## Layout

- `types.dfy` (module `Types`): addresses, the `i128`/`u32` ranges, the error
  taxonomy, and `Outcome`/`Result` wrappers that propagate a panic with `:-`.
  Also `RequireAuth`, the `require_auth` primitive. It passes exactly when the
  address is in the set of addresses that signed the invocation.
- `balance.dfy` (module `Balance`): the `read_balance` / `receive_balance` /
  `spend_balance` helpers over the balance map, and the ghost `Total` of a map.
- `admin.dfy` (module `Admin`): `has_administrator` and `read_administrator`.
- `index_spec.dfy` (module `IndexSpec`): the contract as a state machine over
  values. It has one function per entry point. `Commit` applies a result
  all-or-nothing. `Run` applies a sequence of calls. The lemmas state what the
  contract promises across calls.
- `contract.dfy` (module `Contract`): class `IndexToken`. Its fields are
  `admin`, `metadata` and `holdings`, and its methods update them in place in
  the order the source does. Each method is proved to leave exactly the state
  and return exactly the result of the matching `IndexSpec` function.
  `PoolLifecycle` is a client that uses only the method contracts.

Points of the code that shape the model:

- Asset holdings live in the token's own address-keyed balance map. They are
  read and written through `read_balance`, `receive_balance` and
  `spend_balance` (index_token.rs:53-54, 65, 70), so the model has one
  address-keyed map.
- `add_asset` and `remove_asset` check in this order: the asset's signature,
  then the amount's sign, then that an administrator exists, then the
  administrator's signature (index_token.rs:47-51, 59-63). The model keeps that
  order, so the error returned is the first check that fails.
- `initialize_index` writes the administrator before it checks the decimal
  precision. The class method does the same and then undoes the write on the
  panic path, as the host's abort does. No one has to sign `initialize_index`.

Assumption: `receive_balance` computes `balance + amount` in `i128` with overflow
checks on, so a sum above `i128::MAX` panics with `Overflow`. `spend_balance` is
modelled the same way.

## Model

| member | source | states |
|---|---|---|
| `Types.RequireAuth` | contracts/cyrpto-index/src/index_token.rs:47-51 | passes iff the address signed the invocation; otherwise panics with NotAuthorized |
| `Admin.ReadAdministrator` | contracts/cyrpto-index/src/index_token.rs:50 | returns the stored administrator; panics with Uninitialized when none is stored, never a default |
| `Admin.HasAdministrator` | contracts/cyrpto-index/src/index_token.rs:28 | true iff an administrator is stored, which is exactly when `read_administrator` succeeds |
| `Balance.ReadBalance` | contracts/cyrpto-index/src/index_token.rs:69-71 | an absent address holds 0; the result is non-negative on a non-negative ledger |
| `Balance.ReceiveBalance` | contracts/cyrpto-index/src/index_token.rs:53-54 | succeeds iff the new balance stays in i128 (else Overflow); raises the balance of `a` by exactly `amount`; every other balance is unchanged; keeps the ledger non-negative for a non-negative amount |
| `Balance.SpendBalance` | contracts/cyrpto-index/src/index_token.rs:65 | fails with InsufficientBalance when the balance is below `amount`; on success lowers it by exactly `amount` to a non-negative value; every other balance is unchanged |
| `Balance.SpendUndoesReceive` | contracts/cyrpto-index/src/index_token.rs:54-65 | on a non-negative ledger, spending what was just received succeeds and gives every address its old balance back |
| `Balance.ReceiveRaisesTotal` | contracts/cyrpto-index/src/index_token.rs:54 | a successful receive raises the sum of all balances by exactly `amount` |
| `Balance.SpendLowersTotal` | contracts/cyrpto-index/src/index_token.rs:65 | a successful spend lowers the sum of all balances by exactly `amount` |
| `IndexSpec.CheckNonnegativeAmount` | contracts/cyrpto-index/src/index_token.rs:81-85 | passes iff `amount >= 0`; otherwise panics with NegativeAmount |
| `IndexSpec.InitializeIndex` | contracts/cyrpto-index/src/index_token.rs:27-44 | AlreadyInitialized when an administrator exists; InvalidDecimal when decimal > 18 (so nothing is written); succeeds iff neither applies; then admin = `admin`, metadata = (decimal, name, symbol), holdings unchanged; keeps the storage invariant |
| `IndexSpec.AddAsset` | contracts/cyrpto-index/src/index_token.rs:46-56 | succeeds iff the asset and the current administrator signed, the amount is non-negative and the sum fits i128; each failure is named in the source's check order; raises the asset's holding by exactly `amount`; leaves every other holding, the admin and the metadata unchanged; emits Mint(admin, asset, amount) |
| `IndexSpec.RemoveAsset` | contracts/cyrpto-index/src/index_token.rs:58-67 | succeeds iff both signed, the amount is non-negative and at most the holding; InsufficientBalance otherwise after the signature checks; lowers the holding by exactly `amount`, never below 0; all else unchanged; emits Burn(asset, amount) |
| `IndexSpec.SetAdministrator` | contracts/cyrpto-index/src/index_token.rs:73-78 | succeeds iff an administrator exists and signed (Uninitialized / NotAuthorized otherwise); then admin = `newAdmin`, metadata and holdings untouched; emits SetAdmin(old, new) |
| `IndexSpec.GetAssetAmount` | contracts/cyrpto-index/src/index_token.rs:69-71 | 0 for an asset with no entry; never negative in a valid state |
| `IndexSpec.InvokePreservesValid` | contracts/cyrpto-index/src/index_token.rs:26-79 | every entry point, completed or aborted, keeps the invariant: no negative holding, admin and metadata set together, decimal at most 18 |
| `IndexSpec.RunPreservesValid` | contracts/cyrpto-index/src/index_token.rs:26-79 | after any sequence of calls the invariant still holds and no asset amount is negative |
| `IndexSpec.RunKeepsMetadata` | contracts/cyrpto-index/src/index_token.rs:28-43 | once initialised, the metadata never changes and an administrator stays set, whatever calls follow |
| `IndexSpec.AdminChangesOnlyByAdmin` | contracts/cyrpto-index/src/index_token.rs:27-78 | the administrator changes only by the first initialisation (to the given admin) or by a set_admin that the current administrator signed |
| `IndexSpec.HoldingsChangeOnlyWithBothSignatures` | contracts/cyrpto-index/src/index_token.rs:46-67 | the holdings change only by add_asset or remove_asset, signed by both the asset and the current administrator |
| `IndexSpec.RemoveUndoesAdd` | contracts/cyrpto-index/src/index_token.rs:46-67 | in a valid state, add_asset(a, x) then remove_asset(a, x) with the same signers succeeds and restores every holding, the admin and the metadata |
| `IndexSpec.AddAssetRaisesTotal` | contracts/cyrpto-index/src/index_token.rs:53-54 | a successful add_asset raises the pool total by exactly `amount` |
| `IndexSpec.RemoveAssetLowersTotal` | contracts/cyrpto-index/src/index_token.rs:65 | a successful remove_asset lowers the pool total by exactly `amount` |
| `IndexSpec.AssetPoolScenario` | contracts/cyrpto-index/src/index_token.rs:46-71 | initialise, add 100 and 50 of X: X holds 150; removing 200 fails with InsufficientBalance and X still holds 150 |
| `Contract.IndexToken.constructor` | contracts/cyrpto-index/src/index_token.rs:22-23 | a fresh contract stores no admin, no metadata and no holdings, and satisfies the invariant |
| `Contract.IndexToken.InitializeIndex` | contracts/cyrpto-index/src/index_token.rs:27-44 | new fields and result are those of `IndexSpec.InitializeIndex`; a panic leaves every field as on entry (including the admin written before the decimal check); holdings untouched |
| `Contract.IndexToken.AddAsset` | contracts/cyrpto-index/src/index_token.rs:46-56 | new fields and result are those of `IndexSpec.AddAsset`; on success get_asset_amount(asset) rises by exactly `amount`; a panic changes nothing; admin and metadata untouched |
| `Contract.IndexToken.RemoveAsset` | contracts/cyrpto-index/src/index_token.rs:58-67 | new fields and result are those of `IndexSpec.RemoveAsset`; on success get_asset_amount(asset) falls by exactly `amount`; a panic changes nothing |
| `Contract.IndexToken.GetAssetAmount` | contracts/cyrpto-index/src/index_token.rs:69-71 | the stored holding, 0 when absent, never negative |
| `Contract.IndexToken.SetAdmin` | contracts/cyrpto-index/src/index_token.rs:73-78 | succeeds iff an administrator exists and signed; then admin = `newAdmin`; otherwise the admin is unchanged; metadata and holdings untouched |

## Left out

- The rest of the token interface (transfer, transfer_from, approve, allowance, burn, burn_from, clawback, mint, set_authorized, and the name/symbol/decimals readers). Their implementations in `token_contract.rs`, `allowance.rs` and `metadata.rs` are not part of this model.
- `admin.rs`, `balance.rs` and `metadata.rs` are not part of this model. Their helpers are modelled by their evident contracts: an absent balance reads 0, receive adds, spend fails below the amount, and read_administrator fails when no administrator is stored.
- Balance.ReceiveBalance and Balance.SpendBalance: the per-account authorisation flag (`is_authorized`) that the standard Soroban balance helpers consult is not modelled. Every account is treated as authorised, because the flag operations are out of scope.
- Balance.ReceiveBalance: the `Overflow` panic is an assumption. It takes overflow checks to be on for `i128` arithmetic; the helper's own code is not modelled.
- Event publication: the host's event log is not modelled. The events an entry point would emit are returned as a list.
- Host storage lifetimes (TTL extension) are not modelled. They do not change what is stored.
- `require_auth` signature checking is abstracted as membership in the caller-supplied set of signers.
- The source as written does not compile. `asset` is moved at index_token.rs:54 and then used at :55, `#[contract]` is not imported, and `TokenClient` is re-exported by lib.rs but never defined. The model follows the evident intent: the Mint event carries the asset address. The unused `asset_balance` read at index_token.rs:53 has no effect and is omitted.
- `test.rs` implements a different trait whose bodies are all empty, so there is no behaviour to model.
