# Vault configuration registry

A model of the vault configuration registry of the Morpho Blue SDK
(`packages/blue-sdk/src/vault/VaultConfig.ts`).

A `VaultConfig` is an immutable record that describes one vault. It holds the
vault's address, its decimals and decimals offset, its symbol and name, the
address of its underlying asset, and optionally the chain id it was built for.
Building a config with a chain id also stores the new object in a process-wide
cache. The cache is keyed first by chain id and then by vault address. The
chain's inner table is created only when it is missing, and a later config for
the same chain and address replaces the earlier one. `VaultConfig.get(address,
chainId)` reads the cache. It returns the stored object, or throws
`UnknownVaultConfigError(address)` when the chain has no table or the table has
no entry for that address.

How the model is laid out:

- `wrappers.dfy`: the `Option` and `Result` datatypes.
- `vault_config.dfy`, module `VaultConfigs`:
  - `VaultConfig` is a class with `const` fields. The cache stores object
    references and `get` returns the very object the constructor built, so
    identity is kept.
  - The static `_CACHE` table is an object of class `VaultConfigCache`. Its
    field `table: map<int, map<Address, VaultConfig>>` is reassigned by the
    `VaultConfig` constructor. Dafny has no static mutable fields, so the
    constructor takes the cache as a parameter.
  - The cache carries a ghost `history` of every config built against it, in
    order. Its invariant `Valid()` says the table is what replaying that history
    on an empty table gives (`Replay`).
  - `Lookup` and `Register` are the pure two-level read and write on the table.
    The lemmas are stated about them.
  - `get`'s exception is the `Failure(UnknownVaultConfigError(address))` case of
    a `Result`.

The chain id is optional (`Option<int>`). The source tests `chainId != null`, so
chain id `0` registers like any other chain id. An address is a `0x`-prefixed string
(subset type `Address`) and is matched exactly, since the source uses it as a
property key.

## Model

| member | source | states |
|---|---|---|
| `VaultConfigs.VaultConfig.constructor` | packages/blue-sdk/src/vault/VaultConfig.ts:36-55 | Address, symbol, name and asset are copied unchanged. Decimals and decimals offset keep the input's integer value. The chain id is stored. With a chain id, `get` for this chain and address now returns exactly this object, and every other (chain, address) lookup is unchanged. Without a chain id the table is unchanged. The cache invariant is kept and the config is appended to the history. |
| `VaultConfigs.VaultConfigCache.constructor` | packages/blue-sdk/src/vault/VaultConfig.ts:16-19 | The cache starts as an empty table with an empty history, and the cache invariant holds. |
| `VaultConfigs.VaultConfigCache.Get` | packages/blue-sdk/src/vault/VaultConfig.ts:21-27 | Changes nothing and returns the two-level lookup of the table. It fails with `UnknownVaultConfigError(address)` exactly when no config was ever built for that chain id and address. Otherwise some config in the history is the latest built for that key, and it returns that one. Its address and chain id are the ones asked for. |
| `VaultConfigs.Lookup` | packages/blue-sdk/src/vault/VaultConfig.ts:22-24 | On a well-keyed table, a successful lookup yields a config built for exactly the chain id and address asked for. A missing chain and a missing address on a known chain both fail with `UnknownVaultConfigError` carrying the address asked for. |
| `VaultConfigs.Register` | packages/blue-sdk/src/vault/VaultConfig.ts:54 | Adds the chain id to the outer keys and the address to that chain's inner keys, creating the inner table only when it is missing. It stores the config under that key. Every other address on that chain and every other chain's table is kept. |
| `VaultConfigs.LookupAfterRegister` | packages/blue-sdk/src/vault/VaultConfig.ts:54 | After registration, a lookup of the registered chain and address returns the new config. A lookup of any other (chain, address) pair returns what it returned before. |
| `VaultConfigs.RegisterOverwrites` | packages/blue-sdk/src/vault/VaultConfig.ts:54 | Registering two configs under the same chain and address gives the same table as registering only the second: the latest wins. |
| `VaultConfigs.RegisterCommutes` | packages/blue-sdk/src/vault/VaultConfig.ts:54 | Two registrations under different (chain id, address) keys give the same table in either order, so order matters only for the same key. |
| `VaultConfigs.UnregisteredConfigChangesNothing` | packages/blue-sdk/src/vault/VaultConfig.ts:54 | Building a config without a chain id leaves every lookup result as it was. |
| `VaultConfigs.RegisterConfigPreservesWellKeyed` | packages/blue-sdk/src/vault/VaultConfig.ts:45-54 | If every entry is stored under its own chain id and address, that stays true after a construction step. |
| `VaultConfigs.ReplayWellKeyed` | packages/blue-sdk/src/vault/VaultConfig.ts:45-54 | Any table reached from the empty cache by constructing configs stores each entry under the chain id it was built with and its own address. |
| `VaultConfigs.ReplayAppend` | packages/blue-sdk/src/vault/VaultConfig.ts:54 | Constructing one more config changes the replayed table by exactly one registration step. |
| `VaultConfigs.ReplayLookup` | packages/blue-sdk/src/vault/VaultConfig.ts:19-54 | Starting from the empty cache, a lookup fails exactly when no config in the construction history was built for that chain id and address. Otherwise it returns the last such config. |

## Left out

- `Number(decimals)` and `BigInt(decimalsOffset)`: both inputs are mathematical integers and keep their value. The model leaves out the coercion of the other `BigIntish` forms and the loss of precision of `Number` on very large values.
- Chain ids are integers. JavaScript turns property keys into strings, and non-integer numbers (`NaN`, `-0`, fractions) are not modelled.
- Property keys inherited from `Object.prototype` on the `{}` tables are not modelled. `Address` admits only `0x`-prefixed strings, so no address can name one.
- Static state: the process-wide `_CACHE` is an explicit cache object handed to the constructor. Sharing it across the whole process is not modelled.
- The text of `UnknownVaultConfigError`'s message: the errors module is not part of this model. Only the address it carries is kept.
- TypeScript's `readonly` and `implements InputVaultConfig` are compile-time only. They appear here as `const` fields and matching field names.
