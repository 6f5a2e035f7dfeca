/**
 * The vault configuration registry: an immutable `VaultConfig` record and the
 * process-wide cache, keyed by chain id and then by vault address, that every
 * config built with a chain id enters as it is constructed.
 */
module VaultConfigs {
  import opened Wrappers

  /** An account or contract address: a `0x`-prefixed string, compared exactly. */
  type Address = s: string | |s| >= 2 && s[..2] == "0x" witness "0x"

  /** The raw fields a caller hands to the constructor. */
  datatype InputVaultConfig = InputVaultConfig(
    address: Address,
    decimals: int,
    decimalsOffset: int,
    symbol: string,
    name: string,
    asset: Address)

  /** The error `get` raises for a (chain id, address) pair nobody registered. */
  datatype VaultConfigError = UnknownVaultConfigError(address: Address)

  /** The cache's shape: chain id, then vault address, then the config object. */
  type Table = map<int, map<Address, VaultConfig>>

  class VaultConfig {
    const address: Address
    const decimals: int
    const decimalsOffset: int
    const symbol: string
    const name: string
    const asset: Address
    /** Absent when the config was built without a chain id. */
    const chainId: Option<int>

    /** This config was built for chain `c` and describes the vault at `a`. */
    predicate IsFor(c: int, a: Address) {
      chainId == Some(c) && address == a
    }

    /**
     * Copies the input's fields and, when a chain id is given, stores the new
     * object in `cache` under that chain id and its own address, creating the
     * chain's inner table if it is missing and replacing any earlier entry.
     */
    constructor (input: InputVaultConfig, chainId: Option<int>, cache: VaultConfigCache)
      requires cache.Valid()
      modifies cache
      ensures address == input.address && asset == input.asset
      ensures decimals == input.decimals && decimalsOffset == input.decimalsOffset
      ensures symbol == input.symbol && name == input.name
      ensures this.chainId == chainId
      ensures cache.Valid() && cache.history == old(cache.history) + [this]
      ensures cache.table == RegisterConfig(old(cache.table), this)
      ensures chainId.None? ==> cache.table == old(cache.table)
      ensures chainId.Some? ==> Lookup(cache.table, chainId.value, input.address) == Success(this)
      ensures forall c, a | chainId != Some(c) || a != input.address ::
                Lookup(cache.table, c, a) == Lookup(old(cache.table), c, a)
    {
      address := input.address;
      decimals := input.decimals;
      decimalsOffset := input.decimalsOffset;
      symbol := input.symbol;
      name := input.name;
      asset := input.asset;
      this.chainId := chainId;
      new;
      ReplayAppend(cache.history, this);
      if chainId.Some? {
        LookupAfterRegister(cache.table, chainId.value, address, this);
        cache.table := Register(cache.table, chainId.value, address, this);
      }
      cache.history := cache.history + [this];
    }
  }

  /**
   * The process-wide cache. `history` lists every config constructed against
   * it, in order, whether or not it carried a chain id.
   */
  class VaultConfigCache {
    var table: Table
    ghost var history: seq<VaultConfig>

    ghost predicate Valid()
      reads this
    {
      table == Replay(history)
    }

    /** The cache starts out empty. */
    constructor ()
      ensures Valid() && table == map[] && history == []
    {
      table := map[];
      history := [];
    }

    /**
     * Looks a config up. It fails with `UnknownVaultConfigError(address)`
     * exactly when no config was ever built for this chain id and address;
     * otherwise it returns the most recently built one. Changes nothing.
     */
    method Get(address: Address, chainId: int) returns (r: Result<VaultConfig, VaultConfigError>)
      requires Valid()
      ensures r == Lookup(table, chainId, address)
      ensures r.Failure? ==> r.error == UnknownVaultConfigError(address)
      ensures r.Failure? <==> forall i | 0 <= i < |history| :: !history[i].IsFor(chainId, address)
      ensures forall i | IsLatestFor(history, i, chainId, address) :: r == Success(history[i])
      ensures r.Success? ==> exists i :: IsLatestFor(history, i, chainId, address) && r == Success(history[i])
      ensures r.Success? ==> r.value.address == address && r.value.chainId == Some(chainId)
    {
      ReplayLookup(history, chainId, address);
      if chainId in table && address in table[chainId] {
        r := Success(table[chainId][address]);
      } else {
        r := Failure(UnknownVaultConfigError(address));
      }
    }
  }

  /**
   * The two-level lookup: a missing chain and a missing address on a known
   * chain fail alike, with the address that was asked for.
   */
  function Lookup(t: Table, chainId: int, address: Address): (r: Result<VaultConfig, VaultConfigError>)
    ensures r.Success? <==> chainId in t && address in t[chainId]
    ensures r.Success? ==> r.value == t[chainId][address]
    ensures r.Failure? ==> r.error == UnknownVaultConfigError(address)
    ensures WellKeyed(t) && r.Success? ==> r.value.IsFor(chainId, address)
  {
    if chainId in t && address in t[chainId] then Success(t[chainId][address])
    else Failure(UnknownVaultConfigError(address))
  }

  /**
   * Stores `config` under `chainId` and `address`. The chain's inner table is
   * reused when present and created empty otherwise, so no other entry is lost.
   */
  function Register(t: Table, chainId: int, address: Address, config: VaultConfig): (r: Table)
    ensures r.Keys == t.Keys + {chainId}
    ensures r[chainId].Keys == (if chainId in t then t[chainId].Keys else {}) + {address}
    ensures r[chainId][address] == config
    ensures forall a | a in r[chainId] && a != address :: r[chainId][a] == t[chainId][a]
    ensures forall c | c in t && c != chainId :: r[c] == t[c]
  {
    var inner: map<Address, VaultConfig> := if chainId in t then t[chainId] else map[];
    t[chainId := inner[address := config]]
  }

  /** What constructing `config` does to the table: register it if it has a chain id. */
  function RegisterConfig(t: Table, config: VaultConfig): (r: Table) {
    if config.chainId.Some? then Register(t, config.chainId.value, config.address, config) else t
  }

  /** The table after constructing, in order, the configs of `history` on an empty cache. */
  function Replay(history: seq<VaultConfig>): (r: Table) {
    if |history| == 0 then map[]
    else RegisterConfig(Replay(history[..|history| - 1]), history[|history| - 1])
  }

  /** `history[i]` is the last config of `history` built for chain `c` and address `a`. */
  ghost predicate IsLatestFor(history: seq<VaultConfig>, i: int, c: int, a: Address) {
    && 0 <= i < |history|
    && history[i].IsFor(c, a)
    && forall j | i < j < |history| :: !history[j].IsFor(c, a)
  }

  /** Every entry is stored under the chain id it was built with and its own address. */
  ghost predicate WellKeyed(t: Table) {
    forall c, a | c in t && a in t[c] :: t[c][a].IsFor(c, a)
  }

  /** Lookup after registration: the new entry is found, every other answer is the old one. */
  lemma LookupAfterRegister(t: Table, chainId: int, address: Address, config: VaultConfig)
    ensures Lookup(Register(t, chainId, address, config), chainId, address) == Success(config)
    ensures forall c, a | c != chainId || a != address ::
              Lookup(Register(t, chainId, address, config), c, a) == Lookup(t, c, a)
  {
  }

  /** Registering the same key twice leaves the table as if only the second had happened. */
  lemma RegisterOverwrites(t: Table, chainId: int, address: Address, first: VaultConfig, second: VaultConfig)
    ensures Register(Register(t, chainId, address, first), chainId, address, second)
         == Register(t, chainId, address, second)
  {
    var once := Register(t, chainId, address, second);
    var twice := Register(Register(t, chainId, address, first), chainId, address, second);
    assert twice[chainId] == once[chainId];
  }

  /** Registrations under different (chain id, address) keys can happen in either order. */
  lemma RegisterCommutes(t: Table, c1: int, a1: Address, v1: VaultConfig, c2: int, a2: Address, v2: VaultConfig)
    requires c1 != c2 || a1 != a2
    ensures Register(Register(t, c1, a1, v1), c2, a2, v2) == Register(Register(t, c2, a2, v2), c1, a1, v1)
  {
    var i1: map<Address, VaultConfig> := if c1 in t then t[c1] else map[];
    var i2: map<Address, VaultConfig> := if c2 in t then t[c2] else map[];
    if c1 == c2 {
      assert i1[a1 := v1][a2 := v2] == i1[a2 := v2][a1 := v1];
    } else {
      assert Register(t, c1, a1, v1) == t[c1 := i1[a1 := v1]];
      assert Register(t[c1 := i1[a1 := v1]], c2, a2, v2) == t[c1 := i1[a1 := v1]][c2 := i2[a2 := v2]];
      assert Register(t, c2, a2, v2) == t[c2 := i2[a2 := v2]];
      assert Register(t[c2 := i2[a2 := v2]], c1, a1, v1) == t[c2 := i2[a2 := v2]][c1 := i1[a1 := v1]];
    }
  }

  /** A config built without a chain id leaves every lookup as it was. */
  lemma UnregisteredConfigChangesNothing(t: Table, config: VaultConfig, c: int, a: Address)
    requires config.chainId.None?
    ensures Lookup(RegisterConfig(t, config), c, a) == Lookup(t, c, a)
  {
  }

  /** Registering a config under its own chain id and address keeps the table well keyed. */
  lemma RegisterConfigPreservesWellKeyed(t: Table, config: VaultConfig)
    requires WellKeyed(t)
    ensures WellKeyed(RegisterConfig(t, config))
  {
  }

  /** A replayed cache is always well keyed. */
  lemma {:induction false} ReplayWellKeyed(history: seq<VaultConfig>)
    ensures WellKeyed(Replay(history))
  {
    if |history| > 0 {
      ReplayWellKeyed(history[..|history| - 1]);
      RegisterConfigPreservesWellKeyed(Replay(history[..|history| - 1]), history[|history| - 1]);
    }
  }

  /** Constructing one more config is one more registration step. */
  lemma ReplayAppend(history: seq<VaultConfig>, config: VaultConfig)
    ensures Replay(history + [config]) == RegisterConfig(Replay(history), config)
  {
    assert (history + [config])[..|history|] == history;
  }

  /**
   * The cache as a function of the construction history: a lookup fails
   * exactly when no config was built for that chain id and address, and
   * otherwise returns the latest one (the latest registration wins).
   */
  lemma {:induction false} ReplayLookup(history: seq<VaultConfig>, c: int, a: Address)
    ensures Lookup(Replay(history), c, a).Failure? <==> forall i | 0 <= i < |history| :: !history[i].IsFor(c, a)
    ensures forall i | IsLatestFor(history, i, c, a) :: Lookup(Replay(history), c, a) == Success(history[i])
    ensures Lookup(Replay(history), c, a).Success? ==>
              exists i :: IsLatestFor(history, i, c, a) && Lookup(Replay(history), c, a) == Success(history[i])
  {
    if |history| > 0 {
      var n := |history| - 1;
      var prefix, last := history[..n], history[n];
      assert history == prefix + [last];
      ReplayLookup(prefix, c, a);
      if last.IsFor(c, a) {
        LookupAfterRegister(Replay(prefix), c, a, last);
        assert IsLatestFor(history, n, c, a);
        forall i | IsLatestFor(history, i, c, a) ensures i == n {
        }
      } else {
        assert Lookup(Replay(history), c, a) == Lookup(Replay(prefix), c, a) by {
          if last.chainId.Some? {
            LookupAfterRegister(Replay(prefix), last.chainId.value, last.address, last);
          }
        }
        forall i | 0 <= i < n ensures IsLatestFor(history, i, c, a) <==> IsLatestFor(prefix, i, c, a) {
        }
        assert !IsLatestFor(history, n, c, a);
      }
    }
  }
}
