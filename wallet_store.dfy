/**
  The wallet store of wallet_store.go: a map from address to wallet that is
  written to the wallet file after every change. The file is a ghost
  snapshot of the map; the gob encoding and the file system are not part
  of this model. A Go nil map reads like an empty one and the only write to
  it (`CreateWallet`) first replaces it, so both are the empty map here.
*/
module WalletStores {
  import opened Wrappers
  import opened Bytes
  import opened Crypto
  import opened Records
  import opened Wallets

  class WalletStore {
    var wallets: map<string, Wallet>

    /** The map as last written to the wallet file. */
    ghost var persisted: map<string, Wallet>

    /** The file holds exactly the map in memory. */
    ghost predicate Saved()
      reads this
    {
      persisted == wallets
    }

    /** `NewWalletStore`: an empty map; the file keeps whatever it held. */
    constructor (ghost onDisk: map<string, Wallet>)
      ensures wallets == map[] && persisted == onDisk
    {
      wallets := map[];
      persisted := onDisk;
    }

    /** Writes the map to the wallet file. */
    method Save()
      modifies this
      ensures wallets == old(wallets)
      ensures Saved()
    {
      persisted := wallets;
    }

    /** The wallet stored under `address`, None for Go's nil. */
    function GetWallet(address: string): (r: Option<Wallet>)
      reads this
      ensures r.Some? <==> address in wallets
      ensures r.Some? ==> r.value == wallets[address]
    {
      if address in wallets then Some(wallets[address]) else None
    }

    /**
      Stores a new wallet under its address, overwriting any wallet already
      there, saves and returns it. The key pair `NewWallet` draws from the
      random source is a parameter.
    */
    method CreateWallet(c: Primitives, generated: Wallet) returns (wallet: Wallet)
      modifies this
      ensures wallet == generated
      ensures wallets == old(wallets)[GetAddress(c, wallet) := wallet]
      ensures GetWallet(GetAddress(c, wallet)) == Some(wallet)
      ensures Saved()
    {
      wallet := generated;
      var address := GetAddress(c, wallet);
      wallets := wallets[address := wallet];
      Save();
    }

    /**
      Removes the wallet under `address` and saves; an absent address is
      only logged, with neither the map nor the file touched.
    */
    method DeleteWallet(address: string)
      modifies this
      ensures address !in old(wallets) ==> wallets == old(wallets) && persisted == old(persisted)
      ensures address in old(wallets) ==> wallets == old(wallets) - {address} && Saved()
      ensures GetWallet(address).None?
    {
      var wallet := GetWallet(address);
      if wallet.None? {
        return;
      }
      wallets := wallets - {address};
      Save();
    }

    /** Replaces the map with an empty one and saves. */
    method ClearAll()
      modifies this
      ensures wallets == map[] && Saved()
    {
      wallets := map[];
      Save();
    }

    /**
      Without a wallet file the current map is written; with one, the store
      is cleared. Whether the file exists is a parameter.
    */
    method Reset(fileExists: bool) returns (err: Option<string>)
      modifies this
      ensures err.None?
      ensures !fileExists ==> wallets == old(wallets)
      ensures fileExists ==> wallets == map[]
      ensures Saved()
    {
      if !fileExists {
        Save();
      } else {
        ClearAll();
      }
      return None;
    }
  }
}
