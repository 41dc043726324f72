/** The three networks and their version numbers (lib/bitcore/networks.ts). */
module Networks {
  import opened Buffers

  datatype Network = Livenet | Testnet | Regtest

  function XPubVersion(n: Network): nat {
    if n == Livenet then 0x0488b21e else 0x043587cf
  }

  function XPrivVersion(n: Network): nat {
    if n == Livenet then 0x0488ade4 else 0x04358394
  }

  /** `get(version, 'xprivkey')`: the first network in the list with this number. */
  function FirstByXPriv(version: nat): Option<Network> {
    if version == 0x0488ade4 then Some(Livenet) else if version == 0x04358394 then Some(Testnet) else None
  }

  /** `get(number)`: the map holds the last network written for each of its numbers. */
  function LastByNumber(number: nat): Option<Network> {
    if number in [0, 0x80, 5, 0x0488b21e, 0x0488ade4] then Some(Livenet)
    else if number in [0x6f, 0xef, 0xc4, 0x043587cf, 0x04358394] then Some(Regtest)
    else None
  }
}
