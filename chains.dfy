/** The static chain table and its lookup by id. */
module Chains {
  import opened Wrappers

  datatype Chain = Chain(id: int, name: string, symbol: string, rpcUrl: string, explorer: string)

  const SeiMainnet: Chain :=
    Chain(531, "Sei Network", "SEI", "https://evm-rpc.sei-apis.com", "https://seitrace.com")

  const SeiTestnet: Chain :=
    Chain(713715, "Sei Atlantic-2", "SEI", "https://evm-rpc-testnet.sei-apis.com",
          "https://seitrace.com/?chain=atlantic-2")

  const Ethereum: Chain :=
    Chain(1, "Ethereum", "ETH", "https://rpc.ankr.com/eth", "https://etherscan.io")

  /** The supported chains, in order; the mainnet entry is not among them. */
  const SupportedChains: seq<Chain> := [SeiTestnet, Ethereum]

  /** `Array.prototype.find` with the predicate `chain.id === id`: the first
      chain in `chains` carrying `id`, or `None` when none does. */
  function FindById(chains: seq<Chain>, id: int): (found: Option<Chain>)
    ensures found.None? <==> forall c :: c in chains ==> c.id != id
    ensures found.Some? ==>
              exists k :: 0 <= k < |chains| && chains[k] == found.value && found.value.id == id
                          && forall j :: 0 <= j < k ==> chains[j].id != id
  {
    if chains == [] then None
    else if chains[0].id == id then Some(chains[0])
    else
      var rest := FindById(chains[1..], id);
      assert forall c :: c in chains ==> c == chains[0] || c in chains[1..];
      rest
  }

  /** `getChainById(chainId)`. */
  function GetChainById(chainId: int): (chain: Option<Chain>)
    ensures chain.Some? ==> chain.value in SupportedChains && chain.value.id == chainId
    ensures chain.None? <==> forall c :: c in SupportedChains ==> c.id != chainId
  {
    FindById(SupportedChains, chainId)
  }

  /** Exactly ids 713715 and 1 are found, the mainnet id 531 is not, and
      distinct supported chains have distinct ids. */
  lemma GetChainByIdTable(chainId: int)
    ensures GetChainById(chainId).Some? <==> chainId in {713715, 1}
    ensures GetChainById(713715) == Some(SeiTestnet)
    ensures GetChainById(1) == Some(Ethereum)
    ensures GetChainById(531) == None
    ensures forall i, j :: 0 <= i < j < |SupportedChains| ==> SupportedChains[i].id != SupportedChains[j].id
  {
    assert SupportedChains[0] == SeiTestnet && SupportedChains[1] == Ethereum;
  }

  /** Every supported chain is found by its own id. */
  lemma GetChainByIdFindsEach(c: Chain)
    requires c in SupportedChains
    ensures GetChainById(c.id) == Some(c)
  {
    assert c == SupportedChains[0] || c == SupportedChains[1];
  }
}
