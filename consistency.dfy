/** How the chain ids of the three core files relate: the intent parser,
    the Sei service and the chain table each carry their own ids. */
module Consistency {
  import opened Wrappers
  import SeiMcp
  import IntentParser
  import Chains

  /** The parser's "sei" and "sei-testnet" ids are the service's mainnet
      and testnet ids, and the service's third network name is not an
      alias the parser knows. */
  lemma ParserAgreesWithService(config: SeiMcp.Config)
    ensures config.network != SeiMcp.SeiDevnet ==>
              IntentParser.ParseChainId(Some(SeiMcp.NetworkName(config.network)))
                == Some(SeiMcp.GetChainInfo(config).chainId)
    ensures config.network == SeiMcp.SeiDevnet ==>
              IntentParser.ParseChainId(Some(SeiMcp.NetworkName(config.network))) == None
  {
    IntentParser.ParseChainIdAliases(SeiMcp.NetworkName(config.network));
  }

  /** The chain table finds Ethereum by the parser's id for "eth" but
      knows neither of the ids the parser gives Sei. */
  lemma TableLacksParserSeiIds()
    ensures IntentParser.ParseChainId(Some("eth")) == Some(1)
    ensures Chains.GetChainById(1) == Some(Chains.Ethereum)
    ensures IntentParser.ParseChainId(Some("sei")) == Some(1329)
    ensures Chains.GetChainById(1329) == None
    ensures IntentParser.ParseChainId(Some("sei-testnet")) == Some(1328)
    ensures Chains.GetChainById(1328) == None
  {
    assert IntentParser.ToLower("eth") == "eth";
    assert IntentParser.ToLower("sei") == "sei";
    assert IntentParser.ToLower("sei-testnet") == "sei-testnet";
    Chains.GetChainByIdTable(1329);
    Chains.GetChainByIdTable(1328);
  }

  /** The table's Sei testnet entry carries the id the service uses for
      its devnet, so only a devnet configuration's id finds it. */
  lemma TableSeiIdIsServiceDevnet(config: SeiMcp.Config)
    ensures config.network == SeiMcp.SeiDevnet <==>
              Chains.GetChainById(SeiMcp.GetChainInfo(config).chainId) == Some(Chains.SeiTestnet)
  {
    Chains.GetChainByIdTable(SeiMcp.GetChainInfo(config).chainId);
  }
}
