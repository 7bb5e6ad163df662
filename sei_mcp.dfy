/** The Sei service: chain information per configured network, the mock
    transfers and their private-key guard, the factory's defaults, and the
    conversion between integer base units ("wei") and decimal amounts. */
module SeiMcp {
  import opened Wrappers
  import opened DecimalText

  datatype Network = Sei | SeiTestnet | SeiDevnet

  function NetworkName(network: Network): string {
    match network
    case Sei => "sei"
    case SeiTestnet => "sei-testnet"
    case SeiDevnet => "sei-devnet"
  }

  /** The service configuration; `None` stands for an absent key. */
  datatype Config = Config(privateKey: Option<string>, network: Network, rpcUrl: Option<string>)

  datatype ChainInfo = ChainInfo(chainId: nat, blockNumber: nat, rpcUrl: string, network: string)

  /** The fixed chain id and RPC endpoint of each network. */
  function ChainConfig(network: Network): (nat, string) {
    match network
    case Sei => (1329, "https://evm-rpc.sei-apis.com")
    case SeiTestnet => (1328, "https://evm-rpc-testnet.sei-apis.com")
    case SeiDevnet => (713715, "https://evm-rpc-arctic-1.sei-apis.com")
  }

  /** `getChainInfo()`: the configured network's fixed values, block 0 and
      the network's own name. */
  function GetChainInfo(config: Config): (info: ChainInfo)
    ensures info.blockNumber == 0
    ensures info.network == NetworkName(config.network)
    ensures config.network == Sei ==>
              info.chainId == 1329 && info.rpcUrl == "https://evm-rpc.sei-apis.com"
    ensures config.network == SeiTestnet ==>
              info.chainId == 1328 && info.rpcUrl == "https://evm-rpc-testnet.sei-apis.com"
    ensures config.network == SeiDevnet ==>
              info.chainId == 713715 && info.rpcUrl == "https://evm-rpc-arctic-1.sei-apis.com"
  {
    var (chainId, rpcUrl) := ChainConfig(config.network);
    ChainInfo(chainId, 0, rpcUrl, NetworkName(config.network))
  }

  /** Chain information depends on the network alone (not on the key or a
      configured `rpcUrl`), and different networks give different ids. */
  lemma ChainInfoDeterminedByNetwork(a: Config, b: Config)
    ensures GetChainInfo(a) == GetChainInfo(b) <==> a.network == b.network
    ensures GetChainInfo(a).chainId == GetChainInfo(b).chainId <==> a.network == b.network
  {
  }

  // ----- Transfers -----

  datatype TxStatus = Success | Failed

  datatype TransactionResult = TransactionResult(
    hash: string,
    from: string,
    to: string,
    value: string,
    gasUsed: string,
    status: TxStatus,
    blockNumber: nat)

  const ZeroAddress: string := "0x0000000000000000000000000000000000000000"
  const MockBlockNumber: nat := 1234567
  /** The text of the guard's error, as `${error}` renders an `Error`. */
  const PrivateKeyRequired: string := "Error: Private key required for transfers"

  /** A private key is usable when present and not empty (string truthiness). */
  predicate CanSign(config: Config) {
    config.privateKey.Some? && config.privateKey.value != ""
  }

  /** `transferSei(to, amount)`; `randomHex` stands for the random hex
      digits of the mock hash. */
  function TransferSei(config: Config, to: string, amount: string, randomHex: string)
    : (r: Result<TransactionResult, string>)
    ensures r.Err? <==> !CanSign(config)
    ensures r.Err? ==> r.error == "Failed to transfer SEI: " + PrivateKeyRequired
    ensures r.Ok? ==> && r.value.to == to && r.value.value == amount
                      && r.value.gasUsed == "21000" && r.value.status == Success
                      && r.value.from == ZeroAddress && r.value.hash == "0x" + randomHex
                      && r.value.blockNumber == MockBlockNumber
  {
    if !CanSign(config) then
      Err("Failed to transfer SEI: " + PrivateKeyRequired)
    else
      Ok(TransactionResult("0x" + randomHex, ZeroAddress, to, amount, "21000", Success, MockBlockNumber))
  }

  /** `transferToken(tokenAddress, to, amount)`: the mock result is addressed
      to the token contract and carries no native value; neither the
      recipient nor the amount appears in it. */
  function TransferToken(config: Config, tokenAddress: string, to: string, amount: string, randomHex: string)
    : (r: Result<TransactionResult, string>)
    ensures r.Err? <==> !CanSign(config)
    ensures r.Err? ==> r.error == "Failed to transfer token: " + PrivateKeyRequired
    ensures r.Ok? ==> && r.value.to == tokenAddress && r.value.value == "0"
                      && r.value.gasUsed == "65000" && r.value.status == Success
                      && r.value.from == ZeroAddress && r.value.hash == "0x" + randomHex
                      && r.value.blockNumber == MockBlockNumber
  {
    if !CanSign(config) then
      Err("Failed to transfer token: " + PrivateKeyRequired)
    else
      Ok(TransactionResult("0x" + randomHex, ZeroAddress, tokenAddress, "0", "65000", Success, MockBlockNumber))
  }

  /** Both transfers share one guard, and a token transfer's result does
      not depend on the recipient or the amount. */
  lemma TransfersShareGuard(config: Config, token: string, to: string, to': string,
                            amount: string, amount': string, hex: string)
    ensures TransferSei(config, to, amount, hex).Ok? == TransferToken(config, token, to, amount, hex).Ok?
    ensures TransferToken(config, token, to, amount, hex) == TransferToken(config, token, to', amount', hex)
  {
  }

  // ----- Factory -----

  /** The fields a caller of the factory may pass; `None` = not given. For
      the key, the outer `Option` says whether the field is present in the
      object and the inner one whether its value is defined: `Some(None)`
      is a key written as `privateKey: undefined`, which the spread still
      copies over the default. */
  datatype ConfigOverrides = ConfigOverrides(
    privateKey: Option<Option<string>>,
    network: Option<Network>,
    rpcUrl: Option<string>)

  /** `createSeiMCPService(overrides)`; `envPrivateKey` is the value of the
      SEI_PRIVATE_KEY environment variable. A key field present in the
      overrides wins even when its value is undefined. */
  function CreateSeiMcpService(overrides: ConfigOverrides, envPrivateKey: Option<string>): (config: Config)
    ensures config.network == (if overrides.network.Some? then overrides.network.value else SeiTestnet)
    ensures config.privateKey == (if overrides.privateKey.Some? then overrides.privateKey.value else envPrivateKey)
    ensures config.rpcUrl == overrides.rpcUrl
  {
    Config(
      overrides.privateKey.GetOr(envPrivateKey),
      overrides.network.GetOr(SeiTestnet),
      overrides.rpcUrl)
  }

  /** The service the `useSeiMCP` hook creates from its options: the
      network, or sei-testnet, and the key field always present, holding
      the option's key whether or not one was given. */
  function HookService(network: Option<Network>, privateKey: Option<string>, envPrivateKey: Option<string>)
    : (config: Config)
    ensures config.network == network.GetOr(SeiTestnet)
    ensures config.privateKey == privateKey
    ensures config.rpcUrl.None?
  {
    CreateSeiMcpService(ConfigOverrides(Some(privateKey), Some(network.GetOr(SeiTestnet)), None), envPrivateKey)
  }

  /** A key field present but undefined discards the environment's key:
      both transfers then fail whatever SEI_PRIVATE_KEY holds, and so does
      every service the hook creates without a key option. */
  lemma UndefinedKeyDropsEnvKey(network: Network, envPrivateKey: Option<string>,
                                to: string, token: string, amount: string, hex: string)
    ensures var config := CreateSeiMcpService(ConfigOverrides(Some(None), Some(network), None), envPrivateKey);
            && config.privateKey.None?
            && TransferSei(config, to, amount, hex).Err?
            && TransferToken(config, token, to, amount, hex).Err?
    ensures TransferSei(HookService(None, None, envPrivateKey), to, amount, hex).Err?
    ensures TransferToken(HookService(None, None, envPrivateKey), token, to, amount, hex).Err?
  {
  }

  /** The factory as evidently intended: a key that is absent or undefined
      falls back to the environment's key. */
  function CreateSeiMcpServiceWithFallback(overrides: ConfigOverrides, envPrivateKey: Option<string>)
    : (config: Config)
    ensures config.network == (if overrides.network.Some? then overrides.network.value else SeiTestnet)
    ensures config.privateKey ==
              (if overrides.privateKey.Some? && overrides.privateKey.value.Some?
               then overrides.privateKey.value else envPrivateKey)
    ensures config.rpcUrl == overrides.rpcUrl
  {
    var key := if overrides.privateKey.Some? then overrides.privateKey.value else None;
    Config(
      if key.Some? then key else envPrivateKey,
      overrides.network.GetOr(SeiTestnet),
      overrides.rpcUrl)
  }

  /** The corrected factory differs from the written one only on an
      undefined key field; there, a usable environment key makes both
      transfers succeed, also for every keyless service the hook creates. */
  lemma FallbackKeepsEnvKey(overrides: ConfigOverrides, envPrivateKey: Option<string>,
                            to: string, token: string, amount: string, hex: string)
    ensures overrides.privateKey != Some(None) ==>
              CreateSeiMcpServiceWithFallback(overrides, envPrivateKey) == CreateSeiMcpService(overrides, envPrivateKey)
    ensures var config := CreateSeiMcpServiceWithFallback(overrides, envPrivateKey);
            overrides.privateKey == Some(None) && envPrivateKey.Some? && envPrivateKey.value != "" ==>
              TransferSei(config, to, amount, hex).Ok? && TransferToken(config, token, to, amount, hex).Ok?
  {
  }

  /** With nothing overridden the service reports the testnet, and without
      a key in the environment both transfers fail. */
  lemma DefaultService(envPrivateKey: Option<string>, to: string, token: string, amount: string, hex: string)
    ensures GetChainInfo(CreateSeiMcpService(ConfigOverrides(None, None, None), envPrivateKey)).chainId == 1328
    ensures envPrivateKey.None? ==>
              TransferSei(CreateSeiMcpService(ConfigOverrides(None, None, None), envPrivateKey), to, amount, hex).Err?
    ensures envPrivateKey.None? ==>
              TransferToken(CreateSeiMcpService(ConfigOverrides(None, None, None), envPrivateKey), token, to, amount, hex).Err?
  {
  }

  // ----- Base units and decimal amounts -----

  /** The `decimals` both conversions use when none is given. */
  const DefaultDecimals: nat := 18
  /** `10 ** decimals` is an exact JavaScript number up to this exponent. */
  const MaxExactDecimals: nat := 22

  /** The digits after the point: at least one, at most `decimals`, and
      not ending in '0'. */
  predicate IsFraction(f: string, decimals: nat) {
    IsDigits(f) && 1 <= |f| <= decimals && f[|f| - 1] != '0'
  }

  /** `f` is the fraction text of `rem` base units at `decimals` places. */
  predicate FractionOf(f: string, decimals: nat, rem: nat) {
    IsFraction(f, decimals) && Shift(ParseDigits(f), decimals - |f|) == rem
  }

  /** The remainder `rem` (0 < rem < 10^decimals), left-padded to `decimals`
      digits with its trailing zeros removed. */
  function FractionDigits(rem: nat, decimals: nat): (f: string)
    requires 0 < rem < Pow10(decimals)
    ensures FractionOf(f, decimals, rem)
  {
    var padded := PadStart(ToDecimal(rem), decimals);
    PaddedRemainder(rem, decimals);
    var f := TrimTrailingZeros(padded);
    assert IsDigits(f) by {
      assert forall i :: 0 <= i < |f| ==> f[i] == padded[i];
    }
    ParseTrailingZeros(f, decimals - |f|);
    assert f != [] by {
      if f == [] {
        ShiftZero(decimals);
      }
    }
    f
  }

  /** A remainder below 10^decimals, left-padded with zeros to `decimals`
      digits, fills exactly `decimals` digits and keeps its value. */
  lemma PaddedRemainder(rem: nat, decimals: nat)
    requires 0 < rem < Pow10(decimals)
    ensures var padded := PadStart(ToDecimal(rem), decimals);
            |padded| == decimals && IsDigits(padded) && ParseDigits(padded) == rem
  {
    assert decimals >= 1;
    var digits := ToDecimal(rem);
    ToDecimalLength(rem, decimals);
    PadStartZeros(digits, decimals);
    ParseToDecimal(rem);
    ParseLeadingZeros(decimals - |digits|, digits);
  }

  /** The whole units in `value` base units: value / 10^decimals, the
      largest count of whole 10^decimals that fits in `value`. */
  function WholeUnits(value: nat, decimals: nat): (whole: nat)
    ensures whole * Pow10(decimals) <= value < (whole + 1) * Pow10(decimals)
  {
    var p := Pow10(decimals);
    DivNonneg(value, p);
    assert value == (value / p) * p + value % p;
    value / p
  }

  /** The base units left over: value % 10^decimals. */
  function RemainderUnits(value: nat, decimals: nat): (rem: nat)
    ensures rem < Pow10(decimals)
  {
    value % Pow10(decimals)
  }

  lemma DivNonneg(v: nat, d: nat)
    requires d >= 1
    ensures v / d >= 0
  {
  }

  lemma DivMod(value: nat, decimals: nat)
    ensures Shift(WholeUnits(value, decimals), decimals) + RemainderUnits(value, decimals) == value
  {
    ShiftIsProduct(WholeUnits(value, decimals), decimals);
  }

  /** `formatFromWei(wei, decimals)`: the integer part of wei / 10^decimals,
      followed by '.' and the fraction digits when the division leaves a
      remainder. */
  function FormatFromWei(wei: string, decimals: nat): (r: string)
    requires IsDigits(wei) && decimals <= MaxExactDecimals
    ensures IsAmountText(r)
    ensures |Split(r, '.')| <= 2
    ensures Split(r, '.')[0] == ToDecimal(WholeUnits(ParseDigits(wei), decimals))
    ensures |Split(r, '.')| == 1 <==> RemainderUnits(ParseDigits(wei), decimals) == 0
    ensures |Split(r, '.')| == 2 ==>
              FractionOf(Split(r, '.')[1], decimals, RemainderUnits(ParseDigits(wei), decimals))
  {
    var value := ParseDigits(wei);
    var whole := ToDecimal(WholeUnits(value, decimals));
    var rem := RemainderUnits(value, decimals);
    if rem == 0 then
      PointedShape(whole, []);
      whole
    else
      var f := FractionDigits(rem, decimals);
      PointedShape(whole, [f]);
      whole + "." + f
  }

  /** A digit string, optionally followed by '.' and more digits, is amount
      text that splits back into those digit strings. */
  lemma PointedShape(whole: string, fraction: seq<string>)
    requires IsDigits(whole) && |fraction| <= 1
    requires fraction != [] ==> IsDigits(fraction[0])
    ensures var text := if fraction == [] then whole else whole + "." + fraction[0];
            IsAmountText(text) && Split(text, '.') == [whole] + fraction
  {
    DigitsHaveNoDot(whole);
    if fraction == [] {
      SplitNone(whole, '.');
    } else {
      var f := fraction[0];
      DigitsHaveNoDot(f);
      SplitOnce(whole, f, '.');
      var text := whole + "." + f;
      assert forall i :: 0 <= i < |text| ==>
        text[i] == (if i < |whole| then whole[i] else if i == |whole| then '.' else f[i - |whole| - 1]);
    }
  }

  /** The text before the first '.' of an amount. */
  function WholePiece(ether: string): (whole: string)
    ensures '.' !in whole
    ensures whole <= ether
  {
    Split(ether, '.')[0]
  }

  /** The text between the first and any second '.', or "" without a '.'. */
  function FractionPiece(ether: string): (fraction: string)
    ensures '.' !in fraction
    ensures fraction != "" ==> '.' in ether
  {
    var parts := Split(ether, '.');
    if |parts| > 1 then
      assert Join(parts, '.') == parts[0] + ['.'] + Join(parts[1..], '.');
      assert ether[|parts[0]|] == '.';
      parts[1]
    else ""
  }

  /** The number of base units an amount text denotes at `decimals`
      places: its whole piece scaled by 10^decimals plus its first
      `decimals` fraction digits, any further digits cut off. */
  function AmountValue(ether: string, decimals: nat): nat
    requires IsAmountText(ether)
  {
    SplitAmountDigits(ether);
    var kept := Take(FractionPiece(ether), decimals);
    Shift(ParseDigits(WholePiece(ether)), decimals) + Shift(ParseDigits(kept), decimals - |kept|)
  }

  /** `formatToWei(ether, decimals)`: the base units the amount denotes,
      rendered as a canonical integer. */
  function FormatToWei(ether: string, decimals: nat): (r: string)
    requires IsAmountText(ether) && decimals <= MaxExactDecimals
    ensures IsCanonical(r)
    ensures ParseDigits(r) == AmountValue(ether, decimals)
  {
    SplitAmountDigits(ether);
    var whole := WholePiece(ether);
    var fraction := FractionPiece(ether);
    var fractionPadded := Take(PadEnd(fraction, decimals), decimals);
    var kept := Take(fraction, decimals);
    PadEndTake(fraction, decimals);
    assert IsDigits(kept) && IsDigits(fractionPadded);
    ParseTrailingZeros(kept, decimals - |kept|);
    var wei := Shift(ParseDigits(whole), decimals) + ParseDigits(fractionPadded);
    ParseToDecimal(wei);
    ToDecimal(wei)
  }

  /** The amount text `formatFromWei` produces denotes the base units it
      was given. */
  lemma FormatFromWeiValue(wei: string, decimals: nat)
    requires IsDigits(wei) && decimals <= MaxExactDecimals
    ensures AmountValue(FormatFromWei(wei, decimals), decimals) == ParseDigits(wei)
  {
    WholePieceValue(wei, decimals);
    FractionPieceValue(wei, decimals);
    DivMod(ParseDigits(wei), decimals);
  }

  lemma FractionPieceValue(wei: string, decimals: nat)
    requires IsDigits(wei) && decimals <= MaxExactDecimals
    ensures var kept := Take(FractionPiece(FormatFromWei(wei, decimals)), decimals);
            IsDigits(kept) &&
            Shift(ParseDigits(kept), decimals - |kept|) == RemainderUnits(ParseDigits(wei), decimals)
  {
    var rem := RemainderUnits(ParseDigits(wei), decimals);
    var ether := FormatFromWei(wei, decimals);
    var parts := Split(ether, '.');
    var kept := Take(FractionPiece(ether), decimals);
    if |parts| == 1 {
      assert kept == [];
      ShiftZero(decimals);
    } else {
      assert kept == parts[1];
      assert FractionOf(kept, decimals, rem);
    }
  }

  lemma WholePieceValue(wei: string, decimals: nat)
    requires IsDigits(wei) && decimals <= MaxExactDecimals
    ensures IsDigits(WholePiece(FormatFromWei(wei, decimals)))
    ensures ParseDigits(WholePiece(FormatFromWei(wei, decimals))) == WholeUnits(ParseDigits(wei), decimals)
  {
    var q := WholeUnits(ParseDigits(wei), decimals);
    var whole := ToDecimal(q);
    assert WholePiece(FormatFromWei(wei, decimals)) == whole;
    ParseToDecimal(q);
  }

  /** Formatting a base-unit amount and converting it back gives the same
      base-unit string. */
  lemma WeiRoundTrip(w: nat, decimals: nat)
    requires decimals <= MaxExactDecimals
    ensures FormatToWei(FormatFromWei(ToDecimal(w), decimals), decimals) == ToDecimal(w)
  {
    ParseToDecimal(w);
    FormatFromWeiValue(ToDecimal(w), decimals);
    ToDecimalParse(FormatToWei(FormatFromWei(ToDecimal(w), decimals), decimals));
  }

  /** With the default 18 decimals, formatting base units and converting
      back gives them unchanged. */
  lemma DefaultDecimalsRoundTrip(w: nat)
    ensures DefaultDecimals <= MaxExactDecimals
    ensures FormatToWei(FormatFromWei(ToDecimal(w), DefaultDecimals), DefaultDecimals) == ToDecimal(w)
  {
    WeiRoundTrip(w, DefaultDecimals);
  }

  /** The shape of the text `formatFromWei` produces: a canonical whole
      part, optionally followed by '.' and a fraction of at most `decimals`
      digits that does not end in '0'. */
  predicate IsFormattedAmount(ether: string, decimals: nat) {
    && IsAmountText(ether)
    && var parts := Split(ether, '.');
       IsCanonical(parts[0]) && |parts| <= 2 && (|parts| == 2 ==> IsFraction(parts[1], decimals))
  }

  /** At most one fraction text denotes a given remainder. */
  lemma FractionUnique(f: string, g: string, decimals: nat, rem: nat)
    requires FractionOf(f, decimals, rem) && FractionOf(g, decimals, rem)
    ensures f == g
  {
    var pf, pg := f + Zeros(decimals - |f|), g + Zeros(decimals - |g|);
    ParseTrailingZeros(f, decimals - |f|);
    ParseTrailingZeros(g, decimals - |g|);
    ParseInjective(pf, pg);
    TrailingDigitAt(f, decimals - |f|);
    TrailingDigitAt(g, decimals - |g|);
    assert f == pf[..|f|] && g == pg[..|g|];
  }

  /** Converting a formatted amount to base units and back keeps its
      whole part. */
  lemma WholeRoundTrip(ether: string, decimals: nat)
    requires IsFormattedAmount(ether, decimals) && decimals <= MaxExactDecimals
    ensures Split(FormatFromWei(FormatToWei(ether, decimals), decimals), '.')[0] == Split(ether, '.')[0]
  {
    var whole := Split(ether, '.')[0];
    var value := ParseDigits(FormatToWei(ether, decimals));
    assert value == AmountValue(ether, decimals);
    FormattedAmountValue(ether, decimals);
    assert WholeUnits(value, decimals) == ParseDigits(whole);
    ToDecimalParse(whole);
  }

  /** Converting a formatted amount to base units and back keeps its
      fraction, or its lack of one. */
  lemma FractionRoundTrip(ether: string, decimals: nat)
    requires IsFormattedAmount(ether, decimals) && decimals <= MaxExactDecimals
    ensures var outParts := Split(FormatFromWei(FormatToWei(ether, decimals), decimals), '.');
            var parts := Split(ether, '.');
            |outParts| == |parts| && (|parts| == 2 ==> outParts[1] == parts[1])
  {
    var parts := Split(ether, '.');
    var value := ParseDigits(FormatToWei(ether, decimals));
    assert value == AmountValue(ether, decimals);
    FormattedAmountValue(ether, decimals);
    var outParts := Split(FormatFromWei(FormatToWei(ether, decimals), decimals), '.');
    if |parts| == 2 {
      FractionUnique(outParts[1], parts[1], decimals, RemainderUnits(value, decimals));
    }
  }

  /** Converting a formatted amount to base units and back gives the same
      pieces around the '.'. */
  lemma AmountPiecesRoundTrip(ether: string, decimals: nat)
    requires IsFormattedAmount(ether, decimals) && decimals <= MaxExactDecimals
    ensures Split(FormatFromWei(FormatToWei(ether, decimals), decimals), '.') == Split(ether, '.')
  {
    WholeRoundTrip(ether, decimals);
    FractionRoundTrip(ether, decimals);
    SamePieces(Split(FormatFromWei(FormatToWei(ether, decimals), decimals), '.'), Split(ether, '.'));
  }

  /** One or two pieces that agree piece by piece are the same pieces. */
  lemma SamePieces(p: seq<string>, q: seq<string>)
    requires 1 <= |p| == |q| <= 2
    requires p[0] == q[0] && (|q| == 2 ==> p[1] == q[1])
    ensures p == q
  {
  }

  /** In a fraction padded with zeros, the last position holding a
      non-zero digit is the fraction's own last digit. */
  lemma TrailingDigitAt(f: string, k: nat)
    requires f != [] && f[|f| - 1] != '0'
    ensures (f + Zeros(k))[|f| - 1] != '0'
    ensures forall j :: |f| <= j < |f| + k ==> (f + Zeros(k))[j] == '0'
  {
  }

  /** An amount text in the shape `formatFromWei` produces survives the
      conversion to base units and back unchanged. */
  lemma AmountRoundTrip(ether: string, decimals: nat)
    requires IsFormattedAmount(ether, decimals) && decimals <= MaxExactDecimals
    ensures FormatFromWei(FormatToWei(ether, decimals), decimals) == ether
  {
    var out := FormatFromWei(FormatToWei(ether, decimals), decimals);
    AmountPiecesRoundTrip(ether, decimals);
    assert out == Join(Split(out, '.'), '.');
    assert ether == Join(Split(ether, '.'), '.');
  }

  /** The whole part of a formatted amount is the quotient of the base
      units it denotes, and its fraction, if any, the non-zero remainder. */
  lemma FormattedAmountValue(ether: string, decimals: nat)
    requires IsFormattedAmount(ether, decimals)
    ensures var parts, value := Split(ether, '.'), AmountValue(ether, decimals);
            && WholeUnits(value, decimals) == ParseDigits(parts[0])
            && (|parts| == 1 ==> RemainderUnits(value, decimals) == 0)
            && (|parts| == 2 ==> RemainderUnits(value, decimals) >= 1 &&
                                 FractionOf(parts[1], decimals, RemainderUnits(value, decimals)))
  {
    var parts := Split(ether, '.');
    var units := ParseDigits(parts[0]);
    var kept := Take(FractionPiece(ether), decimals);
    var rem := Shift(ParseDigits(kept), decimals - |kept|);
    if |parts| == 1 {
      assert kept == [];
      ShiftZero(decimals);
    } else {
      assert kept == parts[1];
      ShiftBound(ParseDigits(kept), |kept|, decimals - |kept|);
      ParseLastNonzero(kept);
    }
    var value := AmountValue(ether, decimals);
    assert value == Shift(units, decimals) + rem;
    ShiftIsProduct(units, decimals);
    DivUnique(value, units, rem, Pow10(decimals));
  }

  /** Fraction digits beyond `decimals` do not add to the value. */
  lemma AmountValueTruncates(whole: string, fraction: string, decimals: nat)
    requires IsDigits(whole) && IsDigits(fraction)
    ensures IsAmountText(whole + ['.'] + fraction)
    ensures IsAmountText(whole + ['.'] + Take(fraction, decimals))
    ensures AmountValue(whole + ['.'] + fraction, decimals)
         == AmountValue(whole + ['.'] + Take(fraction, decimals), decimals)
  {
    var kept := Take(fraction, decimals);
    DigitsHaveNoDot(whole);
    DigitsHaveNoDot(fraction);
    DigitsHaveNoDot(kept);
    SplitOnce(whole, fraction, '.');
    SplitOnce(whole, kept, '.');
    PointedShape(whole, [fraction]);
    PointedShape(whole, [kept]);
    assert Take(kept, decimals) == kept;
  }

  /** Fraction digits beyond `decimals` are dropped, not rounded. */
  lemma FormatToWeiTruncates(whole: string, fraction: string, decimals: nat)
    requires IsDigits(whole) && IsDigits(fraction) && decimals <= MaxExactDecimals
    ensures IsAmountText(whole + ['.'] + fraction)
    ensures IsAmountText(whole + ['.'] + Take(fraction, decimals))
    ensures FormatToWei(whole + ['.'] + fraction, decimals)
         == FormatToWei(whole + ['.'] + Take(fraction, decimals), decimals)
  {
    AmountValueTruncates(whole, fraction, decimals);
    var a := FormatToWei(whole + ['.'] + fraction, decimals);
    var b := FormatToWei(whole + ['.'] + Take(fraction, decimals), decimals);
    ToDecimalParse(a);
    ToDecimalParse(b);
  }

  /** "1.239" at two decimals is 123 base units: the 9 is cut off. */
  lemma FormatToWeiExample()
    ensures FormatToWei("1.239", 2) == "123"
  {
    ExampleAmountValue();
    FormatToWeiIsValue("1.239", 2);
    assert ToDecimal(123) == "123";
  }

  /** `formatToWei` is the decimal text of the value the amount denotes. */
  lemma FormatToWeiIsValue(ether: string, decimals: nat)
    requires IsAmountText(ether) && decimals <= MaxExactDecimals
    ensures FormatToWei(ether, decimals) == ToDecimal(AmountValue(ether, decimals))
  {
    ToDecimalParse(FormatToWei(ether, decimals));
  }

  /** "1.239" denotes 123 base units at two decimals. */
  lemma ExampleAmountValue()
    ensures IsAmountText("1.239") && AmountValue("1.239", 2) == 123
  {
    SplitOnce("1", "239", '.');
    assert "1.239" == "1" + ['.'] + "239";
    assert WholePiece("1.239") == "1" && FractionPiece("1.239") == "239";
    assert Take("239", 2) == "23";
    assert ParseDigits("1") == 1 && ParseDigits("23") == 23;
    assert Shift(1, 2) == 100 && Shift(23, 0) == 23;
  }

  /** 150 base units at two decimals print as "1.5": the trailing zero
      of the fraction is stripped. */
  lemma FormatFromWeiExample()
    ensures FormatFromWei("150", 2) == "1.5"
  {
    SplitOnce("1", "5", '.');
    assert "1.5" == "1" + ['.'] + "5";
    assert Split("1.5", '.') == ["1", "5"];
    assert IsFormattedAmount("1.5", 2);
    assert Take(FractionPiece("1.5"), 2) == "5";
    assert ParseDigits("1") == 1;
    assert ParseDigits("5") == 5;
    assert AmountValue("1.5", 2) == 150;
    ParseToDecimal(150);
    ToDecimalParse(FormatToWei("1.5", 2));
    assert FormatToWei("1.5", 2) == "150";
    AmountRoundTrip("1.5", 2);
  }
}
