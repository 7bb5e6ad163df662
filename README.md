# SeiFlow core, modelled in Dafny

SeiFlow turns natural-language requests into on-chain actions on the Sei
network. This project models the three parts of it that are deterministic
once the AI call, the network client and the wallet are cut away.

- **The Sei service** (`SeiMcp`, in `sei_mcp.dfy`). It covers:
  - conversion between integer base units ("wei") and decimal amount text (`formatFromWei` / `formatToWei`);
  - the per-network chain information;
  - the private-key guard and result shape of the two mock transfers;
  - the defaults of the service factory.

  The conversions rest on `DecimalText` (`decimal.dfy`), a small theory of digit strings:
  - canonical decimal rendering (`BigInt.toString`) and parsing (`BigInt(s)`);
  - `padEnd`, `slice`, stripping trailing zeros (`replace(/0+$/, '')`) and `split`.
- **The intent parser** (`IntentParser`, in `intent_parser.dfy`). It covers:
  - the case-insensitive chain-alias table;
  - the capped risk score;
  - the construction of the intent, its execution steps and its plan from an AI reply that has already been parsed as JSON.
- **The chain table** (`Chains`, in `chains.dfy`): the constant list of supported chains and the lookup by id.
- `Consistency` (`consistency.dfy`) states how the chain ids of these three parts relate. The parser and the service agree on the Sei ids (1329 for sei, 1328 for sei-testnet). The chain table knows neither: its only Sei entry, "Sei Atlantic-2", carries 713715, the service's sei-devnet id.

Thrown errors are modelled as `Err` values of a `Result`, and `undefined` as `None` (`wrappers.dfy`).

Two things could not be modelled directly and are passed in as arguments instead: the random digits of the mock transaction hash (`randomHex`) and the `SEI_PRIVATE_KEY` environment variable (`envPrivateKey`).

The service's only field, its configuration, is set once by the constructor and never updated. Its operations are therefore functions of a `Config` value.

`calculateRiskScore` builds its result in a local accumulator. It is modelled as a method, `CalculateRiskScore`, proved equal to the formula `RiskScore`, and the rest of the model uses that formula.

## Model

| member | source | states |
|---|---|---|
| SeiMcp.GetChainInfo | src/services/sei-mcp.ts:51-68 | block number 0, the configured network's own name, and per network the fixed id and RPC URL: sei 1329, sei-testnet 1328, sei-devnet 713715 |
| SeiMcp.ChainConfig | src/services/sei-mcp.ts:55-59 | the `chainConfigs` table: sei (1329, evm-rpc.sei-apis.com), sei-testnet (1328, evm-rpc-testnet), sei-devnet (713715, evm-rpc-arctic-1) |
| SeiMcp.ChainInfoDeterminedByNetwork | src/services/sei-mcp.ts:55-67 | the chain info depends on the network alone (not on the key or a configured rpcUrl); two configurations get equal info, or equal chain ids, exactly when their networks are equal |
| SeiMcp.TransferSei | src/services/sei-mcp.ts:119-138 | fails exactly when the private key is missing or empty, with "Failed to transfer SEI: Error: Private key required for transfers"; otherwise succeeds with to = `to`, value = `amount`, gas "21000", status success, the zero sender, block 1234567 and hash "0x" + the random digits |
| SeiMcp.TransferToken | src/services/sei-mcp.ts:141-160 | fails exactly when the private key is missing or empty, with "Failed to transfer token: …"; otherwise the result goes to the token contract, with value "0" and gas "65000" |
| SeiMcp.TransfersShareGuard | src/services/sei-mcp.ts:121-123 | both transfers succeed or fail together; a token transfer's result depends on neither the recipient nor the amount |
| SeiMcp.CanSign | src/services/sei-mcp.ts:121 | the guard `!this.config.privateKey` passes exactly when the key is present and not the empty string (string truthiness) |
| SeiMcp.CreateSeiMcpService | src/services/sei-mcp.ts:205-213 | the network defaults to sei-testnet; the private key is the override's value whenever the key field is present, even when that value is undefined, and the environment's only when the field is absent; rpcUrl is the override |
| SeiMcp.HookService | src/hooks/useSeiMCP.ts:44-47 | the service the hook creates has the option's network, or sei-testnet, and exactly the option's key, never the environment's |
| SeiMcp.UndefinedKeyDropsEnvKey | src/services/sei-mcp.ts:206-210 | with a key field present but undefined, and for every keyless service the hook creates, both transfers fail whatever the environment holds |
| SeiMcp.CreateSeiMcpServiceWithFallback | src/services/sei-mcp.ts:206-210 | corrected factory: the key is the override's when it is defined, else the environment's; network and rpcUrl as in the written factory |
| SeiMcp.FallbackKeepsEnvKey | src/services/sei-mcp.ts:206-210 | the corrected factory equals the written one except on an undefined key field; there, a usable environment key lets both transfers succeed |
| SeiMcp.DefaultService | src/services/sei-mcp.ts:205-213 | a service created with no overrides reports chain 1328; with no key in the environment both of its transfers fail |
| SeiMcp.WholeUnits | src/services/sei-mcp.ts:184 | `value / divisor` on non-negative BigInts is the floor quotient: whole · 10^decimals ≤ value < (whole + 1) · 10^decimals |
| SeiMcp.RemainderUnits | src/services/sei-mcp.ts:185 | the remainder is below 10^decimals |
| SeiMcp.DivMod | src/services/sei-mcp.ts:184-185 | whole units · 10^decimals + remainder is the original value |
| SeiMcp.FractionDigits | src/services/sei-mcp.ts:191 | a non-zero remainder, padded to `decimals` digits and stripped of trailing zeros, is a digit string of 1 to `decimals` characters that does not end in '0' and denotes the remainder |
| SeiMcp.PaddedRemainder | src/services/sei-mcp.ts:191 | `padStart(decimals, '0')` of a remainder below 10^decimals gives exactly `decimals` digits with the remainder's value |
| SeiMcp.FormatFromWei | src/services/sei-mcp.ts:181-193 | the text splits at '.' into at most two pieces; the first is the canonical quotient; there is a second piece exactly when the remainder is non-zero, and it is the remainder's fraction text |
| SeiMcp.PointedShape | src/services/sei-mcp.ts:192 | "whole" or "whole.fraction" of digit strings is amount text that splits back into its pieces |
| SeiMcp.FormatToWei | src/services/sei-mcp.ts:196-201 | canonical decimal text of whole · 10^decimals + the first `decimals` fraction digits right-padded with zeros |
| SeiMcp.WholePiece | src/services/sei-mcp.ts:197 | the `whole` of `[whole, fraction = ''] = ether.split('.')`: a prefix of the text with no '.' in it |
| SeiMcp.FractionPiece | src/services/sei-mcp.ts:197 | the `fraction` of the same destructuring: the second piece, or '' when there is none; it holds no '.', and is non-empty only when the text has a '.' |
| SeiMcp.FormatFromWeiValue | src/services/sei-mcp.ts:181-201 | the text `formatFromWei` produces denotes exactly the base units it was given |
| SeiMcp.FractionPieceValue | src/services/sei-mcp.ts:191-198 | the fraction piece of `formatFromWei`'s text, padded back to `decimals` digits, is the remainder |
| SeiMcp.WholePieceValue | src/services/sei-mcp.ts:188-197 | the whole piece of `formatFromWei`'s text is a digit string denoting the quotient |
| SeiMcp.WeiRoundTrip | src/services/sei-mcp.ts:181-201 | for every non-negative integer w and decimals ≤ 22, formatToWei(formatFromWei(w)) is w's decimal text |
| SeiMcp.DefaultDecimalsRoundTrip | src/services/sei-mcp.ts:181-196 | the default of 18 decimals is within the exact range, and the round trip holds at it |
| SeiMcp.FractionUnique | src/services/sei-mcp.ts:191 | at most one fraction text (no trailing zero, at most `decimals` digits) denotes a given remainder |
| SeiMcp.WholeRoundTrip | src/services/sei-mcp.ts:181-201 | converting a formatted amount to base units and back keeps its whole part |
| SeiMcp.FractionRoundTrip | src/services/sei-mcp.ts:181-201 | converting a formatted amount to base units and back keeps its fraction, or its lack of one |
| SeiMcp.AmountPiecesRoundTrip | src/services/sei-mcp.ts:181-201 | converting a formatted amount to base units and back gives the same pieces around the '.' |
| SeiMcp.AmountRoundTrip | src/services/sei-mcp.ts:181-201 | every amount text in the shape `formatFromWei` produces comes back unchanged from formatFromWei(formatToWei(text)) |
| SeiMcp.FormattedAmountValue | src/services/sei-mcp.ts:184-199 | for such an amount text, the quotient of its value is the whole part; the remainder is 0 without a fraction, and non-zero and equal to the fraction's value with one |
| SeiMcp.FormatToWeiTruncates | src/services/sei-mcp.ts:198 | fraction digits beyond `decimals` are dropped, not rounded |
| SeiMcp.FormatToWeiExample | src/services/sei-mcp.ts:196-201 | "1.239" at 2 decimals gives "123" |
| SeiMcp.AmountValueTruncates | src/services/sei-mcp.ts:197-199 | fraction digits beyond `decimals` add nothing to the value |
| SeiMcp.FormatFromWeiExample | src/services/sei-mcp.ts:181-193 | "150" at 2 decimals gives "1.5" |
| DecimalText.ToDecimal | src/services/sei-mcp.ts:188 | `toString` of a non-negative integer is canonical (digits, no leading zero), and is "0" exactly for 0 |
| DecimalText.ParseDigits | src/services/sei-mcp.ts:183 | `BigInt` of a digit string of length k is below 10^k |
| DecimalText.ParseToDecimal | src/services/sei-mcp.ts:183-188 | parsing the decimal text of n gives n |
| DecimalText.ToDecimalParse | src/services/sei-mcp.ts:199-200 | the decimal text of a canonical string's value is the string itself |
| DecimalText.CanonicalEqual | src/services/sei-mcp.ts:200 | two canonical texts with the same value are the same text |
| DecimalText.ToDecimalInjective | src/services/sei-mcp.ts:188 | distinct integers have distinct decimal texts |
| DecimalText.ParseLeadingZeros | src/services/sei-mcp.ts:191 | left-padding with '0' (`padStart`) does not change the value |
| DecimalText.ParseTrailingZeros | src/services/sei-mcp.ts:198 | right-padding with k zeros (`padEnd`) multiplies the value by 10^k |
| DecimalText.PadStart | src/services/sei-mcp.ts:191 | `padStart(len, '0')`: length max(len, original), the original text at the end, '0' in every position before it |
| DecimalText.PadEnd | src/services/sei-mcp.ts:198 | `padEnd(len, '0')`: length max(len, original), the original text at the start, '0' in every position after it |
| DecimalText.TrimTrailingZeros | src/services/sei-mcp.ts:191 | `replace(/0+$/, '')` removes the whole run of trailing zeros and nothing else: what is left does not end in '0', and adding the zeros back restores the input |
| DecimalText.Take | src/services/sei-mcp.ts:198 | `slice(0, n)` is the prefix of length min(n, length) |
| DecimalText.PadEndTake | src/services/sei-mcp.ts:198 | padEnd then slice keeps the first `decimals` digits and fills with zeros up to `decimals` |
| DecimalText.Split | src/services/sei-mcp.ts:197 | `split(sep)` gives at least one piece, no piece contains the separator, and joining the pieces with it restores the input |
| DecimalText.SplitOnce | src/services/sei-mcp.ts:197 | a text with exactly one separator splits into the two sides |
| DecimalText.ParseInjective | src/services/sei-mcp.ts:191-192 | two digit strings of equal length and equal value are equal |
| IntentParser.ToLower | src/services/ai-intent-parser.ts:270 | `toLowerCase` keeps the length and lowers each ASCII letter |
| IntentParser.ParseChainId | src/services/ai-intent-parser.ts:256-271 | no id for a missing or empty name; otherwise the alias table's entry for the lower-cased name, which is one of 1, 56, 137, 1328, 1329 |
| IntentParser.ParseChainIdCaseInsensitive | src/services/ai-intent-parser.ts:270 | a name and its lower-cased form give the same id |
| IntentParser.ParseChainIdAliases | src/services/ai-intent-parser.ts:259-270 | each id is reached exactly through its aliases, in any letter case (ethereum/eth 1, sei 1329, sei-testnet 1328, bsc/binance 56, polygon/matic 137); "poly" and "sei-devnet" give no id |
| IntentParser.TypeRisk | src/services/ai-intent-parser.ts:278-285 | the type's risk is one of 10, 15, 20, 25, 30 |
| IntentParser.RiskScore | src/services/ai-intent-parser.ts:273-291 | the score lies between 20 and 100 |
| IntentParser.CalculateRiskScore | src/services/ai-intent-parser.ts:273-291 | the accumulator ends at min(100, 20 + type risk + 10·(steps − 1)), between 20 and 100 |
| IntentParser.RiskScoreMonotone | src/services/ai-intent-parser.ts:285-290 | more steps never lower the score; 8 or more steps give 100; at equal step counts transfer ≤ stake ≤ any unlisted or missing type ≤ swap ≤ bridge (the cap can make them equal) |
| IntentParser.RiskScoreSingleStep | src/services/ai-intent-parser.ts:275-290 | one step scores 20 + the type's risk (bridge 50, transfer 30) |
| IntentParser.BuildSteps | src/services/ai-intent-parser.ts:225-232 | same length and order as the reply's steps; step i gets id "step-i", status pending, and the reply's type, description, cost and time |
| IntentParser.StepId | src/services/ai-intent-parser.ts:226 | the template `step-${index}`: "step-" followed by the index's decimal text (distinctness is IntentParser.StepIdsDistinct) |
| IntentParser.TotalTime | src/services/ai-intent-parser.ts:241 | the left `reduce` adding the steps' time estimates from 0; the total is non-negative when every estimate is |
| IntentParser.ParseAIResponse | src/services/ai-intent-parser.ts:208-254 | fails exactly when the reply has no `steps` field (missing or null; an empty array succeeds), with "Failed to parse AI response: TypeError"; otherwise the intent is ready, with the original input, the parsed chain ids and the copied type/amount/address, and confidence and reasoning are copied, undefined when absent; the plan's steps are built as in BuildSteps, its time is the sum of the reply's times, its risk the risk score for the type and step count |
| IntentParser.ParsedTimeAppend | src/services/ai-intent-parser.ts:241 | the sum of times distributes over concatenation |
| IntentParser.StepTimesAdd | src/services/ai-intent-parser.ts:241 | the left-to-right `reduce` over the built steps equals the sum of the reply's time estimates |
| IntentParser.LastStepTime | src/services/ai-intent-parser.ts:225-241 | the fold over the built steps adds the last reply step's estimate to the fold over the steps built from the ones before it |
| IntentParser.BuildStepsPrefix | src/services/ai-intent-parser.ts:225-232 | building the steps of a prefix of the reply gives the prefix of the built steps |
| IntentParser.StepIdsDistinct | src/services/ai-intent-parser.ts:226 | distinct indices give distinct step ids |
| IntentParser.PlanWellFormed | src/services/ai-intent-parser.ts:225-241 | the plan's step ids are pairwise distinct, and its time is non-negative when every estimate is |
| IntentParser.ParsedTimeNonNegative | src/services/ai-intent-parser.ts:241 | non-negative estimates add up to a non-negative total |
| Chains.FindById | src/lib/chains.ts:29-31 | `find` returns nothing exactly when no chain has the id; otherwise the first chain in list order that has it |
| Chains.GetChainById | src/lib/chains.ts:27-31 | a found chain is supported and has the requested id; nothing is found exactly when no supported chain has the id |
| Chains.GetChainByIdTable | src/lib/chains.ts:3-27 | exactly ids 713715 and 1 are found (Sei Atlantic-2 and Ethereum); the mainnet id 531 is not; the supported ids are distinct |
| Chains.GetChainByIdFindsEach | src/lib/chains.ts:27-30 | every supported chain is found by its own id |
| Consistency.ParserAgreesWithService | src/services/ai-intent-parser.ts:262-263 | the parser's ids for "sei" and "sei-testnet" are the service's ids for those networks; "sei-devnet" is unknown to the parser |
| Consistency.TableLacksParserSeiIds | src/lib/chains.ts:27-30 | the chain table finds Ethereum under the parser's id for "eth", but has nothing under the parser's Sei ids 1329 and 1328 |
| Consistency.TableSeiIdIsServiceDevnet | src/lib/chains.ts:11-17 | the table's Sei testnet entry carries the id the service uses for sei-devnet, so only a devnet configuration's id finds it |

## Left out

- The AI calls (`parseIntent`, `callAI` and the provider calls), `JSON.parse`, `crypto.randomUUID`, and the hard-coded fallback replies. These are I/O and foreign code, so the model starts from the already-parsed reply (`ParsedResponse`) and the intent and plan carry no ids.
- The plan's `estimatedCost`: it is a floating-point sum of `parseFloat` values.
- The MCP client (`src/services/sei-mcp-client.ts`), the React hook apart from its factory call at `src/hooks/useSeiMCP.ts:44-47` (which `SeiMcp.HookService` models), the wallet providers, `src/lib/constants.ts` and the fetch script. These are transport and UI plumbing; the rest of their code is not part of this model.
- `getBalance`, `getTokenInfo`, `getTokenBalance` and `getTransaction`: fixed mock data with nothing to check.
- The random digits of the mock hash and the `SEI_PRIVATE_KEY` environment variable are parameters. The model does not describe their values.
- `async`/`await`: each operation is modelled as the value its promise resolves to, or the error it is rejected with.
- SeiMcp.FormatFromWei: requires a plain digit string and decimals ≤ 22. `BigInt`'s signs, hex prefixes, surrounding whitespace and its errors on malformed text are not modelled. Above 22 decimals, `10 ** decimals` is no longer exact as a JavaScript number. `decimals` is a `nat`: a negative or fractional `decimals`, on which `BigInt(10 ** decimals)` throws a RangeError, is not modelled.
- SeiMcp.FormatToWei: requires text made only of digits and '.', and decimals ≤ 22. Text with a sign or other characters, on which `BigInt` throws or reads it differently, is not modelled. Nor is a negative or fractional `decimals`, on which `BigInt(10 ** decimals)` throws a RangeError.
- SeiMcp.GetChainInfo: a network outside the three names (possible only by bypassing the type) makes the source throw "Failed to get chain info"; the model's network is an enumeration.
- SeiMcp.CreateSeiMcpService: a `network` override explicitly set to `undefined` is not modelled; the source would then throw from `getChainInfo`. The only caller always passes a defined network (`src/hooks/useSeiMCP.ts:45`).
- IntentParser.ParseAIResponse: the error text stops at the error's name ("TypeError"). The engine's own message after it is not modelled. A reply whose steps are present but malformed (a step that is null, a missing time estimate, a non-array `steps`) is not modelled either: the input types rule it out. The reply's `token` field, which the source does not copy, is not part of the input.
- IntentParser.ToLower: only ASCII letters are lowered. The alias keys are ASCII and contain no 'k', so no non-ASCII name could lower onto a key; the lookup result is the same.
- IntentParser.ParseChainId and IntentParser.TypeRisk: prototype property names ("constructor", "toString", "__proto__") are not modelled. The source's plain-object lookups would find inherited members under them; the model treats them as unknown names.
- IntentParser.ParsedStep and IntentParser.Intent: the types and kinds are plain strings. The TypeScript unions in `src/types/index.ts` are not enforced at run time, and the parser copies whatever the reply holds. Time estimates are integers.
- The model follows the code where the prompt text differs: the system prompt lists "poly" as a Polygon alias (`src/services/ai-intent-parser.ts:58`), but the table has no such key, so "poly" gives no id.

## Findings

| source | as written | input that shows it | evidently intended | confidence | as-written member | corrected member |
|---|---|---|---|---|---|---|
| src/services/sei-mcp.ts:206-210 | `...config` copies a `privateKey` field that is present but `undefined` over the SEI_PRIVATE_KEY default | `useSeiMCP()` with no key option calls `createSeiMCPService({ network: 'sei-testnet', privateKey: undefined })` (`src/hooks/useSeiMCP.ts:44-47`); with SEI_PRIVATE_KEY set, both transfers still fail with "Private key required for transfers" | a missing or undefined key falls back to the environment's key | medium, not executed | SeiMcp.UndefinedKeyDropsEnvKey | SeiMcp.FallbackKeepsEnvKey |
