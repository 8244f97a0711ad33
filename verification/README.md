# Staking client: balance display and token tables

This project models the two self-contained pieces of logic in the React
client of a token-staking application.

- **Balance display.** The staking contract's `getUserBalance` returns a
  balance in base units as a decimal string. The client turns it into a
  fixed-point display with 18 fractional digits, by string surgery only
  (`runGetBalances` in `client/src/App.js`). A string longer than 18
  characters gets a `.` before its last 18 characters. A shorter one is
  prefixed with the first `20 - length` characters of
  `"0.000000000000000000"`. `BalanceFormat.FormatBalance` models this, with
  the JavaScript `substring`/`substr` index clamping written out in
  `JsString`. The lemmas prove the shape of the result and its numeric
  meaning: the part before the `.` denotes `n / 10^18`, the 18 digits after
  it denote `n mod 10^18`. `Decimal` holds the digit-string arithmetic this
  needs.
- **Token tables.** `tokens` maps a displayed name (`UNF`, `DAI`, `LINK`)
  to a token address. `tokensInv` maps an address back to its name, and the
  "My stakes" page uses it to label each stake. Both are JavaScript `Map`s
  built from entry lists. `JsMap` models such a `Map`: entries in insertion
  order, `set` overwriting a key in place, and `new Map(entries)` keeping
  the last value of a repeated key. `TokenTables` proves that the two tables
  are inverse exactly under the side condition that the protocol token's
  address differs from the two hard-coded ones. It also shows what the
  client displays when that condition fails.

Modules: `JsString` (js_string.dfy), `Decimal` (decimal.dfy),
`BalanceFormat` (balance_format.dfy), `JsMap` (js_map.dfy), `TokenTables`
(token_tables.dfy).

## Model

| member | source | states |
|---|---|---|
| BalanceFormat.FormatBalance | client/src/App.js:102-114 | The display is `max(length + 1, 20)` characters long and has a `.` 19 characters from its end. Deleting that `.` gives back the input, left-padded with `'0'` to 19 characters if it was shorter. So no input character is lost, altered or reordered. The display has exactly one more `.` than the input. |
| BalanceFormat.FormatLong | client/src/App.js:108-109 | Above 18 characters the display is everything but the last 18 characters, then `.`, then exactly the last 18 characters. |
| BalanceFormat.FormatShort | client/src/App.js:111-113 | At most 18 characters: the display is `"0."`, then `18 - length` zeros, then the input unchanged. |
| BalanceFormat.ZeroTemplatePrefix | client/src/App.js:112-113 | The first `k + 2` characters of the template `"0.000000000000000000"` are `"0."` followed by `k` zeros, for every `k` up to 18. |
| BalanceFormat.FormatBoundary | client/src/App.js:108-113 | On each side of the branch: an 18-character input displays as `"0." + s`, and a 19-character input as `s[0] + "." + s[1..]`. |
| BalanceFormat.FormatSingleDot | client/src/App.js:108-114 | If the input has no `.`, the display has a `.` at exactly one position, 19 characters from its end, so exactly 18 characters follow it. |
| BalanceFormat.FormatValue | client/src/App.js:102-114 | For a digit string denoting `n`, both parts of the display are digit strings. The integer part denotes `n / 10^18`. The 18 fractional digits denote `n mod 10^18`. Integer part times `10^18`, plus fraction, gives back `n`. |
| BalanceFormat.FormatCanonical | client/src/App.js:102-114 | For the usual decimal rendering of `n` (no leading zeros), the display equals an independent reference: the rendering of `n / 10^18`, then `.`, then `n mod 10^18` in exactly 18 zero-padded digits. |
| JsString.Substring | client/src/App.js:109-113 | `substring(start, end)` gives the slice between the two indices, taken in either order. Each index below 0 is clamped to 0 and each past the end to the length, never an error; the contract fixes the result for every combination of the two indices in, below or past the range. |
| JsString.SubstrFrom | client/src/App.js:109 | `substr(start)` with the length left out gives the suffix from `start`. A negative start counts back from the end, and a start past the end gives the empty string. |
| JsMap.Get | client/src/App.js:66 | `get` finds a value exactly when the key is among the map's keys (otherwise `undefined`, modelled as `None`). |
| JsMap.Set | client/src/App.js:39-49 | After `set(k, v)`, `get(k)` is `v`. The map grows by one entry only when `k` is new. |
| JsMap.SetOther | client/src/App.js:39-49 | `set(k, v)` leaves the lookup of every other key unchanged. |
| JsMap.SetKeys | client/src/App.js:39-49 | `set` keeps an existing key in its place in iteration order and appends a new key at the end. |
| JsMap.SetKeysDistinct | client/src/App.js:39-49 | `set` never creates a duplicate key. |
| JsMap.FromEntries | client/src/App.js:39-49 | `new Map(entries)` has no duplicate keys. |
| JsMap.FromEntriesGet | client/src/App.js:39-49 | Looking up a key in `new Map(entries)` gives the value of the last entry with that key: later duplicates win. The reference for this is `LastValue`. |
| JsMap.FromEntriesDistinct | client/src/App.js:39-49 | When no key repeats, `new Map(entries)` holds exactly the entries, in their order. |
| TokenTables.Tokens | client/src/App.js:39-43 | `tokens` iterates `UNF`, `DAI`, `LINK` in that order. They map to the protocol token address and the two fixed addresses, whatever the protocol address is. |
| TokenTables.TokensInv | client/src/App.js:45-49 | `tokensInv` always maps the DAI and LINK addresses to their names. When the protocol address differs from both, it maps that address to `UNF` and lists the three addresses in order. |
| TokenTables.TokensInvInverse | client/src/App.js:39-49 | Provided the protocol address differs from both fixed addresses: `tokens` maps a name to an address if and only if `tokensInv` maps that address back to the name. |
| TokenTables.StakeLabel | client/src/components/Content.js:42 | A stake recorded under `tokens.get(name)` is labelled `name` on the "My stakes" page. |
| TokenTables.SharedAddressHidesProtocolToken | client/src/App.js:45-49 | If the protocol address equals the DAI or LINK address, `tokens` still maps `UNF` to it. `tokensInv` does not map it back to `UNF`, and it has only two entries. |
| TokenTables.SharedAddressTable | client/src/App.js:45-49 | If the protocol address equals a fixed address, `tokensInv` is exactly the two fixed entries: the later entry overwrote the first in place. |

## Left out

- Wallet and provider start-up, account and network lookup, contract instantiation, and every `contract.methods…call()/send()` are left out. They are I/O against an external chain (client/src/App.js:13-61, 63-95, 121-127). The protocol token address they supply is a parameter of `Tokens` and `TokensInv`.
- The loop in `runGetBalances` that fetches each balance and stores it in `balances` (client/src/App.js:104-118) is left out. It is asynchronous plumbing; only the per-balance string transformation is modelled.
- `changePage`, `render`, and the React components in `Content.js` and `NavBar.js` are left out: they are UI. The one fact the stakes table relies on, the inverse lookup at Content.js:42, is stated by `TokenTables.StakeLabel`.
- The staking contract (`Staking.sol`) is not part of this model. Its source is absent: stake ids, claim and unstake, reward accrual and the price oracle cannot be modelled from the client and from one event-emission test without inventing behaviour. The test file, whose other tests are commented out and concern an unrelated contract, and `truffle-config.js`, which is only network configuration, are left out for the same reason.
- `decimals` is the constant 18 for every token, as in the source; a token's real decimals are not read.
- JsString.SubstrFrom: models only the one-argument `substr(start)` form the source calls, not the optional length argument.
- Strings are modelled as Dafny strings, sequences of Unicode scalar values, whereas JavaScript's `length`, `substring` and `substr` count UTF-16 code units. The two agree on ASCII input, which covers the decimal digit strings the contract returns for a balance. On a string with a character outside the Basic Multilingual Plane they differ: JavaScript counts such a character as two units, so it can take the other branch at client/src/App.js:108 and place the `.` between the two halves of a surrogate pair.
