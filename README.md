# contractdiff, modelled in Dafny

`contractdiff` is a command-line program. It takes two contract addresses and a `--chain`
name (`bsc`, `ethereum` or `polygon`, any case). It fetches the bytecode at both addresses
from the chain's public RPC endpoint and prints a coloured character diff of the two
hex-encoded codes: unchanged characters dim, deleted ones red, inserted ones green.

This project models the program's own decisions:

- The simplified address check (`is_address_simplified`). After lowercasing, an address
  must match `^(0x)?[0-9a-f]{40}$`. No EIP-55 checksum is checked. This is module `Util`.
- The chain-to-endpoint table of `create_web3` (module `Util`).
- Everything `main` does, in order (module `ContractDiff`):
  - validate address 1, then address 2;
  - resolve the chain name;
  - decode each address's digits after `address[2..]`, as written, and build the 20-byte
    address from them;
  - fetch both codes;
  - reject empty code;
  - print each diff chunk in the style of its tag, then a newline.

`Run` models `main` as a whole, with `address[2..]` exactly as the code slices. It returns
either the exit reason or the printed pieces. Every exit is status 1 with a message on
standard error, except a wrong-length address; see Findings. The RPC call is a parameter
`fetch(endpoint, addressBytes)` and the diff is a parameter `diff(oldHex, newHex)`.

Supporting modules:

- `Types`: the chain enum and the arguments.
- `Ascii`: ASCII case mapping.
- `Hex`: the `hex` crate's `decode` and `encode`, as far as `main` relies on them.
  - `decode` accepts an even-length string of hex digits of either case.
  - `encode` writes two lowercase digits per byte.
- `Wrappers`: `Option` and `Result`.

The character diff itself comes from the external `similar` crate (`diff_chars` with the
Myers algorithm), called at src/main.rs:117. No repository code implements it, so it is not
modelled as program logic. The diff's only role here is its promise (predicate `IsDiffOf`): the equal and deleted text
spells the old string, and the equal and inserted text spells the new one.

Lowercasing is modelled on ASCII only. Non-ASCII characters stay as they are. This does not
change any decision the program makes. Unicode lowercasing of a non-ASCII character never
yields a lone ASCII hex digit, `x`, or a letter of a chain name, so such characters are
rejected either way.

## Model

| member | source | states |
|---|---|---|
| Types.ChainNameInjective | src/types.rs:19 | the three accepted `--chain` names are distinct, so a name selects at most one chain |
| Ascii.Lower | src/util.rs:35 | lowercasing keeps the length and maps each character to its lowercase form |
| Ascii.LowerIdempotent | src/util.rs:35 | lowercasing twice is the same as lowercasing once |
| Ascii.SameIgnoringCaseIffSameLower | src/util.rs:35 | two strings lowercase to the same string exactly when they differ only in letter case (both directions) |
| Ascii.RecasePreservesLower | src/util.rs:29-30 | upper-casing any chosen characters leaves the lowercased form unchanged |
| Hex.DecodePairs | src/main.rs:56 | digit-pair decoding succeeds exactly on all-hex input, with one byte per pair (high digit times 16 plus low digit); otherwise it reports the first bad character and its index |
| Hex.HexDecode | src/main.rs:56 | decoding succeeds exactly on even-length all-hex strings and yields half as many bytes; an odd length is the `OddLength` error |
| Hex.HexEncode | src/main.rs:96-97 | encoding writes two lowercase hex digits per byte |
| Hex.DecodeEncode | src/main.rs:96-97 | decoding an encoding gives back the bytes |
| Hex.EncodeEmptyIff | src/main.rs:101-108 | the code's hex string is empty exactly when the code has no bytes |
| Util.RpcEndpoint | src/util.rs:10-22 | BSC, Ethereum and Polygon map to their own endpoint constants |
| Util.RpcEndpointInjective | src/util.rs:10-22 | no two chains share an endpoint |
| Util.FormattedAddressMatches | src/util.rs:36 | forty lowercase hex digits, with or without `0x` in front, match the pattern |
| Util.MatchedAddressIsFormatted | src/util.rs:36 | every string matching the pattern is an optional `0x` followed by forty lowercase hex digits |
| Util.AcceptsBareDigits | src/util.rs:34-38 | forty hex digits of either case are accepted |
| Util.AcceptsPrefixedDigits | src/util.rs:35-36 | `0x` or `0X` followed by forty hex digits of either case is accepted |
| Util.RejectsOtherLengths | src/util.rs:36 | a string whose length is neither 40 nor 42 is rejected |
| Util.RejectsNonHexDigit | src/util.rs:36 | a non-hex character (such as `g`, or an `x` outside the prefix) among the last forty rejects the string |
| Util.RejectsMissingPrefix | src/util.rs:36 | a 42-character string not starting with `0x`/`0X` is rejected |
| Util.AcceptedLength | src/util.rs:36 | an accepted string has 40 or 42 characters |
| Util.CaseInsensitive | src/util.rs:35 | a string and its lowercase form get the same verdict |
| Util.SameIgnoringCaseSameVerdict | src/util.rs:35 | strings that differ only in case get the same verdict |
| Util.AnyCasingAccepted | src/util.rs:29-30 | no checksum is enforced: every change of letter case, EIP-55 casing included, keeps the verdict |
| Util.AcceptedDigitsAreHex | src/util.rs:36 | the last forty characters of an accepted string are hex digits of either case |
| ContractDiff.ResolveChain | src/main.rs:28-38 | the result is `Some(c)` exactly when the lowercased value is `c`'s name, and `None` when it names no chain |
| ContractDiff.ChainSelectionCaseInsensitive | src/main.rs:28 | values that differ only in case select the same chain |
| ContractDiff.AnyCasingOfNameSelects | src/main.rs:28-38 | any casing of a chain's name selects that chain and no other |
| ContractDiff.AddressDigitsAsWritten | src/main.rs:56 | `address[2..]` drops the first two characters, whatever they are |
| ContractDiff.UnprefixedAddressLosesTwoDigits | src/main.rs:56 | for an accepted address without `0x`, `address[2..]` keeps 38 digits, which decode to 19 bytes |
| ContractDiff.ZeroAddressWithoutPrefix | src/main.rs:56 | forty zeros are accepted, yet `address[2..]` decodes to 19 bytes |
| ContractDiff.AddressDigits | src/main.rs:56 | with the prefix stripped only when present, every accepted address leaves forty hex digits |
| ContractDiff.AcceptedAddressDecodes | src/main.rs:56-63 | with the corrected strip, every accepted address decodes to exactly 20 bytes, so the address is never built from a slice of the wrong length |
| ContractDiff.AcceptedAddressDecodesAsWritten | src/main.rs:56-62 | with `address[2..]` as written, decoding an accepted address never fails; it gives 20 bytes for a prefixed address and 19 for a bare one |
| ContractDiff.PrefixedStripsAgree | src/main.rs:56 | on an accepted address with `0x`, the corrected strip and `address[2..]` give the same digits |
| ContractDiff.StyleOfInjective | src/main.rs:120-124 | Equal, Delete and Insert get three different styles (dim, red, green), none of them plain |
| ContractDiff.RenderDiff | src/main.rs:119-128 | each chunk is printed once, in order, in its tag's style, followed by one newline |
| ContractDiff.ShownMatchesTagged | src/main.rs:119-127 | the text printed in a set of styles is exactly the text of the chunks whose tags have those styles, in order |
| ContractDiff.RenderedOutputReconstructs | src/main.rs:117-127 | the dim and red output spells the first code; the dim and green output spells the second |
| ContractDiff.OutputIsEveryChunkOnce | src/main.rs:119-128 | all printed text is all chunk text in order, then a newline |
| ContractDiff.Run | src/main.rs:12-129 | the exit taken, first failure first (address 1, address 2, chain, bare address 1, bare address 2, fetch 1, fetch 2, empty code 1, empty code 2), and otherwise the rendered diff of the two codes' hex strings, as listed below |

`ContractDiff.Run` states, in order:

- Address 1 is checked first, then address 2, and the first failure is the one reported.
- An unknown chain name is an error exit, but only after both addresses pass.
- An accepted address without `0x` gives 19 bytes after `address[2..]`. Building the
  20-byte address from them is the `AddressLength1` exit for address 1, and then the
  `AddressLength2` exit for address 2.
- The hex-decoding error exits (src/main.rs:58-61, 68-71) are never taken. `Run` marks
  them with `assert false`.
- With two prefixed addresses, both fetches go to the chain's endpoint with the bytes
  decoded from `address[2..]`.
- A fetch error is reported for address 1 before address 2.
- Empty code is reported, address 1 first.
- Output is printed exactly when both codes are non-empty. It renders the diff of the two
  hex strings.

## Findings

| source | as written | input that shows it | evidently intended | confidence | as-written member | corrected member |
|---|---|---|---|---|---|---|
| src/main.rs:56 | `main` drops the first two characters of each address. The address check accepts addresses without `0x`. | forty `0`s: accepted, then 38 digits decode to 19 bytes, one short of an address (src/main.rs:63 builds the address from that slice) | strip `0x`/`0X` only when present, so that every accepted address gives 20 bytes (the error messages at src/main.rs:19 and 23 also tell users to use the prefix) | not executed; the 19-byte result follows from the code as written; what the address type does with a short slice is library behaviour, left out | ContractDiff.UnprefixedAddressLosesTwoDigits | ContractDiff.AddressDigits |

`Run` models the code as written: a bare accepted address ends in the `AddressLength`
exit. The corrected strip `AddressDigits` gives 20 bytes for every accepted address
(`AcceptedAddressDecodes`). On prefixed addresses it agrees with `address[2..]`
(`PrefixedStripsAgree`). The hex-decoding error exits cannot be reached under either strip
(`AcceptedAddressDecodesAsWritten`, `AcceptedAddressDecodes`).

## Left out

- The character diff (the `similar` crate's Myers algorithm): external code, so `Run` takes it as a parameter. Only its reconstruction promise is modelled (`IsDiffOf`).
- The RPC client (`Http::new(..).unwrap()`, `Web3::new`, `eth().code(..)`): network I/O. The fetch is a parameter of `Run`, so a failing `Http::new` is not modelled.
- Concurrency: the two fetches are awaited together with `futures::join!` on the tokio runtime. The model makes both calls in sequence. Their results are checked in the source's order.
- Command-line parsing by `clap`: library code. `clap` itself rejects any `--chain` value outside the three names, so the unknown-chain exit in `Run` is the program's own fallback.
- Console styling and process exit: the output is a sequence of styled pieces, and each exit is an `Exit` outcome.
- ContractDiff.Run: the 20-byte address type and its constructor from a slice are library code, not part of this model. `Run` treats a slice of any other length as the `AddressLength` exit (the constructor asserts the length and panics). It does not model the panic's message or its exit status.
- Unicode lowercasing beyond ASCII: see above; it changes no decision of the program.
- Wording of the error messages: only which exit is taken is modelled.
