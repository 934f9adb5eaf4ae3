/** src/util.rs: the RPC endpoint of each chain and the simplified address check. */
module Util {
  import opened Types
  import opened Ascii
  import opened Hex

  const BscRpcEndpoint: string := "https://bsc-dataseed.binance.org/"
  const EthereumRpcEndpoint: string := "https://rpc.ankr.com/eth"
  const PolygonRpcEndpoint: string := "https://polygon-rpc.com/"

  /** The endpoint `create_web3` connects to for a chain. */
  function RpcEndpoint(chain: ChainType): (url: string)
    ensures chain == BSC ==> url == BscRpcEndpoint
    ensures chain == Ethereum ==> url == EthereumRpcEndpoint
    ensures chain == Polygon ==> url == PolygonRpcEndpoint
  {
    match chain
    case BSC => BscRpcEndpoint
    case Ethereum => EthereumRpcEndpoint
    case Polygon => PolygonRpcEndpoint
  }

  /** Every chain has its own endpoint. */
  lemma RpcEndpointInjective(a: ChainType, b: ChainType)
    ensures RpcEndpoint(a) == RpcEndpoint(b) <==> a == b
  {
  }

  /** Number of hex digits in an address (20 bytes). */
  const AddressDigitCount: nat := 40

  /** A character of the class `[0-9a-f]`. */
  predicate IsLowerHexDigit(c: char)
  {
    '0' <= c <= '9' || 'a' <= c <= 'f'
  }

  predicate AllLowerHex(s: string)
  {
    forall i :: 0 <= i < |s| ==> IsLowerHexDigit(s[i])
  }

  /** The language of the anchored pattern `^(0x)?[0-9a-f]{40}$`: exactly forty digits,
      optionally preceded by `0x`. */
  predicate MatchesAddressPattern(s: string)
  {
    || (|s| == AddressDigitCount && AllLowerHex(s))
    || (|s| == AddressDigitCount + 2 && s[..2] == "0x" && AllLowerHex(s[2..]))
  }

  /** `is_address_simplified`: lowercase, then match the pattern. No checksum is checked. */
  predicate IsAddressSimplified(address: string)
  {
    MatchesAddressPattern(Lower(address))
  }

  /** The strings of the pattern's language, built from its two parts. */
  function FormatAddress(prefixed: bool, digits: string): string
  {
    (if prefixed then "0x" else "") + digits
  }

  /** Every string built from an optional `0x` and forty lowercase digits matches ... */
  lemma FormattedAddressMatches(prefixed: bool, digits: string)
    requires |digits| == AddressDigitCount && AllLowerHex(digits)
    ensures MatchesAddressPattern(FormatAddress(prefixed, digits))
  {
  }

  /** ... and every matching string is built that way. */
  lemma MatchedAddressIsFormatted(s: string)
    requires MatchesAddressPattern(s)
    ensures var digits := s[|s| - AddressDigitCount..];
      && AllLowerHex(digits)
      && s == FormatAddress(|s| == AddressDigitCount + 2, digits)
  {
  }

  /** Forty hex digits of either case are accepted. */
  lemma AcceptsBareDigits(s: string)
    requires |s| == AddressDigitCount && AllHex(s)
    ensures IsAddressSimplified(s)
  {
  }

  /** `0x` or `0X` followed by forty hex digits of either case is accepted. */
  lemma AcceptsPrefixedDigits(s: string)
    requires |s| == AddressDigitCount + 2
    requires s[0] == '0' && (s[1] == 'x' || s[1] == 'X')
    requires AllHex(s[2..])
    ensures IsAddressSimplified(s)
  {
  }

  /** The pattern is anchored: any other length is rejected. */
  lemma RejectsOtherLengths(s: string)
    requires |s| != AddressDigitCount && |s| != AddressDigitCount + 2
    ensures !IsAddressSimplified(s)
  {
  }

  /** A character that is not a hex digit among the last forty rejects the string. */
  lemma RejectsNonHexDigit(s: string, i: nat)
    requires |s| - AddressDigitCount <= i < |s|
    requires !IsHexChar(s[i])
    ensures !IsAddressSimplified(s)
  {
  }

  /** Forty-two characters that do not start with `0x` or `0X` are rejected. */
  lemma RejectsMissingPrefix(s: string)
    requires |s| == AddressDigitCount + 2
    requires s[0] != '0' || (s[1] != 'x' && s[1] != 'X')
    ensures !IsAddressSimplified(s)
  {
  }

  /** An accepted string has the length of a bare or a prefixed address. */
  lemma AcceptedLength(s: string)
    requires IsAddressSimplified(s)
    ensures |s| == AddressDigitCount || |s| == AddressDigitCount + 2
  {
  }

  /** The check ignores case. */
  lemma CaseInsensitive(s: string)
    ensures IsAddressSimplified(s) == IsAddressSimplified(Lower(s))
  {
  }

  /** Acceptance depends only on the lowercased characters. */
  lemma SameIgnoringCaseSameVerdict(s: string, t: string)
    requires SameIgnoringCase(s, t)
    ensures IsAddressSimplified(s) == IsAddressSimplified(t)
  {
  }

  /** No checksum is enforced: every mixed-case spelling of an accepted address,
      EIP-55 checksum casing included, is accepted too. */
  lemma AnyCasingAccepted(s: string, upper: seq<bool>)
    requires |upper| == |s|
    ensures IsAddressSimplified(Recase(s, upper)) == IsAddressSimplified(s)
  {
    RecasePreservesLower(s, upper);
  }

  /** The forty digits of an accepted address are hex digits of either case, so the
      `hex` crate can decode them. */
  lemma AcceptedDigitsAreHex(s: string)
    requires IsAddressSimplified(s)
    ensures AllHex(s[|s| - AddressDigitCount..])
  {
  }
}
