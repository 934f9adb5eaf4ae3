/** Hex strings and bytes, as the `hex` crate's `decode` and `encode` treat them: `decode`
    takes an even-length string of hex digits of either case, two digits per byte, high
    digit first; `encode` writes lowercase digits. */
module Hex {
  import opened Wrappers

  newtype byte = x: int | 0 <= x < 256

  datatype HexError = OddLength | InvalidHexCharacter(c: char, index: nat)

  /** A hex digit of either case. */
  predicate IsHexChar(c: char)
  {
    '0' <= c <= '9' || 'a' <= c <= 'f' || 'A' <= c <= 'F'
  }

  predicate AllHex(s: string)
  {
    forall i :: 0 <= i < |s| ==> IsHexChar(s[i])
  }

  function HexValue(c: char): (v: nat)
    requires IsHexChar(c)
    ensures v < 16
  {
    if '0' <= c <= '9' then c as int - '0' as int
    else if 'a' <= c <= 'f' then c as int - 'a' as int + 10
    else c as int - 'A' as int + 10
  }

  /** The lowercase digit of a nibble. */
  function HexDigit(n: nat): (c: char)
    requires n < 16
    ensures IsHexChar(c) && HexValue(c) == n
    ensures '0' <= c <= '9' || 'a' <= c <= 'f'
  {
    if n < 10 then ('0' as int + n) as char else ('a' as int + n - 10) as char
  }

  /** Decodes digit pairs; `offset` is the position of `s` in the whole input, used in errors. */
  function DecodePairs(s: string, offset: nat): (r: Result<seq<byte>, HexError>)
    requires |s| % 2 == 0
    ensures r.Success? <==> AllHex(s)
    ensures r.Success? ==> |r.value| == |s| / 2
    ensures r.Success? ==> forall k :: 0 <= k < |s| / 2 ==>
      r.value[k] as int == 16 * HexValue(s[2 * k]) + HexValue(s[2 * k + 1])
    ensures r.Failure? ==>
              && r.error.InvalidHexCharacter?
              && offset <= r.error.index < offset + |s|
              && !IsHexChar(s[r.error.index - offset])
              && r.error.c == s[r.error.index - offset]
              && forall j :: 0 <= j < r.error.index - offset ==> IsHexChar(s[j])
    decreases |s|
  {
    if s == [] then Success([])
    else if !IsHexChar(s[0]) then Failure(InvalidHexCharacter(s[0], offset))
    else if !IsHexChar(s[1]) then Failure(InvalidHexCharacter(s[1], offset + 1))
    else
      match DecodePairs(s[2..], offset + 2)
      case Failure(e) => Failure(e)
      case Success(rest) =>
        Success([(16 * HexValue(s[0]) + HexValue(s[1])) as byte] + rest)
  }

  /** `hex::decode`. */
  function HexDecode(s: string): (r: Result<seq<byte>, HexError>)
    ensures r.Success? <==> |s| % 2 == 0 && AllHex(s)
    ensures r.Success? ==> |r.value| == |s| / 2
    ensures r == Failure(OddLength) <==> |s| % 2 != 0
  {
    if |s| % 2 != 0 then Failure(OddLength) else DecodePairs(s, 0)
  }

  /** `hex::encode`. */
  function HexEncode(bytes: seq<byte>): (s: string)
    ensures |s| == 2 * |bytes|
    ensures forall i :: 0 <= i < |s| ==> '0' <= s[i] <= '9' || 'a' <= s[i] <= 'f'
  {
    if bytes == [] then ""
    else [HexDigit(bytes[0] as int / 16), HexDigit(bytes[0] as int % 16)] + HexEncode(bytes[1..])
  }

  /** An encoding is empty exactly when there were no bytes. */
  lemma EncodeEmptyIff(bytes: seq<byte>)
    ensures HexEncode(bytes) == "" <==> bytes == []
  {
  }

  /** Decoding undoes encoding. */
  lemma {:induction false} DecodeEncode(bytes: seq<byte>)
    ensures HexDecode(HexEncode(bytes)) == Success(bytes)
  {
    var s := HexEncode(bytes);
    var r := HexDecode(s);
    assert AllHex(s) && |s| % 2 == 0;
    assert r.Success? && |r.value| == |bytes|;
    forall k | 0 <= k < |bytes| ensures r.value[k] == bytes[k] {
      EncodeAt(bytes, k);
      var b := bytes[k] as int;
      assert r.value[k] as int == 16 * (b / 16) + b % 16;
    }
    assert r.value == bytes;
  }

  /** The two digits written for byte `k`. */
  lemma {:induction false} EncodeAt(bytes: seq<byte>, k: nat)
    requires k < |bytes|
    ensures HexEncode(bytes)[2 * k] == HexDigit(bytes[k] as int / 16)
    ensures HexEncode(bytes)[2 * k + 1] == HexDigit(bytes[k] as int % 16)
  {
    if k > 0 {
      EncodeAt(bytes[1..], k - 1);
    }
  }
}
