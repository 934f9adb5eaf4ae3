/** src/main.rs: what `main` does with its arguments, from validation to the coloured output. */
module ContractDiff {
  import opened Wrappers
  import opened Types
  import opened Ascii
  import opened Hex
  import opened Util

  // ---------------------------------------------------------------------------
  // Chain selection

  /** Turns the `--chain` value into a chain: lowercase it, then compare it with each name. */
  method ResolveChain(chainArg: string) returns (chain: Option<ChainType>)
    ensures forall c :: chain == Some(c) <==> ChainName(c) == Lower(chainArg)
  {
    var chainValue := Lower(chainArg);
    chain := None;
    if chainValue == "bsc" {
      chain := Some(BSC);
    } else if chainValue == "ethereum" {
      chain := Some(Ethereum);
    } else if chainValue == "polygon" {
      chain := Some(Polygon);
    }
  }

  /** Two `--chain` values that differ only in case select the same chains. */
  lemma ChainSelectionCaseInsensitive(a: string, b: string, c: ChainType)
    requires SameIgnoringCase(a, b)
    ensures ChainName(c) == Lower(a) <==> ChainName(c) == Lower(b)
  {
  }

  /** Every casing of a chain's name selects that chain and no other. */
  lemma AnyCasingOfNameSelects(c: ChainType, upper: seq<bool>, d: ChainType)
    requires |upper| == |ChainName(c)|
    ensures ChainName(d) == Lower(Recase(ChainName(c), upper)) <==> d == c
  {

  }

  // ---------------------------------------------------------------------------
  // From a validated address to its 20 bytes

  /** `&address[2..]`, exactly as `main` slices both addresses. */
  function AddressDigitsAsWritten(address: string): (digits: string)
    requires |address| >= 2
    ensures |digits| == |address| - 2
    ensures address == address[..2] + digits
  {
    address[2..]
  }

  /** An accepted address written without `0x` loses its first two digits: 38 remain,
      and they decode to 19 bytes, not the 20 an address has. */
  lemma UnprefixedAddressLosesTwoDigits(address: string)
    requires IsAddressSimplified(address) && |address| == AddressDigitCount
    ensures |AddressDigitsAsWritten(address)| == AddressDigitCount - 2
    ensures HexDecode(AddressDigitsAsWritten(address)).Success?
    ensures |HexDecode(AddressDigitsAsWritten(address)).value| == 19
  {
  }

  /** A concrete input: forty zeros pass the check, and `main` then has 19 bytes. */
  lemma ZeroAddressWithoutPrefix()
    ensures var address := seq(AddressDigitCount, _ => '0');
      && IsAddressSimplified(address)
      && |HexDecode(AddressDigitsAsWritten(address)).value| == 19
  {
  }

  /** Strips the `0x` (or `0X`) prefix only when it is there. */
  function AddressDigits(address: string): (digits: string)
    ensures IsAddressSimplified(address) ==> digits == address[|address| - AddressDigitCount..]
    ensures IsAddressSimplified(address) ==> |digits| == AddressDigitCount && AllHex(digits)
  {
    if |address| >= 2 && address[0] == '0' && LowerChar(address[1]) == 'x' then address[2..]
    else address
  }

  /** With the corrected strip, every accepted address decodes to exactly 20 bytes, the
      length the address type needs. */
  lemma AcceptedAddressDecodes(address: string)
    requires IsAddressSimplified(address)
    ensures HexDecode(AddressDigits(address)).Success?
    ensures |HexDecode(AddressDigits(address)).value| == 20
  {
  }

  /** `address[2..]` never makes decoding fail on an accepted address: it yields 20 bytes
      for a prefixed address and 19 for a bare one. */
  lemma AcceptedAddressDecodesAsWritten(address: string)
    requires IsAddressSimplified(address)
    ensures HexDecode(AddressDigitsAsWritten(address)).Success?
    ensures |HexDecode(AddressDigitsAsWritten(address)).value|
      == if |address| == AddressDigitCount + 2 then 20 else 19
  {

  }

  /** On a prefixed accepted address the two strips agree; they differ only on bare ones. */
  lemma PrefixedStripsAgree(address: string)
    requires IsAddressSimplified(address) && |address| == AddressDigitCount + 2
    ensures AddressDigits(address) == AddressDigitsAsWritten(address)
  {
  }

  // ---------------------------------------------------------------------------
  // Output

  /** The tag the diff gives each chunk. */
  datatype ChangeTag = Equal | Delete | Insert

  datatype Chunk = Chunk(tag: ChangeTag, text: string)

  /** Console styles; `Plain` is unstyled text. */
  datatype Style = Plain | Dim | Red | Green

  /** One stretch of console output in one style. */
  datatype Piece = Piece(style: Style, text: string)

  const Newline: Piece := Piece(Plain, "\n")

  /** The style `main` gives each tag. */
  function StyleOf(tag: ChangeTag): Style
  {
    match tag
    case Equal => Dim
    case Delete => Red
    case Insert => Green
  }

  /** Tags and styles determine each other; no tag is printed plain. */
  lemma StyleOfInjective(a: ChangeTag, b: ChangeTag)
    ensures StyleOf(a) == StyleOf(b) <==> a == b
    ensures StyleOf(a) != Plain
  {
  }

  /** `out` is what the output loop prints for `diffs`: each chunk once, in order, in the
      style of its tag, then one newline. */
  predicate Renders(diffs: seq<Chunk>, out: seq<Piece>)
  {
    && |out| == |diffs| + 1
    && (forall i :: 0 <= i < |diffs| ==> out[i] == Piece(StyleOf(diffs[i].tag), diffs[i].text))
    && out[|diffs|] == Newline
  }

  /** The output loop and the final `println!`. */
  method RenderDiff(diffs: seq<Chunk>) returns (out: seq<Piece>)
    ensures Renders(diffs, out)
  {
    out := [];
    for i := 0 to |diffs|
      invariant |out| == i
      invariant forall j :: 0 <= j < i ==> out[j] == Piece(StyleOf(diffs[j].tag), diffs[j].text)
    {
      var ch := diffs[i];
      var style := StyleOf(ch.tag);
      out := out + [Piece(style, ch.text)];
    }
    out := out + [Newline];
  }

  /** The text of the pieces whose style is in `styles`, in order. */
  function Shown(pieces: seq<Piece>, styles: set<Style>): string
  {
    if pieces == [] then ""
    else (if pieces[0].style in styles then pieces[0].text else "") + Shown(pieces[1..], styles)
  }

  /** The text of the chunks whose tag is in `tags`, in order. */
  function Tagged(diffs: seq<Chunk>, tags: set<ChangeTag>): string
  {
    if diffs == [] then ""
    else (if diffs[0].tag in tags then diffs[0].text else "") + Tagged(diffs[1..], tags)
  }

  /** The promise of the diff the program calls: the equal and deleted text spells the old
      string, the equal and inserted text spells the new one. */
  predicate IsDiffOf(diffs: seq<Chunk>, old_: string, new_: string)
  {
    Tagged(diffs, {Equal, Delete}) == old_ && Tagged(diffs, {Equal, Insert}) == new_
  }

  /** Whatever styles a reader attends to, the output shows exactly the chunks whose
      tags have those styles, in order. */
  lemma {:induction false} ShownMatchesTagged(
    diffs: seq<Chunk>, out: seq<Piece>, styles: set<Style>, tags: set<ChangeTag>)
    requires Renders(diffs, out)
    requires Plain !in styles
    requires forall t :: StyleOf(t) in styles <==> t in tags
    ensures Shown(out, styles) == Tagged(diffs, tags)
  {
    if diffs == [] {
      assert out == [Newline];
      assert Shown(out, styles) == "" + Shown(out[1..], styles);
    } else {
      assert Renders(diffs[1..], out[1..]);
      ShownMatchesTagged(diffs[1..], out[1..], styles, tags);
      assert out[0].style == StyleOf(diffs[0].tag);
    }
  }

  /** Reading the dim and red text of the output gives back the old code; the dim and green
      text gives the new code. */
  lemma RenderedOutputReconstructs(diffs: seq<Chunk>, out: seq<Piece>, old_: string, new_: string)
    requires IsDiffOf(diffs, old_, new_) && Renders(diffs, out)
    ensures Shown(out, {Dim, Red}) == old_
    ensures Shown(out, {Dim, Green}) == new_
  {
    ShownMatchesTagged(diffs, out, {Dim, Red}, {Equal, Delete});
    ShownMatchesTagged(diffs, out, {Dim, Green}, {Equal, Insert});
  }

  /** All the output's text is the chunks' text, in order, then the newline. */
  lemma {:induction false} OutputIsEveryChunkOnce(diffs: seq<Chunk>, out: seq<Piece>)
    requires Renders(diffs, out)
    ensures Shown(out, {Plain, Dim, Red, Green}) == Tagged(diffs, {Equal, Delete, Insert}) + "\n"
  {
    if diffs == [] {
      assert out == [Newline];
      assert Shown(out[1..], {Plain, Dim, Red, Green}) == "";
    } else {
      assert Renders(diffs[1..], out[1..]);
      OutputIsEveryChunkOnce(diffs[1..], out[1..]);
      assert out[0].text == diffs[0].text;
    }
  }

  // ---------------------------------------------------------------------------
  // The whole program

  /** Why `main` stops. Each is an error message on standard error and exit status 1,
      except `AddressLength1`/`AddressLength2`: the 20-byte address type's constructor
      rejects a slice of any other length (a panic) for address 1 or 2. */
  datatype Failure =
    | MalformedAddress1
    | MalformedAddress2
    | UnknownChain
    | AddressLength1
    | AddressLength2
    | Await1(rpcError: string)
    | Await2(rpcError: string)
    | NotContract1
    | NotContract2

  datatype Outcome = Exit(failure: Failure) | Printed(output: seq<Piece>)

  /** `main`. `fetch` stands for the RPC call fetching the code at an address from an
      endpoint, `diff` for the character diff of the external crate. */
  method Run(
    args: CommandlineArgs,
    fetch: (string, seq<byte>) -> Result<seq<byte>, string>,
    diff: (string, string) -> seq<Chunk>
  ) returns (r: Outcome)
    ensures r == Exit(MalformedAddress1) <==> !IsAddressSimplified(args.address1)
    ensures r == Exit(MalformedAddress2) <==>
      IsAddressSimplified(args.address1) && !IsAddressSimplified(args.address2)
    ensures r == Exit(UnknownChain) <==>
      && IsAddressSimplified(args.address1) && IsAddressSimplified(args.address2)
      && forall c :: ChainName(c) != Lower(args.chain)
    ensures r == Exit(AddressLength1) <==>
      && IsAddressSimplified(args.address1) && IsAddressSimplified(args.address2)
      && (exists c :: ChainName(c) == Lower(args.chain))
      && |args.address1| == AddressDigitCount
    ensures r == Exit(AddressLength2) <==>
      && IsAddressSimplified(args.address1) && IsAddressSimplified(args.address2)
      && (exists c :: ChainName(c) == Lower(args.chain))
      && |args.address1| == AddressDigitCount + 2 && |args.address2| == AddressDigitCount
    ensures forall c ::
      && ChainName(c) == Lower(args.chain)
      && IsAddressSimplified(args.address1) && IsAddressSimplified(args.address2)
      && |args.address1| == AddressDigitCount + 2 && |args.address2| == AddressDigitCount + 2
      ==>
      var code1 := fetch(RpcEndpoint(c), HexDecode(AddressDigitsAsWritten(args.address1)).value);
      var code2 := fetch(RpcEndpoint(c), HexDecode(AddressDigitsAsWritten(args.address2)).value);
      && (r.Exit? && r.failure.Await1? <==> code1.Failure?)
      && (r.Exit? && r.failure.Await2? <==> code1.Success? && code2.Failure?)
      && (r == Exit(NotContract1) <==> code1.Success? && code2.Success? && code1.value == [])
      && (r == Exit(NotContract2) <==>
            code1.Success? && code2.Success? && code1.value != [] && code2.value == [])
      && (r.Printed? <==>
            code1.Success? && code2.Success? && code1.value != [] && code2.value != [])
      && (r.Printed? ==> Renders(diff(HexEncode(code1.value), HexEncode(code2.value)), r.output))
  {
    if !IsAddressSimplified(args.address1) {
      return Exit(MalformedAddress1);
    }
    if !IsAddressSimplified(args.address2) {
      return Exit(MalformedAddress2);
    }

    var chain := ResolveChain(args.chain);
    if chain.None? {
      return Exit(UnknownChain);
    }
    var endpoint := RpcEndpoint(chain.value);

    AcceptedAddressDecodesAsWritten(args.address1);
    var decoded1 := HexDecode(AddressDigitsAsWritten(args.address1));
    if decoded1.Failure? {
      // the decoding error exit: the digits of an accepted address always decode
      assert false;
    }
    if |decoded1.value| != 20 {
      return Exit(AddressLength1);
    }

    AcceptedAddressDecodesAsWritten(args.address2);
    var decoded2 := HexDecode(AddressDigitsAsWritten(args.address2));
    if decoded2.Failure? {
      assert false;
    }
    if |decoded2.value| != 20 {
      return Exit(AddressLength2);
    }

    var code1 := fetch(endpoint, decoded1.value);
    var code2 := fetch(endpoint, decoded2.value);
    if code1.Failure? {
      return Exit(Await1(code1.error));
    }
    if code2.Failure? {
      return Exit(Await2(code2.error));
    }

    var hex1 := HexEncode(code1.value);
    var hex2 := HexEncode(code2.value);
    if |hex1| == 0 {
      return Exit(NotContract1);
    }
    if |hex2| == 0 {
      return Exit(NotContract2);
    }

    var diffs := diff(hex1, hex2);
    var out := RenderDiff(diffs);
    return Printed(out);
  }
}
