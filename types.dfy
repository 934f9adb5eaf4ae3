/** The program's own types (src/types.rs). */
module Types {

  /** The chains the program can talk to. */
  datatype ChainType = BSC | Ethereum | Polygon

  /** The three positional/flag arguments, as the command line delivers them. */
  datatype CommandlineArgs = CommandlineArgs(address1: string, address2: string, chain: string)

  /** The lowercase spelling of each chain accepted for `--chain`. */
  function ChainName(chain: ChainType): string
  {
    match chain
    case BSC => "bsc"
    case Ethereum => "ethereum"
    case Polygon => "polygon"
  }

  /** No two chains share a name, so a name selects at most one chain. */
  lemma ChainNameInjective(a: ChainType, b: ChainType)
    ensures ChainName(a) == ChainName(b) <==> a == b
  {
  }
}
