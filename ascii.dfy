/** ASCII case mapping, the part of Rust's `str::to_lowercase` the program's decisions depend on. */
module Ascii {

  predicate IsUpper(c: char) { 'A' <= c <= 'Z' }

  predicate IsLower(c: char) { 'a' <= c <= 'z' }

  function LowerChar(c: char): (r: char)
    ensures IsUpper(c) ==> IsLower(r) && r as int == c as int + 32
    ensures !IsUpper(c) ==> r == c
  {
    if IsUpper(c) then (c as int + 32) as char else c
  }

  function UpperChar(c: char): (r: char)
    ensures IsLower(c) ==> IsUpper(r) && r as int == c as int - 32
    ensures !IsLower(c) ==> r == c
  {
    if IsLower(c) then (c as int - 32) as char else c
  }

  /** Lowercases a string one character at a time. */
  function Lower(s: string): (r: string)
    ensures |r| == |s|
    ensures forall i :: 0 <= i < |s| ==> r[i] == LowerChar(s[i])
  {
    if s == [] then [] else [LowerChar(s[0])] + Lower(s[1..])
  }

  /** Replaces with its upper-case form every character whose flag is set; this is how a
      mixed-case (for instance checksum-cased) spelling of a string is obtained. */
  function Recase(s: string, upper: seq<bool>): (r: string)
    requires |upper| == |s|
    ensures |r| == |s|
    ensures forall i :: 0 <= i < |s| ==> r[i] == if upper[i] then UpperChar(s[i]) else s[i]
  {
    if s == [] then [] else [if upper[0] then UpperChar(s[0]) else s[0]] + Recase(s[1..], upper[1..])
  }

  /** Two strings that differ at most in the case of their letters. */
  predicate SameIgnoringCase(s: string, t: string)
  {
    |s| == |t| && forall i :: 0 <= i < |s| ==> LowerChar(s[i]) == LowerChar(t[i])
  }

  lemma LowerIdempotent(s: string)
    ensures Lower(Lower(s)) == Lower(s)
  {
  }

  /** Lowercasing identifies exactly the strings that differ only in case. */
  lemma SameIgnoringCaseIffSameLower(s: string, t: string)
    ensures SameIgnoringCase(s, t) <==> Lower(s) == Lower(t)
  {
  }

  /** Recasing never changes what a string lowercases to. */
  lemma RecasePreservesLower(s: string, upper: seq<bool>)
    requires |upper| == |s|
    ensures SameIgnoringCase(s, Recase(s, upper))
    ensures Lower(Recase(s, upper)) == Lower(s)
  {
  }
}
