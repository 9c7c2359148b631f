/**
  The five algorithm names the shared dictionary is keyed by, and the
  algorithm each one opens (CheckSumIt/Hasher.cs:18-25).
 */
module Algorithms {
  import opened Wrappers
  import opened Hex

  datatype Algorithm = MD5 | SHA1 | SHA256 | SHA384 | SHA512

  /**
    The digest function of each algorithm over a whole input. The program
    calls the platform's implementations; here it is left uninterpreted and
    supplied by the caller, so every result below holds whatever it computes.
   */
  type HashFunction = (Algorithm, seq<byte>) -> seq<byte>

  /** The dictionary key under which each algorithm is registered. */
  function Name(a: Algorithm): string
  {
    match a
    case MD5 => "MD5"
    case SHA1 => "SHA-1"
    case SHA256 => "SHA-256"
    case SHA384 => "SHA-384"
    case SHA512 => "SHA-512"
  }

  const SupportedNames: set<string> := {"MD5", "SHA-1", "SHA-256", "SHA-384", "SHA-512"}

  /** Resolves a key to its algorithm; every other string is unknown. */
  function Lookup(name: string): (a: Option<Algorithm>)
    ensures a.Some? <==> name in SupportedNames
    ensures a.Some? ==> Name(a.value) == name
  {
    if name == "MD5" then Some(MD5)
    else if name == "SHA-1" then Some(SHA1)
    else if name == "SHA-256" then Some(SHA256)
    else if name == "SHA-384" then Some(SHA384)
    else if name == "SHA-512" then Some(SHA512)
    else None
  }

  /** Every algorithm is reachable by its own key, and keys name one algorithm each. */
  lemma LookupName(a: Algorithm)
    ensures Name(a) in SupportedNames
    ensures Lookup(Name(a)) == Some(a)
  {
    match a
    case MD5 =>
    case SHA1 =>
    case SHA256 =>
    case SHA384 =>
    case SHA512 =>
  }
}
