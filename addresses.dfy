/** Contract addresses as text: `"0x"` followed by the hexadecimal of the last
    20 bytes of the 32-byte digest of the creation seed (section 7 of the
    Ethereum Yellow Paper), and the account-address pattern both generations
    of the loader validate against. */
module Addresses {
  import opened Wrappers
  import opened Hex
  import opened Rlp

  /** A 32-byte digest. */
  type Digest = s: seq<Byte> | |s| == 32 witness seq(32, i => 0)

  /** The hash of the seed (`sha3.sha3_256`), a collaborator the model does not
      compute: every operation that needs it takes it as a parameter. */
  type Hasher = seq<Byte> -> Digest

  /** `'^0x[0-9a-f]{40}$'` read as "exactly `0x` and forty lowercase hex digits". */
  predicate IsEthAddress(s: string) {
    |s| == 42 && s[..2] == "0x" && forall i :: 2 <= i < 42 ==> IsLowerHexDigit(s[i])
  }

  /** The same pattern as Python's `re.match` applies it: `$` also matches just
      before a newline that ends the string. */
  predicate EthAddrPattern(s: string) {
    IsEthAddress(s) || (s != [] && s[|s| - 1] == '\n' && IsEthAddress(s[..|s| - 1]))
  }

  /** `'0x' + digest[12:].encode('hex')`. */
  function AddressOfDigest(d: Digest): (r: string)
    ensures |r| == 42
  {
    "0x" + ToHex(d[12..])
  }

  /** The address text is well formed and hex-decodes to the digest's last 20 bytes. */
  lemma AddressOfDigestDecodes(d: Digest)
    ensures IsEthAddress(AddressOfDigest(d))
    ensures HexDecode(AddressOfDigest(d)[2..]) == Some(d[12..])
  {
    var r := AddressOfDigest(d);
    assert r[2..] == ToHex(d[12..]);
    HexRoundTrip(d[12..]);
  }

  /** `'0x' + hexdigest[24:]`: the same address, read off the 64-digit hex digest. */
  function AddressOfHexDigest(d: Digest): (r: string)
    ensures r == AddressOfDigest(d)
  {
    assert d == d[..12] + d[12..];
    HexAppend(d[..12], d[12..]);
    "0x" + ToHex(d)[24..]
  }

  /** The address of the contract that `creator` creates with transaction
      number `nonce`. */
  function ContractAddress(hash: Hasher, creator: Bytes20, nonce: Nonce): (r: string)
    ensures |r| == 42
  {
    AddressOfDigest(hash(CreationSeed(creator, nonce)))
  }

  /** A contract address is well formed and names the last 20 bytes of the
      hash of the creation seed. */
  lemma ContractAddressDecodes(hash: Hasher, creator: Bytes20, nonce: Nonce)
    ensures IsEthAddress(ContractAddress(hash, creator, nonce))
    ensures HexDecode(ContractAddress(hash, creator, nonce)[2..]) == Some(hash(CreationSeed(creator, nonce))[12..])
  {
    AddressOfDigestDecodes(hash(CreationSeed(creator, nonce)));
  }

  /** Every address a creator's creations get is well formed and names the
      last 20 bytes of the hash of its seed. */
  lemma ContractAddressesDecode(hash: Hasher, creator: Bytes20)
    ensures forall n: Nonce ::
              && IsEthAddress(ContractAddress(hash, creator, n))
              && HexDecode(ContractAddress(hash, creator, n)[2..]) == Some(hash(CreationSeed(creator, n))[12..])
  {
    forall n: Nonce
      ensures IsEthAddress(ContractAddress(hash, creator, n))
      ensures HexDecode(ContractAddress(hash, creator, n)[2..]) == Some(hash(CreationSeed(creator, n))[12..])
    {
      ContractAddressDecodes(hash, creator, n);
    }
  }

  /** Two creations by the same creator with different nonces hash different
      seeds; their addresses can coincide only through a hash collision on
      the last 20 bytes. */
  lemma {:induction false} DistinctNoncesDistinctSeeds(creator: Bytes20, n1: Nonce, n2: Nonce)
    requires n1 != n2
    ensures CreationSeed(creator, n1) != CreationSeed(creator, n2)
  {
    if CreationSeed(creator, n1) == CreationSeed(creator, n2) {
      SeedInjective(creator, n1, creator, n2);
    }
  }

  /** A validated address always hex-decodes to a 20-byte raw address. */
  lemma EthAddressDecodes(s: string)
    requires IsEthAddress(s)
    ensures HexDecode(s[2..]).Some? && |HexDecode(s[2..]).value| == 20
  {
    assert forall i :: 0 <= i < 40 ==> s[2..][i] == s[i + 2];
  }

  /** The pattern as written also admits an address followed by a newline,
      and that text does not hex-decode (its length after `0x` is odd). */
  lemma EthAddrPatternAcceptsNewline(a: string)
    requires IsEthAddress(a)
    ensures EthAddrPattern(a + "\n") && !IsEthAddress(a + "\n")
    ensures HexDecode((a + "\n")[2..]).None?
  {
    assert (a + "\n")[..|a|] == a;
  }

  /** Apart from that newline, the pattern accepts exactly the well-formed addresses. */
  lemma EthAddrPatternExact(s: string)
    requires s == [] || s[|s| - 1] != '\n'
    ensures EthAddrPattern(s) <==> IsEthAddress(s)
  {
  }
}
