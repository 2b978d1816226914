/** Recursive Length Prefix encoding (Appendix B of the Ethereum Yellow Paper)
    for the one value the pipeline encodes: the pair `[creator, nonce]` whose
    hash gives a new contract's address (section 7 of the Yellow Paper).
    The creator is a 20-byte account and the nonce is below 2^64, so only the
    short forms of RLP (payloads of at most 55 bytes) ever occur. */
module Rlp {
  import opened Wrappers
  import opened Hex

  /** A raw account address. */
  type Bytes20 = s: seq<Byte> | |s| == 20 witness seq(20, i => 0)

  /** Account nonces are below 2^64 (EIP-2681). */
  const NONCE_LIMIT: nat := 0x1_0000_0000_0000_0000
  type Nonce = n: nat | n < NONCE_LIMIT

  function Pow256(k: nat): (r: nat)
    ensures r >= 1
  {
    if k == 0 then 1 else 256 * Pow256(k - 1)
  }

  /** The minimal big-endian bytes of `n`, as RLP encodes an integer
      (zero is the empty string, and there is never a leading zero byte). */
  function ToBE(n: nat): (r: seq<Byte>)
    ensures (r == []) == (n == 0)
    ensures r != [] ==> r[0] != 0
  {
    if n == 0 then [] else ToBE(n / 256) + [n % 256]
  }

  /** The integer a big-endian byte string denotes. */
  function FromBE(s: seq<Byte>): nat {
    if s == [] then 0 else FromBE(s[..|s| - 1]) * 256 + s[|s| - 1]
  }

  lemma {:induction false} FromToBE(n: nat)
    ensures FromBE(ToBE(n)) == n
  {
    if n != 0 {
      FromToBE(n / 256);
      var s := ToBE(n);
      assert s[..|s| - 1] == ToBE(n / 256);
    }
  }

  lemma {:induction false} ToBELength(n: nat, k: nat)
    requires n < Pow256(k)
    ensures |ToBE(n)| <= k
  {
    if n != 0 {
      assert k > 0;
      assert n / 256 < Pow256(k - 1);
      ToBELength(n / 256, k - 1);
    }
  }

  /** RLP of a byte string of at most 55 bytes: a single byte below 0x80 stands
      for itself, anything else gets the prefix 0x80 + length. */
  function EncodeBytes(s: seq<Byte>): (r: seq<Byte>)
    requires |s| <= 55
  {
    if |s| == 1 && s[0] < 0x80 then s else [0x80 + |s|] + s
  }

  /** RLP of a list whose concatenated item encodings take at most 55 bytes. */
  function EncodeList(payload: seq<Byte>): (r: seq<Byte>)
    requires |payload| <= 55
  {
    [0xc0 + |payload|] + payload
  }

  /** `rlp.encode([creator, nonce])`: the seed whose hash is the address of the
      contract that `creator` creates with transaction number `nonce`. */
  function CreationSeed(creator: Bytes20, nonce: Nonce): seq<Byte> {
    ToBELength(nonce, 8);
    var payload := EncodeBytes(creator) + EncodeBytes(ToBE(nonce));
    EncodeList(payload)
  }

  /** The seed is a list header giving the payload's length, then the creator
      as a 20-byte string item, then the nonce in at most 9 bytes. */
  lemma CreationSeedShape(creator: Bytes20, nonce: Nonce)
    ensures var r := CreationSeed(creator, nonce);
      && 23 <= |r| <= 31
      && r[0] == 0xc0 + |r| - 1 && r[1] == 0x80 + 20 && r[2..22] == creator
  {
    ToBELength(nonce, 8);
    var item1 := EncodeBytes(creator);
    var item2 := EncodeBytes(ToBE(nonce));
    assert item1 == [0x94] + creator;
    assert 1 <= |item2| <= 9;
    var r := CreationSeed(creator, nonce);
    assert r == [0xc0 + |item1 + item2|] + item1 + item2;
    assert r[2..22] == creator;
  }

  /** Decodes one short-form RLP string item at the front of `s`: its bytes and
      the number of bytes the item occupies. */
  function DecodeItem(s: seq<Byte>): Option<(seq<Byte>, nat)> {
    if s == [] then None
    else if s[0] < 0x80 then Some(([s[0]], 1))
    else if s[0] <= 0xb7 && 1 + (s[0] - 0x80) <= |s| then Some((s[1..1 + (s[0] - 0x80)], 1 + (s[0] - 0x80)))
    else None
  }

  /** Decodes a short-form RLP list of two string items, reading the second as
      a big-endian integer. */
  function DecodeSeed(s: seq<Byte>): Option<(seq<Byte>, nat)> {
    if s == [] || s[0] < 0xc0 || s[0] > 0xf7 || |s| != 1 + (s[0] - 0xc0) then None
    else
      var payload := s[1..];
      match DecodeItem(payload)
      case None => None
      case Some((first, k)) =>
        match DecodeItem(payload[k..])
        case None => None
        case Some((second, k2)) =>
          if k + k2 == |payload| then Some((first, FromBE(second))) else None
  }

  /** The creation seed decodes back to the creator and the nonce. */
  lemma SeedRoundTrip(creator: Bytes20, nonce: Nonce)
    ensures var d := DecodeSeed(CreationSeed(creator, nonce));
      d.Some? && d.value.0 == creator && d.value.1 == nonce
  {
    ToBELength(nonce, 8);
    FromToBE(nonce);
    var nb := ToBE(nonce);
    var item1 := EncodeBytes(creator);
    var item2 := EncodeBytes(nb);
    var payload := item1 + item2;
    var s := CreationSeed(creator, nonce);
    assert s[1..] == payload;
    assert item1 == [0x94] + creator;
    var raw: seq<Byte> := creator;
    assert DecodeItem(payload) == Some((raw, 21)) by {
      assert payload[1..21] == creator;
    }
    assert payload[21..] == item2;
    if |nb| == 1 && nb[0] < 0x80 {
      assert DecodeItem(item2) == Some((nb, 1));
    } else {
      assert item2[1..1 + |nb|] == nb;
      assert DecodeItem(item2) == Some((nb, 1 + |nb|));
    }
  }

  /** Different (creator, nonce) pairs never share a seed: the encoding is injective. */
  lemma SeedInjective(c1: Bytes20, n1: Nonce, c2: Bytes20, n2: Nonce)
    requires CreationSeed(c1, n1) == CreationSeed(c2, n2)
    ensures c1 == c2 && n1 == n2
  {
    SeedRoundTrip(c1, n1);
    SeedRoundTrip(c2, n2);
  }
}
