/** The two primitives the verifier calls, left uninterpreted, and the hex form of their digests. */
module Crypto {
  import opened Wrappers
  import opened ByteStrings
  import opened Percent

  const DIGEST_LENGTH: nat := 32

  type Digest = d: Bytes | |d| == 32 witness [0, 0, 0, 0, 0, 0, 0, 0, 0, 0, 0, 0, 0, 0, 0, 0,
                                              0, 0, 0, 0, 0, 0, 0, 0, 0, 0, 0, 0, 0, 0, 0, 0]

  /** SHA-256 and HMAC-SHA256 as arbitrary functions into 32 bytes; nothing else is assumed of them. */
  datatype Primitives = Primitives(sha256: Bytes -> Digest, hmac: (Bytes, Bytes) -> Digest)

  const TERMINAL: Bytes := Lit("aws4_request")

  datatype Scope = Scope(date: Bytes, region: Bytes, service: Bytes)

  /** The four-step SigV4 key derivation. */
  function DeriveKey(crypto: Primitives, seed: Bytes, s: Scope): Digest {
    var kDate := crypto.hmac(seed, s.date);
    var kRegion := crypto.hmac(kDate, s.region);
    var kService := crypto.hmac(kRegion, s.service);
    crypto.hmac(kService, TERMINAL)
  }

  /** The secret seed: `AWS4` followed by the secret key. */
  function SecretSeed(secret: Bytes): Bytes { Lit("AWS4") + secret }

  // ---------- hex digests ----------

  function HexOf(d: Bytes): (s: Bytes)
    ensures |s| == 2 * |d|
  {
    if d == [] then [] else [HexLower(d[0] / 16), HexLower(d[0] % 16)] + HexOf(d[1..])
  }

  method AppendHexLower(out: Bytes, bytes: Bytes) returns (r: Bytes)
    ensures r == out + HexOf(bytes)
  {
    r := out;
    assert bytes[0..] == bytes;
    for i := 0 to |bytes|
      invariant r + HexOf(bytes[i..]) == out + HexOf(bytes)
    {
      ghost var tail := HexOf(bytes[i + 1..]);
      assert bytes[i..][1..] == bytes[i + 1..];
      r := r + [HexLower(bytes[i] / 16)];
      r := r + [HexLower(bytes[i] % 16)];
    }
    assert r + HexOf(bytes[|bytes|..]) == r;
  }

  lemma {:induction false} HexOfAt(d: Bytes, i: nat)
    requires i < |d|
    ensures HexOf(d)[2 * i] == HexLower(d[i] / 16) && HexOf(d)[2 * i + 1] == HexLower(d[i] % 16)
  {
    if i > 0 { HexOfAt(d[1..], i - 1); }
  }

  predicate AllHex(s: Bytes) { forall i :: 0 <= i < |s| ==> IsHex(s[i]) }

  function HexPair(s: Bytes, i: nat): byte
    requires 2 * i + 1 < |s| && AllHex(s)
  {
    FromHex(s[2 * i]) * 16 + FromHex(s[2 * i + 1])
  }

  /** The digest a 64-digit hex string spells, in either letter case. */
  function DecodedSignature(value: Bytes): Option<Digest> {
    if |value| == 64 && AllHex(value) then Some(seq(32, i requires 0 <= i < 32 => HexPair(value, i))) else None
  }

  method DecodeSignature(value: Bytes) returns (r: Option<Digest>)
    ensures r == DecodedSignature(value)
  {
    if |value| != DIGEST_LENGTH * 2 {
      return None;
    }
    var out := new byte[32](_ => 0);
    for idx := 0 to DIGEST_LENGTH
      invariant forall i :: 0 <= i < 2 * idx ==> IsHex(value[i])
      invariant forall i :: 0 <= i < idx ==> out[i] == FromHex(value[2 * i]) * 16 + FromHex(value[2 * i + 1])
    {
      var hi := value[idx * 2];
      var lo := value[idx * 2 + 1];
      if !IsHex(hi) || !IsHex(lo) {
        return None;
      }
      out[idx] := FromHex(hi) * 16 + FromHex(lo);
    }
    assert out[..] == DecodedSignature(value).value;
    return Some(out[..]);
  }

  /** A signature is accepted exactly when, letter case aside, it is the lower-case hex of the digest. */
  lemma SignatureSpellsDigest(value: Bytes, d: Digest)
    ensures DecodedSignature(value) == Some(d) <==> AllHex(value) && Lower(value) == HexOf(d)
  {
    if |value| == 64 && AllHex(value) {
      forall i | 0 <= i < 32
        ensures HexPair(value, i) == d[i]
           <==> Lower(value)[2 * i] == HexOf(d)[2 * i] && Lower(value)[2 * i + 1] == HexOf(d)[2 * i + 1]
      {
        HexOfAt(d, i);
        HexDigitLower(value[2 * i]);
        HexDigitLower(value[2 * i + 1]);
      }
      if DecodedSignature(value) == Some(d) {
        forall j | 0 <= j < 64
          ensures Lower(value)[j] == HexOf(d)[j]
        {
          assert HexPair(value, j / 2) == d[j / 2];
        }
      }
      if Lower(value) == HexOf(d) {
        assert DecodedSignature(value).value == d;
      }
    }
  }

  lemma HexDigitLower(c: byte)
    requires IsHex(c)
    ensures ToLower(c) == HexLower(FromHex(c))
  {
  }

  lemma {:induction false} HexOfIsHex(d: Bytes)
    ensures AllHex(HexOf(d)) && Lower(HexOf(d)) == HexOf(d) && IsAscii(HexOf(d))
    ensures forall i :: 0 <= i < |HexOf(d)| ==> IsUnreserved(HexOf(d)[i])
  {
    if d == [] {
    } else {
      HexOfIsHex(d[1..]);
    }
  }

  lemma DecodeHexOf(d: Digest)
    ensures DecodedSignature(HexOf(d)) == Some(d)
  {
    HexOfIsHex(d);
    SignatureSpellsDigest(HexOf(d), d);
  }

  lemma {:induction false} HexOfInjective(d: Bytes, e: Bytes)
    requires HexOf(d) == HexOf(e)
    ensures d == e
  {
    assert |d| == |e|;
    forall i | 0 <= i < |d|
      ensures d[i] == e[i]
    {
      HexOfAt(d, i);
      HexOfAt(e, i);
      HexLowerInjective(d[i] / 16, e[i] / 16);
      HexLowerInjective(d[i] % 16, e[i] % 16);
    }
  }

  lemma HexLowerInjective(m: nat, n: nat)
    requires m < 16 && n < 16 && HexLower(m) == HexLower(n)
    ensures m == n
  {
  }
}
