/** The formats of desktop exchange codes, PKCE challenges and verifiers. */
module DesktopCodes {
  import opened Common
  import opened Base64

  /** The characters that section 4.1 of RFC 7636 allows in a verifier. */
  predicate IsUnreserved(c: char) {
    IsAlnum(c) || c == '-' || c == '.' || c == '_' || c == '~'
  }

  predicate OpaqueCode(s: string) {
    |s| == 64 && forall i :: 0 <= i < |s| ==> IsHex(s[i])
  }

  predicate Challenge(s: string) {
    |s| == 43 && forall i :: 0 <= i < |s| ==> InAlphabet(s[i], Url)
  }

  predicate Verifier(s: string) {
    43 <= |s| <= 128 && forall i :: 0 <= i < |s| ==> IsUnreserved(s[i])
  }

  // ----- The validators -----

  method IsValidOpaqueCode(raw: string) returns (ok: bool)
    ensures ok == OpaqueCode(raw)
    ensures ok <==> |raw| == 64 && forall i :: 0 <= i < |raw| ==> '0' <= raw[i] <= '9' || 'a' <= raw[i] <= 'f'
  {
    if |raw| != 64 {
      return false;
    }
    for i := 0 to |raw|
      invariant forall k :: 0 <= k < i ==> IsHex(raw[k])
    {
      var b := raw[i];
      var isDigit := '0' <= b <= '9';
      var isLowerHex := 'a' <= b <= 'f';
      if !isDigit && !isLowerHex {
        return false;
      }
    }
    return true;
  }

  method IsValidCodeChallenge(v: string) returns (ok: bool)
    ensures ok == Challenge(v)
    ensures ok <==> |v| == 43 && forall i :: 0 <= i < |v| ==>
              || 'A' <= v[i] <= 'Z' || 'a' <= v[i] <= 'z' || '0' <= v[i] <= '9' || v[i] == '-' || v[i] == '_'
  {
    if |v| != 43 {
      return false;
    }
    for i := 0 to |v|
      invariant forall k :: 0 <= k < i ==> InAlphabet(v[k], Url)
    {
      var b := v[i];
      var isAlphaNum := 'a' <= b <= 'z' || 'A' <= b <= 'Z' || '0' <= b <= '9';
      if !isAlphaNum && b != '-' && b != '_' {
        return false;
      }
    }
    return true;
  }

  method IsValidCodeVerifier(v: string) returns (ok: bool)
    ensures ok == Verifier(v)
    ensures ok <==> 43 <= |v| <= 128 && forall i :: 0 <= i < |v| ==>
              || 'A' <= v[i] <= 'Z' || 'a' <= v[i] <= 'z' || '0' <= v[i] <= '9'
              || v[i] == '-' || v[i] == '.' || v[i] == '_' || v[i] == '~'
  {
    if |v| < 43 || |v| > 128 {
      return false;
    }
    for i := 0 to |v|
      invariant forall k :: 0 <= k < i ==> IsUnreserved(v[k])
    {
      var b := v[i];
      var isAlphaNum := 'a' <= b <= 'z' || 'A' <= b <= 'Z' || '0' <= b <= '9';
      if !isAlphaNum && b != '-' && b != '.' && b != '_' && b != '~' {
        return false;
      }
    }
    return true;
  }

  // ----- The producers -----

  /** The S256 challenge of a verifier, given the hash of its characters. */
  function PkceS256(sha256: string -> Bytes, verifier: string): string {
    Encode(sha256(verifier), Url)
  }

  /** An opaque token made of random bytes. */
  function OpaqueToken(random: Bytes): string {
    Hex(random)
  }

  /** Opaque codes are exactly the tokens of 32 bytes: each is one token, and each token is accepted. */
  lemma OpaqueCodesAreTokens(s: string)
    ensures OpaqueCode(s) <==> exists b: Bytes :: |b| == 32 && OpaqueToken(b) == s
  {
    if OpaqueCode(s) {
      var b := HexIsOnto(s);
      assert |b| == 32 && OpaqueToken(b) == s;
    }
  }

  /** Every S256 challenge is accepted, and is recovered from its text. */
  lemma ChallengesAreAccepted(sha256: string -> Bytes, verifier: string)
    requires |sha256(verifier)| == 32
    ensures Challenge(PkceS256(sha256, verifier))
    ensures Decode(PkceS256(sha256, verifier), Url) == Some(sha256(verifier))
  {
    DecodeEncode(sha256(verifier), Url);
  }

  /** An accepted challenge that some 32-byte hash can match is one whose last two bits are zero. */
  predicate Matchable(challenge: string)
    requires Challenge(challenge)
  {
    Value(challenge[42], Url) % 4 == 0
  }

  lemma OnlyMatchableChallengesMatch(sha256: string -> Bytes, verifier: string, challenge: string)
    requires Challenge(challenge) && |sha256(verifier)| == 32
    requires PkceS256(sha256, verifier) == challenge
    ensures Matchable(challenge)
  {
    CanonicalChallenge(challenge, Url);
  }
}
