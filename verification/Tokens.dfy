/** internal/webauthn/token.go: stateless challenge tokens, with AES-GCM as an ideal
    cipher that opens exactly what it has sealed. Time is in nanoseconds. */
module Tokens {
  import opened Bytes

  const SECOND := 1_000_000_000

  /** `time.Unix`: whole seconds, rounded down. */
  function Unix(now: int): int {
    now / SECOND
  }

  datatype ChallengeToken = ChallengeToken(iat: int, clientId: string, ctx: string, challenge: string)

  /** Every ciphertext sealed so far, with its plaintext. */
  type Sealed = map<seq<byte>, ChallengeToken>

  function Open(sealed: Sealed, data: seq<byte>, ttl: int, now: int): Option<ChallengeToken> {
    if data in sealed && now - sealed[data].iat * SECOND <= ttl then Some(sealed[data]) else None
  }

  class TokenEncryptor {
    var sealed: Sealed
    const ttl: int

    constructor (ttl: int)
      ensures sealed == map[] && this.ttl == if ttl == 0 then 60 * SECOND else ttl
    {
      sealed := map[];
      this.ttl := if ttl == 0 then 60 * SECOND else ttl;
    }

    method Encrypt(token: ChallengeToken, ciphertext: seq<byte>)
      modifies this
      ensures sealed == old(sealed)[ciphertext := token]
    {
      sealed := sealed[ciphertext := token];
    }

    method Decrypt(data: seq<byte>, now: int) returns (token: Option<ChallengeToken>)
      ensures token == Open(sealed, data, ttl, now)
    {
      if data !in sealed {
        return None;
      }
      var elapsed := now - sealed[data].iat * SECOND;
      if elapsed > ttl {
        return None;
      }
      return Some(sealed[data]);
    }
  }
}
