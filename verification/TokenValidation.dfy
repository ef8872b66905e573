// Validation of Azure AD access tokens: a tree of retries over a possibly stale
// signing-key client and two accepted issuers.  RS256 is abstract: a token
// verifies under exactly one key.
module TokenValidation {
  import opened Basics

  type Key = nat

  datatype Alg = RS256 | HS256 | OtherAlg

  datatype Claims = Claims(
    iss: Option<string>, aud: Option<string>, sub: Option<string>,
    exp: Option<int>, iat: Option<int>, nbf: Option<int>)

  // `wellFormed` is false when the header cannot be read.
  datatype Token = Token(wellFormed: bool, alg: Alg, kid: string, signer: Key, claims: Claims)

  // What a signing-key client answers for each key id; an absent id, like an
  // unreachable endpoint, is a client error.
  type KeySet = map<string, Key>

  datatype Settings = Settings(configured: bool, v1Issuer: string, v2Issuer: string, clientId: string)

  datatype Reason =
    | NotConfigured | Malformed | CustomJwt | NoSigningKey | BadAlgorithm | BadSignature
    | MissingClaim | NotYetValid | PastExpiry | BadIssuer | BadAudience | NoSubject

  datatype Result = Accepted(claims: Claims) | Rejected(reason: Reason)

  // ---------- jwt.decode ----------

  predicate HasRequired(c: Claims) {
    c.exp.Some? && c.iat.Some? && c.sub.Some? && c.aud.Some? && c.iss.Some?
  }

  // The checks in the library's order: signature first, issuer last.
  function JwtDecode(t: Token, key: Key, issuer: string, now: int): Result {
    var c := t.claims;
    if t.alg != RS256 then Rejected(BadAlgorithm)
    else if t.signer != key then Rejected(BadSignature)
    else if !HasRequired(c) then Rejected(MissingClaim)
    else if c.iat.value > now || (c.nbf.Some? && c.nbf.value > now) then Rejected(NotYetValid)
    else if c.exp.value <= now then Rejected(PastExpiry)
    else if c.iss != Some(issuer) then Rejected(BadIssuer)
    else Accepted(c)
  }

  // ---------- what a valid token is ----------

  function Audiences(s: Settings): set<string> {
    {s.clientId, "api://" + s.clientId, s.clientId + "/.default", "https://graph.microsoft.com"}
  }

  predicate GoodClaims(s: Settings, c: Claims, now: int) {
    && HasRequired(c)
    && c.iat.value <= now && (c.nbf.Some? ==> c.nbf.value <= now) && now < c.exp.value
    && (c.iss.value == s.v1Issuer || c.iss.value == s.v2Issuer)
    && c.aud.value in Audiences(s)
    && c.sub.value != ""
  }

  predicate Signs(keys: KeySet, t: Token) {
    t.kid in keys && keys[t.kid] == t.signer
  }

  // The key ladder: the current client, then a first and a second new one.  The
  // second is only made when the first was made for a missing key id.
  predicate KeyFound(client: KeySet, first: KeySet, second: KeySet, t: Token) {
    || Signs(client, t)
    || Signs(first, t)
    || (t.kid !in client && t.kid in first && Signs(second, t))
  }

  predicate Acceptable(s: Settings, client: KeySet, first: KeySet, second: KeySet, t: Token, now: int) {
    && s.configured && t.wellFormed && t.alg == RS256
    && KeyFound(client, first, second, t)
    && GoodClaims(s, t.claims, now)
  }

  // Three corollaries of what ValidateToken ensures.

  // Sound and complete whatever the cached keys were: with an endpoint that
  // serves one key set, a token is accepted exactly when its claims are good and
  // its signature verifies under a key that is served now or was still cached.
  lemma AcceptedIffServedOrCached(s: Settings, client: KeySet, served: KeySet, t: Token, now: int)
    ensures Acceptable(s, client, served, served, t, now)
            <==> && s.configured && t.wellFormed && t.alg == RS256 && GoodClaims(s, t.claims, now)
                 && (Signs(served, t) || Signs(client, t))
  {
  }

  // Every token that is valid under the served keys is accepted, however stale the cache.
  lemma StalenessNeverRejects(s: Settings, stale: KeySet, served: KeySet, t: Token, now: int)
    requires Acceptable(s, served, served, served, t, now)
    ensures Acceptable(s, stale, served, served, t, now)
  {
  }

  // A cached key that is no longer served still admits its tokens: the cache
  // makes a difference exactly for those.
  lemma CacheMattersIff(s: Settings, stale: KeySet, served: KeySet, t: Token, now: int)
    requires Acceptable(s, stale, served, served, t, now)
    ensures !Acceptable(s, served, served, served, t, now) <==> Signs(stale, t) && !Signs(served, t)
  {
  }

  // What it takes to be accepted, claim by claim.
  lemma AcceptableMeaning(s: Settings, client: KeySet, first: KeySet, second: KeySet, t: Token, now: int)
    ensures Acceptable(s, client, first, second, t, now) <==>
            && s.configured && t.wellFormed && t.alg == RS256
            && (|| (t.kid in client && client[t.kid] == t.signer)
                || (t.kid in first && first[t.kid] == t.signer)
                || (t.kid !in client && t.kid in first && t.kid in second && second[t.kid] == t.signer))
            && t.claims.iss in {Some(s.v1Issuer), Some(s.v2Issuer)}
            && (|| t.claims.aud == Some(s.clientId)
                || t.claims.aud == Some("api://" + s.clientId)
                || t.claims.aud == Some(s.clientId + "/.default")
                || t.claims.aud == Some("https://graph.microsoft.com"))
            && t.claims.sub.Some? && t.claims.sub.value != ""
            && t.claims.iat.Some? && t.claims.iat.value <= now
            && t.claims.exp.Some? && now < t.claims.exp.value
            && (t.claims.nbf.None? || t.claims.nbf.value <= now)
  {
  }

  // A token that any audience makes acceptable is acceptable for exactly four.
  lemma FourAudiences(s: Settings, client: KeySet, first: KeySet, second: KeySet, t: Token, now: int,
                      aud: Option<string>)
    requires Acceptable(s, client, first, second, t, now)
    ensures Acceptable(s, client, first, second, t.(claims := t.claims.(aud := aud)), now) <==>
            || aud == Some(s.clientId) || aud == Some("api://" + s.clientId) || aud == Some(s.clientId + "/.default")
            || aud == Some("https://graph.microsoft.com")
  {
  }

  // ---------- the service ----------

  class AzureADAuth {
    const settings: Settings
    var client: KeySet   // self.jwks_client
    var refreshes: nat   // new clients made so far

    constructor (settings: Settings, client: KeySet)
      ensures this.settings == settings && this.client == client && refreshes == 0
    {
      this.settings := settings;
      this.client := client;
      refreshes := 0;
    }

    method NewClient(served: nat -> KeySet)
      modifies this
      ensures client == served(old(refreshes)) && refreshes == old(refreshes) + 1
    {
      client := served(refreshes);
      refreshes := refreshes + 1;
    }

    // The key, its decoding under the v2 issuer, and what follows on failure.
    method DecodeWithRetries(t: Token, now: int, served: nat -> KeySet) returns (r: Result)
      modifies this
      ensures old(refreshes) <= refreshes <= old(refreshes) + 2
      ensures refreshes > old(refreshes) ==> client == served(refreshes - 1)
      ensures refreshes == old(refreshes) ==> client == old(client)
      ensures r.Accepted? <==>
                && t.alg == RS256
                && KeyFound(old(client), served(old(refreshes)), served(old(refreshes) + 1), t)
                && HasRequired(t.claims)
                && t.claims.iat.value <= now && (t.claims.nbf.Some? ==> t.claims.nbf.value <= now)
                && now < t.claims.exp.value
                && (t.claims.iss.value == settings.v1Issuer || t.claims.iss.value == settings.v2Issuer)
      ensures r.Accepted? ==> r.claims == t.claims
    {
      if t.kid !in client {
        NewClient(served);
        if t.kid !in client {
          return Rejected(NoSigningKey);
        }
      }
      var key := client[t.kid];
      r := JwtDecode(t, key, settings.v2Issuer, now);
      if r == Rejected(BadSignature) {
        NewClient(served);
        if t.kid !in client {
          return Rejected(NoSigningKey);
        }
        key := client[t.kid];
        r := JwtDecode(t, key, settings.v2Issuer, now);
        if r == Rejected(BadSignature) || r == Rejected(BadIssuer) {
          r := JwtDecode(t, key, settings.v1Issuer, now);
        }
      } else if r == Rejected(BadIssuer) {
        // The signature has verified under this key, so only the issuer can fail now.
        r := JwtDecode(t, key, settings.v1Issuer, now);
        if r == Rejected(BadIssuer) && t.claims.aud.value != "" {
          // The decoding meant for the error message checks the audience
          // against none at all, and that error is the one that surfaces.
          r := Rejected(BadAudience);
        }
      }
    }

    method ValidateToken(t: Token, now: int, served: nat -> KeySet) returns (r: Result)
      modifies this
      ensures r.Accepted? <==>
                Acceptable(settings, old(client), served(old(refreshes)), served(old(refreshes) + 1), t, now)
      ensures r.Accepted? ==> r.claims == t.claims
      ensures !settings.configured ==> r == Rejected(NotConfigured)
      ensures settings.configured && !t.wellFormed ==> r == Rejected(Malformed)
      ensures settings.configured && t.wellFormed && t.alg == HS256 ==> r == Rejected(CustomJwt)
      ensures r.Accepted? ==> t.claims.aud in {Some(settings.clientId), Some("api://" + settings.clientId),
                                               Some(settings.clientId + "/.default"),
                                               Some("https://graph.microsoft.com")}
      ensures old(refreshes) <= refreshes <= old(refreshes) + 2
      ensures refreshes > old(refreshes) ==> client == served(refreshes - 1)
      ensures refreshes == old(refreshes) ==> client == old(client)
    {
      if !settings.configured {
        return Rejected(NotConfigured);
      }
      if !t.wellFormed {
        return Rejected(Malformed);
      }
      if t.alg == HS256 {
        return Rejected(CustomJwt);
      }
      r := DecodeWithRetries(t, now, served);
      if r.Accepted? {
        if t.claims.aud.value !in Audiences(settings) {
          return Rejected(BadAudience);
        }
        if t.claims.sub.value == "" {
          return Rejected(NoSubject);
        }
      }
    }
  }
}
