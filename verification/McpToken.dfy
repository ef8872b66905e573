// Minting a compact JWT that carries an OBO token, and getting it out again.
module McpToken {
  import opened Basics
  import opened Base64Url

  // ---------- compact serialization ----------

  // token.split('.')
  function Split(s: string): (parts: seq<string>)
    ensures |parts| >= 1
  {
    if s == "" then [""]
    else
      var rest := Split(s[1..]);
      if s[0] == '.' then [""] + rest else [[s[0]] + rest[0]] + rest[1..]
  }

  function Join(parts: seq<string>): string
    requires |parts| >= 1
  {
    if |parts| == 1 then parts[0] else parts[0] + "." + Join(parts[1..])
  }

  lemma {:induction false} SplitPlain(s: string)
    requires Plain(s)
    ensures Split(s) == [s]
  {
    if s != "" {
      SplitPlain(s[1..]);
      assert [s[0]] + s[1..] == s;
      assert [s] + [] == [s];
    }
  }

  lemma {:induction false} SplitAtDot(s: string, rest: string)
    requires Plain(s)
    ensures Split(s + "." + rest) == [s] + Split(rest)
  {
    var all := s + "." + rest;
    if s == "" {
      assert all[1..] == rest;
    } else {
      assert all[1..] == s[1..] + "." + rest;
      SplitAtDot(s[1..], rest);
      assert [s[0]] + s[1..] == s;
      assert ([s[1..]] + Split(rest))[1..] == Split(rest);
    }
  }

  // ---------- claims ----------

  // Absent text claims are "".
  datatype UserClaims = UserClaims(
    sub: string, oid: string, appid: string,
    preferredUsername: string, upn: string, email: string, uniqueName: string,
    exp: Option<int>, iat: Option<int>)

  datatype McpClaims = McpClaims(sub: string, email: string, exp: int, iat: int, iss: string,
                                 mcpToken: string, ariaToken: string)

  // JSON and HS256 are abstract: `dumps` and `loads` convert a payload, `sign`
  // is the signature under the configured secret.
  datatype Codec = Codec(
    header: seq<Byte>, dumps: McpClaims -> seq<Byte>, loads: seq<Byte> -> Option<McpClaims>, sign: string -> seq<Byte>)

  ghost predicate Lawful(c: Codec) {
    forall claims :: c.loads(c.dumps(claims)) == Some(claims)
  }

  const HOUR := 3600
  const MAX_LIFE := 43200

  function FirstOf(a: string, b: string): string {
    if a != "" then a else b
  }

  // A missing or zero expiry claim means one hour; the rest is capped at 12 hours.
  function MintedExpiry(user: UserClaims, now: int): int {
    if user.exp.None? || user.exp.value == 0 then now + HOUR
    else if user.exp.value < now + MAX_LIFE then user.exp.value
    else now + MAX_LIFE
  }

  function MintedClaims(user: UserClaims, obo: string, aria: string, now: int): McpClaims {
    McpClaims(
      FirstOf(user.sub, FirstOf(user.oid, user.appid)),
      FirstOf(user.preferredUsername,
              FirstOf(user.upn, FirstOf(user.email, FirstOf(user.uniqueName, "unknown@example.com")))),
      MintedExpiry(user, now),
      if user.iat.Some? && user.iat.value != 0 then user.iat.value else now,
      "aldar-middleware", obo, aria)
  }

  function SignedPart(c: Codec, claims: McpClaims): string {
    Encode(c.header) + "." + Encode(c.dumps(claims))
  }

  function JwtEncode(c: Codec, claims: McpClaims): string {
    SignedPart(c, claims) + "." + Encode(c.sign(SignedPart(c, claims)))
  }

  function CreateMcpToken(c: Codec, user: UserClaims, obo: string, aria: string, now: int): string {
    JwtEncode(c, MintedClaims(user, obo, aria, now))
  }

  // ---------- decoding ----------

  function Loads(c: Codec, bytes: Option<seq<Byte>>): Option<McpClaims> {
    if bytes.Some? then c.loads(bytes.value) else None
  }

  // decode_token_without_verification; None stands for the empty dictionary.
  function DecodeUnverified(c: Codec, token: string): Option<McpClaims> {
    var parts := Split(token);
    if |parts| != 3 then None else Loads(c, Decode(parts[1] + CodePadding(parts[1])))
  }

  datatype Verdict = Verified(claims: McpClaims) | Expired | Invalid

  // jwt.decode with the configured secret: the payload is everything between
  // the first and the last dot.
  function Verify(c: Codec, token: string, now: int): Verdict {
    var parts := Split(token);
    if |parts| < 3 then Invalid
    else
      var n := |parts|;
      var payload := Join(parts[1..n - 1]);
      var signature := Decode(parts[n - 1] + LibraryPadding(parts[n - 1]));
      var claims := Loads(c, Decode(payload + LibraryPadding(payload)));
      if signature.None? || claims.None? || signature.value != c.sign(Join(parts[..n - 1])) then Invalid
      else if claims.value.iat > now then Invalid
      else if claims.value.exp <= now then Expired
      else if claims.value.sub == "" then Invalid
      else Verified(claims.value)
  }

  datatype Extraction = Extracted(token: string) | Missing

  // A verification that fails for whatever reason falls back to the unverified payload.
  function ExtractObo(c: Codec, token: string, verifySignature: bool, now: int): Extraction {
    var verdict := Verify(c, token, now);
    var claims := if verifySignature && verdict.Verified? then Some(verdict.claims) else DecodeUnverified(c, token);
    if claims.None? || claims.value.mcpToken == "" then Missing else Extracted(claims.value.mcpToken)
  }

  // ---------- what is minted can be read back ----------

  lemma MintedTokenSplits(c: Codec, claims: McpClaims)
    ensures Split(JwtEncode(c, claims)) ==
            [Encode(c.header), Encode(c.dumps(claims)), Encode(c.sign(SignedPart(c, claims)))]
  {
    var h, p, s := Encode(c.header), Encode(c.dumps(claims)), Encode(c.sign(SignedPart(c, claims)));
    EncodeIsPlain(c.header);
    EncodeIsPlain(c.dumps(claims));
    EncodeIsPlain(c.sign(SignedPart(c, claims)));
    assert JwtEncode(c, claims) == h + "." + (p + "." + s);
    SplitAtDot(h, p + "." + s);
    SplitAtDot(p, s);
    SplitPlain(s);
  }

  lemma DecodeInvertsEncode(c: Codec, claims: McpClaims)
    requires Lawful(c)
    ensures DecodeUnverified(c, JwtEncode(c, claims)) == Some(claims)
  {
    MintedTokenSplits(c, claims);
    PaddingInvertsEncode(c.dumps(claims));
  }

  // The signature of a minted token verifies between its issue and its expiry;
  // the library refuses a null subject after these.
  lemma VerifyAcceptsMinted(c: Codec, claims: McpClaims, now: int)
    requires Lawful(c)
    ensures Verify(c, JwtEncode(c, claims), now) ==
            if claims.iat > now then Invalid
            else if claims.exp <= now then Expired
            else if claims.sub == "" then Invalid
            else Verified(claims)
  {
    MintedTokenSplits(c, claims);
    PaddingInvertsEncode(c.dumps(claims));
    PaddingInvertsEncode(c.sign(SignedPart(c, claims)));
    var parts := Split(JwtEncode(c, claims));
    assert parts[1..2] == [parts[1]];
    assert parts[..2][1..] == [parts[1]];
    assert Join(parts[..2]) == SignedPart(c, claims);
  }

  // Verification decides only where the claims are read, never what they are.
  lemma VerifiedClaimsAreThePayload(c: Codec, token: string, now: int)
    requires |Split(token)| == 3 && Verify(c, token, now).Verified?
    ensures DecodeUnverified(c, token) == Some(Verify(c, token, now).claims)
  {
    var parts := Split(token);
    assert parts[1..2] == [parts[1]];
    CodePaddingExtendsLibrary(parts[1]);
  }

  // On three-part tokens the switch, the clock and the secret make no difference.
  lemma ExtractionIgnoresVerification(c: Codec, token: string, verifySignature: bool, now: int)
    requires |Split(token)| == 3
    ensures ExtractObo(c, token, verifySignature, now) == ExtractObo(c, token, false, 0)
  {
    if Verify(c, token, now).Verified? {
      VerifiedClaimsAreThePayload(c, token, now);
    }
  }

  // What create_mcp_token embeds is what comes out, with verification on or off,
  // before or after expiry, exactly when it is not empty; even a reader with
  // another secret gets it.
  lemma MintedOboTokenComesBack(c: Codec, reader: Codec, user: UserClaims, obo: string, aria: string,
                                minted: int, verifySignature: bool, now: int)
    requires Lawful(c) && reader.loads == c.loads
    ensures ExtractObo(reader, CreateMcpToken(c, user, obo, aria, minted), verifySignature, now) ==
            if obo == "" then Missing else Extracted(obo)
  {
    var token := CreateMcpToken(c, user, obo, aria, minted);
    var claims := MintedClaims(user, obo, aria, minted);
    MintedTokenSplits(c, claims);
    ExtractionIgnoresVerification(reader, token, verifySignature, now);
    DecodeInvertsEncode(c, claims);
    assert DecodeUnverified(reader, token) == DecodeUnverified(c, token);
  }

  // The claims that a minted token carries, read back from its text.
  lemma MintedClaimsComeBack(c: Codec, user: UserClaims, obo: string, aria: string, now: int)
    requires Lawful(c)
    ensures var r := DecodeUnverified(c, CreateMcpToken(c, user, obo, aria, now));
            && r.Some?
            && var claims := r.value;
            && (user.sub != "" ==> claims.sub == user.sub)
            && (user.sub == "" && user.oid != "" ==> claims.sub == user.oid)
            && (user.sub == "" && user.oid == "" ==> claims.sub == user.appid)
            && (user.preferredUsername != "" ==> claims.email == user.preferredUsername)
            && (user.preferredUsername == "" && user.upn != "" ==> claims.email == user.upn)
            && (user.preferredUsername == user.upn == "" && user.email != "" ==> claims.email == user.email)
            && (user.preferredUsername == user.upn == user.email == "" ==>
                  claims.email == if user.uniqueName != "" then user.uniqueName else "unknown@example.com")
            && (user.iat == None || user.iat.value == 0 ==> claims.iat == now)
            && (user.iat != None && user.iat.value != 0 ==> claims.iat == user.iat.value)
            && (user.exp == None || user.exp.value == 0 ==> claims.exp == now + 3600)
            && (user.exp != None && user.exp.value != 0 ==>
                  && claims.exp <= user.exp.value && claims.exp <= now + 43200
                  && (claims.exp == user.exp.value || claims.exp == now + 43200))
            && claims.iss == "aldar-middleware" && claims.mcpToken == obo && claims.ariaToken == aria
  {
    DecodeInvertsEncode(c, MintedClaims(user, obo, aria, now));
  }

  // A corollary of how the claims are minted: a token never outlives 12 hours, nor the user token it was made from,
  // when that states an expiry.
  lemma MintedTokenLifetime(user: UserClaims, obo: string, aria: string, now: int)
    ensures var exp := MintedClaims(user, obo, aria, now).exp;
            && exp <= now + MAX_LIFE
            && (user.exp.Some? && user.exp.value != 0 ==>
                  exp <= user.exp.value && (exp == user.exp.value <==> user.exp.value <= now + MAX_LIFE))
  {
  }
}
