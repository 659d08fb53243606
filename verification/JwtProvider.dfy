/**
 The SDK's token provider. JSON and HMAC-SHA256 are outside: a codec gives the JSON text of a claims map and of a
 signature, and reads a claims map back.
 */
module JwtProvider {
  import opened Basics
  import opened Base64Url

  /** A JSON value: an integer, a text, or anything else. */
  datatype Value = Number(n: int) | Text(text: string) | Opaque(json: string)

  type Claims = map<string, Value>

  /** A claim as the program holds it: a type assertion tells an int64 from an int, JSON does not. */
  datatype GoValue = Int64(n: int) | Int(n: int) | Other(value: Value)

  function AsJson(v: GoValue): Value {
    match v
    case Int64(n) => Number(n)
    case Int(n) => Number(n)
    case Other(value) => value
  }

  type GoClaims = map<string, GoValue>

  function Marshalled(claims: GoClaims): Claims {
    map name | name in claims :: AsJson(claims[name])
  }

  datatype Codec = Codec(
    marshal: Claims -> seq<Byte>,
    unmarshal: seq<Byte> -> Option<Claims>,
    hmac: (string, string) -> seq<Byte>)

  datatype Error = NoSecret | BadFormat | BadSignature | BadPayload | Expired | TypeAssertionPanic

  const HEADER: Claims := map["alg" := Text("HS256"), "typ" := Text("JWT")]

  /** Extra claims override the standard ones. */
  function ClaimsFor(userId: string, expiryHours: int, extra: GoClaims, now: int): (claims: GoClaims)
    ensures "exp" in claims && (claims["exp"] == Int64(now + expiryHours * 3600) || "exp" in extra)
  {
    map["sub" := Other(Text(userId)), "exp" := Int64(now + expiryHours * 3600), "iat" := Int64(now)] + extra
  }

  function Sign(codec: Codec, secret: string, data: string): string {
    EncodeUnpadded(codec.hmac(secret, data))
  }

  function TokenOf(codec: Codec, secret: string, claims: Claims): string {
    var signed := EncodeUnpadded(codec.marshal(HEADER)) + "." + EncodeUnpadded(codec.marshal(claims));
    signed + "." + Sign(codec, secret, signed)
  }

  /** The instant is in whole seconds. */
  function Validate(codec: Codec, secret: string, token: string, now: int): Result<Claims, Error> {
    if secret == "" then Err(NoSecret)
    else
      var parts := Split(token, '.');
      if |parts| != 3 then Err(BadFormat)
      else if parts[2] != Sign(codec, secret, parts[0] + "." + parts[1]) then Err(BadSignature)
      else
        var payload := DecodePadded(parts[1]);
        if payload.Err? || codec.unmarshal(payload.value).None? then Err(BadPayload)
        else
          var claims := codec.unmarshal(payload.value).value;
          if "exp" in claims && claims["exp"].Number? && now > claims["exp"].n then Err(Expired) else Ok(claims)
  }

  class AuthProvider {
    const codec: Codec
    const jwtSecret: string
    var tokenCache: string
    var tokenExpiry: Option<int>
    ghost var cachedClaims: Claims

    constructor (codec: Codec, jwtSecret: string)
      ensures this.codec == codec && this.jwtSecret == jwtSecret && tokenCache == "" && Valid() && InStep()
    {
      this.codec, this.jwtSecret := codec, jwtSecret;
      tokenCache, tokenExpiry, cachedClaims := "", None, map[];
    }

    /** What is cached is a token of this provider. */
    ghost predicate Valid()
      reads this
    {
      tokenCache != "" ==> jwtSecret != "" && tokenCache == TokenOf(codec, jwtSecret, cachedClaims)
    }

    /** The recorded expiry is the cached token's own. */
    ghost predicate InStep()
      reads this
    {
      tokenCache != "" && tokenExpiry.Some? ==> "exp" in cachedClaims && cachedClaims["exp"] == Number(tokenExpiry.value)
    }

    /** The token is cached before its expiry is read from the claims, and that read panics when an extra claim has
        replaced exp by something other than an int64: then the new token stands with the old expiry. */
    method GenerateJWTToken(userId: string, expiryHours: int, extra: GoClaims, now: int) returns (r: Result<string, Error>)
      requires Valid()
      modifies this
      ensures Valid()
      ensures var claims := ClaimsFor(userId, expiryHours, extra, now);
              var token := TokenOf(codec, jwtSecret, Marshalled(claims));
              if jwtSecret == "" then
                r == Err(NoSecret) && tokenCache == old(tokenCache) && tokenExpiry == old(tokenExpiry)
                && cachedClaims == old(cachedClaims)
              else
                && tokenCache == token && cachedClaims == Marshalled(claims)
                && if claims["exp"].Int64? then r == Ok(token) && tokenExpiry == Some(claims["exp"].n) && InStep()
                   else r == Err(TypeAssertionPanic) && tokenExpiry == old(tokenExpiry)
      ensures r.Ok? ==> forall at: nat ::
                Bearer(at) == if at < ClaimsFor(userId, expiryHours, extra, now)["exp"].n * 1_000_000_000 then Some(r.value) else None
    {
      if jwtSecret == "" {
        return Err(NoSecret);
      }
      var claims := ClaimsFor(userId, expiryHours, extra, now);
      var header := EncodeUnpadded(codec.marshal(HEADER));
      var payload := EncodeUnpadded(codec.marshal(Marshalled(claims)));
      var token := header + "." + payload + "." + Sign(codec, jwtSecret, header + "." + payload);
      tokenCache, cachedClaims := token, Marshalled(claims);
      if !claims["exp"].Int64? {
        return Err(TypeAssertionPanic);
      }
      tokenExpiry := Some(claims["exp"].n);
      assert tokenCache != "";
      return Ok(token);
    }

    method ClearTokenCache()
      modifies this
      ensures tokenCache == "" && tokenExpiry == None && Valid() && InStep()
    {
      tokenCache, tokenExpiry := "", None;
    }

    /** The bearer token that GetHeaders sends, at an instant in nanoseconds. */
    function Bearer(at: nat): Option<string>
      reads this
    {
      if tokenCache != "" && tokenExpiry.Some? && at < tokenExpiry.value * NS then Some(tokenCache) else None
    }
  }

  // ---- The round trip -------------------------------------------------------------------------------

  lemma TokenSplits(codec: Codec, secret: string, claims: Claims)
    ensures var header := EncodeRaw(codec.marshal(map["alg" := Text("HS256"), "typ" := Text("JWT")]));
            var payload := EncodeRaw(codec.marshal(claims));
            Split(TokenOf(codec, secret, claims), '.')
            == [header, payload, EncodeRaw(codec.hmac(secret, header + "." + payload))]
  {
    var header, payload := EncodeUnpadded(codec.marshal(HEADER)), EncodeUnpadded(codec.marshal(claims));
    var signature := Sign(codec, secret, header + "." + payload);
    UnpaddedRoundTrip(codec.marshal(HEADER));
    UnpaddedRoundTrip(codec.marshal(claims));
    UnpaddedRoundTrip(codec.hmac(secret, header + "." + payload));
    SplitThree(header, payload, signature, '.');
  }

  predicate NoDot(s: string) {
    '.' !in s
  }

  /** What is asked of the payload of a properly signed token. */
  function ReadPayload(codec: Codec, encoded: string, now: int): Result<Claims, Error> {
    var payload := DecodePadded(encoded);
    if payload.Err? || codec.unmarshal(payload.value).None? then Err(BadPayload)
    else
      var claims := codec.unmarshal(payload.value).value;
      if "exp" in claims && claims["exp"].Number? && claims["exp"].n < now then Err(Expired) else Ok(claims)
  }

  /** A text of three parts is refused for a bad signature exactly unless the third part is the unpadded base64url of the
      keyed hash of the first two, under this secret; only then is the payload looked at. */
  lemma ValidatesOnlySigned(codec: Codec, secret: string, a: string, b: string, c: string, now: int)
    requires secret != "" && NoDot(a) && NoDot(b) && NoDot(c)
    ensures var answer := Validate(codec, secret, a + "." + b + "." + c, now);
            && (answer == Err(BadSignature) <==> c != EncodeRaw(codec.hmac(secret, a + "." + b)))
            && (answer != Err(BadSignature) ==> answer == ReadPayload(codec, b, now))
  {
    SplitThree(a, b, c, '.');
    UnpaddedRoundTrip(codec.hmac(secret, a + "." + b));
  }

  /** What does not have three parts is refused for its format; and nothing is accepted without a secret. */
  lemma ValidatesOnlyThreeParts(codec: Codec, secret: string, token: string, now: int)
    ensures secret == "" ==> Validate(codec, secret, token, now) == Err(NoSecret)
    ensures secret != "" ==>
              (Validate(codec, secret, token, now) == Err(BadFormat) <==>
               !exists a, b, c :: NoDot(a) && NoDot(b) && NoDot(c) && token == a + "." + b + "." + c)
  {
    if secret != "" {
      var parts := Split(token, '.');
      JoinSplit(token, '.');
      if |parts| == 3 {
        JoinOfThree(parts);
        assert NoDot(parts[0]) && NoDot(parts[1]) && NoDot(parts[2]);
      }
      forall a, b, c | NoDot(a) && NoDot(b) && NoDot(c) && token == a + "." + b + "." + c ensures |parts| == 3 {
        SplitThree(a, b, c, '.');
      }
    }
  }

  lemma JoinOfThree(parts: seq<string>)
    requires |parts| == 3
    ensures Join(parts, '.') == parts[0] + "." + parts[1] + "." + parts[2]
  {
    assert parts[1..][1..] == [parts[2]];
    assert Join(parts[1..], '.') == parts[1] + "." + parts[2];
  }

  /** The signature of three parts under the secret. */
  ghost predicate SignedParts(codec: Codec, secret: string, token: string, a: string, b: string, c: string) {
    NoDot(a) && NoDot(b) && NoDot(c) && token == a + "." + b + "." + c && c == EncodeRaw(codec.hmac(secret, a + "." + b))
  }

  /** A token is accepted exactly if there is a secret, the token is signed with it, and its payload decodes to claims that
      have not expired, which are the answer. */
  lemma AcceptsExactlySigned(codec: Codec, secret: string, token: string, claims: Claims, now: int)
    ensures Validate(codec, secret, token, now) == Ok(claims) <==>
            secret != "" && exists a, b, c :: SignedParts(codec, secret, token, a, b, c) && ReadPayload(codec, b, now) == Ok(claims)
  {
    if secret != "" {
      ValidatesOnlyThreeParts(codec, secret, token, now);
      forall a, b, c | NoDot(a) && NoDot(b) && NoDot(c) && token == a + "." + b + "." + c
        ensures Validate(codec, secret, token, now) == Ok(claims) <==>
                SignedParts(codec, secret, token, a, b, c) && ReadPayload(codec, b, now) == Ok(claims)
      {
        ValidatesOnlySigned(codec, secret, a, b, c, now);
      }
    }
  }

  /** The claims asked for, where no extra claim overrides them, and every extra claim. */
  lemma ClaimsSay(userId: string, hours: int, extra: GoClaims, now: int)
    ensures var claims := Marshalled(ClaimsFor(userId, hours, extra, now));
            && ("sub" !in extra ==> "sub" in claims && claims["sub"] == Text(userId))
            && ("exp" !in extra ==> "exp" in claims && claims["exp"] == Number(now + 3600 * hours))
            && ("iat" !in extra ==> "iat" in claims && claims["iat"] == Number(now))
            && (forall name :: name in extra ==> name in claims && claims[name] == AsJson(extra[name]))
            && forall name :: name in claims ==> name in extra || name in {"sub", "exp", "iat"}
  {}

  /** A provider's own token validates to the very claims it was made from up to and including the second its exp names,
      and from then on is refused as expired; if exp is no integer it never expires. */
  lemma OwnTokenValidates(codec: Codec, secret: string, claims: Claims, now: int)
    requires secret != "" && codec.unmarshal(codec.marshal(claims)) == Some(claims)
    ensures Validate(codec, secret, TokenOf(codec, secret, claims), now) ==
            if "exp" in claims && claims["exp"].Number? && now > claims["exp"].n then Err(Expired) else Ok(claims)
  {
    var header, payload := EncodeUnpadded(codec.marshal(HEADER)), EncodeUnpadded(codec.marshal(claims));
    UnpaddedRoundTrip(codec.marshal(HEADER));
    UnpaddedRoundTrip(codec.marshal(claims));
    UnpaddedRoundTrip(codec.hmac(secret, header + "." + payload));
    ValidatesOnlySigned(codec, secret, header, payload, Sign(codec, secret, header + "." + payload), now);
  }

  /** With extra claims that leave exp alone, a generated token is good for the hours asked for. */
  lemma GeneratedTokenLasts(codec: Codec, secret: string, userId: string, hours: int, extra: GoClaims, made: int, now: int)
    requires secret != "" && "exp" !in extra
    requires var claims := Marshalled(ClaimsFor(userId, hours, extra, made));
             codec.unmarshal(codec.marshal(claims)) == Some(claims)
    ensures var claims := Marshalled(ClaimsFor(userId, hours, extra, made));
            Validate(codec, secret, TokenOf(codec, secret, claims), now) == Ok(claims) <==> now - made <= hours * 3600
  {
    OwnTokenValidates(codec, secret, Marshalled(ClaimsFor(userId, hours, extra, made)), now);
  }

  /** A token that GetHeaders sends is one the same provider would accept at that moment, exactly unless its exp has
      passed; and it never has when the recorded expiry is the token's own, as it is unless generation panicked. */
  lemma SentTokensAreValid(p: AuthProvider, at: nat)
    requires p.Valid() && p.Bearer(at).Some?
    requires p.codec.unmarshal(p.codec.marshal(p.cachedClaims)) == Some(p.cachedClaims)
    ensures var claims := p.cachedClaims;
            Validate(p.codec, p.jwtSecret, p.Bearer(at).value, at / NS) == Ok(claims)
            <==> !("exp" in claims && claims["exp"].Number? && at / NS > claims["exp"].n)
    ensures p.InStep() ==> Validate(p.codec, p.jwtSecret, p.Bearer(at).value, at / NS) == Ok(p.cachedClaims)
  {
    OwnTokenValidates(p.codec, p.jwtSecret, p.cachedClaims, at / NS);
  }

  /** After a panic a token can be sent that the provider itself would refuse: an hour's token is cached in second 0, then
      one is asked for with an exp of 0 that is an int, and the headers of second 1 carry it. */
  method SendsExpiredToken(codec: Codec, secret: string) returns (p: AuthProvider)
    requires secret != ""
    requires var claims := Marshalled(ClaimsFor("", 1, map["exp" := Int(0)], 0));
             codec.unmarshal(codec.marshal(claims)) == Some(claims)
    ensures fresh(p) && p.Valid() && p.Bearer(NS).Some?
    ensures Validate(codec, secret, p.Bearer(NS).value, 1) == Err(Expired)
  {
    p := new AuthProvider(codec, secret);
    var first := p.GenerateJWTToken("", 1, map[], 0);
    var second := p.GenerateJWTToken("", 1, map["exp" := Int(0)], 0);
    TokenIsNotEmpty(codec, secret, p.cachedClaims);
    OwnTokenValidates(codec, secret, p.cachedClaims, 1);
  }

  lemma TokenIsNotEmpty(codec: Codec, secret: string, claims: Claims)
    ensures TokenOf(codec, secret, claims) != ""
  {}
}
