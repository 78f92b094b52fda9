/** app/tokens/tokens.py: the opaque refresh token and the access-token claim
    set. Neither function touches storage: the clock reading, the random bytes
    and the signing key are their only inputs besides the arguments. */
module Tokens {
  import opened Common
  import opened Uuid

  /** The signing algorithm passed to jwt.encode. */
  const Hs256: string := "HS256"

  /** A claim value as jwt.encode serialises it: iat and exp are NumericDate
      values, whole seconds since the epoch. */
  datatype ClaimValue = IntClaim(i: int) | BoolClaim(b: bool) | SecondsClaim(seconds: int)

  type Claims = map<string, ClaimValue>

  /** The string jwt.encode(payload=..., key=..., algorithm=...) returns. The
      JWS serialisation and the HMAC are not modelled: a token is identified
      with the arguments it was signed from. */
  datatype AccessToken = Encoded(payload: Claims, key: string, algorithm: string)

  /** The typed reading of an access-token claim set; the times are in
      whole seconds. */
  datatype AccessClaims = AccessClaims(id: int, isSuperuser: bool, issuedAt: int, expiresAt: int)

  const MicrosPerSecond: int := 1000000

  /** What jwt.encode writes for a datetime claim: timegm(dt.utctimetuple()),
      which drops the microseconds, so the instant is floored to its second. */
  function NumericDate(t: Instant): int {
    t / MicrosPerSecond
  }

  const ClaimNames: set<string> := {"id", "is_superuser", "iat", "exp"}

  /** Reads a claim set that has exactly the four access-token claims, each of
      the expected kind; anything else is unreadable. */
  function ReadClaims(payload: Claims): Option<AccessClaims>
  {
    if payload.Keys == ClaimNames
       && payload["id"].IntClaim? && payload["is_superuser"].BoolClaim?
       && payload["iat"].SecondsClaim? && payload["exp"].SecondsClaim?
    then Some(AccessClaims(payload["id"].i, payload["is_superuser"].b, payload["iat"].seconds, payload["exp"].seconds))
    else None
  }

  /** create_refresh_token: str(uuid4()). `random` is the 16 bytes uuid4 draws. */
  function CreateRefreshToken(random: seq<Byte>): string
    requires |random| == 16
  {
    Canonical(Uuid4(random))
  }

  /** A refresh token is a canonical version-4, RFC 4122-variant UUID string
      that reads back as the UUID it was made from. */
  lemma RefreshTokenFormat(random: seq<Byte>)
    requires |random| == 16
    ensures var token := CreateRefreshToken(random);
      && |token| == 36
      && token[8] == '-' && token[13] == '-' && token[18] == '-' && token[23] == '-'
      && token[14] == '4' && token[19] in "89ab"
      && (forall k :: 0 <= k < 36 && k != 8 && k != 13 && k != 18 && k != 23 ==> IsLowerHex(token[k]))
      && ParseCanonical(token) == Some(Uuid4(random))
  {
    Uuid4Digits(random);
    CanonicalIsLowerHex(Uuid4(random));
    CanonicalRoundTrip(Uuid4(random));
  }

  /** create_access_token: one clock reading `timeNow` gives both iat and
      exp, each written by jwt.encode as a whole number of seconds. */
  function CreateAccessToken(userId: int, isSuperuser: bool, timeNow: Instant, secretKey: string): AccessToken {
    var payload := map[
      "id" := IntClaim(userId),
      "is_superuser" := BoolClaim(isSuperuser),
      "iat" := SecondsClaim(NumericDate(timeNow)),
      "exp" := SecondsClaim(NumericDate(timeNow + FifteenMinutes))
    ];
    Encoded(payload, secretKey, Hs256)
  }

  /** The payload has exactly the four claims; read back they give the
      user's id and role, the second of issue, and an expiry 900 seconds later.
      The token is signed with the secret key under HS256. */
  lemma AccessTokenClaims(userId: int, isSuperuser: bool, timeNow: Instant, secretKey: string)
    ensures var token := CreateAccessToken(userId, isSuperuser, timeNow, secretKey);
      && token.payload.Keys == ClaimNames
      && ReadClaims(token.payload) == Some(AccessClaims(userId, isSuperuser, NumericDate(timeNow), NumericDate(timeNow) + 900))
      && token.key == secretKey && token.algorithm == Hs256
  {
    var payload := CreateAccessToken(userId, isSuperuser, timeNow, secretKey).payload;
    assert "id" in payload && "is_superuser" in payload && "iat" in payload && "exp" in payload;
    NumericDateShift(timeNow);
  }

  /** Fifteen minutes later is exactly 900 seconds later, whatever the
      microseconds. */
  lemma NumericDateShift(t: Instant)
    ensures NumericDate(t + FifteenMinutes) == NumericDate(t) + 900
  {
    assert t + FifteenMinutes == (t / MicrosPerSecond + 900) * MicrosPerSecond + t % MicrosPerSecond;
  }

  /** Two tokens under one key are equal exactly when they were built for
      the same user id and role within the same second: the token does not
      tell apart clock readings that differ only in their microseconds. */
  lemma AccessTokenDeterminesClaims(u1: int, s1: bool, n1: Instant, u2: int, s2: bool, n2: Instant, key: string)
    ensures CreateAccessToken(u1, s1, n1, key) == CreateAccessToken(u2, s2, n2, key) <==>
      u1 == u2 && s1 == s2 && NumericDate(n1) == NumericDate(n2)
  {
    AccessTokenClaims(u1, s1, n1, key);
    AccessTokenClaims(u2, s2, n2, key);
    NumericDateShift(n1);
    NumericDateShift(n2);
    if CreateAccessToken(u1, s1, n1, key) == CreateAccessToken(u2, s2, n2, key) {
      var c1 := ReadClaims(CreateAccessToken(u1, s1, n1, key).payload);
      var c2 := ReadClaims(CreateAccessToken(u2, s2, n2, key).payload);
      assert c1 == c2;
    }
  }

  /** Readings at 0 and at half a second give the same token. */
  lemma SameSecondSameToken(key: string)
    ensures CreateAccessToken(42, false, 0, key) == CreateAccessToken(42, false, 500000, key)
  {
    AccessTokenDeterminesClaims(42, false, 0, 42, false, 500000, key);
  }
}
