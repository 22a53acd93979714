/**
 * `obtain_token` (api/routers.py): the checks a login attempt goes
 * through, in order, and the answer each failing check gives; and the
 * endpoint as the `rate_limit("login", limit=5, period=300)` decorator
 * wraps it.
 */
module Login {
  import opened Shared
  import Utf8
  import RateLimit
  import Models

  /** What `PKCS1_v1_5.new(key).decrypt(ciphertext, sentinel)` can do. */
  datatype Decryption =
    | Plaintext(bytes: seq<byte>)  // the padding checked out
    | SentinelReturned             // the padding did not check out: the random sentinel came back
    | DecryptValueError            // ValueError, such as a ciphertext of the wrong length
    | DecryptOtherError            // any other exception

  datatype TokenPair = TokenPair(access: string, refresh: string)

  /**
   * The library calls the view makes: base64 decoding, RSA decryption with
   * the server's private key, `authenticate`, and `RefreshToken.for_user`.
   */
  datatype Services = Services(
    b64decode: string -> Option<seq<byte>>,
    decrypt: seq<byte> -> Decryption,
    authenticate: (string, string) -> Option<Models.UserId>,
    issueTokens: Models.UserId -> TokenPair)

  datatype Cookie = Cookie(
    name: string, value: string, httpOnly: bool, secure: bool,
    sameSite: string, maxAge: nat, path: string)

  datatype LoginResponse =
    | Tokens(access: string, cookie: Cookie)
    | Detail(message: string)
    | TooManyRequests

  const NoPassword := "No password provided"
  const BadFormat := "Invalid password format"
  const DecryptionFailed := "Invalid encrypted data - decryption failed"
  const EmptyPassword := "Empty password after decryption"
  const InvalidCredentials := "Invalid credentials"
  const DecryptionError := "Decryption error"

  /** Seven days, in seconds. */
  const RefreshMaxAge: nat := 7 * 24 * 60 * 60

  /** The refresh token travels only in this cookie. */
  function RefreshCookie(token: string): Cookie {
    Cookie("refresh_token", token, true, true, "None", RefreshMaxAge, "/api/users/token/refresh")
  }

  /** The six answers of a failing check. */
  const Messages: set<string> := {NoPassword, BadFormat, DecryptionFailed, EmptyPassword, InvalidCredentials, DecryptionError}

  /**
   * The view body of `obtain_token`: the view itself never answers 429, and
   * a refusal carries one of the six messages.
   */
  function ObtainToken(email: string, encryptedPassword: string, s: Services): (r: LoginResponse)
    ensures r != TooManyRequests
    ensures r.Detail? ==> r.message in Messages
  {
    if encryptedPassword == "" then Detail(NoPassword)
    else match s.b64decode(encryptedPassword)
      case None => Detail(BadFormat)
      case Some(ciphertext) =>
        match s.decrypt(ciphertext)
        case SentinelReturned => Detail(DecryptionFailed)
        case DecryptValueError => Detail(DecryptionFailed)
        case DecryptOtherError => Detail(DecryptionError)
        case Plaintext(bytes) =>
          // UnicodeDecodeError is a ValueError
          match Utf8.Decode(bytes)
          case None => Detail(DecryptionFailed)
          case Some(password) =>
            if password == "" then Detail(EmptyPassword)
            else match s.authenticate(email, password)
              case None => Detail(InvalidCredentials)
              case Some(user) =>
                var t := s.issueTokens(user);
                Tokens(t.access, RefreshCookie(t.refresh))
  }

  /** The ciphertext the first two checks let through, if any. */
  function Ciphertext(encryptedPassword: string, s: Services): Option<seq<byte>> {
    if encryptedPassword == "" then None else s.b64decode(encryptedPassword)
  }

  /** The password recovered from the request, if decryption and UTF-8 decoding both succeed. */
  function Recovered(encryptedPassword: string, s: Services): Option<string> {
    match Ciphertext(encryptedPassword, s)
    case None => None
    case Some(ct) =>
      match s.decrypt(ct)
      case Plaintext(bytes) => Utf8.Decode(bytes)
      case _ => None
  }

  /** The six answers are pairwise different, so each one names the check that failed. */
  lemma MessagesAreDistinct()
    ensures |{NoPassword, BadFormat, DecryptionFailed, EmptyPassword, InvalidCredentials, DecryptionError}| == 6
  {
    assert NoPassword[0] == 'N' && BadFormat[8] == 'p' && DecryptionFailed[8] == 'e';
    assert EmptyPassword[0] == 'E' && InvalidCredentials[8] == 'c' && DecryptionError[0] == 'D';
  }

  /** Each failing check gives its own answer; tokens are issued only when every check passes. */
  lemma {:induction false} OutcomeByStage(email: string, encryptedPassword: string, s: Services)
    ensures var r := ObtainToken(email, encryptedPassword, s);
      && (r == Detail(NoPassword) <==> encryptedPassword == "")
      && (r == Detail(BadFormat) <==> encryptedPassword != "" && s.b64decode(encryptedPassword).None?)
      && (r == Detail(DecryptionError) <==>
            Ciphertext(encryptedPassword, s).Some? && s.decrypt(Ciphertext(encryptedPassword, s).value).DecryptOtherError?)
      && (r == Detail(DecryptionFailed) <==>
            && Ciphertext(encryptedPassword, s).Some?
            && Recovered(encryptedPassword, s).None?
            && !s.decrypt(Ciphertext(encryptedPassword, s).value).DecryptOtherError?)
      && (r == Detail(EmptyPassword) <==>
            Ciphertext(encryptedPassword, s).Some? && s.decrypt(Ciphertext(encryptedPassword, s).value) == Plaintext([]))
      && (r == Detail(InvalidCredentials) <==>
            && Recovered(encryptedPassword, s).Some?
            && Recovered(encryptedPassword, s).value != ""
            && s.authenticate(email, Recovered(encryptedPassword, s).value).None?)
      && (r.Tokens? <==>
            && Recovered(encryptedPassword, s).Some?
            && Recovered(encryptedPassword, s).value != ""
            && s.authenticate(email, Recovered(encryptedPassword, s).value).Some?)
      && r != TooManyRequests
  {
    MessagesAreDistinct();
    var r := ObtainToken(email, encryptedPassword, s);
    var ct := Ciphertext(encryptedPassword, s);
    if ct.Some? {
      match s.decrypt(ct.value)
      case Plaintext(bytes) =>
        assert Utf8.Decode([]) == Some([]);
        if Utf8.Decode(bytes) == Some([]) {
          assert bytes == [];
        }
      case _ =>
    }
  }

  /** On success the refresh token goes only into an HTTP-only, secure, seven-day cookie scoped to the refresh path. */
  lemma RefreshTokenInCookie(email: string, encryptedPassword: string, s: Services)
    requires ObtainToken(email, encryptedPassword, s).Tokens?
    ensures var c := ObtainToken(email, encryptedPassword, s).cookie;
      && c.name == "refresh_token" && c.httpOnly && c.secure && c.sameSite == "None"
      && c.maxAge == 604800 && c.path == "/api/users/token/refresh"
  {
  }

  /** A password that is sent correctly encrypted and encoded reaches `authenticate` as it was typed. */
  lemma {:induction false} RecoveredPassword(encryptedPassword: string, s: Services, password: string)
    requires encryptedPassword != ""
    requires s.b64decode(encryptedPassword).Some?
    requires s.decrypt(s.b64decode(encryptedPassword).value) == Plaintext(Utf8.Encode(password))
    ensures Recovered(encryptedPassword, s) == Some(password)
  {
    Utf8.DecodeEncode(password);
  }

  /**
   * A password typed on the page in the Basic Multilingual Plane reaches
   * `authenticate` as typed.
   */
  lemma PagePasswordRecovered(encryptedPassword: string, s: Services, password: string)
    requires encryptedPassword != ""
    requires s.b64decode(encryptedPassword).Some?
    requires s.decrypt(s.b64decode(encryptedPassword).value) == Plaintext(Utf8.PageEncode(password))
    requires Utf8.InBmp(password)
    ensures Recovered(encryptedPassword, s) == Some(password)
  {
    Utf8.PageEncodeOnBmp(password);
    RecoveredPassword(encryptedPassword, s, password);
  }

  /**
   * A password typed on the page with any character above U+FFFF (an emoji,
   * say) is never recovered: every such login answers that decryption
   * failed, whatever the credentials.
   */
  lemma AstralPasswordIsRefused(email: string, encryptedPassword: string, s: Services, password: string)
    requires encryptedPassword != ""
    requires s.b64decode(encryptedPassword).Some?
    requires s.decrypt(s.b64decode(encryptedPassword).value) == Plaintext(Utf8.PageEncode(password))
    requires !Utf8.InBmp(password)
    ensures ObtainToken(email, encryptedPassword, s) == Detail(DecryptionFailed)
  {
    var bytes := Utf8.PageEncode(password);
    Utf8.AstralPageBytesRefused(password);
    assert Utf8.Decode(bytes) == None;
    assert s.decrypt(s.b64decode(encryptedPassword).value) == Plaintext(bytes);
  }

  /** `@rate_limit("login", limit=5, period=300)`. */
  const LoginPrefix: string := "login"
  const LoginLimit: int := 5
  const LoginPeriod: real := 300.0

  /** The `/token` endpoint: the rate limiter first, then the view if the limiter lets the call through. */
  method ObtainTokenLimited(limiter: RateLimit.RateLimiter, meta: RateLimit.Meta, now: real,
                            email: string, encryptedPassword: string, s: Services)
    returns (r: LoginResponse)
    requires limiter.Valid()
    requires limiter.prefix == LoginPrefix && limiter.limit == LoginLimit && limiter.period == LoginPeriod
    modifies limiter
    ensures limiter.Valid()
    ensures var key := RateLimit.CacheKey(LoginPrefix, meta);
      match RateLimit.Decide(RateLimit.Recent(old(limiter.cache), key), now, LoginLimit, LoginPeriod)
      case Reject => r == TooManyRequests && limiter.cache == old(limiter.cache)
      case Accept(stored) => r == ObtainToken(email, encryptedPassword, s) && limiter.cache == old(limiter.cache)[key := stored]
  {
    var allowed := limiter.Check(meta, now);
    if !allowed {
      return TooManyRequests;
    }
    r := ObtainToken(email, encryptedPassword, s);
  }
}
