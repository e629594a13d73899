/**
 * Passwords and session tokens. The key-derivation function (scrypt with a
 * 64-byte output) is a parameter: any deterministic function from a
 * password and a salt to 64 bytes. Random bytes are parameters too.
 */
module Auth {
  import opened Wrappers
  import opened Numerals
  import opened Storage

  newtype Byte = x: int | 0 <= x < 256

  /** A 64-byte derived key. */
  type Digest = s: seq<Byte> | |s| == 64 witness seq(64, _ => 0 as Byte)

  /** The key-derivation function: `scrypt(password, salt, 64)`. */
  type Kdf = (string, string) -> Digest

  const TokenExpiryDays: int := 30

  /** A token lives `TOKEN_EXPIRY_DAYS * 24 * 60 * 60 * 1000` milliseconds. */
  const TokenLifetimeMs: int := TokenExpiryDays * 24 * 60 * 60 * 1000

  const HexAlphabet: string := "0123456789abcdef"

  /** `buf.toString("hex")`: two lower-case hex digits per byte, high nibble first. */
  function HexEncode(bytes: seq<Byte>): (s: string)
    ensures |s| == 2 * |bytes|
  {
    seq(2 * |bytes|, i requires 0 <= i < 2 * |bytes| =>
      var b := bytes[i / 2] as int;
      if i % 2 == 0 then HexAlphabet[b / 16] else HexAlphabet[b % 16])
  }

  /** The value of a hex digit (either case). */
  function HexValue(c: char): Option<nat> {
    DigitValue(c, 16)
  }

  /**
   * `Buffer.from(s, "hex")` from the `n`-th pair of characters on: pairs are
   * decoded until one holds a non-hex character, and an unpaired last
   * character is dropped.
   */
  function HexDecodeFrom(s: string, n: nat): (r: seq<Byte>)
    ensures 2 * (n + |r|) <= |s| || r == []
    decreases |s| - 2 * n
  {
    if 2 * n + 1 >= |s| then []
    else
      var hi := HexValue(s[2 * n]);
      var lo := HexValue(s[2 * n + 1]);
      if hi.None? || lo.None? then []
      else [(hi.value * 16 + lo.value) as Byte] + HexDecodeFrom(s, n + 1)
  }

  function HexDecode(s: string): seq<Byte> {
    HexDecodeFrom(s, 0)
  }

  lemma HexDigitValue(d: nat)
    requires d < 16
    ensures HexValue(HexAlphabet[d]) == Some(d)
  {
  }

  /** The two digits spelling byte `n` sit at positions `2n` and `2n + 1`. */
  lemma HexEncodeAt(bytes: seq<Byte>, n: nat)
    requires n < |bytes|
    ensures HexEncode(bytes)[2 * n] == HexAlphabet[bytes[n] as int / 16]
    ensures HexEncode(bytes)[2 * n + 1] == HexAlphabet[bytes[n] as int % 16]
  {
    var i := 2 * n;
    assert i / 2 == n && i % 2 == 0;
    assert (i + 1) / 2 == n && (i + 1) % 2 == 1;
  }

  /** The two digits of a byte read back as that byte. */
  lemma HexByte(b: Byte)
    ensures HexValue(HexAlphabet[b as int / 16]) == Some(b as int / 16)
    ensures HexValue(HexAlphabet[b as int % 16]) == Some(b as int % 16)
    ensures (b as int / 16) * 16 + b as int % 16 == b as int
  {
    HexDigitValue(b as int / 16);
    HexDigitValue(b as int % 16);
  }

  /** The `n`-th pair of the hex spelling decodes to the `n`-th byte. */
  lemma HexPair(bytes: seq<Byte>, n: nat)
    requires n < |bytes|
    ensures HexDecodeFrom(HexEncode(bytes), n) == [bytes[n]] + HexDecodeFrom(HexEncode(bytes), n + 1)
  {
    HexEncodeAt(bytes, n);
    HexByte(bytes[n]);
  }

  lemma {:induction false} HexDecodeEncodeFrom(bytes: seq<Byte>, n: nat)
    requires n <= |bytes|
    ensures HexDecodeFrom(HexEncode(bytes), n) == bytes[n..]
    decreases |bytes| - n
  {
    if n < |bytes| {
      HexPair(bytes, n);
      HexDecodeEncodeFrom(bytes, n + 1);
      assert bytes[n..] == [bytes[n]] + bytes[n + 1..];
    }
  }

  /** Decoding the hex spelling of a byte string gives the bytes back. */
  lemma HexRoundTrip(bytes: seq<Byte>)
    ensures HexDecode(HexEncode(bytes)) == bytes
  {
    HexDecodeEncodeFrom(bytes, 0);
  }

  lemma {:induction false} HexHasNoDot(bytes: seq<Byte>)
    ensures forall i :: 0 <= i < |HexEncode(bytes)| ==> HexEncode(bytes)[i] != '.'
  {
  }

  /** The position of the first `c` in `s` at or after `from`. */
  function FindChar(s: string, c: char, from: nat): (r: Option<nat>)
    requires from <= |s|
    ensures r.Some? ==> from <= r.value < |s| && s[r.value] == c
    ensures r.Some? ==> forall j :: from <= j < r.value ==> s[j] != c
    ensures r.None? ==> forall j :: from <= j < |s| ==> s[j] != c
    decreases |s| - from
  {
    if from == |s| then None
    else if s[from] == c then Some(from)
    else FindChar(s, c, from + 1)
  }

  /**
   * `const [hashed, salt] = stored.split(".")`: the text before the first
   * dot, and the text between the first dot and the next one (or the end);
   * `salt` is `undefined` when there is no dot.
   */
  function SplitStored(stored: string): (string, Option<string>) {
    match FindChar(stored, '.', 0)
    case None => (stored, None)
    case Some(p) =>
      match FindChar(stored, '.', p + 1)
      case None => (stored[..p], Some(stored[p + 1..]))
      case Some(q) => (stored[..p], Some(stored[p + 1..q]))
  }

  /** `hashPassword`: the hex digest of the password under a fresh hex salt, a dot, then the salt. */
  function HashPassword(password: string, saltBytes: seq<Byte>, kdf: Kdf): string {
    var salt := HexEncode(saltBytes);
    HexEncode(kdf(password, salt)) + "." + salt
  }

  /**
   * `comparePasswords`: re-derive the key with the stored salt and compare
   * it with the stored digest. `scrypt` throws when there is no salt and
   * `timingSafeEqual` throws when the decoded digest is not 64 bytes long:
   * both are `Failure`.
   */
  function ComparePasswords(supplied: string, stored: string, kdf: Kdf): Result<bool> {
    var (hashed, salt) := SplitStored(stored);
    if salt.None? then Failure("salt is undefined")
    else
      var hashedBuf := HexDecode(hashed);
      if |hashedBuf| != 64 then Failure("Input buffers must have the same byte length")
      else Success(hashedBuf == kdf(supplied, salt.value))
  }

  lemma SplitHashed(bytes: seq<Byte>, saltBytes: seq<Byte>)
    ensures SplitStored(HexEncode(bytes) + "." + HexEncode(saltBytes)) == (HexEncode(bytes), Some(HexEncode(saltBytes)))
  {
    var h := HexEncode(bytes);
    var salt := HexEncode(saltBytes);
    var s := h + "." + salt;
    HexHasNoDot(bytes);
    HexHasNoDot(saltBytes);
    var p := |h|;
    assert s[p] == '.';
    assert forall j :: 0 <= j < p ==> s[j] == h[j];
    assert FindChar(s, '.', 0) == Some(p);
    assert forall j :: p + 1 <= j < |s| ==> s[j] == salt[j - p - 1];
    assert FindChar(s, '.', p + 1).None?;
    assert s[..p] == h;
    assert s[p + 1..] == salt;
  }

  /**
   * Checking a password against a hash made by `HashPassword` succeeds and
   * says whether the two passwords derive the same key under that salt; in
   * particular the password that was hashed is accepted.
   */
  lemma CompareHashed(supplied: string, password: string, saltBytes: seq<Byte>, kdf: Kdf)
    ensures ComparePasswords(supplied, HashPassword(password, saltBytes, kdf), kdf)
            == Success(kdf(supplied, HexEncode(saltBytes)) == kdf(password, HexEncode(saltBytes)))
    ensures ComparePasswords(password, HashPassword(password, saltBytes, kdf), kdf) == Success(true)
  {
    var salt := HexEncode(saltBytes);
    var digest := kdf(password, salt);
    SplitHashed(digest, saltBytes);
    HexRoundTrip(digest);
  }

  /** A stored value with no dot, or whose digest part does not decode to 64 bytes, makes the comparison throw. */
  lemma CompareMalformed(supplied: string, stored: string, kdf: Kdf)
    ensures FindChar(stored, '.', 0).None? ==> ComparePasswords(supplied, stored, kdf).Failure?
    ensures |HexDecode(SplitStored(stored).0)| != 64 ==> ComparePasswords(supplied, stored, kdf).Failure?
  {
  }

  /** `authHeader?.startsWith("Bearer ") ? authHeader.slice(7) : undefined`. */
  function BearerToken(header: Option<string>): (r: Option<string>)
    ensures r.Some? <==> header.Some? && |header.value| >= 7 && header.value[..7] == "Bearer "
    ensures r.Some? ==> header.value == "Bearer " + r.value
  {
    if header.Some? && |header.value| >= 7 && header.value[..7] == "Bearer " then Some(header.value[7..])
    else None
  }

  lemma BearerOfToken(token: string)
    ensures BearerToken(Some("Bearer " + token)) == Some(token)
  {
    var h := "Bearer " + token;
    assert h[..7] == "Bearer ";
    assert h[7..] == token;
  }

  /** What `authMiddleware` leaves on the request: the user, and what `isAuthenticated()` answers. */
  datatype RequestContext = RequestContext(user: Option<User>, authenticated: bool)

  /**
   * The user a request is authenticated as: the owner of the bearer token,
   * when the token resolves to a truthy (non-zero) user id that exists.
   */
  function Authenticate(users: seq<User>, tokens: map<string, TokenInfo>, header: Option<string>, now: int): Option<User> {
    var token := BearerToken(header);
    if token.None? then None
    else
      var userId := Resolve(tokens, token.value, now);
      if userId.None? || userId.value == 0 then None
      else UserWithId(users, userId.value)
  }

  /** The token table after a request passed through the middleware. */
  function TokensAfter(tokens: map<string, TokenInfo>, header: Option<string>, now: int): map<string, TokenInfo> {
    var token := BearerToken(header);
    if token.None? then tokens else Expire(tokens, token.value, now)
  }

  /** The request is authenticated exactly when a live token of an existing, non-zero user id is presented. */
  lemma AuthenticateSpec(users: seq<User>, tokens: map<string, TokenInfo>, header: Option<string>, now: int)
    ensures Authenticate(users, tokens, header, now).Some? <==>
              BearerToken(header).Some?
              && var t := BearerToken(header).value;
                 t in tokens && now <= tokens[t].expiresAt && tokens[t].userId != 0
                 && UserWithId(users, tokens[t].userId).Some?
    ensures Authenticate(users, tokens, header, now).Some? ==>
              Authenticate(users, tokens, header, now).value.id == tokens[BearerToken(header).value].userId
  {
  }

  /**
   * A token stored by `createToken` for an existing user with a non-zero id
   * authenticates that user at every time up to its expiry, and nobody after.
   */
  lemma IssuedTokenAuthenticates(users: seq<User>, tokens: map<string, TokenInfo>, token: string, u: User, issuedAt: int, now: int)
    requires UserWithId(users, u.id) == Some(u) && u.id != 0
    ensures Authenticate(users, tokens[token := TokenInfo(u.id, issuedAt + TokenLifetimeMs)], Some("Bearer " + token), now)
            == if now <= issuedAt + TokenLifetimeMs then Some(u) else None
  {
    BearerOfToken(token);
  }

  /** A removed token authenticates nobody afterwards. */
  lemma RemovedTokenRejected(users: seq<User>, tokens: map<string, TokenInfo>, token: string, now: int)
    ensures Authenticate(users, tokens - {token}, Some("Bearer " + token), now).None?
  {
    BearerOfToken(token);
  }

  /**
   * `createToken`: a 32-byte random token in hex, stored for `userId` with
   * an expiry 30 days after `now`. Inserting a token that is already
   * stored violates the unique column and throws.
   */
  method CreateToken(store: DatabaseStorage, userId: int, randomBytes: seq<Byte>, now: int) returns (r: Result<string>)
    modifies store`tokens
    ensures r.Success? <==> HexEncode(randomBytes) !in old(store.tokens)
    ensures r.Success? ==> r.value == HexEncode(randomBytes)
    ensures r.Success? ==> store.tokens == old(store.tokens)[r.value := TokenInfo(userId, now + TokenLifetimeMs)]
    ensures r.Failure? ==> store.tokens == old(store.tokens)
  {
    var token := HexEncode(randomBytes);
    var expiresAt := now + TokenExpiryDays * 24 * 60 * 60 * 1000;
    var ok := store.SaveToken(token, userId, expiresAt);
    if !ok {
      return Failure("duplicate key value violates unique constraint");
    }
    return Success(token);
  }

  /** `removeToken`: deletes exactly that token. */
  method RemoveToken(store: DatabaseStorage, token: string)
    modifies store`tokens
    ensures store.tokens == old(store.tokens) - {token}
  {
    store.DeleteToken(token);
  }

  /**
   * `authMiddleware`: resolves the bearer token (deleting it if expired) and
   * marks the request authenticated with the user it belongs to, or
   * unauthenticated. It never fails the request: it always passes it on.
   */
  method AuthMiddleware(store: DatabaseStorage, header: Option<string>, now: int) returns (ctx: RequestContext)
    modifies store`tokens
    ensures ctx.user == Authenticate(store.users, old(store.tokens), header, now)
    ensures ctx.authenticated <==> ctx.user.Some?
    ensures store.tokens == TokensAfter(old(store.tokens), header, now)
  {
    ctx := RequestContext(None, false);
    var token := BearerToken(header);
    if token.Some? {
      var userId := store.GetUserIdByToken(token.value, now);
      if userId.Some? && userId.value != 0 {
        var user := store.GetUser(userId.value);
        if user.Some? {
          ctx := RequestContext(user, true);
        }
      }
    }
  }
}
