/**
 Token authentication with a denylist: signing, parsing, and destroying tokens whose
 store entries and expiry must together leave no gap. Times are integers; how a token
 string decodes, and whether its signature is good, is a parameter.
 */
module Revocation {
  import opened Common

  const SECOND := 1_000_000_000

  datatype Claims = Claims(
    issuer: string, subject: string, issuedAt: Option<int>, notBefore: Option<int>, expiresAt: Option<int>)

  /** What a token string says before the clock is consulted. */
  datatype Decoded =
    | Malformed
    | Token(signingMethod: nat, keyAccepted: bool, signatureGood: bool, claims: Claims)

  datatype AuthError = TokenInvalid | TokenExpired | TokenParseFail | WrongMethod | StoreFailed | NilDereference

  datatype Options = Options(signingMethod: nat, issuer: string, expired: int)

  /** The codec and the options of one authenticator. */
  datatype Config = Config(opts: Options, decode: string -> Decoded, encode: Claims -> string)

  // Parsing.

  predicate NotYet(t: Option<int>, now: int) {
    t.Some? && now < t.value
  }

  /** From its expiry on a token is expired. */
  predicate Expired(c: Claims, now: int) {
    c.expiresAt.Some? && !(now < c.expiresAt.value)
  }

  function ParseToken(cfg: Config, token: string, now: int): Result<Claims, AuthError> {
    match cfg.decode(token)
    case Malformed => Err(TokenInvalid)
    case Token(m, keyAccepted, signatureGood, claims) =>
      if !keyAccepted then Err(TokenParseFail)
      else if Expired(claims, now) || NotYet(claims.notBefore, now) then Err(TokenExpired)
      else if NotYet(claims.issuedAt, now) || !signatureGood then Err(TokenParseFail)
      else if m != cfg.opts.signingMethod then Err(WrongMethod)
      else Ok(claims)
  }

  /** A numeric date has whole seconds. */
  function NumericDate(t: int): (d: int)
    ensures d <= t < d + SECOND
  {
    t / SECOND * SECOND
  }

  function SignedClaims(cfg: Config, user: string, now: int): Claims {
    var date := Some(NumericDate(now));
    Claims(cfg.opts.issuer, user, date, date, Some(NumericDate(now + cfg.opts.expired)))
  }

  function ExpiryOf(cfg: Config, token: string): Option<int> {
    match cfg.decode(token)
    case Malformed => None
    case Token(_, _, _, claims) => claims.expiresAt
  }

  /** What Check makes of a parsed token. */
  function Checked(claims: Claims, listed: bool): Result<Claims, AuthError> {
    if listed then Err(TokenInvalid) else Ok(claims)
  }

  /** ParseClaims with the clock read at parsed and the denylist read later. */
  function ParseOutcome(cfg: Config, token: string, parsed: int, denylist: Option<set<string>>)
    : Result<Claims, AuthError>
  {
    if token == "" then Err(TokenInvalid)
    else match ParseToken(cfg, token, parsed)
         case Err(e) => Err(e)
         case Ok(claims) => Checked(claims, denylist.Some? && token in denylist.value)
  }

  /** For how long Destroy asks the store to keep the token; None when there is no claim to compute it from. */
  function AskedFor(claims: Claims, read: int): Option<int> {
    match claims.expiresAt
    case None => None
    case Some(exp) => Some(exp - read)
  }

  /** Destroy with the clock at its parse, at the computation of the duration and at the store command. */
  function DestroyOutcome(cfg: Config, token: string, parsed: int, read: int, stored: int, storeUp: bool,
                          denylist: Option<map<string, int>>)
    : (Result<(), AuthError>, Option<map<string, int>>)
  {
    match ParseToken(cfg, token, parsed)
    case Err(e) => (Err(e), denylist)
    case Ok(claims) =>
      if denylist.None? then (Ok(()), None)
      else if AskedFor(claims, read).None? then (Err(NilDereference), denylist)
      else if !storeUp then (Err(StoreFailed), denylist)
      else (Ok(()), Some(denylist.value[token := stored + AskedFor(claims, read).value]))
  }

  // The authenticator.

  /** A store that keeps an entry until the moment it was asked for, at least. */
  class Store {
    var keptUntil: map<string, int>

    constructor ()
      ensures keptUntil == map[]
    {
      keptUntil := map[];
    }

    method Set(token: string, expiration: int, now: int)
      modifies this
      ensures keptUntil == old(keptUntil)[token := now + expiration]
    {
      keptUntil := keptUntil[token := now + expiration];
    }

    method Check(token: string) returns (found: bool)
      ensures found <==> token in keptUntil
    {
      found := token in keptUntil;
    }
  }

  class JWTAuth {
    const cfg: Config
    const store: Store?

    constructor (cfg: Config, store: Store?)
      ensures this.cfg == cfg && this.store == store
    {
      this.cfg, this.store := cfg, store;
    }

    function Denylist(): Option<map<string, int>>
      reads store
    {
      if store == null then None else Some(store.keptUntil)
    }

    method Sign(user: string, now: int) returns (token: string, expiresAt: int)
      ensures token == cfg.encode(SignedClaims(cfg, user, now))
      ensures SignedClaims(cfg, user, now).expiresAt == Some(expiresAt * SECOND)
    {
      var exp := now + cfg.opts.expired;
      var date := Some(NumericDate(now));
      token := cfg.encode(Claims(cfg.opts.issuer, user, date, date, Some(NumericDate(exp))));
      expiresAt := exp / SECOND;
    }

    /** Destroy, with the clock at the parse, at the computation of the duration and at the store. */
    method Destroy(token: string, parsed: int, read: int, stored: int, storeUp: bool) returns (r: Result<(), AuthError>)
      requires parsed <= read <= stored
      modifies store
      ensures (r, Denylist()) == DestroyOutcome(cfg, token, parsed, read, stored, storeUp, old(Denylist()))
    {
      var claims := ParseToken(cfg, token, parsed);
      if claims.Err? {
        return Err(claims.error);
      }
      if store == null {
        return Ok(());
      }
      if claims.value.expiresAt.None? {
        return Err(NilDereference);
      }
      var expired := claims.value.expiresAt.value - read;
      if !storeUp {
        return Err(StoreFailed);
      }
      store.Set(token, expired, stored);
      r := Ok(());
    }

    method ParseClaims(token: string, parsed: int, storeUp: bool) returns (r: Result<Claims, AuthError>)
      ensures store == null ==> r == ParseOutcome(cfg, token, parsed, None)
      ensures store != null && storeUp ==> r == ParseOutcome(cfg, token, parsed, Some(store.keptUntil.Keys))
      ensures store != null && !storeUp ==>
        r == match ParseOutcome(cfg, token, parsed, None) { case Err(e) => Err(e) case Ok(_) => Err(StoreFailed) }
    {
      if token == "" {
        return Err(TokenInvalid);
      }
      var claims := ParseToken(cfg, token, parsed);
      if claims.Err? || store == null {
        return claims;
      }
      if !storeUp {
        return Err(StoreFailed);
      }
      var listed := store.Check(token);
      if listed {
        return Err(TokenInvalid);
      }
      r := claims;
    }
  }

  // Exactly what is accepted, and what refusals say.

  /** The text decodes to a token with the claims whose key the key function accepts. */
  ghost predicate Reads(cfg: Config, token: string, c: Claims) {
    exists m, good :: cfg.decode(token) == Token(m, true, good, c)
  }

  /** Key, signature and method are right. */
  predicate Authentic(cfg: Config, token: string, c: Claims) {
    cfg.decode(token) == Token(cfg.opts.signingMethod, true, true, c)
  }

  /** Before its expiry, if it has one, and at or behind every moment it is dated from. */
  predicate InForce(c: Claims, now: int) {
    && (c.expiresAt.Some? ==> now < c.expiresAt.value)
    && (c.notBefore.Some? ==> c.notBefore.value <= now)
    && (c.issuedAt.Some? ==> c.issuedAt.value <= now)
  }

  predicate Listed(token: string, denylist: Option<set<string>>) {
    denylist.Some? && token in denylist.value
  }

  /**
   A token is accepted, with these claims, exactly if it is not empty, it is authentic and says
   them, they are in force at the clock reading, and it is not on the denylist.
   */
  lemma AcceptedIff(cfg: Config, token: string, now: int, denylist: Option<set<string>>, c: Claims)
    ensures ParseOutcome(cfg, token, now, denylist) == Ok(c) <==>
      token != "" && Authentic(cfg, token, c) && InForce(c, now) && !Listed(token, denylist)
  {
    assert Authentic(cfg, token, c) && InForce(c, now) ==> ParseToken(cfg, token, now) == Ok(c);
  }

  /** Out of date as "expired" is reported: past the expiry, or before the first moment. */
  predicate OutOfDate(c: Claims, now: int) {
    (c.expiresAt.Some? && c.expiresAt.value <= now) || (c.notBefore.Some? && now < c.notBefore.value)
  }

  /** The key is refused; or the token is not out of date, but its signature is bad or it was issued in the future. */
  predicate Unverified(d: Decoded, now: int) {
    d.Token? &&
    (!d.keyAccepted ||
      (!OutOfDate(d.claims, now) &&
        (!d.signatureGood || (d.claims.issuedAt.Some? && now < d.claims.issuedAt.value))))
  }

  /**
   What a refusal says. A bad date is told from a bad signature first, so it is reported of a forged
   token too; the method is looked at only in a token that is good in all else.
   */
  lemma RefusedAs(cfg: Config, token: string, now: int, denylist: Option<set<string>>)
    ensures var r := ParseOutcome(cfg, token, now, denylist);
      && (r == Err(TokenInvalid) <==>
            token == "" || cfg.decode(token).Malformed? ||
            (exists c :: Authentic(cfg, token, c) && InForce(c, now) && Listed(token, denylist)))
      && (r == Err(TokenExpired) <==> token != "" && exists c :: Reads(cfg, token, c) && OutOfDate(c, now))
      && (r == Err(TokenParseFail) <==> token != "" && Unverified(cfg.decode(token), now))
      && (r == Err(WrongMethod) <==>
            token != "" && exists m, c ::
              cfg.decode(token) == Token(m, true, true, c) && m != cfg.opts.signingMethod && InForce(c, now))
      && (r.Err? ==> r.error in {TokenInvalid, TokenExpired, TokenParseFail, WrongMethod})
  {
    match cfg.decode(token)
    case Malformed =>
    case Token(m, key, good, c) =>
      assert key ==> Reads(cfg, token, c);
      assert m == cfg.opts.signingMethod && key && good ==> Authentic(cfg, token, c);
      assert InForce(c, now) <==> !OutOfDate(c, now) && !NotYet(c.issuedAt, now);
  }

  /** Destroy fails on a token whose key, signature or method is wrong, or which is not in force, and lists nothing. */
  lemma DestroyRefuses(cfg: Config, token: string, parsed: int, read: int, stored: int, storeUp: bool,
                       denylist: Option<map<string, int>>)
    requires forall c :: !(Authentic(cfg, token, c) && InForce(c, parsed))
    ensures var (r, after) := DestroyOutcome(cfg, token, parsed, read, stored, storeUp, denylist);
      r.Err? && after == denylist
  {
    match cfg.decode(token)
    case Malformed =>
    case Token(m, key, good, c) =>
      assert m == cfg.opts.signingMethod && key && good ==> Authentic(cfg, token, c);
  }

  /**
   Destroy of a token that is authentic and in force succeeds exactly if there is no store, or the
   token has an expiry and the store takes the entry; the entry lasts what the token has still to
   live, counted from the store command, and is the only change.
   */
  lemma DestroyedIff(cfg: Config, token: string, c: Claims, parsed: int, read: int, stored: int, storeUp: bool,
                     denylist: Option<map<string, int>>)
    requires Authentic(cfg, token, c) && InForce(c, parsed)
    ensures var (r, after) := DestroyOutcome(cfg, token, parsed, read, stored, storeUp, denylist);
      && (r.Ok? <==> denylist.None? || (c.expiresAt.Some? && storeUp))
      && (denylist.None? ==> after.None?)
      && (r.Err? ==> after == denylist)
      && (denylist.Some? && r.Ok? ==> after == Some(denylist.value[token := c.expiresAt.value + (stored - read)]))
  {
  }

  // Signed tokens.

  /** A signed token decodes to what was signed, with a good signature by the configured method. */
  ghost predicate GoodCodec(cfg: Config) {
    forall c :: cfg.encode(c) != "" && cfg.decode(cfg.encode(c)) == Token(cfg.opts.signingMethod, true, true, c)
  }

  /**
   A signed token that is not on the denylist is accepted, with its own claims, exactly until the
   whole second of its expiry.
   */
  lemma SignedTokenAcceptedIff(cfg: Config, user: string, signed: int, parsed: int, denylist: Option<set<string>>)
    requires GoodCodec(cfg) && signed <= parsed
    ensures var c := SignedClaims(cfg, user, signed); var token := cfg.encode(c);
      ParseOutcome(cfg, token, parsed, denylist) == Ok(c) <==>
        parsed < NumericDate(signed + cfg.opts.expired) && (denylist.None? || token !in denylist.value)
  {
    var c := SignedClaims(cfg, user, signed);
    assert cfg.decode(cfg.encode(c)) == Token(cfg.opts.signingMethod, true, true, c);
  }

  /** An accepted signed token names the issuer and the user it was signed for, and dates from the second of its signing. */
  lemma SignedTokenSays(cfg: Config, user: string, signed: int, parsed: int, denylist: Option<set<string>>)
    requires GoodCodec(cfg)
    requires ParseOutcome(cfg, cfg.encode(SignedClaims(cfg, user, signed)), parsed, denylist).Ok?
    ensures var c := ParseOutcome(cfg, cfg.encode(SignedClaims(cfg, user, signed)), parsed, denylist).value;
      && c.subject == user && c.issuer == cfg.opts.issuer
      && c.issuedAt == c.notBefore == Some(signed - signed % SECOND)
      && c.expiresAt == Some(signed + cfg.opts.expired - (signed + cfg.opts.expired) % SECOND)
  {
    var c := SignedClaims(cfg, user, signed);
    assert cfg.decode(cfg.encode(c)) == Token(cfg.opts.signingMethod, true, true, c);
  }

  /** Destroy dereferences nil exactly for a token that parses, with a store, and has no expiry. */
  lemma NilDereferenceIff(cfg: Config, token: string, parsed: int, read: int, stored: int, storeUp: bool,
                          denylist: Option<map<string, int>>)
    ensures DestroyOutcome(cfg, token, parsed, read, stored, storeUp, denylist).0 == Err(NilDereference) <==>
      denylist.Some? && ParseToken(cfg, token, parsed).Ok? && ExpiryOf(cfg, token).None?
  {
  }

  /** A signed token has an expiry: Destroy never dereferences nil for it. */
  lemma SignedTokenIsNoNil(cfg: Config, user: string, signed: int, parsed: int, read: int, stored: int,
                           storeUp: bool, denylist: Option<map<string, int>>)
    requires GoodCodec(cfg)
    ensures var token := cfg.encode(SignedClaims(cfg, user, signed));
      DestroyOutcome(cfg, token, parsed, read, stored, storeUp, denylist).0 != Err(NilDereference)
  {
    var token := cfg.encode(SignedClaims(cfg, user, signed));
    NilDereferenceIff(cfg, token, parsed, read, stored, storeUp, denylist);
    assert ExpiryOf(cfg, token).Some?;
  }

  // Runs.

  /** The clock, what the store holds and has promised, and when each token was destroyed. */
  datatype State = State(now: int, keptUntil: map<string, int>, destroyedAt: map<string, int>)

  datatype Step =
    | Tick(to: int)
    | Destroy(token: string, parsed: int, read: int)
    | Drop(token: string)

  /** Destroy runs to its store command; the store drops an entry only once it has been kept as asked. */
  predicate Possible(cfg: Config, s: State, step: Step) {
    match step
    case Tick(to) => s.now <= to
    case Destroy(token, parsed, read) =>
      parsed <= read <= s.now && ParseToken(cfg, token, parsed).Ok? && ExpiryOf(cfg, token).Some?
    case Drop(token) => token in s.keptUntil && s.keptUntil[token] <= s.now
  }

  function Apply(cfg: Config, s: State, step: Step): State
    requires Possible(cfg, s, step)
  {
    match step
    case Tick(to) => s.(now := to)
    case Destroy(token, parsed, read) =>
      var asked := AskedFor(ParseToken(cfg, token, parsed).value, read).value;
      s.(keptUntil := s.keptUntil[token := s.now + asked],
         destroyedAt := if token in s.destroyedAt then s.destroyedAt else s.destroyedAt[token := s.now])
    case Drop(token) => s.(keptUntil := s.keptUntil - {token})
  }

  ghost predicate Run(cfg: Config, states: seq<State>, steps: seq<Step>) {
    && |states| == |steps| + 1 && states[0].keptUntil == map[] && states[0].destroyedAt == map[]
    && forall i :: 0 <= i < |steps| ==>
      Possible(cfg, states[i], steps[i]) && states[i + 1] == Apply(cfg, states[i], steps[i])
  }

  /** Until its expiry a destroyed token is on the denylist, and its entry has been asked to outlive the expiry. */
  ghost predicate Inv(cfg: Config, s: State) {
    && (forall t :: t in s.keptUntil ==> ExpiryOf(cfg, t).Some? && ExpiryOf(cfg, t).value <= s.keptUntil[t])
    && (forall t :: t in s.destroyedAt ==>
      ExpiryOf(cfg, t).Some? && s.destroyedAt[t] <= s.now && (s.now < ExpiryOf(cfg, t).value ==> t in s.keptUntil))
  }

  lemma StepKeepsInv(cfg: Config, s: State, step: Step)
    requires Inv(cfg, s) && Possible(cfg, s, step)
    ensures Inv(cfg, Apply(cfg, s, step))
  {
  }

  lemma {:induction false} RunKeepsInv(cfg: Config, states: seq<State>, steps: seq<Step>, i: nat)
    requires Run(cfg, states, steps) && i < |states|
    ensures Inv(cfg, states[i])
  {
    if i > 0 {
      RunKeepsInv(cfg, states, steps, i - 1);
      StepKeepsInv(cfg, states[i - 1], steps[i - 1]);
    }
  }

  lemma ParsedBeforeExpiry(cfg: Config, token: string, now: int)
    requires ParseToken(cfg, token, now).Ok? && ExpiryOf(cfg, token).Some?
    ensures now < ExpiryOf(cfg, token).value
  {
  }

  /** The call reads the clock before the expiry and the denylist after it. */
  predicate CrossesExpiry(cfg: Config, token: string, parsed: int, checked: int)
    requires ExpiryOf(cfg, token).Some?
  {
    parsed < ExpiryOf(cfg, token).value <= checked
  }

  /**
   Revocation is permanent: in every run, from the return of Destroy on, a ParseClaims call
   that does not straddle the expiry between its two halves rejects the token, at any time.
   */
  lemma DestroyedIsRejected(cfg: Config, states: seq<State>, steps: seq<Step>, i: nat, token: string, parsed: int)
    requires Run(cfg, states, steps) && i < |states|
    requires token in states[i].destroyedAt && states[i].destroyedAt[token] <= parsed <= states[i].now
    ensures ExpiryOf(cfg, token).Some?
    ensures !CrossesExpiry(cfg, token, parsed, states[i].now) ==>
      ParseOutcome(cfg, token, parsed, Some(states[i].keptUntil.Keys)).Err?
  {
    RunKeepsInv(cfg, states, steps, i);
    if ParseToken(cfg, token, parsed).Ok? {
      ParsedBeforeExpiry(cfg, token, parsed);
    }
  }

  /** A call whose two halves see one clock time rejects a destroyed token, whatever the time. */
  lemma DestroyedIsRejectedAtOnce(cfg: Config, states: seq<State>, steps: seq<Step>, i: nat, token: string)
    requires Run(cfg, states, steps) && i < |states| && token in states[i].destroyedAt
    ensures ParseOutcome(cfg, token, states[i].now, Some(states[i].keptUntil.Keys)).Err?
  {
    RunKeepsInv(cfg, states, steps, i);
    DestroyedIsRejected(cfg, states, steps, i, token, states[i].now);
  }

  /** The state of a run that destroys the token as soon as it parses, and later drops its entry as soon as it may. */
  function Destroyed(cfg: Config, token: string, at: int, checked: int): (states: seq<State>)
    requires ParseToken(cfg, token, at).Ok? && ExpiryOf(cfg, token).Some? && at <= checked
  {
    var s0 := State(at, map[], map[]);
    var s1 := Apply(cfg, s0, Destroy(token, at, at));
    var s2 := Apply(cfg, s1, Tick(checked));
    if ExpiryOf(cfg, token).value <= checked then
      assert s2.keptUntil[token] == ExpiryOf(cfg, token).value;
      [s0, s1, s2, Apply(cfg, s2, Drop(token))]
    else [s0, s1, s2]
  }

  /**
   The gap is exactly there: some run lets a destroyed token through in a call of given clock
   readings if and only if the call straddles the expiry.
   */
  lemma GapIffCrossesExpiry(cfg: Config, token: string, at: int, parsed: int, checked: int)
    requires token != "" && ParseToken(cfg, token, at).Ok? && ParseToken(cfg, token, parsed).Ok?
    requires ExpiryOf(cfg, token).Some? && at <= parsed <= checked
    ensures CrossesExpiry(cfg, token, parsed, checked) <==>
      exists states, steps, i: nat :: AcceptedAfterDestroy(cfg, states, steps, i, token, at, parsed, checked)
  {
    if CrossesExpiry(cfg, token, parsed, checked) {
      var states := Destroyed(cfg, token, at, checked);
      var steps := [Destroy(token, at, at), Tick(checked), Drop(token)];
      assert Run(cfg, states, steps);
      assert AcceptedAfterDestroy(cfg, states, steps, 3, token, at, parsed, checked);
    }
    forall states, steps, i: nat | AcceptedAfterDestroy(cfg, states, steps, i, token, at, parsed, checked)
      ensures CrossesExpiry(cfg, token, parsed, checked)
    {
      DestroyedIsRejected(cfg, states, steps, i, token, parsed);
    }
  }

  ghost predicate AcceptedAfterDestroy(cfg: Config, states: seq<State>, steps: seq<Step>, i: nat,
                                       token: string, at: int, parsed: int, checked: int)
  {
    && Run(cfg, states, steps) && i < |states| && states[i].now == checked
    && token in states[i].destroyedAt && states[i].destroyedAt[token] == at
    && ParseOutcome(cfg, token, parsed, Some(states[i].keptUntil.Keys)).Ok?
  }

  /**
   Destroy reports success with a store and without one. The token is rejected from then
   on, as long as its entry is kept, exactly when there is a store.
   */
  lemma RevokedIffStoreConfigured(cfg: Config, token: string, now: int, denylist: Option<map<string, int>>)
    requires token != "" && DestroyOutcome(cfg, token, now, now, now, true, denylist).0.Ok?
    ensures var after := DestroyOutcome(cfg, token, now, now, now, true, denylist).1;
      ParseOutcome(cfg, token, now, if after.None? then None else Some(after.value.Keys)).Err? <==> denylist.Some?
  {
  }
}
