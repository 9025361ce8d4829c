/**
  Refresh-token rotation: the key-value token store, the access-token payload,
  and runs of logins and refreshes. Signing is abstract: an access token is its
  claims and whether the server's key signed it.
 */
module RefreshTokens {
  import opened Wrappers

  datatype Claim = Null | Str(s: string) | Num(n: int) | Strs(ss: seq<string>)

  type Claims = map<string, Claim>

  datatype AccessToken = AccessToken(claims: Claims, genuine: bool)

  datatype Config = Config(expMin: nat, issuer: Option<string>, audience: Option<string>)

  /** `get_delta`, in seconds. */
  function ExpiryAt(conf: Config, now: int): int { now + 60 * conf.expMin }

  /** A configured, non-empty setting. */
  predicate IsSet(o: Option<string>) { o.Some? && o.value != "" }

  /** The optional arguments of an encoding; absent, empty or zero ones stand for the configured values. */
  datatype Overrides = Overrides(exp: Option<int>, iss: Option<string>, aud: Option<string>)

  const NO_OVERRIDES := Overrides(None, None, None)

  function Pick(given: Option<string>, configured: Option<string>): Option<string> {
    if IsSet(given) then given else configured
  }

  /** `_build_payload` */
  function BuildPayload(conf: Config, payload: Claims, now: int, given: Overrides): Claims {
    var iss, aud := Pick(given.iss, conf.issuer), Pick(given.aud, conf.audience);
    var p := if IsSet(iss) then payload["iss" := Str(iss.value)] else payload;
    var q := if IsSet(aud) then p["aud" := Str(aud.value)] else p;
    q["exp" := Num(if given.exp.Some? && given.exp.value != 0 then given.exp.value else ExpiryAt(conf, now))]
  }

  /** As `refresh_token` and the login use it. */
  function Encode(conf: Config, payload: Claims, now: int): AccessToken {
    AccessToken(BuildPayload(conf, payload, now, NO_OVERRIDES), true)
  }

  /**
    `decode` without checking expiry: a bad signature or a missing "exp" is an error. The
    configured audience does not reach the library under the name it expects, and a token
    with an audience is refused when none is expected.
   */
  function Decode(t: AccessToken): Option<Claims> {
    if t.genuine && "exp" in t.claims && t.claims["exp"] != Null && "aud" !in t.claims then Some(t.claims) else None
  }

  /** Every claim but the expiry and a given or configured issuer or audience survives encoding. */
  lemma PayloadPreserves(conf: Config, payload: Claims, now: int, given: Overrides, claim: string)
    ensures var p := BuildPayload(conf, payload, now, given);
            && (given.exp == None ==> p["exp"] == Num(ExpiryAt(conf, now)))
            && ((claim == "iss" ==> !IsSet(Pick(given.iss, conf.issuer)))
                && (claim == "aud" ==> !IsSet(Pick(given.aud, conf.audience)))
                && claim != "exp" ==>
                  (claim in p <==> claim in payload) && (claim in p ==> p[claim] == payload[claim]))
  {
  }

  /** What encoding writes: the time of expiry, and an issuer and an audience that are given or else configured. */
  lemma PayloadWrites(conf: Config, payload: Claims, now: int, given: Overrides)
    ensures var p := BuildPayload(conf, payload, now, given);
            && "exp" in p
            && (given.exp in {None, Some(0)} ==> p["exp"] == Num(now + 60 * conf.expMin))
            && (forall exp :: given.exp == Some(exp) && exp != 0 ==> p["exp"] == Num(exp))
            && (forall iss :: iss != "" && given.iss == Some(iss) ==> "iss" in p && p["iss"] == Str(iss))
            && (forall iss :: iss != "" && given.iss in {None, Some("")} && conf.issuer == Some(iss) ==>
                  "iss" in p && p["iss"] == Str(iss))
            && (forall aud :: aud != "" && given.aud == Some(aud) ==> "aud" in p && p["aud"] == Str(aud))
            && (forall aud :: aud != "" && given.aud in {None, Some("")} && conf.audience == Some(aud) ==>
                  "aud" in p && p["aud"] == Str(aud))
  {
  }

  /** What was encoded decodes again exactly when it took no audience, from the payload or the configuration. */
  lemma EncodedDecodesExactly(conf: Config, payload: Claims, now: int)
    ensures Decode(Encode(conf, payload, now)).Some? <==> "aud" !in payload && !IsSet(conf.audience)
  {
  }

  // ---------- the store ----------

  type Store = map<string, string>

  /** The store's key for a user's token. */
  function Slot(ns: string, user: string, token: string): string {
    ns + ":" + (user + "." + token)
  }

  class RedisTokenStore {
    const ns: string
    var data: Store

    constructor (ns: string)
      ensures this.ns == ns && data == map[]
    {
      this.ns := ns;
      data := map[];
    }

    /** The time to live is accepted and not used: entries never expire. */
    method Put(key: string, value: string, ttl: Option<nat>) returns (ok: bool)
      modifies this
      ensures ok && data == old(data)[ns + ":" + key := value]
    {
      data := data[ns + ":" + key := value];
      ok := true;
    }

    method Get(key: string) returns (r: Option<string>)
      ensures r.Some? <==> ns + ":" + key in data
      ensures r.Some? ==> r.value == data[ns + ":" + key]
    {
      r := if ns + ":" + key in data then Some(data[ns + ":" + key]) else None;
    }

    method Delete(key: string)
      modifies this
      ensures data == old(data) - {ns + ":" + key}
    {
      data := data - {ns + ":" + key};
    }
  }

  // ---------- one operation ----------

  /** A refresh raises, is rejected, or grants a new pair of tokens. */
  datatype Outcome = Raised | Rejected | Granted(access: AccessToken, refresh: string)

  /** The value found is compared with the user of the access token. */
  predicate Accepts(data: Store, ns: string, user: string, token: string) {
    Slot(ns, user, token) in data && data[Slot(ns, user, token)] == user
  }

  /**
    A null user is looked up as "None", and an absent value equals it; storing a new
    token for it then fails on the null value.
   */
  predicate NullMatches(data: Store, ns: string, claims: Claims, token: string)
    requires "usr" in claims
  {
    claims["usr"].Null? && Slot(ns, "None", token) !in data
  }

  /** `refresh_token`, with the token the server draws. */
  function Refreshed(conf: Config, ns: string, data: Store, access: AccessToken, refresh: string,
                     drawn: string, now: int): (Store, Outcome)
  {
    match Decode(access)
    case None => (data, Raised)
    case Some(claims) =>
      if "usr" !in claims || NullMatches(data, ns, claims, refresh) then (data, Raised)
      else if !claims["usr"].Str? || !Accepts(data, ns, claims["usr"].s, refresh) then (data, Rejected)
      else
        var user := claims["usr"].s;
        ((data - {Slot(ns, user, refresh)})[Slot(ns, user, drawn) := user], Granted(Encode(conf, claims, now), drawn))
  }

  class Auth {
    const conf: Config
    const store: RedisTokenStore

    constructor (conf: Config, store: RedisTokenStore)
      ensures this.conf == conf && this.store == store
    {
      this.conf, this.store := conf, store;
    }

    method StoreRefreshToken(username: string, drawn: string) returns (refresh: string)
      modifies store
      ensures refresh == drawn
      ensures store.data == old(store.data)[Slot(store.ns, username, drawn) := username]
    {
      var _ := store.Put(username + "." + drawn, username, None);
      return drawn;
    }

    /** `None` when decoding the access token raises. */
    method ValidateRefreshToken(access: AccessToken, refresh: string) returns (r: Option<bool>)
      ensures r.None? <==>
                || !access.genuine
                || "exp" !in access.claims || access.claims["exp"] == Null
                || "aud" in access.claims
                || "usr" !in access.claims
      ensures r.Some? ==>
                r.value == match access.claims["usr"]
                           case Str(user) => Accepts(store.data, store.ns, user, refresh)
                           case _ => NullMatches(store.data, store.ns, access.claims, refresh)
    {
      var decoded := Decode(access);
      if decoded.None? || "usr" !in decoded.value {
        return None;
      }
      match decoded.value["usr"] {
        case Str(user) =>
          var value := store.Get(user + "." + refresh);
          return Some(value == Some(user));
        case Null =>
          var value := store.Get("None" + "." + refresh);
          return Some(value == None);
        case _ =>
          // Stored values are strings, so no other claim equals one.
          return Some(false);
      }
    }

    method RefreshToken(access: AccessToken, refresh: string, drawn: string, now: int) returns (r: Outcome)
      modifies store
      ensures (store.data, r) == Refreshed(conf, store.ns, old(store.data), access, refresh, drawn, now)
    {
      var valid := ValidateRefreshToken(access, refresh);
      if valid.None? {
        return Raised;
      }
      if !valid.value {
        return Rejected;
      }
      if access.claims["usr"].Null? {
        store.Delete("None" + "." + refresh);
        assert store.data == old(store.data);
        return Raised;
      }
      var user := access.claims["usr"].s;
      store.Delete(user + "." + refresh);
      var newRefresh := StoreRefreshToken(user, drawn);
      return Granted(Encode(conf, access.claims, now), newRefresh);
    }
  }

  // ---------- what the store stands for ----------

  /** The pairs of user and token that are issued and not redeemed. */
  type Live = set<(string, string)>

  /** Generated tokens are hexadecimal: they hold no dot. */
  predicate Dotless(token: string) { '.' !in token }

  /** Key = user + "." + token and value = user, for exactly the live pairs. */
  ghost predicate Represents(data: Store, ns: string, live: Live) {
    && (forall p <- live :: Dotless(p.1) && Slot(ns, p.0, p.1) in data && data[Slot(ns, p.0, p.1)] == p.0)
    && (forall k <- data :: exists p <- live :: k == Slot(ns, p.0, p.1))
  }

  /** Users may hold dots: the key still splits in one way, at its last dot. */
  lemma SplitsAtLastDot(u: string, t: string, u': string, t': string)
    requires Dotless(t) && Dotless(t')
    ensures u + "." + t == u' + "." + t' <==> u == u' && t == t'
  {
    LastDots(u, t, u', t');
    LastDots(u', t', u, t);
    var k, k' := u + "." + t, u' + "." + t';
    assert k[..|u|] == u && k'[..|u'|] == u' && k[|u| + 1..] == t && k'[|u'| + 1..] == t';
  }

  lemma LastDots(u: string, t: string, u': string, t': string)
    requires Dotless(t)
    ensures |u| < |u'| ==> u + "." + t != u' + "." + t'
  {
    if |u| < |u'| && |u| + |t| == |u'| + |t'| {
      assert (u + "." + t)[|u'|] == t[|u'| - |u| - 1] && (u' + "." + t')[|u'|] == '.';
    }
  }

  lemma SlotsAreDistinct(ns: string, u: string, t: string, u': string, t': string)
    requires Dotless(t) && Dotless(t')
    ensures Slot(ns, u, t) == Slot(ns, u', t') <==> u == u' && t == t'
  {
    SlotsSpellAlike(ns, u, t, u', t');
    hide Slot;
    SplitsAtLastDot(u, t, u', t');
  }

  /** For one user the token is read off the key, dots or not. */
  lemma SlotsOfOneUser(ns: string, u: string, t: string, t': string)
    ensures Slot(ns, u, t) == Slot(ns, u, t') <==> t == t'
  {
    var p := ns + ":" + (u + ".");
    assert Slot(ns, u, t) == p + t && Slot(ns, u, t') == p + t';
    assert (p + t)[|p|..] == t && (p + t')[|p|..] == t';
  }

  /** A pair is accepted exactly when it is live, whatever string is presented as the token. */
  lemma AcceptedExactlyLive(data: Store, ns: string, live: Live, user: string, token: string)
    requires Represents(data, ns, live)
    ensures Accepts(data, ns, user, token) <==> (user, token) in live
  {
    hide Slot;
    if Accepts(data, ns, user, token) {
      var p :| p in live && Slot(ns, user, token) == Slot(ns, p.0, p.1);
      SlotsOfOneUser(ns, user, token, p.1);
      assert p == (user, token);
    }
  }

  lemma PutRepresents(data: Store, ns: string, live: Live, user: string, token: string)
    requires Represents(data, ns, live) && Dotless(token)
    ensures Represents(data[Slot(ns, user, token) := user], ns, live + {(user, token)})
  {
    hide Slot;
    var data', live' := data[Slot(ns, user, token) := user], live + {(user, token)};
    forall p <- live ensures Slot(ns, p.0, p.1) == Slot(ns, user, token) ==> p == (user, token) {
      SlotsAreDistinct(ns, p.0, p.1, user, token);
    }
    forall k <- data' ensures exists p <- live' :: k == Slot(ns, p.0, p.1) {
      if k == Slot(ns, user, token) {
        assert (user, token) in live';
      } else {
        var p :| p in live && k == Slot(ns, p.0, p.1);
        assert p in live';
      }
    }
  }

  lemma DeleteRepresents(data: Store, ns: string, live: Live, user: string, token: string)
    requires Represents(data, ns, live) && (user, token) in live
    ensures Represents(data - {Slot(ns, user, token)}, ns, live - {(user, token)})
  {
    hide Slot;
    var data', live' := data - {Slot(ns, user, token)}, live - {(user, token)};
    forall p <- live' ensures Slot(ns, p.0, p.1) != Slot(ns, user, token) {
      SlotsAreDistinct(ns, p.0, p.1, user, token);
    }
    forall k <- data' ensures exists p <- live' :: k == Slot(ns, p.0, p.1) {
      var p :| p in live && k == Slot(ns, p.0, p.1);
      assert p in live';
    }
  }

  // ---------- runs ----------

  datatype Op =
    | Login(user: string, drawn: string)
    | Refresh(access: AccessToken, refresh: string, drawn: string, now: int)

  /** The user a decodable access token names, when the claim is text. */
  function UserOf(access: AccessToken): Option<string> {
    if Decode(access).Some? && "usr" in access.claims && access.claims["usr"].Str? then Some(access.claims["usr"].s)
    else None
  }

  function Applied(conf: Config, ns: string, data: Store, op: Op): Store {
    match op
    case Login(user, drawn) => data[Slot(ns, user, drawn) := user]
    case Refresh(access, refresh, drawn, now) => Refreshed(conf, ns, data, access, refresh, drawn, now).0
  }

  function StoreAfter(conf: Config, ns: string, ops: seq<Op>): Store {
    if ops == [] then map[] else Applied(conf, ns, StoreAfter(conf, ns, ops[..|ops| - 1]), ops[|ops| - 1])
  }

  /** The refresh at position `i` of a run was granted. */
  predicate GrantedAt(conf: Config, ns: string, ops: seq<Op>, i: nat)
    requires i < |ops|
  {
    && ops[i].Refresh? && UserOf(ops[i].access).Some?
    && Accepts(StoreAfter(conf, ns, ops[..i]), ns, UserOf(ops[i].access).value, ops[i].refresh)
  }

  predicate IssuedAt(conf: Config, ns: string, ops: seq<Op>, i: nat, user: string, token: string)
    requires i < |ops|
  {
    && ops[i].drawn == token
    && if ops[i].Login? then ops[i].user == user else GrantedAt(conf, ns, ops, i) && UserOf(ops[i].access) == Some(user)
  }

  predicate RedeemedAt(conf: Config, ns: string, ops: seq<Op>, i: nat, user: string, token: string)
    requires i < |ops|
  {
    GrantedAt(conf, ns, ops, i) && UserOf(ops[i].access) == Some(user) && ops[i].refresh == token
  }

  predicate Issued(conf: Config, ns: string, ops: seq<Op>, user: string, token: string) {
    exists i | 0 <= i < |ops| :: IssuedAt(conf, ns, ops, i, user, token)
  }

  predicate Redeemed(conf: Config, ns: string, ops: seq<Op>, user: string, token: string) {
    exists i | 0 <= i < |ops| :: RedeemedAt(conf, ns, ops, i, user, token)
  }

  /** Every token drawn in a run is hexadecimal and drawn once. */
  predicate FreshDraws(ops: seq<Op>) {
    && (forall i | 0 <= i < |ops| :: Dotless(ops[i].drawn))
    && (forall i, j | 0 <= i < j < |ops| :: ops[i].drawn != ops[j].drawn)
  }

  /** The live pairs, read off the history alone. */
  function LiveAfter(conf: Config, ns: string, ops: seq<Op>): Live {
    if ops == [] then {}
    else
      var n := |ops| - 1;
      var live := LiveAfter(conf, ns, ops[..n]);
      match ops[n]
      case Login(user, drawn) => live + {(user, drawn)}
      case Refresh(access, refresh, drawn, _) =>
        if GrantedAt(conf, ns, ops, n)
        then (live - {(UserOf(access).value, refresh)}) + {(UserOf(access).value, drawn)}
        else live
  }

  lemma AppliedRefresh(conf: Config, ns: string, data: Store, access: AccessToken, refresh: string,
                       drawn: string, now: int)
    ensures var r := Refreshed(conf, ns, data, access, refresh, drawn, now);
            if UserOf(access).Some? && Accepts(data, ns, UserOf(access).value, refresh) then
              var user := UserOf(access).value;
              r.0 == (data - {Slot(ns, user, refresh)})[Slot(ns, user, drawn) := user]
            else r.0 == data && !r.1.Granted?
  {
  }

  lemma {:induction false} StoreRepresentsLive(conf: Config, ns: string, ops: seq<Op>)
    requires FreshDraws(ops)
    ensures Represents(StoreAfter(conf, ns, ops), ns, LiveAfter(conf, ns, ops))
  {
    if ops != [] {
      hide Slot, Refreshed, Represents, Accepts;
      var n := |ops| - 1;
      StoreRepresentsLive(conf, ns, ops[..n]);
      var data, live := StoreAfter(conf, ns, ops[..n]), LiveAfter(conf, ns, ops[..n]);
      match ops[n]
      case Login(user, drawn) => PutRepresents(data, ns, live, user, drawn);
      case Refresh(access, refresh, drawn, now) =>
        AppliedRefresh(conf, ns, data, access, refresh, drawn, now);
        if GrantedAt(conf, ns, ops, n) {
          var user := UserOf(access).value;
          AcceptedExactlyLive(data, ns, live, user, refresh);
          DeleteRepresents(data, ns, live, user, refresh);
          PutRepresents(data - {Slot(ns, user, refresh)}, ns, live - {(user, refresh)}, user, drawn);
        }
    } else {
      assert Represents(map[], ns, {});
    }
  }

  lemma PrefixEvents(conf: Config, ns: string, ops: seq<Op>, i: nat, user: string, token: string)
    requires i < |ops| - 1
    ensures var before := ops[..|ops| - 1];
            && IssuedAt(conf, ns, before, i, user, token) == IssuedAt(conf, ns, ops, i, user, token)
            && RedeemedAt(conf, ns, before, i, user, token) == RedeemedAt(conf, ns, ops, i, user, token)
  {
    assert ops[..|ops| - 1][..i] == ops[..i];
  }

  lemma HistorySteps(conf: Config, ns: string, ops: seq<Op>, user: string, token: string)
    requires ops != []
    ensures var before, n := ops[..|ops| - 1], |ops| - 1;
            && (Issued(conf, ns, ops, user, token) <==>
                  Issued(conf, ns, before, user, token) || IssuedAt(conf, ns, ops, n, user, token))
            && (Redeemed(conf, ns, ops, user, token) <==>
                  Redeemed(conf, ns, before, user, token) || RedeemedAt(conf, ns, ops, n, user, token))
  {
    hide IssuedAt, RedeemedAt;
    var before, n := ops[..|ops| - 1], |ops| - 1;
    forall i | 0 <= i < n
      ensures IssuedAt(conf, ns, before, i, user, token) == IssuedAt(conf, ns, ops, i, user, token)
      ensures RedeemedAt(conf, ns, before, i, user, token) == RedeemedAt(conf, ns, ops, i, user, token)
    {
      PrefixEvents(conf, ns, ops, i, user, token);
    }
  }

  /** Nothing is issued or redeemed but what was drawn before. */
  lemma {:induction false} HistoryUsesDraws(conf: Config, ns: string, ops: seq<Op>, user: string, token: string)
    requires FreshDraws(ops)
    requires forall i | 0 <= i < |ops| :: ops[i].drawn != token
    ensures !Issued(conf, ns, ops, user, token) && !Redeemed(conf, ns, ops, user, token)
    ensures (user, token) !in LiveAfter(conf, ns, ops)
  {
    if ops != [] {
      var n := |ops| - 1;
      HistoryUsesDraws(conf, ns, ops[..n], user, token);
      HistorySteps(conf, ns, ops, user, token);
      StoreRepresentsLive(conf, ns, ops[..n]);
      hide Slot, Refreshed, Represents, Accepts;
      AcceptedExactlyLive(StoreAfter(conf, ns, ops[..n]), ns, LiveAfter(conf, ns, ops[..n]), user, token);
    }
  }

  lemma {:induction false} LiveIsHistory(conf: Config, ns: string, ops: seq<Op>, user: string, token: string)
    requires FreshDraws(ops)
    ensures (user, token) in LiveAfter(conf, ns, ops) <==>
            Issued(conf, ns, ops, user, token) && !Redeemed(conf, ns, ops, user, token)
  {
    if ops != [] {
      var n := |ops| - 1;
      var before := ops[..n];
      LiveIsHistory(conf, ns, before, user, token);
      HistorySteps(conf, ns, ops, user, token);
      StoreRepresentsLive(conf, ns, before);
      AcceptedExactlyLive(StoreAfter(conf, ns, before), ns, LiveAfter(conf, ns, before), user, token);
      if ops[n].drawn == token {
        HistoryUsesDraws(conf, ns, before, user, token);
      }
      hide Slot, Refreshed, Represents, StoreAfter, Issued, Redeemed;
    }
  }

  /** Over any run of logins and refreshes, a pair is accepted iff it was issued and not yet redeemed. */
  lemma AcceptedIffIssuedNotRedeemed(conf: Config, ns: string, ops: seq<Op>, user: string, token: string)
    requires FreshDraws(ops)
    ensures Accepts(StoreAfter(conf, ns, ops), ns, user, token) <==>
            Issued(conf, ns, ops, user, token) && !Redeemed(conf, ns, ops, user, token)
  {
    StoreRepresentsLive(conf, ns, ops);
    AcceptedExactlyLive(StoreAfter(conf, ns, ops), ns, LiveAfter(conf, ns, ops), user, token);
    LiveIsHistory(conf, ns, ops, user, token);
  }

  // ---------- one refresh ----------

  function TokensOf(live: Live, user: string): set<string> {
    set p <- live | p.0 == user :: p.1
  }

  /**
    A refresh at any point of a run: a failed one leaves the store unchanged; a
    granted one with a fresh token keeps every user's number of live tokens.
   */
  lemma RefreshKeepsCounts(conf: Config, ns: string, ops: seq<Op>, user: string)
    requires FreshDraws(ops) && ops != [] && ops[|ops| - 1].Refresh?
    ensures var n := |ops| - 1;
            && (!GrantedAt(conf, ns, ops, n) ==> StoreAfter(conf, ns, ops) == StoreAfter(conf, ns, ops[..n]))
            && |TokensOf(LiveAfter(conf, ns, ops), user)| == |TokensOf(LiveAfter(conf, ns, ops[..n]), user)|
            && (GrantedAt(conf, ns, ops, n) && UserOf(ops[n].access) != Some(user) ==>
                  TokensOf(LiveAfter(conf, ns, ops), user) == TokensOf(LiveAfter(conf, ns, ops[..n]), user))
  {
    var n := |ops| - 1;
    var op := ops[n];
    var data, live := StoreAfter(conf, ns, ops[..n]), LiveAfter(conf, ns, ops[..n]);
    AppliedRefresh(conf, ns, data, op.access, op.refresh, op.drawn, op.now);
    if GrantedAt(conf, ns, ops, n) {
      var u := UserOf(op.access).value;
      StoreRepresentsLive(conf, ns, ops[..n]);
      AcceptedExactlyLive(data, ns, live, u, op.refresh);
      HistoryUsesDraws(conf, ns, ops[..n], u, op.drawn);
      TokensAfterSwap(live, u, op.refresh, op.drawn, user);
    }
  }

  lemma TokensAfterSwap(live: Live, u: string, redeemed: string, drawn: string, user: string)
    requires (u, redeemed) in live && (u, drawn) !in live
    ensures var live' := (live - {(u, redeemed)}) + {(u, drawn)};
            && |TokensOf(live', user)| == |TokensOf(live, user)|
            && (user != u ==> TokensOf(live', user) == TokensOf(live, user))
  {
    var live' := (live - {(u, redeemed)}) + {(u, drawn)};
    var had, has := TokensOf(live, user), TokensOf(live', user);
    forall t: string
      ensures t in has <==> if user == u then t == drawn || (t in had && t != redeemed) else t in had
    {
      TokenOf(live, user, t);
      TokenOf(live', user, t);
    }
    hide TokensOf;
    TokenOf(live, u, redeemed);
    TokenOf(live, u, drawn);
    if user == u {
      assert has == (had - {redeemed}) + {drawn};
    } else {
      assert has == had;
    }
  }

  lemma TokenOf(live: Live, user: string, t: string)
    ensures t in TokensOf(live, user) <==> (user, t) in live
  {
    if (user, t) in live {
      var p := (user, t);
      assert p in live && p.0 == user && p.1 == t;
    }
  }

  /**
    Rotation: the granted token is live for the same user and the redeemed one is refused
    from then on; the granted access token keeps the claims and can be refreshed in turn,
    exactly when no audience is configured.
   */
  lemma Rotation(conf: Config, ns: string, data: Store, access: AccessToken, refresh: string, drawn: string, now: int)
    requires Refreshed(conf, ns, data, access, refresh, drawn, now).1.Granted?
    requires drawn != refresh
    ensures var (data', r) := Refreshed(conf, ns, data, access, refresh, drawn, now);
            && UserOf(access).Some?
            && UserOf(r.access) == (if IsSet(conf.audience) then None else UserOf(access))
            && Accepts(data', ns, UserOf(access).value, r.refresh)
            && !Accepts(data', ns, UserOf(access).value, refresh)
            && (forall claim :: claim !in {"exp", "iss", "aud"} ==>
                  (claim in r.access.claims <==> claim in access.claims)
                  && (claim in access.claims ==> r.access.claims[claim] == access.claims[claim]))
  {
    hide Slot;
    var user := UserOf(access).value;
    SlotsOfOneUser(ns, user, refresh, drawn);
  }

  /** With an audience configured no granted pair can be refreshed: the second refresh raises and changes nothing. */
  lemma AudienceEndsRotation(conf: Config, ns: string, data: Store, access: AccessToken, refresh: string,
                             drawn: string, now: int, drawn': string, now': int)
    requires Refreshed(conf, ns, data, access, refresh, drawn, now).1.Granted?
    ensures var (data', r) := Refreshed(conf, ns, data, access, refresh, drawn, now);
            Refreshed(conf, ns, data', r.access, r.refresh, drawn', now').1.Granted? <==> !IsSet(conf.audience)
    ensures var (data', r) := Refreshed(conf, ns, data, access, refresh, drawn, now);
            IsSet(conf.audience) ==> Refreshed(conf, ns, data', r.access, r.refresh, drawn', now') == (data', Raised)
  {
    hide Slot;
  }

  /** The token names a text user for whom the refresh token is stored. */
  predicate Redeemable(ns: string, data: Store, access: AccessToken, refresh: string) {
    && access.genuine
    && "exp" in access.claims && access.claims["exp"] != Null
    && "aud" !in access.claims
    && "usr" in access.claims
    && match access.claims["usr"]
       case Str(user) =>
         var key := ns + ":" + user + "." + refresh;
         key in data && data[key] == user
       case _ => false
  }

  /**
    A refresh grants exactly for a genuine token with an expiry and no audience that names a
    text user with this refresh token stored. Otherwise it changes nothing; it raises exactly
    for a token that does not decode or has no user, and for a null user whom nothing is stored for.
   */
  lemma GrantsExactly(conf: Config, ns: string, data: Store, access: AccessToken, refresh: string,
                      drawn: string, now: int)
    ensures var (data', r) := Refreshed(conf, ns, data, access, refresh, drawn, now);
            && (r.Granted? <==> Redeemable(ns, data, access, refresh))
            && (!r.Granted? ==> data' == data)
            && (r.Raised? <==>
                  || !access.genuine
                  || "exp" !in access.claims || access.claims["exp"] == Null
                  || "aud" in access.claims
                  || "usr" !in access.claims
                  || (access.claims["usr"] == Null && ns + ":None." + refresh !in data))
  {
    if Decode(access).Some? && "usr" in access.claims && access.claims["usr"].Str? {
      SlotSpelled(ns, access.claims["usr"].s, refresh);
    }
    SlotSpelled(ns, "None", refresh);
    assert ns + ":" + "None" + "." + refresh == ns + ":None." + refresh;
    hide Slot;
  }

  lemma SlotSpelled(ns: string, user: string, token: string)
    ensures Slot(ns, user, token) == ns + ":" + user + "." + token
  {
  }

  /**
    What a granted refresh changes: the redeemed key goes, the key of the drawn token holds the
    user, and nothing else is touched; the new access token is genuine and expires anew.
   */
  lemma GrantWrites(conf: Config, ns: string, data: Store, access: AccessToken, refresh: string,
                    drawn: string, now: int)
    requires Redeemable(ns, data, access, refresh)
    ensures var (data', r) := Refreshed(conf, ns, data, access, refresh, drawn, now);
            var user := access.claims["usr"].s;
            var gone, added := ns + ":" + user + "." + refresh, ns + ":" + user + "." + drawn;
            && data'.Keys == (data.Keys - {gone}) + {added}
            && data'[added] == user
            && (forall k <- data' :: k != added ==> data'[k] == data[k])
            && r.Granted? && r.refresh == drawn
            && r.access.genuine
            && "usr" in r.access.claims && r.access.claims["usr"] == Str(user)
            && "exp" in r.access.claims && r.access.claims["exp"] == Num(now + 60 * conf.expMin)
  {
    var user := access.claims["usr"].s;
    SlotSpelled(ns, user, refresh);
    SlotSpelled(ns, user, drawn);
    hide Slot;
  }

  // ---------- a null user ----------

  /** An access token that decodes and whose user is null. */
  predicate HasNullUser(access: AccessToken) {
    Decode(access).Some? && "usr" in access.claims && access.claims["usr"] == Null
  }

  /** A live pair whose key reads as that of a user called "None" with this token. */
  ghost predicate LiveAsNone(conf: Config, ns: string, ops: seq<Op>, token: string) {
    exists u, t ::
      u + "." + t == "None" + "." + token && Issued(conf, ns, ops, u, t) && !Redeemed(conf, ns, ops, u, t)
  }

  /**
    After any run a token with a null user validates exactly when no live pair's key reads as
    that of a user called "None" with the refresh token presented, whatever string that is;
    whether it validates or not, refreshing it grants nothing and changes nothing.
   */
  lemma NullUserValidatesExactly(conf: Config, ns: string, ops: seq<Op>, access: AccessToken, token: string)
    requires FreshDraws(ops) && HasNullUser(access)
    ensures NullMatches(StoreAfter(conf, ns, ops), ns, access.claims, token) <==> !LiveAsNone(conf, ns, ops, token)
    ensures forall drawn, now ::
              var (data', r) := Refreshed(conf, ns, StoreAfter(conf, ns, ops), access, token, drawn, now);
              data' == StoreAfter(conf, ns, ops) && !r.Granted?
  {
    var data, live := StoreAfter(conf, ns, ops), LiveAfter(conf, ns, ops);
    StoreRepresentsLive(conf, ns, ops);
    hide Slot, StoreAfter, LiveAfter, Issued, Redeemed;
    forall u, t ensures (u, t) in live <==> Issued(conf, ns, ops, u, t) && !Redeemed(conf, ns, ops, u, t) {
      LiveIsHistory(conf, ns, ops, u, t);
    }
    forall u, t ensures Slot(ns, u, t) == Slot(ns, "None", token) <==> u + "." + t == "None" + "." + token {
      SlotsSpellAlike(ns, u, t, "None", token);
    }
    if Slot(ns, "None", token) in data {
      var p :| p in live && Slot(ns, "None", token) == Slot(ns, p.0, p.1);
      assert (p.0, p.1) in live;
    }
  }

  lemma SlotsSpellAlike(ns: string, u: string, t: string, u': string, t': string)
    ensures Slot(ns, u, t) == Slot(ns, u', t') <==> u + "." + t == u' + "." + t'
  {
    var k, k' := u + "." + t, u' + "." + t';
    assert (ns + ":" + k)[|ns| + 1..] == k && (ns + ":" + k')[|ns| + 1..] == k';
  }

  /** Such a token, validated by an empty store. */
  lemma NullUserExample(conf: Config, ns: string, token: string, drawn: string, now: int)
    ensures var access := AccessToken(map["usr" := Null, "exp" := Num(now)], true);
            && HasNullUser(access)
            && NullMatches(map[], ns, access.claims, token)
            && Refreshed(conf, ns, map[], access, token, drawn, now) == (map[], Raised)
  {
  }
}
