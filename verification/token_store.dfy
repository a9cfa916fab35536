/** The Redis-backed token store (`TokenService`): one key space holding the
    live access token and refresh token per user and a blacklist keyed by the
    raw token, told apart only by their key prefixes. Expiry of entries by the
    backend's TTL is not modelled; each entry records the TTL it was written
    with. */
module TokenStore {
  import opened Wrappers

  const AccessTokenPrefix: string := "access_token:"
  const RefreshTokenPrefix: string := "refresh_token:"
  const BlacklistPrefix: string := "blacklist:"
  const BlacklistMarker: string := "blacklisted"

  /** A Redis value together with the TTL (milliseconds) it was set with. */
  datatype Entry = Entry(value: string, ttlMillis: int)

  type Redis = map<string, Entry>

  function AccessKey(username: string): string { AccessTokenPrefix + username }
  function RefreshKey(username: string): string { RefreshTokenPrefix + username }
  function BlacklistKey(token: string): string { BlacklistPrefix + token }

  function Lookup(r: Redis, key: string): Option<string> {
    if key in r then Some(r[key].value) else None
  }

  function GetAccessToken(r: Redis, username: string): Option<string> {
    Lookup(r, AccessKey(username))
  }

  function GetRefreshToken(r: Redis, username: string): Option<string> {
    Lookup(r, RefreshKey(username))
  }

  predicate IsBlacklisted(r: Redis, token: string) {
    BlacklistKey(token) in r
  }

  /** The three namespaces never share a key, and each is injective in the
      user name or token it is built from. */
  lemma {:induction false} KeysDistinct(u: string, v: string, t: string, t': string)
    ensures AccessKey(u) != RefreshKey(v)
    ensures AccessKey(u) != BlacklistKey(t)
    ensures RefreshKey(u) != BlacklistKey(t)
    ensures AccessKey(u) == AccessKey(v) ==> u == v
    ensures RefreshKey(u) == RefreshKey(v) ==> u == v
    ensures BlacklistKey(t) == BlacklistKey(t') ==> t == t'
  {
    assert AccessKey(u)[0] == 'a';
    assert RefreshKey(v)[0] == 'r';
    assert BlacklistKey(t)[0] == 'b';
    assert AccessKey(u)[|AccessTokenPrefix|..] == u;
    assert AccessKey(v)[|AccessTokenPrefix|..] == v;
    assert RefreshKey(u)[|RefreshTokenPrefix|..] == u;
    assert RefreshKey(v)[|RefreshTokenPrefix|..] == v;
    assert BlacklistKey(t)[|BlacklistPrefix|..] == t;
    assert BlacklistKey(t')[|BlacklistPrefix|..] == t';
  }

  /** Two stores agree on every user's tokens and on the blacklist. */
  ghost predicate SameTokensExcept(r: Redis, r': Redis, users: set<string>) {
    && (forall u :: u !in users ==> GetAccessToken(r', u) == GetAccessToken(r, u))
    && (forall u :: u !in users ==> GetRefreshToken(r', u) == GetRefreshToken(r, u))
  }

  function SaveAccessToken(r: Redis, username: string, token: string, ttlMillis: int): (r': Redis)
    ensures GetAccessToken(r', username) == Some(token)
    ensures AccessKey(username) in r' && r'[AccessKey(username)].ttlMillis == ttlMillis
    ensures forall u :: u != username ==> GetAccessToken(r', u) == GetAccessToken(r, u)
    ensures forall u :: GetRefreshToken(r', u) == GetRefreshToken(r, u)
    ensures forall t :: IsBlacklisted(r', t) <==> IsBlacklisted(r, t)
  {
    var r' := r[AccessKey(username) := Entry(token, ttlMillis)];
    assert forall u :: u != username ==> GetAccessToken(r', u) == GetAccessToken(r, u) by {
      forall u | u != username ensures GetAccessToken(r', u) == GetAccessToken(r, u) {
        KeysDistinct(username, u, [], []);
      }
    }
    assert forall u :: GetRefreshToken(r', u) == GetRefreshToken(r, u) by {
      forall u ensures GetRefreshToken(r', u) == GetRefreshToken(r, u) {
        KeysDistinct(username, u, [], []);
      }
    }
    assert forall t :: IsBlacklisted(r', t) <==> IsBlacklisted(r, t) by {
      forall t ensures IsBlacklisted(r', t) <==> IsBlacklisted(r, t) {
        KeysDistinct(username, username, t, t);
      }
    }
    r'
  }

  function SaveRefreshToken(r: Redis, username: string, token: string, ttlMillis: int): (r': Redis)
    ensures GetRefreshToken(r', username) == Some(token)
    ensures RefreshKey(username) in r' && r'[RefreshKey(username)].ttlMillis == ttlMillis
    ensures forall u :: u != username ==> GetRefreshToken(r', u) == GetRefreshToken(r, u)
    ensures forall u :: GetAccessToken(r', u) == GetAccessToken(r, u)
    ensures forall t :: IsBlacklisted(r', t) <==> IsBlacklisted(r, t)
  {
    var r' := r[RefreshKey(username) := Entry(token, ttlMillis)];
    assert forall u :: u != username ==> GetRefreshToken(r', u) == GetRefreshToken(r, u) by {
      forall u | u != username ensures GetRefreshToken(r', u) == GetRefreshToken(r, u) {
        KeysDistinct(username, u, [], []);
      }
    }
    assert forall u :: GetAccessToken(r', u) == GetAccessToken(r, u) by {
      forall u ensures GetAccessToken(r', u) == GetAccessToken(r, u) {
        KeysDistinct(u, username, [], []);
      }
    }
    assert forall t :: IsBlacklisted(r', t) <==> IsBlacklisted(r, t) by {
      forall t ensures IsBlacklisted(r', t) <==> IsBlacklisted(r, t) {
        KeysDistinct(username, username, t, t);
      }
    }
    r'
  }

  function AddToBlacklist(r: Redis, token: string, ttlMillis: int): (r': Redis)
    ensures IsBlacklisted(r', token)
    ensures r'[BlacklistKey(token)] == Entry(BlacklistMarker, ttlMillis)
    ensures forall t :: t != token ==> (IsBlacklisted(r', t) <==> IsBlacklisted(r, t))
    ensures SameTokensExcept(r, r', {})
  {
    var r' := r[BlacklistKey(token) := Entry(BlacklistMarker, ttlMillis)];
    assert forall t :: t != token ==> (IsBlacklisted(r', t) <==> IsBlacklisted(r, t)) by {
      forall t | t != token ensures IsBlacklisted(r', t) <==> IsBlacklisted(r, t) {
        KeysDistinct([], [], token, t);
      }
    }
    assert SameTokensExcept(r, r', {}) by {
      forall u ensures GetAccessToken(r', u) == GetAccessToken(r, u)
        && GetRefreshToken(r', u) == GetRefreshToken(r, u) {
        KeysDistinct(u, u, token, token);
      }
    }
    r'
  }

  function DeleteUserTokens(r: Redis, username: string): (r': Redis)
    ensures GetAccessToken(r', username).None? && GetRefreshToken(r', username).None?
    ensures SameTokensExcept(r, r', {username})
    ensures forall t :: IsBlacklisted(r', t) <==> IsBlacklisted(r, t)
  {
    var r' := r - {AccessKey(username), RefreshKey(username)};
    assert SameTokensExcept(r, r', {username}) by {
      forall u | u != username ensures GetAccessToken(r', u) == GetAccessToken(r, u)
        && GetRefreshToken(r', u) == GetRefreshToken(r, u) {
        KeysDistinct(u, username, [], []);
        KeysDistinct(username, u, [], []);
      }
    }
    assert forall t :: IsBlacklisted(r', t) <==> IsBlacklisted(r, t) by {
      forall t ensures IsBlacklisted(r', t) <==> IsBlacklisted(r, t) {
        KeysDistinct(username, username, t, t);
      }
    }
    r'
  }

  function DeleteAccessToken(r: Redis, username: string): (r': Redis)
    ensures GetAccessToken(r', username).None?
    ensures forall u :: u != username ==> GetAccessToken(r', u) == GetAccessToken(r, u)
    ensures forall u :: GetRefreshToken(r', u) == GetRefreshToken(r, u)
    ensures forall t :: IsBlacklisted(r', t) <==> IsBlacklisted(r, t)
  {
    var r' := r - {AccessKey(username)};
    assert forall u :: u != username ==> GetAccessToken(r', u) == GetAccessToken(r, u) by {
      forall u | u != username ensures GetAccessToken(r', u) == GetAccessToken(r, u) {
        KeysDistinct(username, u, [], []);
      }
    }
    assert forall u :: GetRefreshToken(r', u) == GetRefreshToken(r, u) by {
      forall u ensures GetRefreshToken(r', u) == GetRefreshToken(r, u) {
        KeysDistinct(username, u, [], []);
      }
    }
    assert forall t :: IsBlacklisted(r', t) <==> IsBlacklisted(r, t) by {
      forall t ensures IsBlacklisted(r', t) <==> IsBlacklisted(r, t) {
        KeysDistinct(username, username, t, t);
      }
    }
    r'
  }

  function DeleteRefreshToken(r: Redis, username: string): (r': Redis)
    ensures GetRefreshToken(r', username).None?
    ensures forall u :: u != username ==> GetRefreshToken(r', u) == GetRefreshToken(r, u)
    ensures forall u :: GetAccessToken(r', u) == GetAccessToken(r, u)
    ensures forall t :: IsBlacklisted(r', t) <==> IsBlacklisted(r, t)
  {
    var r' := r - {RefreshKey(username)};
    assert forall u :: u != username ==> GetRefreshToken(r', u) == GetRefreshToken(r, u) by {
      forall u | u != username ensures GetRefreshToken(r', u) == GetRefreshToken(r, u) {
        KeysDistinct(username, u, [], []);
      }
    }
    assert forall u :: GetAccessToken(r', u) == GetAccessToken(r, u) by {
      forall u ensures GetAccessToken(r', u) == GetAccessToken(r, u) {
        KeysDistinct(u, username, [], []);
      }
    }
    assert forall t :: IsBlacklisted(r', t) <==> IsBlacklisted(r, t) by {
      forall t ensures IsBlacklisted(r', t) <==> IsBlacklisted(r, t) {
        KeysDistinct(username, username, t, t);
      }
    }
    r'
  }

  /** Saving twice keeps only the later token of that kind. */
  lemma SaveOverwrites(r: Redis, username: string, first: string, second: string, ttl1: int, ttl2: int)
    ensures GetAccessToken(SaveAccessToken(SaveAccessToken(r, username, first, ttl1), username, second, ttl2), username) == Some(second)
    ensures GetRefreshToken(SaveRefreshToken(SaveRefreshToken(r, username, first, ttl1), username, second, ttl2), username) == Some(second)
  {
  }

  /** Only a token that was added is reported as blacklisted. */
  lemma {:induction false} BlacklistExactlyAdded(r: Redis, added: string, t: string, ttl: int)
    requires !IsBlacklisted(r, t)
    ensures IsBlacklisted(AddToBlacklist(r, added, ttl), t) <==> t == added
  {
  }

  /** Deleting a user's tokens twice is the same as deleting them once. */
  lemma {:induction false} DeleteUserTokensIdempotent(r: Redis, username: string)
    ensures DeleteUserTokens(DeleteUserTokens(r, username), username) == DeleteUserTokens(r, username)
  {
  }
}
