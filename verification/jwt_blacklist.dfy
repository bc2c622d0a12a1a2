/** app/models/jwt_blacklist.rb: the table of revoked token ids. Rows are
    only ever added by this class, never removed or changed. */
module JwtBlacklist {
  import opened Wrappers

  /** A token payload as far as revocation reads it (`jti` may be missing). */
  datatype Payload = Payload(jti: Option<string>, exp: int)

  /** A jwt_blacklists row: the revoked token id and its expiry time. */
  datatype Record = Record(jti: Option<string>, exp: int)

  /** The table's rows in insertion order. */
  type Table = seq<Record>

  /** Some row carries this token id (`exists?(jti:)`, `find_by(jti:).present?`;
      a missing id matches rows whose id is NULL). */
  predicate HasJti(t: Table, jti: Option<string>) {
    exists i :: 0 <= i < |t| && t[i].jti == jti
  }

  /** `revoked?(payload)` as a scan of the rows. */
  method IsRevoked(t: Table, p: Payload) returns (revoked: bool)
    ensures revoked <==> HasJti(t, p.jti)
  {
    var i := 0;
    while i < |t|
      invariant 0 <= i <= |t|
      invariant forall j :: 0 <= j < i ==> t[j].jti != p.jti
    {
      if t[i].jti == p.jti {
        return true;
      }
      i := i + 1;
    }
    return false;
  }

  /** `revoke(payload)`: stores the payload's id together with its expiry. */
  function Revoke(t: Table, p: Payload): (t': Table)
    ensures |t'| == |t| + 1 && t'[..|t|] == t
    ensures Record(p.jti, p.exp) in t'
    ensures multiset(t') == multiset(t) + multiset{Record(p.jti, p.exp)}
  {
    t + [Record(p.jti, p.exp)]
  }

  /** After `revoke(p)`, `revoked?(p)` holds. */
  lemma RevokeThenRevoked(t: Table, p: Payload)
    ensures HasJti(Revoke(t, p), p.jti)
  {
    assert Revoke(t, p)[|t|].jti == p.jti;
  }

  /** Revocation is monotone and local: ids revoked before stay revoked, and
      the answer for every other id is unchanged. */
  lemma RevokeOnlyAdds(t: Table, p: Payload, other: Option<string>)
    ensures HasJti(t, other) ==> HasJti(Revoke(t, p), other)
    ensures other != p.jti ==> (HasJti(Revoke(t, p), other) <==> HasJti(t, other))
  {
    var t' := Revoke(t, p);
    if HasJti(t, other) {
      var i :| 0 <= i < |t| && t[i].jti == other;
      assert t'[i] == t[i];
    }
    if other != p.jti && HasJti(t', other) {
      var i :| 0 <= i < |t'| && t'[i].jti == other;
      assert i < |t| && t[i] == t'[i];
    }
  }
}
