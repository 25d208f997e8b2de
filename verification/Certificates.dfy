/** The validity window of internal/bastion/ca.go, and why a certificate is never valid at
    an instant when its grant is not. */
module Certificates {
  import opened Prelude
  import opened Grants
  import opened GrantRuns

  const SECOND: int := 1_000_000_000
  const TWO64: int := 0x1_0000_0000_0000_0000

  /** `Time.Unix`: whole seconds, rounded down. */
  function UnixSeconds(t: int): int {
    t / SECOND
  }

  /** The conversion of an `int64` to a `uint64`. */
  function ToUint64(n: int): nat {
    n % TWO64
  }

  datatype Certificate = Certificate(
    keyId: string,
    validPrincipals: seq<string>,
    validAfter: nat,
    validBefore: nat,
    target: string)

  datatype IssueError = KeyRequired | GrantRequired | GrantExpired

  function IssueUserCertificate(hasKey: bool, grant: Option<Grant>, now: int): Result<Certificate, IssueError> {
    if !hasKey then Failure(KeyRequired)
    else if grant.None? then Failure(GrantRequired)
    else if !(grant.value.expiresAt > now) then Failure(GrantExpired)
    else
      var g := grant.value;
      Success(Certificate(g.id, [g.principal], ToUint64(UnixSeconds(now)), ToUint64(UnixSeconds(g.expiresAt)), g.target))
  }

  /** A certificate is issued exactly for a key and a grant strictly before its expiry; the
      first of these that is missing is what the refusal names. */
  lemma IssuedExactly(hasKey: bool, grant: Option<Grant>, now: int)
    ensures var r := IssueUserCertificate(hasKey, grant, now);
            && (r.Success? <==> hasKey && grant.Some? && now < grant.value.expiresAt)
            && (r == Failure(KeyRequired) <==> !hasKey)
            && (r == Failure(GrantRequired) <==> hasKey && grant == None)
  {
  }

  /** The certificate's window, in seconds, contains the instant `t`. */
  predicate ValidAt(c: Certificate, t: int) {
    c.validAfter <= UnixSeconds(t) < c.validBefore
  }

  /** Instants whose Unix second fits Go's `int64`. */
  predicate Representable(t: int) {
    -TWO64 / 2 <= UnixSeconds(t) < TWO64 / 2
  }

  /** The window closes before the grant does, also where the conversion wraps around. */
  lemma WindowInsideGrant(g: Grant, now: int, t: int)
    requires Representable(now) && Representable(g.expiresAt) && Representable(t)
    requires IssueUserCertificate(true, Some(g), now).Success?
    requires ValidAt(IssueUserCertificate(true, Some(g), now).value, t)
    ensures t < g.expiresAt && UnixSeconds(now) <= UnixSeconds(t)
  {
    var a, b, u := UnixSeconds(now), UnixSeconds(g.expiresAt), UnixSeconds(t);
    assert a <= b;
    assert ToUint64(a) == if a >= 0 then a else a + TWO64;
    assert ToUint64(b) == if b >= 0 then b else b + TWO64;
    assert u < b;
    assert t < (u + 1) * SECOND <= b * SECOND <= g.expiresAt;
  }

  /** The window is that whole: from the second of issue on, up to the second of the grant's
      expiry, for any time of issue since 1970. */
  lemma WindowExactly(g: Grant, now: int, t: int)
    requires 0 <= now && Representable(now) && Representable(g.expiresAt)
    requires IssueUserCertificate(true, Some(g), now).Success?
    ensures ValidAt(IssueUserCertificate(true, Some(g), now).value, t)
       <==> now - now % SECOND <= t < g.expiresAt - g.expiresAt % SECOND
  {
    var a, b := UnixSeconds(now), UnixSeconds(g.expiresAt);
    assert 0 <= a <= b && ToUint64(a) == a && ToUint64(b) == b;
    assert a * SECOND == now - now % SECOND && b * SECOND == g.expiresAt - g.expiresAt % SECOND;
    WholeSeconds(t, a);
    WholeSeconds(t, b);
  }

  lemma WholeSeconds(t: int, n: int)
    ensures n <= UnixSeconds(t) <==> n * SECOND <= t
  {
    assert UnixSeconds(t) * SECOND <= t < (UnixSeconds(t) + 1) * SECOND;
  }

  /** Certificates never outlive grants: issue a certificate for a stored grant, then run
      the store, loaded from a file or not, in any way that does not issue that identifier
      again. At every instant of the certificate's window, `Get` on its key identifier
      returns the grant unless it was deleted, whatever cleanups ran. */
  lemma CertificateNeverOutlivesGrant(s: Store, id: string, now: int, es: seq<Event>, t: int)
    requires id in s.grants && s.grants[id].id == id && !Reissues(s, es, id)
    requires Representable(now) && Representable(s.grants[id].expiresAt) && Representable(t)
    requires IssueUserCertificate(true, Some(s.grants[id]), now).Success?
    requires ValidAt(IssueUserCertificate(true, Some(s.grants[id]), now).value, t)
    requires forall i :: 0 <= i < |es| ==> es[i].now <= t
    ensures var c := IssueUserCertificate(true, Some(s.grants[id]), now).value;
            Lookup(Exec(s, es), c.keyId, t) == if Deletes(es, id) then None else Some(s.grants[id])
  {
    WindowInsideGrant(s.grants[id], now, t);
    SurvivesUntilExpiry(s, id, es, t);
  }

  /** Whom the certificate is for: at every instant of its window its principals are exactly
      the users that its grant lets in at its target, unless the grant was deleted. */
  lemma CertificatePrincipals(s: Store, id: string, now: int, es: seq<Event>, t: int, user: string)
    requires id in s.grants && s.grants[id].id == id && !Reissues(s, es, id)
    requires Representable(now) && Representable(s.grants[id].expiresAt) && Representable(t)
    requires IssueUserCertificate(true, Some(s.grants[id]), now).Success?
    requires ValidAt(IssueUserCertificate(true, Some(s.grants[id]), now).value, t)
    requires forall i :: 0 <= i < |es| ==> es[i].now <= t
    ensures var c := IssueUserCertificate(true, Some(s.grants[id]), now).value;
            && c.validPrincipals != []
            && c.target == s.grants[id].target
            && (!Deletes(es, id) ==>
                  (user in c.validPrincipals <==> s.grants[id] in AccessGrants(Exec(s, es), user, c.target, t)))
  {
    var g, after := s.grants[id], Exec(s, es);
    CertificateNeverOutlivesGrant(s, id, now, es, t);
    AccessExactly(after, user, g.target, t);
    if !Deletes(es, id) {
      assert id in after.grants && after.grants[id] == g && t <= g.expiresAt;
    }
  }

  /** Over a grants file of an earlier process: the counter is 0 again, and the grant was
      created before every clock reading of the run. */
  lemma CertificateAcrossRestart(s: Store, created: int, count: int, now: int, es: seq<Event>, t: int)
    requires count >= 1 && s.counter == 0
    requires var id := GenerateGrantID(created, count); id in s.grants && s.grants[id].id == id
    requires var g := s.grants[GenerateGrantID(created, count)];
             && Representable(now) && Representable(g.expiresAt) && Representable(t)
             && IssueUserCertificate(true, Some(g), now).Success?
             && ValidAt(IssueUserCertificate(true, Some(g), now).value, t)
    requires forall i :: 0 <= i < |es| ==> created < es[i].now <= t
    ensures var id := GenerateGrantID(created, count);
            Lookup(Exec(s, es), id, t) == if Deletes(es, id) then None else Some(s.grants[id])
  {
    EarlierNotReissued(s, es, created, count);
    CertificateNeverOutlivesGrant(s, GenerateGrantID(created, count), now, es, t);
  }

  /** Issue and lookup disagree on exactly one instant, the expiry itself. */
  lemma IssueStricterThanLookup(s: Store, id: string, now: int)
    requires id in s.grants
    ensures Lookup(s, id, now).Some? && IssueUserCertificate(true, Lookup(s, id, now), now).Failure?
       <==> now == s.grants[id].expiresAt
  {
  }
}
