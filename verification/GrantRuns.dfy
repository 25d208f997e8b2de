/** Whole runs of the grant store: what garbage collection cannot change, what revocation
    makes permanent, and where every stored grant has gone. */
module GrantRuns {
  import opened Prelude
  import opened Grants

  datatype Op =
    | Add(principal: string, target: string, createdBy: string, duration: int)
    | Delete(id: string)
    | Cleanup
    | Get(id: string)
    | ListActive
    | List
    | Validate(principal: string, target: string)

  /** An operation and the clock reading it makes. */
  datatype Event = Event(now: int, op: Op)

  /** What a caller observes. An access check answers with any one of the candidates, or
      nil iff there is none. `Delete` answers whether the grant existed. */
  datatype Answer =
    | Created(grant: Grant)
    | Found(found: Option<Grant>)
    | Active(active: map<string, Grant>)
    | Stored(stored: map<string, Grant>)
    | Access(candidates: set<Grant>)
    | Existed(existed: bool)
    | Removed(count: nat)

  function Step(s: Store, e: Event): Store {
    match e.op
    case Add(p, t, who, d) => Added(s, NewGrant(s, p, t, who, d, e.now))
    case Delete(id) => Deleted(s, id)
    case Cleanup => Cleaned(s, e.now)
    case Get(_) => s
    case ListActive => s
    case List => s
    case Validate(_, _) => s
  }

  function AnswerOf(s: Store, e: Event): Answer {
    match e.op
    case Add(p, t, who, d) => Created(NewGrant(s, p, t, who, d, e.now))
    case Delete(id) => Existed(id in s.grants)
    case Cleanup => Removed(|ExpiredIds(s, e.now)|)
    case Get(id) => Found(Lookup(s, id, e.now))
    case ListActive => Active(ActiveGrants(s, e.now))
    case List => Stored(s.grants)
    case Validate(p, t) => Access(AccessGrants(s, p, t, e.now))
  }

  function Exec(s: Store, es: seq<Event>): Store
    decreases |es|
  {
    if es == [] then s else Exec(Step(s, es[0]), es[1..])
  }

  lemma {:induction false} ExecAppend(s: Store, es: seq<Event>, fs: seq<Event>)
    ensures Exec(s, es + fs) == Exec(Exec(s, es), fs)
    decreases |es|
  {
    if es == [] {
      assert es + fs == fs;
    } else {
      assert (es + fs)[0] == es[0] && (es + fs)[1..] == es[1..] + fs;
      ExecAppend(Step(s, es[0]), es[1..], fs);
    }
  }

  /** The clock never goes back, and starts no earlier than `from`. */
  predicate Monotone(es: seq<Event>, from: int) {
    && (forall i :: 0 <= i < |es| ==> from <= es[i].now)
    && (forall i, j :: 0 <= i < j < |es| ==> es[i].now <= es[j].now)
  }

  lemma MonotoneTail(es: seq<Event>, from: int)
    requires es != [] && Monotone(es, from)
    ensures Monotone(es[1..], es[0].now) && from <= es[0].now
  {
    forall i | 0 <= i < |es[1..]|
      ensures es[0].now <= es[1..][i].now
    {
      assert es[1..][i] == es[i + 1];
    }
    assert forall i, j :: 0 <= i < j < |es[1..]| ==> es[1..][i] == es[i + 1] && es[1..][j] == es[j + 1];
  }

  // ---------- Garbage collection is invisible ----------

  /** The run with its cleanups left out. */
  function WithoutCleanups(es: seq<Event>): seq<Event> {
    if es == [] then []
    else (if es[0].op.Cleanup? then [] else [es[0]]) + WithoutCleanups(es[1..])
  }

  predicate Observed(op: Op) {
    !op.Delete? && !op.Cleanup? && !op.List?
  }

  /** The answers of every `Add`, `Get`, `ListActive` and access check, in order. */
  function Observations(s: Store, es: seq<Event>): seq<Answer>
    decreases |es|
  {
    if es == [] then []
    else
      (if Observed(es[0].op) then [AnswerOf(s, es[0])] else []) + Observations(Step(s, es[0]), es[1..])
  }

  /** Two stores that hold the same grants, apart from ones expired by `now`. */
  ghost predicate SameLive(a: Store, b: Store, now: int) {
    a.counter == b.counter && forall id :: Lookup(a, id, now) == Lookup(b, id, now)
  }

  lemma SameLiveLater(a: Store, b: Store, now: int, later: int)
    requires SameLive(a, b, now) && now <= later
    ensures SameLive(a, b, later)
  {
    forall id
      ensures Lookup(a, id, later) == Lookup(b, id, later)
    {
      assert Lookup(a, id, now) == Lookup(b, id, now);
    }
  }

  lemma SameLiveAnswers(a: Store, b: Store, e: Event)
    requires SameLive(a, b, e.now) && Observed(e.op)
    ensures AnswerOf(a, e) == AnswerOf(b, e)
  {
    forall id
      ensures id in ActiveGrants(a, e.now) <==> id in ActiveGrants(b, e.now)
      ensures id in ActiveGrants(a, e.now) ==> ActiveGrants(a, e.now)[id] == ActiveGrants(b, e.now)[id]
    {
      assert Lookup(a, id, e.now) == Lookup(b, id, e.now);
    }
    if e.op.Validate? {
      var x, y := AccessGrants(a, e.op.principal, e.op.target, e.now), AccessGrants(b, e.op.principal, e.op.target, e.now);
      forall g
        ensures g in x <==> g in y
      {
        if g in x {
          var id :| id in a.grants && a.grants[id] == g;
          assert Lookup(a, id, e.now) == Lookup(b, id, e.now);
        }
        if g in y {
          var id :| id in b.grants && b.grants[id] == g;
          assert Lookup(a, id, e.now) == Lookup(b, id, e.now);
        }
      }
      assert x == y;
    }
  }

  lemma SameLiveStep(a: Store, b: Store, e: Event)
    requires SameLive(a, b, e.now)
    ensures SameLive(Step(a, e), Step(b, e), e.now)
    ensures e.op.Cleanup? ==> SameLive(Step(a, e), b, e.now)
  {
    forall id
      ensures Lookup(Step(a, e), id, e.now) == Lookup(Step(b, e), id, e.now)
      ensures e.op.Cleanup? ==> Lookup(Step(a, e), id, e.now) == Lookup(b, id, e.now)
    {
      assert Lookup(a, id, e.now) == Lookup(b, id, e.now);
    }
  }

  lemma {:induction false} GcInvisibleFrom(a: Store, b: Store, es: seq<Event>, now: int)
    requires SameLive(a, b, now) && Monotone(es, now)
    ensures Observations(a, es) == Observations(b, WithoutCleanups(es))
    decreases |es|
  {
    if es != [] {
      var e, kept := es[0], WithoutCleanups(es[1..]);
      MonotoneTail(es, now);
      SameLiveLater(a, b, now, e.now);
      SameLiveStep(a, b, e);
      if e.op.Cleanup? {
        assert [] + kept == kept;
        assert [] + Observations(Step(a, e), es[1..]) == Observations(Step(a, e), es[1..]);
        GcInvisibleFrom(Step(a, e), b, es[1..], e.now);
      } else {
        assert ([e] + kept)[1..] == kept;
        if Observed(e.op) {
          SameLiveAnswers(a, b, e);
        }
        GcInvisibleFrom(Step(a, e), Step(b, e), es[1..], e.now);
      }
    }
  }

  /** Garbage collection is invisible: two runs with a clock that never goes back, that
      differ only in where cleanups happen, give the same answers to every `Add`, `Get`,
      `ListActive` and access check, from any store. */
  lemma GarbageCollectionInvisible(s: Store, es: seq<Event>, fs: seq<Event>, from: int)
    requires Monotone(es, from) && Monotone(fs, from) && WithoutCleanups(es) == WithoutCleanups(fs)
    ensures Observations(s, es) == Observations(s, fs)
  {
    GcInvisibleFrom(s, s, es, from);
    GcInvisibleFrom(s, s, fs, from);
  }

  /** Two answers a cleanup does change. That of `Delete`, exactly for a stored grant that has
      expired. */
  lemma CleanupVisibleToDelete(s: Store, id: string, now: int)
    ensures AnswerOf(Cleaned(s, now), Event(now, Delete(id))) != AnswerOf(s, Event(now, Delete(id)))
       <==> id in s.grants && Lookup(s, id, now).None?
  {
  }

  /** And that of `List`, exactly when some stored grant has expired. */
  lemma CleanupVisibleToList(s: Store, c: int, n: int)
    ensures AnswerOf(Cleaned(s, c), Event(n, List)) != AnswerOf(s, Event(n, List))
       <==> exists id :: id in s.grants && Expired(s.grants[id], c)
  {
    if id :| id in s.grants && Expired(s.grants[id], c) {
      assert id in ExpiredIds(s, c) && id !in Cleaned(s, c).grants;
    } else {
      assert Cleaned(s, c).grants == s.grants;
    }
  }

  /** A cleanup at clock `c` changes a later lookup at clock `n` exactly for a stored grant
      that has expired at `c` but not at `n`: never when the clock does not go back. */
  lemma CleanupVisibleToLookup(s: Store, id: string, c: int, n: int)
    ensures Lookup(Cleaned(s, c), id, n) != Lookup(s, id, n) <==> id in s.grants && n <= s.grants[id].expiresAt < c
  {
  }

  /** The same for access checks. */
  lemma CleanupVisibleToAccess(s: Store, principal: string, target: string, c: int, n: int)
    ensures AccessGrants(Cleaned(s, c), principal, target, n) != AccessGrants(s, principal, target, n)
       <==> exists g :: g in AccessGrants(s, principal, target, n) && g.expiresAt < c
  {
    var x, y := AccessGrants(Cleaned(s, c), principal, target, n), AccessGrants(s, principal, target, n);
    forall g | g in y
      ensures g in x <==> g.expiresAt >= c
    {
      var id :| id in s.grants && s.grants[id] == g;
      assert g.expiresAt >= c ==> id in Cleaned(s, c).grants && Cleaned(s, c).grants[id] == g;
    }
    assert x <= y;
    if g :| g in y && g.expiresAt < c {
      assert g !in x;
    }
    if x != y {
      var g :| g in y && g !in x;
    }
  }

  // ---------- Boundaries ----------

  /** Lookup and access checks accept a grant at its expiry instant; the active listing
      leaves it out, and at no other instant do they differ. */
  lemma ListingStricterThanLookup(s: Store, id: string, now: int)
    requires id in s.grants
    ensures Lookup(s, id, now).Some? && id !in ActiveGrants(s, now) <==> now == s.grants[id].expiresAt
  {
  }

  /** What the documentation says of a principal: `*` is any user. */
  predicate DocumentedAllows(g: Grant, principal: string, target: string, now: int) {
    !Expired(g, now) && (g.principal == "*" || g.principal == principal) && MatchTarget(g.target, target)
  }

  predicate DocumentedAccess(s: Store, principal: string, target: string, now: int) {
    exists id :: id in s.grants && DocumentedAllows(s.grants[id], principal, target, now)
  }

  /** A star stands for any target but not for any principal. So the code grants access when
      the documentation says so, exactly when the user is called `*`, or some grant names
      the user, or no unexpired grant for that target has principal `*`. */
  lemma PrincipalStarIsLiteral(s: Store, user: string, target: string, now: int)
    ensures (AccessGrants(s, user, target, now) != {} <==> DocumentedAccess(s, user, target, now))
       <==> || user == "*"
            || (exists id :: id in s.grants && Allows(s.grants[id], user, target, now))
            || !(exists id :: id in s.grants && Allows(s.grants[id], "*", target, now))
  {
    var access := AccessGrants(s, user, target, now);
    if id :| id in s.grants && Allows(s.grants[id], user, target, now) {
      assert s.grants[id] in access;
      assert DocumentedAllows(s.grants[id], user, target, now);
    } else {
      assert access == {};
      if id :| id in s.grants && Allows(s.grants[id], "*", target, now) {
        assert DocumentedAllows(s.grants[id], user, target, now);
      }
    }
  }

  // ---------- Revocation is permanent ----------

  /** The identifier was generated for some counter value already used. */
  ghost predicate Issued(id: string, counter: int) {
    exists t, c :: 1 <= c <= counter && id == GenerateGrantID(t, c)
  }

  /** Every stored grant was generated by this store's own counter: a memory-only store. */
  ghost predicate SelfIssued(s: Store) {
    && s.counter >= 0
    && forall id :: id in s.grants ==> Issued(id, s.counter)
  }

  lemma IssuedStays(id: string, counter: int, later: int)
    requires Issued(id, counter) && counter <= later
    ensures Issued(id, later)
  {
    var t, c :| 1 <= c <= counter && id == GenerateGrantID(t, c);
  }

  /** A fresh identifier differs from every issued one, whatever the clock reads. */
  lemma FreshIdentifier(s: Store, id: string, now: int)
    requires s.counter >= 0 && Issued(id, s.counter)
    ensures id != GenerateGrantID(now, s.counter + 1)
  {
    var t, c :| 1 <= c <= s.counter && id == GenerateGrantID(t, c);
    if id == GenerateGrantID(now, s.counter + 1) {
      GrantIDInjective(t, c, now, s.counter + 1);
    }
  }

  lemma SelfIssuedStep(s: Store, e: Event)
    requires SelfIssued(s)
    ensures SelfIssued(Step(s, e)) && Step(s, e).counter >= s.counter
    ensures e.op.Add? ==> AnswerOf(s, e).grant.id !in s.grants
  {
    if e.op.Add? {
      var newId := GenerateGrantID(e.now, s.counter + 1);
      assert Issued(newId, s.counter + 1);
      forall id | id in s.grants
        ensures id != newId && Issued(id, s.counter + 1)
      {
        FreshIdentifier(s, id, e.now);
        IssuedStays(id, s.counter, s.counter + 1);
      }
    }
  }

  lemma {:induction false} SelfIssuedRun(s: Store, es: seq<Event>)
    requires SelfIssued(s)
    ensures SelfIssued(Exec(s, es))
    decreases |es|
  {
    if es != [] {
      SelfIssuedStep(s, es[0]);
      SelfIssuedRun(Step(s, es[0]), es[1..]);
    }
  }

  /** An issued identifier that is not stored never comes back, in any run. */
  lemma {:induction false} GoneForGood(s: Store, id: string, es: seq<Event>)
    requires s.counter >= 0 && Issued(id, s.counter) && id !in s.grants
    ensures id !in Exec(s, es).grants
    decreases |es|
  {
    if es != [] {
      var s' := Step(s, es[0]);
      if es[0].op.Add? {
        FreshIdentifier(s, id, es[0].now);
        IssuedStays(id, s.counter, s.counter + 1);
      }
      GoneForGood(s', id, es[1..]);
    }
  }

  /** Revocation is permanent: in a memory-only store, once a stored grant is deleted, no
      continuation whatever ever finds it again, by identifier or by an access check. No
      assumption on the clock. */
  lemma RevocationPermanent(
    before: seq<Event>, id: string, at: int, after: seq<Event>, now: int, principal: string, target: string)
    requires id in Exec(EMPTY, before).grants
    ensures var s := Exec(EMPTY, before + [Event(at, Delete(id))] + after);
            && Lookup(s, id, now) == None
            && (forall g :: g in AccessGrants(s, principal, target, now) ==> g.id != id)
  {
    var s0 := Exec(EMPTY, before);
    SelfIssuedRun(EMPTY, before);
    var s1 := Deleted(s0, id);
    ExecAppend(EMPTY, before, [Event(at, Delete(id))]);
    ExecAppend(EMPTY, before + [Event(at, Delete(id))], after);
    assert Exec(s0, [Event(at, Delete(id))]) == s1;
    GoneForGood(s1, id, after);
    KeyedRun(EMPTY, before + [Event(at, Delete(id))] + after);
  }

  lemma {:induction false} KeyedRun(s: Store, es: seq<Event>)
    requires KeyedById(s.grants)
    ensures KeyedById(Exec(s, es).grants)
    decreases |es|
  {
    if es != [] {
      KeyedRun(Step(s, es[0]), es[1..]);
    }
  }

  // ---------- Conservation ----------

  function Adds(es: seq<Event>): nat {
    if es == [] then 0 else (if es[0].op.Add? then 1 else 0) + Adds(es[1..])
  }

  function Deletions(s: Store, es: seq<Event>): nat
    decreases |es|
  {
    if es == [] then 0
    else (if AnswerOf(s, es[0]) == Existed(true) then 1 else 0) + Deletions(Step(s, es[0]), es[1..])
  }

  function CleanedUp(s: Store, es: seq<Event>): nat
    decreases |es|
  {
    if es == [] then 0
    else (if es[0].op.Cleanup? then AnswerOf(s, es[0]).count else 0) + CleanedUp(Step(s, es[0]), es[1..])
  }

  lemma SizeStep(s: Store, e: Event)
    requires SelfIssued(s)
    ensures |Step(s, e).grants|
         == |s.grants| + (if e.op.Add? then 1 else 0)
            - (if AnswerOf(s, e) == Existed(true) then 1 else 0)
            - (if e.op.Cleanup? then AnswerOf(s, e).count else 0)
  {
    match e.op
    case Add(_, _, _, _) => AdditionCounted(s, e);
    case Delete(_) => DeletionCounted(s, e);
    case Cleanup => SizeRemoved(s.grants, ExpiredIds(s, e.now), ExpiredIds(s, e.now));
    case _ =>
  }

  lemma AdditionCounted(s: Store, e: Event)
    requires SelfIssued(s) && e.op.Add?
    ensures |Step(s, e).grants| == |s.grants| + 1
  {
    SelfIssuedStep(s, e);
    SizeAdded(s.grants, AnswerOf(s, e).grant);
  }

  lemma DeletionCounted(s: Store, e: Event)
    requires e.op.Delete?
    ensures |Step(s, e).grants| == |s.grants| - (if AnswerOf(s, e) == Existed(true) then 1 else 0)
  {
    SizeRemoved(s.grants, if e.op.id in s.grants then {e.op.id} else {}, {e.op.id});
  }

  lemma SizeAdded(m: map<string, Grant>, g: Grant)
    requires g.id !in m
    ensures |m[g.id := g]| == |m| + 1
  {
    assert m[g.id := g].Keys == m.Keys + {g.id};
  }

  lemma SizeRemoved(m: map<string, Grant>, gone: set<string>, asked: set<string>)
    requires gone == asked * m.Keys
    ensures |m - asked| == |m| - |gone|
  {
    assert (m - asked).Keys == m.Keys - gone;
  }

  /** Conservation: the store's size is what it was, plus additions, minus successful
      deletions, minus everything that cleanups reported as removed. */
  lemma {:induction false} GrantsConserved(s: Store, es: seq<Event>)
    requires SelfIssued(s)
    ensures |Exec(s, es).grants| == |s.grants| + Adds(es) - Deletions(s, es) - CleanedUp(s, es)
    decreases |es|
  {
    if es != [] {
      SizeStep(s, es[0]);
      SelfIssuedStep(s, es[0]);
      GrantsConserved(Step(s, es[0]), es[1..]);
    }
  }

  // ---------- Survival ----------

  predicate Deletes(es: seq<Event>, id: string) {
    exists i :: 0 <= i < |es| && es[i].op == Delete(id)
  }

  /** Some cleanup of the run happens after the grant has expired. */
  predicate Collects(es: seq<Event>, g: Grant) {
    exists i :: 0 <= i < |es| && es[i].op == Cleanup && Expired(g, es[i].now)
  }

  /** Some addition of the run is given this very identifier. */
  predicate Reissues(s: Store, es: seq<Event>, id: string)
    decreases |es|
  {
    es != [] && ((es[0].op.Add? && AnswerOf(s, es[0]).grant.id == id) || Reissues(Step(s, es[0]), es[1..], id))
  }

  /** Ends a stored grant: the deletion of its identifier, or a cleanup after its expiry. */
  predicate Ends(e: Event, g: Grant, id: string) {
    e.op == Delete(id) || (e.op == Cleanup && Expired(g, e.now))
  }

  lemma RunTail(es: seq<Event>, g: Grant, id: string)
    requires es != []
    ensures Deletes(es, id) <==> es[0].op == Delete(id) || Deletes(es[1..], id)
    ensures Collects(es, g) <==> (es[0].op == Cleanup && Expired(g, es[0].now)) || Collects(es[1..], g)
  {
    assert forall i :: 0 <= i < |es[1..]| ==> es[1..][i] == es[i + 1];
    if i :| 0 <= i < |es| && es[i].op == Delete(id) {
      assert i > 0 ==> es[1..][i - 1] == es[i];
    }
    if i :| 0 <= i < |es| && es[i].op == Cleanup && Expired(g, es[i].now) {
      assert i > 0 ==> es[1..][i - 1] == es[i];
    }
    if i :| 0 <= i < |es[1..]| && es[1..][i].op == Delete(id) {
      assert es[i + 1].op == Delete(id);
    }
    if i :| 0 <= i < |es[1..]| && es[1..][i].op == Cleanup && Expired(g, es[1..][i].now) {
      assert es[i + 1].op == Cleanup && Expired(g, es[i + 1].now);
    }
  }

  lemma {:induction false} StaysGone(s: Store, id: string, es: seq<Event>)
    requires id !in s.grants && !Reissues(s, es, id)
    ensures id !in Exec(s, es).grants
    decreases |es|
  {
    if es != [] {
      StaysGone(Step(s, es[0]), id, es[1..]);
    }
  }

  /** In any store, over any run that does not issue its identifier again, a stored grant is
      still stored exactly when nothing deleted it and no cleanup came after its expiry; and
      then it is the same grant. No assumption on the clock. */
  lemma {:induction false} StillStoredExactly(s: Store, id: string, es: seq<Event>)
    requires id in s.grants && !Reissues(s, es, id)
    ensures id in Exec(s, es).grants <==> !Deletes(es, id) && !Collects(es, s.grants[id])
    ensures id in Exec(s, es).grants ==> Exec(s, es).grants[id] == s.grants[id]
    decreases |es|
  {
    if es != [] {
      var s' := Step(s, es[0]);
      RunTail(es, s.grants[id], id);
      if Ends(es[0], s.grants[id], id) {
        StaysGone(s', id, es[1..]);
      } else {
        StillStoredExactly(s', id, es[1..]);
      }
    }
  }

  /** Up to its expiry a grant is found exactly when nothing deleted it, whatever cleanups
      ran before. */
  lemma SurvivesUntilExpiry(s: Store, id: string, es: seq<Event>, now: int)
    requires id in s.grants && !Reissues(s, es, id)
    requires forall i :: 0 <= i < |es| ==> es[i].now <= now
    requires now <= s.grants[id].expiresAt
    ensures Lookup(Exec(s, es), id, now) == (if Deletes(es, id) then None else Some(s.grants[id]))
  {
    StillStoredExactly(s, id, es);
  }

  /** What an addition gives, whatever runs afterwards without issuing its identifier again:
      until it is deleted, and up to and including `duration` after it was made, lookup finds
      it with the fields asked for, and it lets in its principal alone, at its target or, if
      that is a star, at any. */
  lemma AddedGrantGives(s: Store, at: int, principal: string, target: string, createdBy: string, duration: int,
                        es: seq<Event>, user: string, requested: string, t: int)
    requires KeyedById(s.grants)
    requires var add := Event(at, Add(principal, target, createdBy, duration));
             !Reissues(Step(s, add), es, AnswerOf(s, add).grant.id)
    requires forall i :: 0 <= i < |es| ==> es[i].now <= t
    ensures var add := Event(at, Add(principal, target, createdBy, duration));
            var id, after := AnswerOf(s, add).grant.id, Exec(Step(s, add), es);
            var g := Grant(id, principal, target, at + duration, createdBy, at);
            var good := t <= at + duration && !Deletes(es, id);
            && Lookup(after, id, t) == (if good then Some(g) else None)
            && ((exists h :: h in AccessGrants(after, user, requested, t) && h.id == id)
                <==> good && user == principal && (target == "*" || target == requested))
  {
    var add := Event(at, Add(principal, target, createdBy, duration));
    var id, s' := AnswerOf(s, add).grant.id, Step(s, add);
    var after := Exec(s', es);
    StillStoredExactly(s', id, es);
    KeyedRun(s', es);
    if t <= at + duration {
      SurvivesUntilExpiry(s', id, es, t);
    }
    AddedAccess(after, Grant(id, principal, target, at + duration, createdBy, at), user, requested, t);
  }

  lemma AddedAccess(s: Store, g: Grant, user: string, requested: string, t: int)
    requires KeyedById(s.grants) && (g.id in s.grants ==> s.grants[g.id] == g)
    ensures (exists h :: h in AccessGrants(s, user, requested, t) && h.id == g.id)
       <==> g.id in s.grants && t <= g.expiresAt && user == g.principal && (g.target == "*" || g.target == requested)
  {
    AccessExactly(s, user, requested, t);
    if g.id in s.grants && t <= g.expiresAt && user == g.principal && (g.target == "*" || g.target == requested) {
      assert s.grants[g.id] == g && g in AccessGrants(s, user, requested, t);
    }
  }

  /** An issued identifier is not issued again: in no store whose counter has passed it. */
  lemma {:induction false} IssuedNotReissued(s: Store, es: seq<Event>, id: string)
    requires s.counter >= 0 && Issued(id, s.counter)
    ensures !Reissues(s, es, id)
    decreases |es|
  {
    if es != [] {
      if es[0].op.Add? {
        FreshIdentifier(s, id, es[0].now);
        IssuedStays(id, s.counter, s.counter + 1);
      }
      IssuedNotReissued(Step(s, es[0]), es[1..], id);
    }
  }

  /** Nor is an identifier generated before every clock reading of the run: after a restart
      the counter begins again at 0, but the grants of the file keep their identifiers. */
  lemma {:induction false} EarlierNotReissued(s: Store, es: seq<Event>, t: int, c: int)
    requires s.counter >= 0 && c >= 1 && forall i :: 0 <= i < |es| ==> t < es[i].now
    ensures !Reissues(s, es, GenerateGrantID(t, c))
    decreases |es|
  {
    if es != [] {
      if es[0].op.Add? && AnswerOf(s, es[0]).grant.id == GenerateGrantID(t, c) {
        GrantIDInjective(t, c, es[0].now, s.counter + 1);
      }
      assert forall i :: 0 <= i < |es[1..]| ==> es[1..][i] == es[i + 1];
      EarlierNotReissued(Step(s, es[0]), es[1..], t, c);
    }
  }

}
