/** The bastion's grant store of internal/bastion/grants.go: what each operation does to the
    stored grants, and the store itself with its file. Times are nanoseconds since 1970. */
module Grants {
  import opened Prelude

  datatype Grant = Grant(
    id: string,
    principal: string,
    target: string,
    expiresAt: int,
    createdBy: string,
    createdAt: int)

  /** The in-memory part of the store. */
  datatype Store = Store(grants: map<string, Grant>, counter: int)

  const EMPTY := Store(map[], 0)

  // ---------- Identifiers ----------

  function GenerateGrantID(now: int, counter: int): string {
    "grant-" + FormatInt(now, 36) + "-" + FormatInt(counter, 36)
  }

  /** From counter 1 on, an identifier determines its time and its counter. */
  lemma GrantIDInjective(t: int, c: int, t': int, c': int)
    requires c >= 1 && c' >= 1
    requires GenerateGrantID(t, c) == GenerateGrantID(t', c')
    ensures t == t' && c == c'
  {
    GrantIDParts(FormatInt(t, 36), FormatInt(c, 36), FormatInt(t', 36), FormatInt(c', 36));
    FormatIntInjective(t, t');
    FormatIntInjective(c, c');
  }

  lemma GrantIDParts(x: string, y: string, x': string, y': string)
    requires '-' !in y && '-' !in y'
    requires "grant-" + x + "-" + y == "grant-" + x' + "-" + y'
    ensures x == x' && y == y'
  {
    var s, t := x + "-" + y, x' + "-" + y';
    assert ("grant-" + x + "-" + y)[6..] == s && ("grant-" + x' + "-" + y')[6..] == t;
    forall i | |x| < i < |s|
      ensures s[i] != '-'
    {
      assert s[i] == y[i - |x| - 1];
    }
    forall i | |x'| < i < |t|
      ensures t[i] != '-'
    {
      assert t[i] == y'[i - |x'| - 1];
    }
    assert s[|x|] == '-' && t[|x'|] == '-';
    assert s[..|x|] == x && t[..|x'|] == x';
    assert s[|x| + 1..] == y && t[|x'| + 1..] == y';
  }

  // ---------- Operations ----------

  /** `now.After(g.ExpiresAt)`: a grant is still good at its very expiry instant. */
  predicate Expired(g: Grant, now: int) {
    now > g.expiresAt
  }

  predicate MatchTarget(grantTarget: string, requested: string) {
    grantTarget == "*" || grantTarget == requested
  }

  function NewGrant(s: Store, principal: string, target: string, createdBy: string, duration: int, now: int): Grant {
    Grant(GenerateGrantID(now, s.counter + 1), principal, target, now + duration, createdBy, now)
  }

  function Added(s: Store, g: Grant): Store {
    Store(s.grants[g.id := g], s.counter + 1)
  }

  function Lookup(s: Store, id: string, now: int): Option<Grant> {
    if id in s.grants && !Expired(s.grants[id], now) then Some(s.grants[id]) else None
  }

  function Deleted(s: Store, id: string): Store {
    s.(grants := s.grants - {id})
  }

  /** `now.Before(g.ExpiresAt)`: the listing is strict where lookup is not. */
  function ActiveGrants(s: Store, now: int): map<string, Grant> {
    map id | id in s.grants && now < s.grants[id].expiresAt :: s.grants[id]
  }

  predicate Allows(g: Grant, principal: string, target: string, now: int) {
    !Expired(g, now) && g.principal == principal && MatchTarget(g.target, target)
  }

  /** Every grant that an access check may answer with; it answers nil iff there is none. */
  function AccessGrants(s: Store, principal: string, target: string, now: int): set<Grant> {
    set id | id in s.grants && Allows(s.grants[id], principal, target, now) :: s.grants[id]
  }

  /** Who is let in, in the grants' own fields: the user of an unexpired grant whose target is
      the one asked for, or a star. */
  lemma AccessExactly(s: Store, user: string, target: string, now: int)
    ensures forall g :: g in AccessGrants(s, user, target, now) <==>
              exists id :: id in s.grants && s.grants[id] == g
                && now <= g.expiresAt && g.principal == user && (g.target == "*" || g.target == target)
    ensures AccessGrants(s, user, target, now) != {} <==>
              exists id :: id in s.grants && now <= s.grants[id].expiresAt && s.grants[id].principal == user
                && (s.grants[id].target == "*" || s.grants[id].target == target)
  {
    if id :| id in s.grants && now <= s.grants[id].expiresAt && s.grants[id].principal == user
             && (s.grants[id].target == "*" || s.grants[id].target == target) {
      assert s.grants[id] in AccessGrants(s, user, target, now);
    }
    if AccessGrants(s, user, target, now) != {} {
      var g :| g in AccessGrants(s, user, target, now);
    }
  }

  function ExpiredIds(s: Store, now: int): set<string> {
    set id | id in s.grants && Expired(s.grants[id], now)
  }

  function Cleaned(s: Store, now: int): Store {
    s.(grants := s.grants - ExpiredIds(s, now))
  }

  /** Every grant is stored under its own identifier. */
  predicate KeyedById(grants: map<string, Grant>) {
    forall id :: id in grants ==> grants[id].id == id
  }

  // ---------- The file ----------

  ghost predicate DistinctKeys(keys: seq<string>, m: map<string, Grant>) {
    && (forall i, j :: 0 <= i < j < |keys| ==> keys[i] != keys[j])
    && (forall k :: k in keys <==> k in m)
  }

  ghost predicate ListsInOrder(gs: seq<Grant>, keys: seq<string>, m: map<string, Grant>) {
    DistinctKeys(keys, m) && |gs| == |keys| && forall i :: 0 <= i < |keys| ==> gs[i] == m[keys[i]]
  }

  /** `gs` is the map's grants in some iteration order. */
  ghost predicate Enumerates(gs: seq<Grant>, m: map<string, Grant>) {
    exists keys :: ListsInOrder(gs, keys, m)
  }

  /** The map that `load` builds from the decoded file. */
  function LoadAll(gs: seq<Grant>): map<string, Grant> {
    if gs == [] then map[]
    else
      var last := gs[|gs| - 1];
      LoadAll(gs[..|gs| - 1])[last.id := last]
  }

  lemma {:induction false} LoadAllKeyed(gs: seq<Grant>)
    ensures KeyedById(LoadAll(gs))
    ensures forall id :: id in LoadAll(gs) <==> exists i :: 0 <= i < |gs| && gs[i].id == id
    ensures forall id :: id in LoadAll(gs) ==> LoadAll(gs)[id] in gs
  {
    if gs != [] {
      LoadAllKeyed(gs[..|gs| - 1]);
      assert gs == gs[..|gs| - 1] + [gs[|gs| - 1]];
    }
  }

  /** A saved file loads to the saved map, whatever order it was written in, exactly when
      every grant was stored under its own identifier. */
  lemma SaveLoadRoundTrip(gs: seq<Grant>, m: map<string, Grant>)
    requires Enumerates(gs, m)
    ensures LoadAll(gs) == m <==> KeyedById(m)
  {
    LoadAllKeyed(gs);
    if KeyedById(m) {
      var keys :| ListsInOrder(gs, keys, m);
      LoadAllRestores(gs, keys, m);
    }
  }

  lemma LoadAllRestores(gs: seq<Grant>, keys: seq<string>, m: map<string, Grant>)
    requires ListsInOrder(gs, keys, m) && KeyedById(m)
    ensures LoadAll(gs) == m
  {
    LoadAllKeyed(gs);
    var loaded := LoadAll(gs);
    forall i | 0 <= i < |gs|
      ensures gs[i].id == keys[i] && keys[i] in m && gs[i] == m[keys[i]]
    {
      assert keys[i] in keys;
    }
    forall id | id in m
      ensures id in loaded
    {
      var i :| 0 <= i < |keys| && keys[i] == id;
    }
    forall id | id in loaded
      ensures id in m && loaded[id] == m[id]
    {
      var i :| 0 <= i < |gs| && gs[i] == loaded[id];
    }
    assert loaded.Keys == m.Keys;
  }

  /** How the file system answers one `persist`: encoding and writing the temporary file,
      then renaming it over the grants file. */
  datatype Io = Io(encodeOk: bool, writeOk: bool, renameOk: bool)

  class GrantStore {
    const filePath: string
    var grants: map<string, Grant>
    var counter: int
    /** Decoded content of the grants file, if it exists and decodes. */
    var file: Option<seq<Grant>>

    function State(): Store
      reads this
    {
      Store(grants, counter)
    }

    /** The file after a mutation: rewritten with the current grants, or as it was. */
    twostate predicate Persisted(io: Io)
      reads this
    {
      if filePath != "" && io == Io(true, true, true)
      then file.Some? && Enumerates(file.value, grants)
      else file == old(file)
    }

    /** A store built over the file now would start with the grants of this one. */
    predicate Saved()
      reads this
    {
      file.Some? && LoadAll(file.value) == grants
    }

    /** `NewGrantStoreWithClock`: an unreadable or undecodable file counts as absent. */
    constructor (path: string, content: Option<seq<Grant>>)
      ensures filePath == path && file == content && counter == 0
      ensures grants == if path != "" && content.Some? then LoadAll(content.value) else map[]
    {
      filePath, file, counter, grants := path, content, 0, map[];
      new;
      if path != "" && content.Some? {
        var gs := content.value;
        for i := 0 to |gs|
          invariant filePath == path && file == content && counter == 0
          invariant grants == LoadAll(gs[..i])
        {
          assert gs[..i + 1][..|gs[..i + 1]| - 1] == gs[..i];
          grants := grants[gs[i].id := gs[i]];
        }
        assert gs[..|gs|] == gs;
      }
    }

    method Add(principal: string, target: string, createdBy: string, duration: int, now: int, io: Io)
      returns (g: Grant)
      modifies this
      ensures g == NewGrant(old(State()), principal, target, createdBy, duration, now)
      ensures State() == Added(old(State()), g)
      ensures Persisted(io)
      ensures filePath != "" && io.encodeOk && io.writeOk && io.renameOk && KeyedById(grants) ==> Saved()
    {
      counter := counter + 1;
      g := Grant(GenerateGrantID(now, counter), principal, target, now + duration, createdBy, now);
      grants := grants[g.id := g];
      Persist(io);
    }

    method Get(id: string, now: int) returns (g: Option<Grant>)
      ensures g == Lookup(State(), id, now)
    {
      if id !in grants {
        return None;
      }
      if now > grants[id].expiresAt {
        return None;
      }
      g := Some(grants[id]);
    }

    method Delete(id: string, io: Io) returns (existed: bool)
      modifies this
      ensures existed <==> id in old(grants)
      ensures State() == Deleted(old(State()), id)
      ensures if existed then Persisted(io) else file == old(file)
      ensures existed && filePath != "" && io.encodeOk && io.writeOk && io.renameOk && KeyedById(grants) ==> Saved()
    {
      if id !in grants {
        assert grants - {id} == grants;
        return false;
      }
      grants := grants - {id};
      Persist(io);
      existed := true;
    }

    method List() returns (result: seq<Grant>)
      ensures Enumerates(result, grants)
    {
      result := [];
      ghost var keys: seq<string> := [];
      var rest := grants.Keys;
      while rest != {}
        invariant rest <= grants.Keys
        invariant forall k :: k in keys <==> k in grants && k !in rest
        invariant forall i, j :: 0 <= i < j < |keys| ==> keys[i] != keys[j]
        invariant |result| == |keys| && forall i :: 0 <= i < |keys| ==> result[i] == grants[keys[i]]
      {
        var id :| id in rest;
        result := result + [grants[id]];
        keys := keys + [id];
        rest := rest - {id};
      }
      assert ListsInOrder(result, keys, grants);
    }

    method ListActive(now: int) returns (result: seq<Grant>)
      ensures Enumerates(result, ActiveGrants(State(), now))
    {
      result := [];
      ghost var keys: seq<string> := [];
      var rest := grants.Keys;
      while rest != {}
        invariant rest <= grants.Keys
        invariant forall k :: k in keys <==> k in grants && k !in rest && now < grants[k].expiresAt
        invariant forall i, j :: 0 <= i < j < |keys| ==> keys[i] != keys[j]
        invariant |result| == |keys| && forall i :: 0 <= i < |keys| ==> keys[i] in grants && result[i] == grants[keys[i]]
      {
        var id :| id in rest;
        rest := rest - {id};
        if now < grants[id].expiresAt {
          result := result + [grants[id]];
          keys := keys + [id];
        }
      }
      assert ListsInOrder(result, keys, ActiveGrants(State(), now));
    }

    /** The map is visited in no particular order. */
    method ValidateAccess(principal: string, target: string, now: int) returns (g: Option<Grant>)
      ensures g.Some? ==> g.value in AccessGrants(State(), principal, target, now)
      ensures g.None? ==> AccessGrants(State(), principal, target, now) == {}
    {
      var rest := grants.Keys;
      while rest != {}
        invariant rest <= grants.Keys
        invariant forall id :: id in grants && id !in rest ==> !Allows(grants[id], principal, target, now)
      {
        var id :| id in rest;
        rest := rest - {id};
        var candidate := grants[id];
        if now > candidate.expiresAt {
          continue;
        }
        if candidate.principal == principal && MatchTarget(candidate.target, target) {
          return Some(candidate);
        }
      }
      g := None;
    }

    method Cleanup(now: int, io: Io) returns (removed: nat)
      modifies this
      ensures State() == Cleaned(old(State()), now)
      ensures removed == |ExpiredIds(old(State()), now)|
      ensures if removed > 0 then Persisted(io) else file == old(file)
      ensures removed > 0 && filePath != "" && io.encodeOk && io.writeOk && io.renameOk && KeyedById(grants) ==> Saved()
    {
      removed := 0;
      var rest := grants.Keys;
      ghost var dropped: set<string> := {};
      while rest != {}
        invariant rest <= old(grants).Keys
        invariant dropped == set id | id in old(grants) && id !in rest && Expired(old(grants)[id], now)
        invariant grants == old(grants) - dropped
        invariant removed == |dropped|
        invariant counter == old(counter) && file == old(file)
      {
        var id :| id in rest;
        assert id in grants;
        rest := rest - {id};
        if now > grants[id].expiresAt {
          grants := grants - {id};
          dropped := dropped + {id};
          removed := removed + 1;
        }
      }
      assert dropped == ExpiredIds(old(State()), now);
      if removed > 0 {
        Persist(io);
      }
    }

    method Persist(io: Io)
      modifies this`file
      ensures Persisted(io)
      ensures filePath != "" && io.encodeOk && io.writeOk && io.renameOk && KeyedById(grants) ==> Saved()
    {
      if filePath == "" {
        return;
      }
      var data := List();
      if !io.encodeOk {
        return;
      }
      if !io.writeOk {
        return;
      }
      if io.renameOk {
        SaveLoadRoundTrip(data, grants);
        file := Some(data);
      }
    }
  }
}
