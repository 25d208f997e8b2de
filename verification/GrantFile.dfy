/** Persistence of the grant store step by step: a mutation, then writing a temporary file,
    then an atomic rename, with failures and crashes anywhere between. */
module GrantFile {
  import opened Prelude
  import opened Grants
  import opened GrantRuns

  /** Content of the temporary file. A partial file is never read. */
  datatype Temp = Absent | Partial | Whole(gs: seq<Grant>)

  /** Where the store is in its `persist`; `order` is the order it lists its map in. */
  datatype Phase = Idle | Saving(order: seq<Grant>) | Written(order: seq<Grant>)

  datatype State = State(store: Store, disk: Option<seq<Grant>>, temp: Temp, phase: Phase)

  datatype Label =
    | Mutate(e: Event, order: seq<Grant>)
    | WritePart
    | WriteAll
    | WriteFails
    | Rename
    | RenameFails
    | Crash

  /** The map that a store built over this file starts with. */
  function Loaded(disk: Option<seq<Grant>>): map<string, Grant> {
    if disk.Some? then LoadAll(disk.value) else map[]
  }

  /** Operations that change the map and so persist it. */
  predicate Persists(s: Store, e: Event) {
    match e.op
    case Add(_, _, _, _) => true
    case Delete(id) => id in s.grants
    case Cleanup => |ExpiredIds(s, e.now)| > 0
    case _ => false
  }

  /** No operation changes the map without persisting it. */
  lemma ChangesArePersisted(s: Store, e: Event)
    ensures Step(s, e).grants != s.grants ==> Persists(s, e)
    ensures Persists(s, e) && !e.op.Add? ==> Step(s, e).grants != s.grants
  {
    match e.op
    case Delete(id) =>
      assert id in s.grants ==> id !in Step(s, e).grants;
      assert id !in s.grants ==> s.grants - {id} == s.grants;
    case Cleanup =>
      if ExpiredIds(s, e.now) == {} {
        assert s.grants - {} == s.grants;
      } else {
        var id :| id in ExpiredIds(s, e.now);
        assert id in s.grants && id !in Step(s, e).grants;
      }
    case _ =>
  }

  ghost predicate Enabled(st: State, l: Label) {
    match l
    case Mutate(e, order) => st.phase.Idle? && Persists(st.store, e) && Enumerates(order, Step(st.store, e).grants)
    case WritePart => st.phase.Saving?
    case WriteAll => st.phase.Saving?
    case WriteFails => st.phase.Saving?
    case Rename => st.phase.Written?
    case RenameFails => st.phase.Written?
    case Crash => true
  }

  /** One step. A crash loses memory and restarts from the file, with counter 0. */
  function Next(st: State, l: Label): State {
    match l
    case Mutate(e, order) => st.(store := Step(st.store, e), phase := Saving(order))
    case WritePart => st.(temp := Partial)
    case WriteAll => if st.phase.Saving? then st.(temp := Whole(st.phase.order), phase := Written(st.phase.order)) else st
    case WriteFails => st.(phase := Idle)
    case Rename => if st.temp.Whole? then st.(disk := Some(st.temp.gs), temp := Absent, phase := Idle) else st
    case RenameFails => st.(phase := Idle)
    case Crash => Started(st.disk, st.temp)
  }

  function Started(disk: Option<seq<Grant>>, temp: Temp): State {
    State(Store(Loaded(disk), 0), disk, temp, Idle)
  }

  ghost predicate IsRun(st: State, ls: seq<Label>)
    decreases |ls|
  {
    ls == [] || (Enabled(st, ls[0]) && IsRun(Next(st, ls[0]), ls[1..]))
  }

  function Final(st: State, ls: seq<Label>): State
    decreases |ls|
  {
    if ls == [] then st else Final(Next(st, ls[0]), ls[1..])
  }

  /** The in-memory maps of a run, one per state: after each completed mutation and restart. */
  function Maps(st: State, ls: seq<Label>): seq<map<string, Grant>>
    decreases |ls|
  {
    [st.store.grants] + (if ls == [] then [] else Maps(Next(st, ls[0]), ls[1..]))
  }

  /** What every step keeps. */
  ghost predicate Inv(st: State) {
    && KeyedById(st.store.grants)
    && (!st.phase.Idle? ==> Enumerates(st.phase.order, st.store.grants))
    && (st.phase.Written? ==> st.temp == Whole(st.phase.order))
  }

  lemma StartedInv(disk: Option<seq<Grant>>, temp: Temp)
    ensures Inv(Started(disk, temp))
  {
    if disk.Some? {
      LoadAllKeyed(disk.value);
    }
  }

  lemma InvStep(st: State, l: Label)
    requires Inv(st) && Enabled(st, l)
    ensures Inv(Next(st, l))
    ensures var disk' := Next(st, l).disk; Loaded(disk') == Loaded(st.disk) || Loaded(disk') == st.store.grants
    ensures l == Rename ==> Loaded(Next(st, l).disk) == st.store.grants
  {
    match l
    case Rename => SaveLoadRoundTrip(st.phase.order, st.store.grants);
    case Crash => StartedInv(st.disk, st.temp);
    case _ =>
  }

  lemma {:induction false} FileFromPast(st: State, ls: seq<Label>, past: set<map<string, Grant>>)
    requires Inv(st) && IsRun(st, ls) && Loaded(st.disk) in past
    ensures Loaded(Final(st, ls).disk) in past || Loaded(Final(st, ls).disk) in Maps(st, ls)
    decreases |ls|
  {
    if ls != [] {
      var st' := Next(st, ls[0]);
      InvStep(st, ls[0]);
      assert Maps(st, ls)[0] == st.store.grants;
      assert Maps(st, ls)[1..] == Maps(st', ls[1..]);
      FileFromPast(st', ls[1..], past + {st.store.grants});
      assert forall m :: m in Maps(st', ls[1..]) ==> m in Maps(st, ls);
    }
  }

  /** Crash consistency: after any run of mutations, partial writes, failures, renames and
      crashes, started over any file, the file loads to exactly one of the maps that the
      store had in memory on the way, never to a mixture. */
  lemma CrashConsistent(disk: Option<seq<Grant>>, temp: Temp, ls: seq<Label>)
    requires IsRun(Started(disk, temp), ls)
    ensures Loaded(Final(Started(disk, temp), ls).disk) in Maps(Started(disk, temp), ls)
  {
    var st := Started(disk, temp);
    StartedInv(disk, temp);
    assert Maps(st, ls)[0] == Loaded(disk);
    FileFromPast(st, ls, {Loaded(disk)});
  }

  /** Without a rename the file keeps its map. */
  lemma {:induction false} FileUnrenamed(st: State, ls: seq<Label>)
    requires Inv(st) && IsRun(st, ls) && Rename !in ls
    ensures Loaded(Final(st, ls).disk) == Loaded(st.disk)
    decreases |ls|
  {
    if ls != [] {
      assert ls[0] in ls && forall l :: l in ls[1..] ==> l in ls;
      InvStep(st, ls[0]);
      FileUnrenamed(Next(st, ls[0]), ls[1..]);
    }
  }

  /** Which map the file holds: that of the last completed rename, at step `k`, as it was in
      memory then. Without one it is the map that the file held before. */
  lemma {:induction false} FileIsLastRename(st: State, ls: seq<Label>, k: nat)
    requires Inv(st) && IsRun(st, ls)
    requires k < |ls| && ls[k] == Rename && Rename !in ls[k + 1..]
    ensures Loaded(Final(st, ls).disk) == Final(st, ls[..k]).store.grants
    decreases |ls|
  {
    var st' := Next(st, ls[0]);
    InvStep(st, ls[0]);
    if k == 0 {
      FileUnrenamed(st', ls[1..]);
      assert Final(st, ls[..0]) == st;
    } else {
      assert ls[1..][k - 1] == Rename && ls[1..][k..] == ls[k + 1..];
      FileIsLastRename(st', ls[1..], k - 1);
      assert ls[..k][1..] == ls[1..][..k - 1] && ls[..k][0] == ls[0];
    }
  }

  /** A restart between operations changes no grant. */
  predicate RestartKeeps(st: State) {
    Next(st, Crash).store.grants == st.store.grants
  }

  /** So a restart changes no grant exactly when memory is still what the last completed
      rename, at step `k`, saved. */
  lemma RestartExactly(st: State, ls: seq<Label>, k: nat)
    requires Inv(st) && IsRun(st, ls)
    requires k < |ls| && ls[k] == Rename && Rename !in ls[k + 1..]
    ensures RestartKeeps(Final(st, ls)) <==> Final(st, ls).store.grants == Final(st, ls[..k]).store.grants
  {
    FileIsLastRename(st, ls, k);
  }

  /** And without any rename, when memory is what the file held all along. */
  lemma RestartExactlyUnrenamed(st: State, ls: seq<Label>)
    requires Inv(st) && IsRun(st, ls) && Rename !in ls
    ensures RestartKeeps(Final(st, ls)) <==> Final(st, ls).store.grants == Loaded(st.disk)
  {
    FileUnrenamed(st, ls);
  }

  predicate Fails(l: Label) {
    l.WriteFails? || l.RenameFails?
  }

  /** Makes memory and file agree. */
  predicate Restores(l: Label) {
    l.Rename? || l.Crash?
  }

  /** Some step brings memory and file together. */
  predicate Restored(ls: seq<Label>) {
    exists i :: 0 <= i < |ls| && Restores(ls[i])
  }

  /** Every failure is followed by a completed rename or a restart. */
  predicate Recovered(ls: seq<Label>) {
    forall i :: 0 <= i < |ls| && Fails(ls[i]) ==> Restored(ls[i + 1..])
  }

  /** Between operations the file is current. */
  predicate Current(st: State) {
    st.phase.Idle? ==> RestartKeeps(st)
  }

  lemma RecoveredTail(ls: seq<Label>)
    requires ls != [] && Recovered(ls)
    ensures Recovered(ls[1..])
    ensures Restored(ls) ==> Restores(ls[0]) || Restored(ls[1..])
    ensures Fails(ls[0]) ==> Restored(ls[1..])
  {
    var rest := ls[1..];
    forall i | 0 <= i < |rest| && Fails(rest[i])
      ensures Restored(rest[i + 1..])
    {
      assert rest[i] == ls[i + 1] && rest[i + 1..] == ls[i + 2..];
    }
    if i :| 0 < i < |ls| && Restores(ls[i]) {
      assert Restores(rest[i - 1]);
    }
  }

  lemma CurrentStep(st: State, l: Label)
    requires Inv(st) && Enabled(st, l)
    ensures Restores(l) || (Current(st) && !Fails(l)) ==> Current(Next(st, l))
  {
    InvStep(st, l);
  }

  lemma {:induction false} CurrentRun(st: State, ls: seq<Label>)
    requires Inv(st) && IsRun(st, ls) && Recovered(ls) && (Current(st) || Restored(ls))
    ensures Current(Final(st, ls))
    decreases |ls|
  {
    if ls != [] {
      InvStep(st, ls[0]);
      CurrentStep(st, ls[0]);
      RecoveredTail(ls);
      CurrentRun(Next(st, ls[0]), ls[1..]);
    }
  }

  /** If a completed rename or a restart follows every failure, then between operations the
      file loads to the latest map, and a restart at that point changes no grant. */
  lemma LatestWhenWritesSucceed(disk: Option<seq<Grant>>, temp: Temp, ls: seq<Label>)
    requires IsRun(Started(disk, temp), ls) && Recovered(ls)
    requires Final(Started(disk, temp), ls).phase.Idle?
    ensures RestartKeeps(Final(Started(disk, temp), ls))
  {
    StartedInv(disk, temp);
    CurrentRun(Started(disk, temp), ls);
  }

  /** Some addition of the run is given this identifier. */
  predicate Reissued(st: State, ls: seq<Label>, id: string)
    decreases |ls|
  {
    && ls != []
    && (|| (ls[0].Mutate? && ls[0].e.op.Add? && AnswerOf(st.store, ls[0].e).grant.id == id)
        || Reissued(Next(st, ls[0]), ls[1..], id))
  }

  /** With its identifier gone from memory and still in the file, a grant is back after the
      next restart exactly if no rename completes before it, however many writes fail. */
  lemma {:induction false} GoneReturnsExactly(st: State, ls: seq<Label>, id: string)
    requires Inv(st) && IsRun(st, ls) && Crash !in ls && !Reissued(st, ls, id)
    requires id !in st.store.grants
    ensures id !in Final(st, ls).store.grants
    ensures id in Loaded(st.disk) ==> (id in Next(Final(st, ls), Crash).store.grants <==> Rename !in ls)
    ensures id !in Loaded(st.disk) ==> id !in Next(Final(st, ls), Crash).store.grants
    decreases |ls|
  {
    if ls != [] {
      var st' := Next(st, ls[0]);
      InvStep(st, ls[0]);
      assert ls[0] in ls && forall l :: l in ls[1..] ==> l in ls;
      assert Rename in ls ==> ls[0] == Rename || Rename in ls[1..];
      assert id !in st'.store.grants;
      GoneReturnsExactly(st', ls[1..], id);
    }
  }

  /** A failed write goes unreported. A deleted grant that the file held is back after the
      next restart exactly if no rename completes between the deletion and the restart. */
  lemma FailedWriteForgetsDeletion(st: State, now: int, id: string, order: seq<Grant>, ls: seq<Label>)
    requires var del := Mutate(Event(now, Delete(id)), order);
             && Inv(st) && id in Loaded(st.disk) && IsRun(st, [del] + ls)
             && Crash !in ls && !Reissued(Next(st, del), ls, id)
    ensures id in Final(st, [Mutate(Event(now, Delete(id)), order)] + ls + [Crash]).store.grants <==> Rename !in ls
  {
    var del := Mutate(Event(now, Delete(id)), order);
    var run := [del] + ls + [Crash];
    assert ([del] + ls)[1..] == ls && run[1..] == ls + [Crash] && run[0] == del;
    InvStep(st, del);
    GoneReturnsExactly(Next(st, del), ls, id);
    FinalLast(Next(st, del), ls, Crash);
  }

  lemma {:induction false} FinalLast(st: State, ls: seq<Label>, l: Label)
    ensures Final(st, ls + [l]) == Next(Final(st, ls), l)
    decreases |ls|
  {
    if ls == [] {
      assert ls + [l] == [l] && [l][1..] == [];
      assert Final(Next(st, l), []) == Next(st, l);
    } else {
      assert (ls + [l])[1..] == ls[1..] + [l];
      FinalLast(Next(st, ls[0]), ls[1..], l);
    }
  }

  /** Such a run exists: delete the one grant of the file, fail the write, restart. */
  lemma DeletedGrantReturns()
    ensures exists disk, ls, id ::
              && IsRun(Started(disk, Absent), ls)
              && ls == [Mutate(Event(1, Delete(id)), []), WriteFails, Crash]
              && id in Final(Started(disk, Absent), ls).store.grants
  {
    var g := Grant("g", "alice", "*", 10, "api", 0);
    var disk := Some([g]);
    var ls := [Mutate(Event(1, Delete("g")), []), WriteFails, Crash];
    var st := Started(disk, Absent);
    assert [g][..0] == [] && LoadAll([]) == map[];
    assert st.store.grants == map["g" := g];
    assert Step(st.store, ls[0].e).grants == map[];
    assert ListsInOrder([], [], map[]);
    assert ls[1..][1..] == [Crash] && ls[1..][1..][1..] == [];
    var st1 := Next(st, ls[0]);
    var st2 := Next(st1, ls[1]);
    assert ls[1..] == [WriteFails, Crash];
    assert IsRun(st2, [Crash]) by { assert IsRun(Next(st2, Crash), [Crash][1..]); }
    assert IsRun(st1, ls[1..]);
    assert Final(st, ls) == Final(st1, ls[1..]) == Final(st2, [Crash]) == Next(st2, Crash);
  }
}
