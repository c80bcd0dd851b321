/** All runs of transactions on one log: begin, move a handle, write through a
    handle, destroy a handle. */
module Transactions {
  import opened Wire
  import opened Activities
  import opened ActivityLogs

  /** A handle that was not destroyed is valid or was moved from. */
  datatype Handle = Valid | MovedFrom | Destroyed

  datatype World = World(
    state: LogState, locked: bool, transacting: bool, handles: seq<Handle>, begun: nat, ended: nat)

  const START := World(FRESH, false, false, [], 0, 0)

  datatype Action =
    | Begin
    | Move(handle: nat)
    | Write(handle: nat, record: Record)
    | WriteSegment(handle: nat, segment: seq<Record>)
    | Destroy(handle: nat)

  /** `begin` waits for the mutex; the others need a handle that still exists. */
  predicate Enabled(w: World, a: Action) {
    if a.Begin? then !w.locked else a.handle < |w.handles| && !w.handles[a.handle].Destroyed?
  }

  /** What the calls of `LogTransaction` do, handle by handle.  Moving makes a
      valid handle even from one that was moved from. */
  function Next(sha: Digest, w: World, a: Action): World
    requires Enabled(w, a)
  {
    match a
    case Begin =>
      w.(locked := true, transacting := true, handles := w.handles + [Valid], begun := w.begun + 1)
    case Move(h) =>
      w.(handles := w.handles[h := MovedFrom] + [Valid])
    case Write(h, r) =>
      if w.handles[h].Valid? then w.(state := Written(sha, w.state, r)) else w
    case WriteSegment(h, segment) =>
      if w.handles[h].Valid? then w.(state := Extended(sha, w.state, segment)) else w
    case Destroy(h) =>
      var gone := w.(handles := w.handles[h := Destroyed]);
      if w.handles[h].Valid? then gone.(locked := false, transacting := false, ended := w.ended + 1) else gone
  }

  /** Only valid handles are moved. */
  predicate Proper(w: World, a: Action) {
    Enabled(w, a) && (a.Move? ==> w.handles[a.handle].Valid?)
  }

  /** The mutex, the flag and the one valid handle come and go together, and a
      transaction ends once. */
  ghost predicate Safe(w: World) {
    var open := if w.locked then 1 else 0;
    && w.transacting == w.locked
    && multiset(w.handles)[Valid] == open
    && w.begun == w.ended + open
  }

  lemma CountUpdate(hs: seq<Handle>, i: nat, h: Handle)
    requires i < |hs| && h != Valid
    ensures multiset(hs[i := h])[Valid] == multiset(hs)[Valid] - if hs[i].Valid? then 1 else 0
  {
  }

  /** One step keeps the handles safe exactly when it does not move a handle that
      was already moved from. */
  lemma SafeStep(sha: Digest, w: World, a: Action)
    requires Safe(w) && Enabled(w, a)
    ensures Safe(Next(sha, w, a)) <==> Proper(w, a)
  {
    match a
    case Begin =>
    case Move(h) => CountUpdate(w.handles, h, MovedFrom);
    case Write(h, r) =>
    case WriteSegment(h, segment) =>
    case Destroy(h) => CountUpdate(w.handles, h, Destroyed);
  }

  /** The world after a run; an action that is not enabled does not happen. */
  function Run(sha: Digest, actions: seq<Action>): World {
    if actions == [] then START else
    var w := Run(sha, actions[..|actions| - 1]);
    var a := actions[|actions| - 1];
    if Enabled(w, a) then Next(sha, w, a) else w
  }

  predicate Legal(sha: Digest, actions: seq<Action>) {
    actions == []
    || (Legal(sha, actions[..|actions| - 1])
        && Proper(Run(sha, actions[..|actions| - 1]), actions[|actions| - 1]))
  }

  /** The step writes, and through a valid handle. */
  predicate Writes(w: World, a: Action) {
    Enabled(w, a) && (a.Write? || a.WriteSegment?) && w.handles[a.handle].Valid?
  }

  predicate EverWritten(sha: Digest, actions: seq<Action>) {
    actions != []
    && (EverWritten(sha, actions[..|actions| - 1])
        || Writes(Run(sha, actions[..|actions| - 1]), actions[|actions| - 1]))
  }

  /** A step that does not write through a valid handle leaves the log alone. */
  lemma OnlyValidHandlesWrite(sha: Digest, w: World, a: Action)
    requires Enabled(w, a)
    ensures !Writes(w, a) ==> Next(sha, w, a).state == w.state
    ensures Writes(w, a) ==> w.state.log <= Next(sha, w, a).state.log
  {
  }

  /** The header counts the records and, after a write, holds the hash of the log. */
  ghost predicate HeaderHolds(sha: Digest, s: LogState, written: bool) {
    && s.header.numRecords == Wrap32(|s.log|)
    && if written then s.header.hash == sha(LogBytes(s.log)) else s == FRESH
  }

  lemma HeaderStep(sha: Digest, w: World, a: Action, written: bool)
    requires Enabled(w, a) && HeaderHolds(sha, w.state, written)
    ensures HeaderHolds(sha, Next(sha, w, a).state, written || Writes(w, a))
  {
    if Writes(w, a) {
      WrapSucc(|w.state.log|, if a.Write? then 1 else |a.segment|);
    }
  }

  lemma AllHandlesGone(w: World)
    requires Safe(w) && Valid !in w.handles
    ensures w.begun == w.ended && !w.locked
  {
    assert Valid !in multiset(w.handles);
  }

  /** In every run the handles are safe, each begin is matched by one end once all
      handles are gone, and the header counts the records.  From the first write
      on, the header hash is the hash of the log. */
  lemma {:induction false} RunsAreSafe(sha: Digest, actions: seq<Action>)
    requires Legal(sha, actions)
    ensures Safe(Run(sha, actions))
    ensures Valid !in Run(sha, actions).handles ==> Run(sha, actions).begun == Run(sha, actions).ended
    ensures HeaderHolds(sha, Run(sha, actions).state, EverWritten(sha, actions))
  {
    if actions != [] {
      var before := actions[..|actions| - 1];
      var w, a := Run(sha, before), actions[|actions| - 1];
      RunsAreSafe(sha, before);
      SafeStep(sha, w, a);
      HeaderStep(sha, w, a, EverWritten(sha, before));
    }
    if Valid !in Run(sha, actions).handles {
      AllHandlesGone(Run(sha, actions));
    }
  }

  // ------------------------------------------------------ what the log holds

  /** The action makes a handle. */
  predicate Makes(a: Action) {
    a.Begin? || a.Move?
  }

  /** The number of handles that a run makes. */
  function Made(actions: seq<Action>): nat {
    if actions == [] then 0
    else Made(actions[..|actions| - 1]) + if Makes(actions[|actions| - 1]) then 1 else 0
  }

  /** The handle that may write: the last one made, until it is destroyed. */
  function NextOwner(made: nat, owner: Option<nat>, a: Action): Option<nat> {
    if Makes(a) then Some(made) else if a.Destroy? && owner == Some(a.handle) then None else owner
  }

  function Owner(actions: seq<Action>): Option<nat> {
    if actions == [] then None else
    var before := actions[..|actions| - 1];
    NextOwner(Made(before), Owner(before), actions[|actions| - 1])
  }

  /** The records that an action puts at the end of the log. */
  function Recording(owner: Option<nat>, a: Action): seq<Record> {
    match a
    case Write(h, r) => if owner == Some(h) then [r] else []
    case WriteSegment(h, segment) => if owner == Some(h) then segment else []
    case _ => []
  }

  /** The records that a run writes through the owner, in order. */
  function Recorded(actions: seq<Action>): seq<Record> {
    if actions == [] then [] else
    var before := actions[..|actions| - 1];
    Recorded(before) + Recording(Owner(before), actions[|actions| - 1])
  }

  ghost predicate Owned(w: World, made: nat, owner: Option<nat>) {
    && |w.handles| == made
    && (owner.Some? ==> owner.value < made)
    && (w.locked <==> owner.Some?)
    && forall i | 0 <= i < made :: w.handles[i].Valid? <==> owner == Some(i)
  }

  lemma OwnerStep(sha: Digest, w: World, a: Action, made: nat, owner: Option<nat>)
    requires Proper(w, a) && Owned(w, made, owner)
    ensures Owned(Next(sha, w, a), made + (if Makes(a) then 1 else 0), NextOwner(made, owner, a))
    ensures Next(sha, w, a).state.log == w.state.log + Recording(owner, a)
  {
    if a.Destroy? && owner == Some(a.handle) {
      assert w.handles[a.handle].Valid?;
    }
  }

  /** In every legal run the handle that is valid is the last one made, and the log is
      exactly the records written through the handle that was valid then, in order. */
  lemma {:induction false} LogIsRecorded(sha: Digest, actions: seq<Action>)
    requires Legal(sha, actions)
    ensures Owned(Run(sha, actions), Made(actions), Owner(actions))
    ensures Run(sha, actions).state.log == Recorded(actions)
  {
    if actions != [] {
      var before := actions[..|actions| - 1];
      LogIsRecorded(sha, before);
      OwnerStep(sha, Run(sha, before), actions[|actions| - 1], Made(before), Owner(before));
    }
  }

  /** `log_verification` holds in exactly the states after some write, unless the
      digest of nothing happens to be all zeroes. */
  lemma VerifiesOnceWritten(sha: Digest, actions: seq<Action>)
    requires Legal(sha, actions)
    ensures var s := Run(sha, actions).state;
            s.header.hash == sha(LogBytes(s.log)) <==> EverWritten(sha, actions) || sha("") == ZERO_HASH
  {
    RunsAreSafe(sha, actions);
  }

  lemma RunPush(sha: Digest, before: seq<Action>, a: Action)
    requires Enabled(Run(sha, before), a)
    ensures Run(sha, before + [a]) == Next(sha, Run(sha, before), a)
    ensures Legal(sha, before + [a]) <==> Legal(sha, before) && Proper(Run(sha, before), a)
  {
    assert (before + [a])[..|before|] == before;
  }

  lemma MovedOnce(sha: Digest)
    ensures Legal(sha, [Begin, Move(0)]) && Run(sha, [Begin, Move(0)]).handles == [MovedFrom, Valid]
  {
    RunPush(sha, [], Begin);
    assert [] + [Begin] == [Begin] && [Begin] + [Move(0)] == [Begin, Move(0)];
    RunPush(sha, [Begin], Move(0));
  }

  /** A run that moves a handle twice: two handles are valid for one transaction. */
  lemma MovedTwice(sha: Digest)
    ensures var run := [Begin, Move(0), Move(0)];
            && Legal(sha, [Begin, Move(0)]) && Enabled(Run(sha, [Begin, Move(0)]), Move(0))
            && Run(sha, run).handles == [MovedFrom, Valid, Valid]
            && !Safe(Run(sha, run))
  {
    MovedOnce(sha);
    var w := Run(sha, [Begin, Move(0)]);
    RunsAreSafe(sha, [Begin, Move(0)]);
    SafeStep(sha, w, Move(0));
    assert [Begin, Move(0)] + [Move(0)] == [Begin, Move(0), Move(0)];
    RunPush(sha, [Begin, Move(0)], Move(0));
  }

  // ------------------------------------------------------------------ objects

  /** A log, the handles made for it and which of them are gone. */
  class Client {
    const base: ActivityLog
    var handles: seq<LogTransaction>
    var gone: seq<bool>
    ghost var begun: nat
    ghost var ended: nat

    /** The handles are distinct objects for this log. */
    ghost predicate Valid()
      reads this, handles
    {
      && |gone| == |handles|
      && (forall h <- handles :: h.base == base)
      && (forall i, j | 0 <= i < j < |handles| :: handles[i] != handles[j])
    }

    function Status(i: nat): Handle
      requires i < |handles| && |gone| == |handles|
      reads this, handles
    {
      if gone[i] then Destroyed else if handles[i].valid then Handle.Valid else MovedFrom
    }

    /** The objects are in the state that a world describes. */
    ghost predicate Shows(w: World)
      reads this, base, handles
    {
      && Valid()
      && w.state == base.State() && w.locked == base.locked && w.transacting == base.transacting
      && w.begun == begun && w.ended == ended
      && |w.handles| == |handles|
      && forall i | 0 <= i < |handles| :: w.handles[i] == Status(i)
    }

    constructor (sha: Digest)
      ensures Shows(START) && base.sha == sha && fresh(base) && handles == []
    {
      base := new ActivityLog(sha);
      handles, gone, begun, ended := [], [], 0, 0;
    }

    /** Does what an action says with the objects. */
    method Do(a: Action, ghost w: World)
      requires Shows(w) && Safe(w) && Enabled(w, a)
      modifies this, base, set t | t in handles
      ensures Shows(Next(base.sha, w, a))
      ensures fresh((set h | h in handles) - old(set h | h in handles))
    {
      match a {
        case Begin => DoBegin(w);
        case Move(h) => DoMove(h, w);
        case Write(h, record) => DoWrite(h, record, w);
        case WriteSegment(h, records) => DoWriteSegment(h, records, w);
        case Destroy(h) => DoDestroy(h, w);
      }
    }

    method DoBegin(ghost w: World)
      requires Shows(w) && !w.locked
      modifies this, base
      ensures Shows(Next(base.sha, w, Begin))
      ensures fresh((set h | h in handles) - old(set h | h in handles))
    {
      var t := base.BeginTransaction();
      handles, gone := handles + [t], gone + [false];
      begun := begun + 1;
    }

    method DoMove(h: nat, ghost w: World)
      requires Shows(w) && Enabled(w, Move(h))
      modifies this, handles[h]
      ensures Shows(Next(base.sha, w, Move(h)))
      ensures fresh((set t | t in handles) - old(set t | t in handles))
    {
      var t := new LogTransaction.Move(handles[h]);
      handles, gone := handles + [t], gone + [false];
    }

    method DoWrite(h: nat, record: Record, ghost w: World)
      requires Shows(w) && Enabled(w, Write(h, record))
      modifies base
      ensures Shows(Next(base.sha, w, Write(h, record)))
    {
      var r := new Activity();
      r.header, r.content := record.header, record.content;
      var status := handles[h].WriteRecord(r);
    }

    method DoWriteSegment(h: nat, records: seq<Record>, ghost w: World)
      requires Shows(w) && Enabled(w, WriteSegment(h, records))
      modifies base
      ensures Shows(Next(base.sha, w, WriteSegment(h, records)))
    {
      var segment := new LogSegment(base.header.hash, records);
      var status := handles[h].WriteSegment(segment);
    }

    method DoDestroy(h: nat, ghost w: World)
      requires Shows(w) && Safe(w) && Enabled(w, Destroy(h))
      modifies this, base
      ensures Shows(Next(base.sha, w, Destroy(h)))
      ensures handles == old(handles)
    {
      assert w.handles[h] in multiset(w.handles);
      if handles[h].valid { ended := ended + 1; }
      handles[h].Destroy();
      gone := gone[h := true];
    }
  }

  /** The objects go through every legal run as the worlds do. */
  method Perform(sha: Digest, actions: seq<Action>) returns (c: Client)
    requires Legal(sha, actions)
    ensures fresh(c) && fresh(c.base) && c.base.sha == sha
    ensures fresh(set h | h in c.handles)
    ensures c.Shows(Run(sha, actions))
  {
    if actions == [] {
      c := new Client(sha);
    } else {
      var before, a := actions[..|actions| - 1], actions[|actions| - 1];
      ghost var w, next := LegalStep(sha, actions);
      c := Perform(sha, before);
      c.Do(a, w);
    }
  }

  lemma LegalStep(sha: Digest, actions: seq<Action>) returns (w: World, next: World)
    requires Legal(sha, actions) && actions != []
    ensures Legal(sha, actions[..|actions| - 1]) && w == Run(sha, actions[..|actions| - 1])
    ensures Safe(w) && Enabled(w, actions[|actions| - 1])
    ensures next == Run(sha, actions) == Next(sha, w, actions[|actions| - 1])
  {
    w, next := Run(sha, actions[..|actions| - 1]), Run(sha, actions);
    RunsAreSafe(sha, actions[..|actions| - 1]);
  }

  /** So in every state that the objects reach the transacting flag is the mutex, just
      one handle can write while it is held and none else, and the header tells the
      truth about the log. */
  lemma ObjectsAreSafe(sha: Digest, actions: seq<Action>, c: Client)
    requires Legal(sha, actions) && c.Shows(Run(sha, actions))
    ensures c.base.transacting == c.base.locked
    ensures HeaderHolds(sha, c.base.State(), EverWritten(sha, actions))
    ensures c.base.log == Recorded(actions)
    ensures forall i | 0 <= i < |c.handles| :: c.Status(i).Valid? <==> Owner(actions) == Some(i)
    ensures c.base.locked <==> exists i | 0 <= i < |c.handles| :: c.Status(i).Valid?
    ensures forall i, j | 0 <= i < j < |c.handles| :: !(c.Status(i).Valid? && c.Status(j).Valid?)
    ensures c.begun == c.ended + if c.base.locked then 1 else 0
  {
    RunsAreSafe(sha, actions);
    LogIsRecorded(sha, actions);
    var w := Run(sha, actions);
    forall i, j | 0 <= i < j < |c.handles| ensures !(c.Status(i).Valid? && c.Status(j).Valid?) {
      TwoValid(w.handles, i, j);
    }
    assert c.base.locked <==> Handle.Valid in w.handles;
  }

  lemma TwoValid(hs: seq<Handle>, i: nat, j: nat)
    requires i < j < |hs|
    ensures hs[i].Valid? && hs[j].Valid? ==> multiset(hs)[Handle.Valid] >= 2
  {
    assert hs == hs[..j] + hs[j..];
    assert hs[..j][i] == hs[i] && hs[j..][0] == hs[j];
    assert hs[i] in multiset(hs[..j]) && hs[j] in multiset(hs[j..]);
  }
}
