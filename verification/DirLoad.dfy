/** Asynchronous directory loading: src/async/dir_load.c on top of the result queue of src/async/async.c,
    with the reference counts of src/dir.c.

    Worker threads and the main thread are interleaved steps of one transition system. A directory read is an
    arbitrary set of files; the pool is the free choice of which worker moves next. */
module DirLoad {

  /** A `File *`. */
  type File = nat

  /** `refs` is the reference count; `ext` says how many of those belong to the directory cache, Lua and the
      other holders that are not loads. `cookie` and `files` are `load.cookie` and `files_all`. */
  datatype Dir = Dir(refs: int, ext: nat, cookie: nat, files: set<File>) {
    predicate Alive() {
      refs > 0
    }
  }

  /** Where the worker of a load is: reading the directory; having submitted the update and about to touch
      the work item once more (`lists` if it goes on to load file infos); loading file infos; finished. */
  datatype Stage = Reading | Posted(lists: bool) | Listing | Done

  /** One call of `async_dir_load`. `freed` once the main thread has destroyed the work item. */
  datatype Load = Load(dir: nat, cookie: nat, fileinfo: bool, files: set<File>, stage: Stage, freed: bool)

  /** What workers submit: the update itself, and batches of file infos. */
  datatype Result = Update(load: nat) | Batch(load: nat, infos: set<File>, last: bool)

  /** `fault` is set when a worker touches a work item that has been freed. */
  datatype State = State(dirs: seq<Dir>, loads: seq<Load>, queue: seq<Result>, fault: bool)

  datatype Action =
    | NewDir
    | AddRef(d: nat)
    | DropRef(d: nat)
    | Start(d: nat, fileinfo: bool)
    | Post(l: nat, files: set<File>, stop: bool)
    | Touch(l: nat)
    | SendBatch(l: nat, infos: set<File>)
    | SendLast(l: nat, infos: set<File>)
    | Drain(reload: bool, fileinfo: bool)

  // ---------------------------------------------------------------- steps

  function DecRef(s: State, d: nat): State
    requires d < |s.dirs|
  {
    s.(dirs := s.dirs[d := s.dirs[d].(refs := s.dirs[d].refs - 1)])
  }

  /** `async_dir_load`: one reference for the update, and one more if file infos are loaded later. */
  function StartLoad(s: State, d: nat, fileinfo: bool): State
    requires d < |s.dirs|
  {
    var dir := s.dirs[d];
    s.(dirs := s.dirs[d := dir.(refs := dir.refs + (if fileinfo then 1 else 2), cookie := dir.cookie + 1)],
       loads := s.loads + [Load(d, dir.cookie + 1, fileinfo, {}, Reading, false)])
  }

  function SetStage(s: State, l: nat, stage: Stage): State
    requires l < |s.loads|
  {
    s.(loads := s.loads[l := s.loads[l].(stage := stage)])
  }

  predicate Enabled(s: State, a: Action) {
    && !s.fault
    && match a
       case NewDir => true
       case AddRef(d) => d < |s.dirs| && s.dirs[d].ext > 0
       case DropRef(d) => d < |s.dirs| && s.dirs[d].ext > 0
       case Start(d, _) => d < |s.dirs| && s.dirs[d].ext > 0
       case Post(l, _, _) => l < |s.loads| && s.loads[l].stage == Reading
       case Touch(l) => l < |s.loads| && s.loads[l].stage.Posted?
       case SendBatch(l, infos) => l < |s.loads| && s.loads[l].stage == Listing && infos <= s.loads[l].files
       case SendLast(l, infos) => l < |s.loads| && s.loads[l].stage == Listing && infos <= s.loads[l].files
       case Drain(_, _) => s.queue != []
  }

  function Next(s: State, a: Action): State
    requires Enabled(s, a) && References(s)
  {
    match a
    case NewDir => s.(dirs := s.dirs + [Dir(1, 1, 0, {})])
    case AddRef(d) => s.(dirs := s.dirs[d := s.dirs[d].(refs := s.dirs[d].refs + 1, ext := s.dirs[d].ext + 1)])
    case DropRef(d) => DecRef(s.(dirs := s.dirs[d := s.dirs[d].(ext := s.dirs[d].ext - 1)]), d)
    case Start(d, fileinfo) => StartLoad(s, d, fileinfo)
    case Post(l, files, stop) =>
      var load := s.loads[l];
      var lists := !(load.fileinfo || files == {} || stop);
      s.(loads := s.loads[l := load.(files := files, stage := Posted(lists))], queue := s.queue + [Update(l)])
    case Touch(l) => TouchWork(s, l)
    case SendBatch(l, infos) => s.(queue := s.queue + [Batch(l, infos, false)])
    case SendLast(l, infos) => SetStage(s, l, Done).(queue := s.queue + [Batch(l, infos, true)])
    case Drain(reload, fileinfo) => DrainOne(s, reload, fileinfo)
  }

  /** Indices point at something. */
  predicate References(s: State) {
    && (forall l :: 0 <= l < |s.loads| ==> s.loads[l].dir < |s.dirs|)
    && (forall i :: 0 <= i < |s.queue| ==> s.queue[i].load < |s.loads|)
  }

  /** After `submit_async_result` the worker reads the work item again: `load_fileinfo` (and then `dir`, to
      release the extra reference) on the one path, `cookie` on the other. */
  function TouchWork(s: State, l: nat): State
    requires References(s) && l < |s.loads| && s.loads[l].stage.Posted?
  {
    var load := s.loads[l];
    if load.freed then s.(fault := true)
    else if load.stage.lists then SetStage(s, l, Listing)
    else if load.fileinfo then SetStage(s, l, Done)
    else DecRef(SetStage(s, l, Done), load.dir)
  }

  /** One round of the loop of `async_result_cb`: callback, then destroy. While an update is being applied
      the loader may start the next load of the same directory (`loader_callback`). */
  function DrainOne(s: State, reload: bool, fileinfo: bool): State
    requires References(s) && s.queue != []
  {
    var r := s.queue[0];
    var load := s.loads[r.load];
    var s1 := s.(queue := s.queue[1..]);
    match r
    case Batch(_, _, last) => if last then DecRef(s1, load.dir) else s1
    case Update(l) =>
      var s2 := s1.(loads := s1.loads[l := load.(freed := true)]);
      DecRef(if load.cookie == s.dirs[load.dir].cookie then Apply(s2, l, reload, fileinfo) else s2, load.dir)
  }

  /** `dir_update_callback` with a matching cookie. */
  function Apply(s: State, l: nat, reload: bool, fileinfo: bool): (s': State)
    requires l < |s.loads| && s.loads[l].dir < |s.dirs|
    ensures |s'.dirs| == |s.dirs|
  {
    var d := s.loads[l].dir;
    var s1 := if reload then StartLoad(s, d, fileinfo) else s;
    s1.(dirs := s1.dirs[d := s1.dirs[d].(files := s.loads[l].files)])
  }

  // ---------------------------------------------------------------- references owed

  function HeldByLoad(l: Load, d: nat): nat {
    if l.dir != d then 0
    else match l.stage
      case Reading => if l.fileinfo then 1 else 2
      case Posted(_) => if l.fileinfo then 0 else 1
      case Listing => 1
      case Done => 0
  }

  function HeldByLoads(ls: seq<Load>, d: nat): nat {
    if ls == [] then 0 else HeldByLoads(ls[..|ls| - 1], d) + HeldByLoad(ls[|ls| - 1], d)
  }

  function HeldByResult(r: Result, ls: seq<Load>, d: nat): nat {
    if r.load < |ls| && ls[r.load].dir == d && (r.Update? || r.last) then 1 else 0
  }

  function HeldByQueue(q: seq<Result>, ls: seq<Load>, d: nat): nat {
    if q == [] then 0 else HeldByQueue(q[..|q| - 1], ls, d) + HeldByResult(q[|q| - 1], ls, d)
  }

  // ---------------------------------------------------------------- the invariant

  /** Every reference is accounted for: those of outside holders, and those owed by outstanding loads. */
  ghost predicate Counted(s: State) {
    forall d :: 0 <= d < |s.dirs| ==>
      s.dirs[d].refs == s.dirs[d].ext + HeldByLoads(s.loads, d) + HeldByQueue(s.queue, s.loads, d)
  }

  /** Cookies grow with every load of a directory, so no two loads of it share one. */
  ghost predicate Cookies(s: State)
    requires References(s)
  {
    && (forall l :: 0 <= l < |s.loads| ==> s.loads[l].cookie <= s.dirs[s.loads[l].dir].cookie)
    && (forall k, l :: 0 <= k < l < |s.loads| && s.loads[k].dir == s.loads[l].dir ==>
      s.loads[k].cookie < s.loads[l].cookie)
  }

  /** A posted update is in the queue, once, until it is freed. */
  ghost predicate Updates(s: State) {
    && (forall l :: 0 <= l < |s.loads| ==> (Update(l) in s.queue <==> s.loads[l].stage != Reading && !s.loads[l].freed))
    && (forall l :: 0 <= l < |s.loads| && s.loads[l].stage == Reading ==> !s.loads[l].freed)
    && (forall i, j :: 0 <= i < j < |s.queue| && s.queue[i].Update? ==> s.queue[i] != s.queue[j])
    && (forall l :: 0 <= l < |s.loads| && s.loads[l].fileinfo ==>
      s.loads[l].stage != Listing && s.loads[l].stage != Posted(true))
  }

  /** The batches of a load come after its update, and the last one after the others. */
  ghost predicate Batches(s: State)
    requires References(s)
  {
    && (forall i :: 0 <= i < |s.queue| && s.queue[i].Batch? ==>
          && s.queue[i].infos <= s.loads[s.queue[i].load].files
          && (s.loads[s.queue[i].load].stage == Listing || s.loads[s.queue[i].load].stage == Done)
          && (s.loads[s.queue[i].load].stage == Done && !s.queue[i].last ==> LastAfter(s.queue, i)))
    && (forall i, j :: 0 <= i < j < |s.queue| && s.queue[i].Batch? && s.queue[j].Update? ==>
      s.queue[i].load != s.queue[j].load)
  }

  ghost predicate LastAfter(q: seq<Result>, i: nat)
    requires i < |q|
  {
    exists j :: i < j < |q| && q[j].Batch? && q[j].last && q[j].load == q[i].load
  }

  /** A freed update that is still current has been applied. */
  ghost predicate Applied(s: State)
    requires References(s)
  {
    forall l :: 0 <= l < |s.loads| && s.loads[l].freed && s.loads[l].cookie == s.dirs[s.loads[l].dir].cookie ==>
      s.dirs[s.loads[l].dir].files == s.loads[l].files
  }

  ghost predicate Shape(s: State) {
    References(s) && Cookies(s) && Updates(s) && Batches(s) && Applied(s)
  }

  ghost predicate Inv(s: State) {
    Shape(s) && Counted(s)
  }

  // ---------------------------------------------------------------- sums

  lemma {:induction false} LoadsUpdate(ls: seq<Load>, l: nat, x: Load, d: nat)
    requires l < |ls|
    ensures HeldByLoads(ls[l := x], d) == HeldByLoads(ls, d) - HeldByLoad(ls[l], d) + HeldByLoad(x, d)
  {
    var n := |ls| - 1;
    if l < n {
      LoadsUpdate(ls[..n], l, x, d);
      assert ls[l := x][..n] == ls[..n][l := x];
    } else {
      assert ls[l := x][..n] == ls[..n];
    }
  }

  lemma LoadsAppend(ls: seq<Load>, x: Load, d: nat)
    ensures HeldByLoads(ls + [x], d) == HeldByLoads(ls, d) + HeldByLoad(x, d)
  {
    assert (ls + [x])[..|ls|] == ls;
  }

  lemma {:induction false} LoadsNone(ls: seq<Load>, d: nat)
    requires forall l :: 0 <= l < |ls| ==> ls[l].dir != d
    ensures HeldByLoads(ls, d) == 0
  {
    if ls != [] { LoadsNone(ls[..|ls| - 1], d); }
  }

  lemma {:induction false} LoadsAtLeast(ls: seq<Load>, l: nat, d: nat)
    requires l < |ls|
    ensures HeldByLoads(ls, d) >= HeldByLoad(ls[l], d)
  {
    if l < |ls| - 1 { LoadsAtLeast(ls[..|ls| - 1], l, d); }
  }

  lemma QueueAppend(q: seq<Result>, r: Result, ls: seq<Load>, d: nat)
    ensures HeldByQueue(q + [r], ls, d) == HeldByQueue(q, ls, d) + HeldByResult(r, ls, d)
  {
    assert (q + [r])[..|q|] == q;
  }

  lemma {:induction false} QueuePop(q: seq<Result>, ls: seq<Load>, d: nat)
    requires q != []
    ensures HeldByQueue(q, ls, d) == HeldByResult(q[0], ls, d) + HeldByQueue(q[1..], ls, d)
  {
    var n := |q| - 1;
    if n > 0 {
      QueuePop(q[..n], ls, d);
      assert q[..n][1..] == q[1..][..n - 1];
    }
  }

  lemma {:induction false} QueueAtLeast(q: seq<Result>, i: nat, ls: seq<Load>, d: nat)
    requires i < |q|
    ensures HeldByQueue(q, ls, d) >= HeldByResult(q[i], ls, d)
  {
    if i < |q| - 1 { QueueAtLeast(q[..|q| - 1], i, ls, d); }
  }

  /** What the queue holds depends only on which load belongs to which directory. */
  lemma {:induction false} QueueSameLoads(q: seq<Result>, ls: seq<Load>, ls': seq<Load>, d: nat)
    requires |ls| <= |ls'| && (forall l :: 0 <= l < |ls| ==> ls'[l].dir == ls[l].dir)
    requires forall i :: 0 <= i < |q| ==> q[i].load < |ls|
    ensures HeldByQueue(q, ls', d) == HeldByQueue(q, ls, d)
  {
    if q != [] { QueueSameLoads(q[..|q| - 1], ls, ls', d); }
  }

  lemma {:induction false} QueueNone(q: seq<Result>, ls: seq<Load>, d: nat)
    requires forall l :: 0 <= l < |ls| ==> ls[l].dir != d
    ensures HeldByQueue(q, ls, d) == 0
  {
    if q != [] { QueueNone(q[..|q| - 1], ls, d); }
  }

  // ---------------------------------------------------------------- every step keeps the invariant

  lemma NewDirKeeps(s: State)
    requires Inv(s)
    ensures Inv(s.(dirs := s.dirs + [Dir(1, 1, 0, {})]))
  {
    NewDirShape(s);
    NewDirCounted(s);
    hide Shape, Counted;
  }

  lemma NewDirShape(s: State)
    requires Shape(s)
    ensures Shape(s.(dirs := s.dirs + [Dir(1, 1, 0, {})]))
  {
    hide LastAfter;
    var s' := s.(dirs := s.dirs + [Dir(1, 1, 0, {})]);
    assert References(s') && Cookies(s') by { hide Updates, Batches, Applied; }
    assert Updates(s') && Batches(s') && Applied(s') by { hide Cookies; }
  }

  lemma NewDirCounted(s: State)
    requires References(s) && Counted(s)
    ensures Counted(s.(dirs := s.dirs + [Dir(1, 1, 0, {})]))
  {
    LoadsNone(s.loads, |s.dirs|);
    QueueNone(s.queue, s.loads, |s.dirs|);
  }

  /** Changing a directory's count of outside references. */
  lemma RefKeeps(s: State, d: nat, x: Dir)
    requires Inv(s) && d < |s.dirs| && x.refs - s.dirs[d].refs == x.ext - s.dirs[d].ext
    requires x.cookie == s.dirs[d].cookie && x.files == s.dirs[d].files
    ensures Inv(s.(dirs := s.dirs[d := x]))
  {
  }

  /** Adding a load to a directory, under the next cookie. */
  lemma StartShape(s: State, d: nat, fileinfo: bool)
    requires Shape(s) && d < |s.dirs|
    ensures Shape(StartLoad(s, d, fileinfo))
  {
    var s' := StartLoad(s, d, fileinfo);
    assert References(s') && Cookies(s');
    assert forall i :: 0 <= i < |s.queue| ==> s.queue[i].load < |s.loads|;
    assert Updates(s') by { hide Cookies, Batches, Applied; }
    assert Batches(s') by { hide Cookies, Updates, Applied; }
    assert Applied(s') by { hide Updates, Batches; }
  }

  lemma StartCounted(s: State, d: nat, fileinfo: bool)
    requires References(s) && Counted(s) && d < |s.dirs|
    ensures Counted(StartLoad(s, d, fileinfo))
  {
    var s' := StartLoad(s, d, fileinfo);
    forall e | 0 <= e < |s.dirs|
      ensures s'.dirs[e].refs == s'.dirs[e].ext + HeldByLoads(s'.loads, e) + HeldByQueue(s'.queue, s'.loads, e)
    {
      LoadsAppend(s.loads, s'.loads[|s.loads|], e);
      QueueSameLoads(s.queue, s.loads, s'.loads, e);
    }
  }

  /** Replacing load `l` and appending at most one result, when the two together hold what the load held. */
  lemma StepCounted(s: State, l: nat, x: Load, r: seq<Result>, s': State)
    requires References(s) && Counted(s) && l < |s.loads| && x.dir == s.loads[l].dir && |r| <= 1
    requires s' == s.(loads := s.loads[l := x], queue := s.queue + r)
    requires HeldByLoad(x, x.dir) + (if r == [] then 0 else HeldByResult(r[0], s'.loads, x.dir))
      == HeldByLoad(s.loads[l], x.dir)
    requires r != [] ==> r[0].load == l
    ensures Counted(s')
  {
    forall e | 0 <= e < |s.dirs|
      ensures s'.dirs[e].refs == s'.dirs[e].ext + HeldByLoads(s'.loads, e) + HeldByQueue(s'.queue, s'.loads, e)
    {
      LoadsUpdate(s.loads, l, x, e);
      QueueSameLoads(s.queue, s.loads, s'.loads, e);
      if r == [] {
        assert s.queue + r == s.queue;
      } else {
        assert s.queue + r == s.queue + [r[0]];
        QueueAppend(s.queue, r[0], s'.loads, e);
      }
    }
  }

  lemma LastAfterAppend(q: seq<Result>, r: Result)
    ensures forall i :: 0 <= i < |q| && LastAfter(q, i) ==> LastAfter(q + [r], i)
  {
    forall i | 0 <= i < |q| && LastAfter(q, i)
      ensures LastAfter(q + [r], i)
    {
      var j :| i < j < |q| && q[j].Batch? && q[j].last && q[j].load == q[i].load;
      assert (q + [r])[j] == q[j];
    }
  }

  lemma PostShape(s: State, l: nat, files: set<File>, lists: bool)
    requires Shape(s) && l < |s.loads| && s.loads[l].stage == Reading && (lists ==> !s.loads[l].fileinfo)
    ensures Shape(s.(loads := s.loads[l := s.loads[l].(files := files, stage := Posted(lists))],
      queue := s.queue + [Update(l)]))
  {
    var s' := s.(loads := s.loads[l := s.loads[l].(files := files, stage := Posted(lists))],
      queue := s.queue + [Update(l)]);
    assert References(s') && Cookies(s') by { hide Updates, Batches, Applied; }
    assert Update(l) !in s.queue && s'.queue[|s.queue|] == Update(l);
    assert Updates(s') by { hide Cookies, Batches, Applied; }
    PostBatches(s, l, files, lists);
    assert Applied(s') by { hide Batches; }
  }

  lemma PostBatches(s: State, l: nat, files: set<File>, lists: bool)
    requires References(s) && Batches(s) && l < |s.loads| && s.loads[l].stage == Reading &&
      (lists ==> !s.loads[l].fileinfo)
    ensures Batches(s.(loads := s.loads[l := s.loads[l].(files := files, stage := Posted(lists))],
      queue := s.queue + [Update(l)]))
  {
    LastAfterAppend(s.queue, Update(l));
    hide LastAfter;
  }

  lemma PostKeeps(s: State, l: nat, files: set<File>, lists: bool)
    requires Inv(s) && l < |s.loads| && s.loads[l].stage == Reading && (lists ==> !s.loads[l].fileinfo)
    ensures Inv(s.(loads := s.loads[l := s.loads[l].(files := files, stage := Posted(lists))],
      queue := s.queue + [Update(l)]))
  {
    PostShape(s, l, files, lists);
    var x := s.loads[l].(files := files, stage := Posted(lists));
    StepCounted(s, l, x, [Update(l)], s.(loads := s.loads[l := x], queue := s.queue + [Update(l)]));
  }

  lemma StageShape(s: State, l: nat, lists: bool)
    requires Shape(s) && l < |s.loads| && s.loads[l].stage == Posted(lists) && (lists ==> !s.loads[l].fileinfo)
    ensures Shape(SetStage(s, l, if lists then Listing else Done))
  {
    var s' := SetStage(s, l, if lists then Listing else Done);
    assert References(s') && Cookies(s') by { hide Updates, Batches, Applied; }
    assert Updates(s') by { hide Cookies, Batches, Applied; }
    assert Batches(s') by { hide Cookies, Updates, Applied, LastAfter; }
    assert Applied(s') by { hide Batches, Updates; }
  }

  /** The worker reads its work item once more, and releases the extra reference if no infos follow. */
  lemma TouchKeeps(s: State, l: nat)
    requires Inv(s) && l < |s.loads| && s.loads[l].stage.Posted? && !s.loads[l].freed
    ensures !s.loads[l].fileinfo ==> s.dirs[s.loads[l].dir].Alive()
    ensures Inv(TouchWork(s, l))
  {
    var load := s.loads[l];
    var d := load.dir;
    LoadsAtLeast(s.loads, l, d);
    StageShape(s, l, load.stage.lists);
    var x := load.(stage := if load.stage.lists then Listing else Done);
    var s' := SetStage(s, l, x.stage);
    if load.stage.lists || load.fileinfo {
      assert s.queue + [] == s.queue;
      StepCounted(s, l, x, [], s');
    } else {
      ReleaseShape(s', d);
      ReleaseCounted(s, l, x);
    }
  }

  lemma ReleaseShape(s: State, d: nat)
    requires Shape(s) && d < |s.dirs|
    ensures Shape(DecRef(s, d))
  {
  }

  /** A load that gives up one reference. */
  lemma ReleaseCounted(s: State, l: nat, x: Load)
    requires References(s) && Counted(s) && l < |s.loads| && x.dir == s.loads[l].dir
    requires HeldByLoad(x, x.dir) + 1 == HeldByLoad(s.loads[l], x.dir)
    ensures Counted(DecRef(s.(loads := s.loads[l := x]), x.dir))
  {
    var s' := DecRef(s.(loads := s.loads[l := x]), x.dir);
    forall e | 0 <= e < |s.dirs|
      ensures s'.dirs[e].refs == s'.dirs[e].ext + HeldByLoads(s'.loads, e) + HeldByQueue(s'.queue, s'.loads, e)
    {
      LoadsUpdate(s.loads, l, x, e);
      QueueSameLoads(s.queue, s.loads, s'.loads, e);
    }
  }

  lemma SendUpdates(s: State, l: nat, r: Result, stage: Stage, s': State)
    requires References(s) && Updates(s) && l < |s.loads| && r.Batch?
    requires s.loads[l].stage == Listing && (stage == Listing || stage == Done)
    requires s' == SetStage(s, l, stage).(queue := s.queue + [r])
    ensures Updates(s')
  {
    assert forall k :: Update(k) in s'.queue <==> Update(k) in s.queue;
  }

  lemma SendBatches(s: State, l: nat, infos: set<File>, last: bool, s': State)
    requires References(s) && Batches(s) && l < |s.loads|
    requires s.loads[l].stage == Listing && infos <= s.loads[l].files
    requires s' == SetStage(s, l, if last then Done else Listing).(queue := s.queue + [Batch(l, infos, last)])
    ensures References(s') && Batches(s')
  {
    LastAfterAppend(s.queue, Batch(l, infos, last));
    if last {
      NowLast(s.queue, l, infos);
    }
    hide LastAfter;
  }

  lemma SendShape(s: State, l: nat, infos: set<File>, last: bool)
    requires Shape(s) && l < |s.loads| && s.loads[l].stage == Listing && infos <= s.loads[l].files
    ensures Shape(SetStage(s, l, if last then Done else Listing).(queue := s.queue + [Batch(l, infos, last)]))
  {
    var r := Batch(l, infos, last);
    var s' := SetStage(s, l, if last then Done else Listing).(queue := s.queue + [r]);
    hide Updates, Batches;
    SendBatches(s, l, infos, last, s');
    SendUpdates(s, l, r, if last then Done else Listing, s');
    assert Cookies(s') by { hide Applied; }
    assert Applied(s') by { hide Cookies; }
    hide Cookies, Applied;
  }

  lemma NowLast(q: seq<Result>, l: nat, infos: set<File>)
    ensures forall i :: 0 <= i < |q| && q[i].load == l ==> LastAfter(q + [Batch(l, infos, true)], i)
  {
    assert (q + [Batch(l, infos, true)])[|q|] == Batch(l, infos, true);
  }

  lemma SendKeeps(s: State, l: nat, infos: set<File>, last: bool)
    requires Inv(s) && l < |s.loads| && s.loads[l].stage == Listing && infos <= s.loads[l].files
    ensures Inv(SetStage(s, l, if last then Done else Listing).(queue := s.queue + [Batch(l, infos, last)]))
  {
    SendShape(s, l, infos, last);
    var x := s.loads[l].(stage := if last then Done else Listing);
    StepCounted(s, l, x, [Batch(l, infos, last)],
      s.(loads := s.loads[l := x], queue := s.queue + [Batch(l, infos, last)]));
  }

  // ---------------------------------------------------------------- the main thread

  /** Whatever result is taken from the queue, its directory is still alive, although only updates and last
      batches hold a reference. */
  lemma ResultAlive(s: State)
    requires Inv(s) && s.queue != []
    ensures s.dirs[s.loads[s.queue[0].load].dir].Alive()
  {
    var r := s.queue[0];
    var d := s.loads[r.load].dir;
    if r.Batch? && !r.last {
      if s.loads[r.load].stage == Listing {
        LoadsAtLeast(s.loads, r.load, d);
      } else {
        var j :| 0 < j < |s.queue| && s.queue[j].Batch? && s.queue[j].last && s.queue[j].load == r.load;
        QueueAtLeast(s.queue, j, s.loads, d);
      }
    } else {
      QueueAtLeast(s.queue, 0, s.loads, d);
    }
  }

  /** A batch that passes the cookie check only mentions files the directory holds now. */
  lemma CurrentBatchOwned(s: State)
    requires Inv(s) && s.queue != [] && s.queue[0].Batch?
    requires s.loads[s.queue[0].load].cookie == s.dirs[s.loads[s.queue[0].load].dir].cookie
    ensures s.queue[0].infos <= s.dirs[s.loads[s.queue[0].load].dir].files
  {
  }

  lemma LastAfterPop(q: seq<Result>)
    requires q != []
    ensures forall i :: 0 < i < |q| && LastAfter(q, i) ==> LastAfter(q[1..], i - 1)
  {
    forall i | 0 < i < |q| && LastAfter(q, i)
      ensures LastAfter(q[1..], i - 1)
    {
      var j :| i < j < |q| && q[j].Batch? && q[j].last && q[j].load == q[i].load;
      assert q[1..][j - 1] == q[j];
    }
  }

  lemma PopMembers(q: seq<Result>)
    requires q != []
    ensures forall r :: r in q <==> r == q[0] || r in q[1..]
    ensures forall i :: 0 <= i < |q| - 1 ==> q[1..][i] == q[i + 1]
  {
    assert q == [q[0]] + q[1..];
  }

  lemma PopBatchShape(s: State)
    requires Shape(s) && s.queue != [] && s.queue[0].Batch?
    ensures Shape(s.(queue := s.queue[1..]))
  {
    var s' := s.(queue := s.queue[1..]);
    PopMembers(s.queue);
    assert References(s') && Cookies(s') by { hide Updates, Batches, Applied; }
    assert Updates(s') by { hide Cookies, Batches, Applied; }
    assert Batches(s') by {
      hide Cookies, Updates, Applied, LastAfter;
      LastAfterPop(s.queue);
    }
    assert Applied(s') by { hide Batches, Updates; }
  }

  /** The state after an update has been taken and its work item freed; applied if its cookie is current. */
  function TakeUpdate(s: State): State
    requires References(s) && s.queue != [] && s.queue[0].Update?
  {
    var l := s.queue[0].load;
    var d := s.loads[l].dir;
    var s' := s.(queue := s.queue[1..], loads := s.loads[l := s.loads[l].(freed := true)]);
    if s.loads[l].cookie == s.dirs[d].cookie then
      s'.(dirs := s'.dirs[d := s'.dirs[d].(files := s.loads[l].files)])
    else s'
  }

  lemma TakeUpdateUpdates(s: State)
    requires References(s) && Updates(s) && s.queue != [] && s.queue[0].Update?
    ensures References(TakeUpdate(s)) && Updates(TakeUpdate(s))
  {
    PopMembers(s.queue);
    assert s.queue[0] == Update(s.queue[0].load);
    UpdateOnce(s);
  }

  lemma TakeUpdateBatches(s: State)
    requires References(s) && Batches(s) && s.queue != [] && s.queue[0].Update?
    ensures References(TakeUpdate(s)) && Batches(TakeUpdate(s))
  {
    PopMembers(s.queue);
    LastAfterPop(s.queue);
    hide LastAfter;
  }

  lemma TakeUpdateShape(s: State)
    requires Shape(s) && s.queue != [] && s.queue[0].Update?
    ensures Shape(TakeUpdate(s))
  {
    hide Updates, Batches;
    TakeUpdateUpdates(s);
    TakeUpdateBatches(s);
    assert Cookies(TakeUpdate(s)) by { hide Applied; }
    assert Applied(TakeUpdate(s));
    hide Applied, Cookies, TakeUpdate;
  }

  lemma UpdateOnce(s: State)
    requires Updates(s) && s.queue != [] && s.queue[0].Update?
    ensures s.queue[0] !in s.queue[1..]
  {
  }

  /** Taking a result off the queue and releasing the reference it held, if any. */
  lemma PopCounted(s: State, s': State)
    requires References(s) && Counted(s) && s.queue != [] && s'.queue == s.queue[1..] && |s'.dirs| == |s.dirs|
    requires |s'.loads| == |s.loads| && forall l :: 0 <= l < |s.loads| ==>
      s'.loads[l].dir == s.loads[l].dir && s'.loads[l].stage == s.loads[l].stage &&
      s'.loads[l].fileinfo == s.loads[l].fileinfo
    requires forall d :: 0 <= d < |s.dirs| ==>
      s'.dirs[d].ext == s.dirs[d].ext && s'.dirs[d].refs == s.dirs[d].refs - HeldByResult(s.queue[0], s.loads, d)
    ensures Counted(s')
  {
    forall d | 0 <= d < |s.dirs|
      ensures s'.dirs[d].refs == s'.dirs[d].ext + HeldByLoads(s'.loads, d) + HeldByQueue(s'.queue, s'.loads, d)
    {
      QueuePop(s.queue, s.loads, d);
      QueueSameLoads(s.queue[1..], s.loads, s'.loads, d);
      LoadsSame(s.loads, s'.loads, d);
    }
  }

  lemma {:induction false} LoadsSame(ls: seq<Load>, ls': seq<Load>, d: nat)
    requires |ls'| == |ls| && forall l :: 0 <= l < |ls| ==>
      ls'[l].dir == ls[l].dir && ls'[l].stage == ls[l].stage && ls'[l].fileinfo == ls[l].fileinfo
    ensures HeldByLoads(ls', d) == HeldByLoads(ls, d)
  {
    if ls != [] { LoadsSame(ls[..|ls| - 1], ls'[..|ls| - 1], d); }
  }

  lemma DrainBatchKeeps(s: State, reload: bool, fileinfo: bool)
    requires Inv(s) && s.queue != [] && s.queue[0].Batch?
    ensures Inv(DrainOne(s, reload, fileinfo))
  {
    PopBatchShape(s);
    hide Cookies, Updates, Batches, Applied;
    var s' := DrainOne(s, reload, fileinfo);
    if s.queue[0].last {
      ReleaseShape(s.(queue := s.queue[1..]), s.loads[s.queue[0].load].dir);
    }
    PopCounted(s, s');
  }

  /** Applying an update and destroying it, seen as: take it, release its reference, start the next load. */
  lemma DrainUpdateSteps(s: State, reload: bool, fileinfo: bool)
    requires References(s) && s.queue != [] && s.queue[0].Update?
    ensures var l := s.queue[0].load; var d := s.loads[l].dir; var freed := DecRef(TakeUpdate(s), d);
      DrainOne(s, reload, fileinfo) ==
        if s.loads[l].cookie == s.dirs[d].cookie && reload then StartLoad(freed, d, fileinfo) else freed
  {
    var l := s.queue[0].load;
    var d := s.loads[l].dir;
    var freed := DecRef(TakeUpdate(s), d);
    if s.loads[l].cookie == s.dirs[d].cookie {
      assert DrainOne(s, reload, fileinfo).dirs == (if reload then StartLoad(freed, d, fileinfo) else freed).dirs;
    }
  }

  /** Once all loads have finished and all results are processed, a directory has exactly the references of its
      other holders: every load has released what it took. */
  lemma AllReleased(s: State, d: nat)
    requires Inv(s) && d < |s.dirs| && s.queue == [] && forall l :: 0 <= l < |s.loads| ==> s.loads[l].stage == Done
    ensures s.dirs[d].refs == s.dirs[d].ext
  {
    DoneHoldsNothing(s.loads, d);
  }

  lemma {:induction false} DoneHoldsNothing(ls: seq<Load>, d: nat)
    requires forall l :: 0 <= l < |ls| ==> ls[l].stage == Done
    ensures HeldByLoads(ls, d) == 0
  {
    if ls != [] { DoneHoldsNothing(ls[..|ls| - 1], d); }
  }

  /** An update with the directory's cookie gives the directory its files, any other leaves it its own; no other
      directory's files change. */
  lemma DrainApplies(s: State, reload: bool, fileinfo: bool)
    requires Inv(s) && s.queue != [] && s.queue[0].Update?
    ensures var l := s.queue[0].load; var d := s.loads[l].dir; var s' := DrainOne(s, reload, fileinfo);
      && |s'.dirs| == |s.dirs|
      && s'.dirs[d].files == (if s.loads[l].cookie == s.dirs[d].cookie then s.loads[l].files else s.dirs[d].files)
      && (forall e :: 0 <= e < |s.dirs| && e != d ==> s'.dirs[e].files == s.dirs[e].files)
  {
    hide Cookies, Updates, Batches, Applied, Counted;
  }

  /** No load of the same directory has been started after `l`. */
  predicate IsLatest(s: State, l: nat)
    requires l < |s.loads|
  {
    forall k :: l < k < |s.loads| ==> s.loads[k].dir != s.loads[l].dir
  }

  /** The cookie of a directory is that of its latest load. */
  ghost predicate Current(s: State)
    requires References(s)
  {
    forall l :: 0 <= l < |s.loads| && IsLatest(s, l) ==> s.loads[l].cookie == s.dirs[s.loads[l].dir].cookie
  }

  lemma StartCurrent(s: State, d: nat, fileinfo: bool)
    requires References(s) && Current(s) && d < |s.dirs|
    ensures References(StartLoad(s, d, fileinfo)) && Current(StartLoad(s, d, fileinfo))
  {
    var s' := StartLoad(s, d, fileinfo);
    var n := |s.loads|;
    assert s'.loads[..n] == s.loads && s'.loads[n].dir == d;
    forall l | 0 <= l < n && IsLatest(s', l)
      ensures IsLatest(s, l) && s.loads[l].dir != d
    {
      assert s'.loads[l] == s.loads[l];
      forall k | l < k < n
        ensures s.loads[k].dir != s.loads[l].dir
      {
        assert s'.loads[k] == s.loads[k];
      }
    }
    hide IsLatest;
  }

  /** Steps that start no load. */
  lemma SameCurrent(s: State, s': State)
    requires References(s) && Current(s) && |s'.loads| == |s.loads| && |s'.dirs| >= |s.dirs|
    requires forall i :: 0 <= i < |s'.queue| ==> s'.queue[i].load < |s.loads|
    requires forall l :: 0 <= l < |s.loads| ==>
      s'.loads[l].dir == s.loads[l].dir && s'.loads[l].cookie == s.loads[l].cookie
    requires forall d :: 0 <= d < |s.dirs| ==> s'.dirs[d].cookie == s.dirs[d].cookie
    ensures References(s') && Current(s')
  {
    forall l | 0 <= l < |s'.loads| && IsLatest(s', l)
      ensures s'.loads[l].cookie == s'.dirs[s'.loads[l].dir].cookie
    {
      assert IsLatest(s, l);
    }
  }

  lemma CurrentKeeps(s: State, a: Action)
    requires References(s) && Current(s) && Enabled(s, a)
    ensures References(Next(s, a)) && Current(Next(s, a))
  {
    hide Current, DrainOne;
    match a
    case Start(d, fileinfo) => StartCurrent(s, d, fileinfo);
    case Drain(reload, fileinfo) =>
      if s.queue[0].Update? { DrainUpdateCurrent(s, reload, fileinfo); }
        else { DrainBatchCurrent(s, reload, fileinfo); }
    case _ => SameCurrent(s, Next(s, a));
  }

  lemma DrainBatchCurrent(s: State, reload: bool, fileinfo: bool)
    requires References(s) && Current(s) && s.queue != [] && s.queue[0].Batch?
    ensures References(DrainOne(s, reload, fileinfo)) && Current(DrainOne(s, reload, fileinfo))
  {
    hide Current, Apply;
    SameCurrent(s, DrainOne(s, reload, fileinfo));
  }

  lemma DrainUpdateCurrent(s: State, reload: bool, fileinfo: bool)
    requires References(s) && Current(s) && s.queue != [] && s.queue[0].Update?
    ensures References(DrainOne(s, reload, fileinfo)) && Current(DrainOne(s, reload, fileinfo))
  {
    DrainUpdateSteps(s, reload, fileinfo);
    var d := s.loads[s.queue[0].load].dir;
    var freed := DecRef(TakeUpdate(s), d);
    SameCurrent(s, freed);
    hide Current, DrainOne, TakeUpdate, DecRef;
    if s.loads[s.queue[0].load].cookie == s.dirs[d].cookie && reload { StartCurrent(freed, d, fileinfo); }
  }

  lemma FreedCounted(s: State)
    requires References(s) && Counted(s) && s.queue != [] && s.queue[0].Update?
    ensures Counted(DecRef(TakeUpdate(s), s.loads[s.queue[0].load].dir))
  {
    PopCounted(s, DecRef(TakeUpdate(s), s.loads[s.queue[0].load].dir));
  }

  lemma DrainUpdateKeeps(s: State, reload: bool, fileinfo: bool)
    requires Inv(s) && s.queue != [] && s.queue[0].Update?
    ensures Inv(DrainOne(s, reload, fileinfo))
  {
    var l := s.queue[0].load;
    var d := s.loads[l].dir;
    TakeUpdateShape(s);
    hide Cookies, Updates, Batches, Applied;
    ReleaseShape(TakeUpdate(s), d);
    var freed := DecRef(TakeUpdate(s), d);
    DrainUpdateSteps(s, reload, fileinfo);
    FreedCounted(s);
    hide Counted, DrainOne, TakeUpdate, DecRef;
    if s.loads[l].cookie == s.dirs[d].cookie && reload {
      StartKeeps(freed, d, fileinfo);
    }
  }

  lemma StartKeeps(s: State, d: nat, fileinfo: bool)
    requires Inv(s) && d < |s.dirs|
    ensures Inv(StartLoad(s, d, fileinfo))
  {
    StartShape(s, d, fileinfo);
    StartCounted(s, d, fileinfo);
    hide Cookies, Updates, Batches, Applied, Counted;
  }

  // ---------------------------------------------------------------- all steps, all runs

  /** What each step is entitled to: `dir_dec_ref` is called on a live directory, a worker reads the path of
      a live directory, a callback runs on a live directory. */
  ghost predicate Entitled(s: State, a: Action)
    requires Enabled(s, a) && References(s)
  {
    match a
    case DropRef(d) => s.dirs[d].Alive()
    case Start(d, _) => s.dirs[d].Alive()
    case Post(l, _, _) => s.dirs[s.loads[l].dir].Alive()
    case Touch(l) => !s.loads[l].freed && !s.loads[l].stage.lists && !s.loads[l].fileinfo ==>
      s.dirs[s.loads[l].dir].Alive()
    case Drain(_, _) =>
      var r := s.queue[0];
      var dir := s.dirs[s.loads[r.load].dir];
      dir.Alive() && (r.Batch? && s.loads[r.load].cookie == dir.cookie ==> r.infos <= dir.files)
    case _ => true
  }

  lemma HeldAlive(s: State, d: nat)
    requires Counted(s) && d < |s.dirs| && s.dirs[d].ext > 0
    ensures s.dirs[d].Alive()
  {
  }

  ghost predicate Kept(s: State, a: Action)
    requires Enabled(s, a) && References(s)
  {
    Entitled(s, a) && (Next(s, a).fault || Inv(Next(s, a)))
  }

  lemma HolderKeeps(s: State, a: Action)
    requires Inv(s) && Enabled(s, a) && (a.AddRef? || a.DropRef? || a.Start?)
    ensures Kept(s, a)
  {
    var d := a.d;
    HeldAlive(s, d);
    if a.Start? {
      StartShape(s, d, a.fileinfo);
      StartCounted(s, d, a.fileinfo);
      hide Shape, Counted;
    } else {
      var n := if a.AddRef? then 1 else -1;
      var x := s.dirs[d].(refs := s.dirs[d].refs + n, ext := s.dirs[d].ext + n);
      RefKeeps(s, d, x);
      assert Next(s, a) == s.(dirs := s.dirs[d := x]);
      hide Inv;
    }
  }

  lemma LoadAlive(s: State, l: nat)
    requires Inv(s) && l < |s.loads|
    ensures HeldByLoad(s.loads[l], s.loads[l].dir) > 0 ==> s.dirs[s.loads[l].dir].Alive()
  {
    LoadsAtLeast(s.loads, l, s.loads[l].dir);
  }

  lemma WorkerKeeps(s: State, a: Action)
    requires Inv(s) && Enabled(s, a) && (a.Post? || a.Touch?)
    ensures Kept(s, a)
  {
    LoadAlive(s, a.l);
    assert References(s);
    hide Inv, References;
    if a.Post? {
      PostKeeps(s, a.l, a.files, !(s.loads[a.l].fileinfo || a.files == {} || a.stop));
    } else if !s.loads[a.l].freed {
      TouchKeeps(s, a.l);
    }
  }

  lemma SenderKeeps(s: State, a: Action)
    requires Inv(s) && Enabled(s, a) && (a.SendBatch? || a.SendLast?)
    ensures Kept(s, a)
  {
    assert References(s);
    hide Inv, References;
    SendKeeps(s, a.l, a.infos, a.SendLast?);
    if a.SendBatch? {
      assert s.loads[a.l := s.loads[a.l].(stage := Listing)] == s.loads;
    }
  }

  lemma DrainKeeps(s: State, a: Action)
    requires Inv(s) && Enabled(s, a) && a.Drain?
    ensures Kept(s, a)
  {
    assert References(s);
    hide Inv;
    ResultAlive(s);
    if s.queue[0].Batch? {
      DrainBatchKeeps(s, a.reload, a.fileinfo);
      if s.loads[s.queue[0].load].cookie == s.dirs[s.loads[s.queue[0].load].dir].cookie {
        CurrentBatchOwned(s);
      }
    } else {
      DrainUpdateKeeps(s, a.reload, a.fileinfo);
    }
  }

  lemma StepKeeps(s: State, a: Action)
    requires Inv(s) && Enabled(s, a)
    ensures Entitled(s, a) && (Next(s, a).fault || Inv(Next(s, a)))
  {
    assert References(s);
    hide Inv;
    match a {
      case NewDir => NewDirKeeps(s);
      case AddRef(_) => HolderKeeps(s, a);
      case DropRef(_) => HolderKeeps(s, a);
      case Start(_, _) => HolderKeeps(s, a);
      case Post(_, _, _) => WorkerKeeps(s, a);
      case Touch(_) => WorkerKeeps(s, a);
      case SendBatch(_, _) => SenderKeeps(s, a);
      case SendLast(_, _) => SenderKeeps(s, a);
      case Drain(_, _) => DrainKeeps(s, a);
    }
  }

  const INIT := State([], [], [], false)

  ghost predicate Leads(s: State, a: Action, s': State) {
    References(s) && Enabled(s, a) && s' == Next(s, a)
  }

  /** `states` is a run: it starts empty, and `actions` lead from each state to the next. */
  ghost predicate IsRun(states: seq<State>, actions: seq<Action>) {
    && |states| == |actions| + 1 && states[0] == INIT
    && forall i {:trigger actions[i]} :: 0 <= i < |actions| ==> Leads(states[i], actions[i], states[i + 1])
  }

  lemma EmptyInv(s: State)
    requires |s.dirs| == 0 && |s.loads| == 0 && |s.queue| == 0
    ensures Inv(s)
  {
    assert Cookies(s) && Updates(s) && Batches(s) && Applied(s);
    assert Counted(s);
  }

  lemma {:induction false} RunInv(states: seq<State>, actions: seq<Action>, i: nat)
    requires IsRun(states, actions) && i <= |actions|
    ensures states[i].fault || Inv(states[i])
  {
    if i == 0 {
      EmptyInv(INIT);
    } else {
      hide Inv, Next;
      RunInv(states, actions, i - 1);
      StepKeeps(states[i - 1], actions[i - 1]);
    }
  }

  lemma {:induction false} RunCurrent(states: seq<State>, actions: seq<Action>, i: nat)
    requires IsRun(states, actions) && i <= |actions|
    ensures References(states[i]) && Current(states[i])
  {
    if i > 0 {
      RunCurrent(states, actions, i - 1);
      hide Current, Next;
      CurrentKeeps(states[i - 1], actions[i - 1]);
    }
  }

  /** In every interleaving, an update that is processed is applied exactly if no later load of its directory has
      been started by then: late results of overtaken loads are dropped, and nothing else is. */
  lemma AppliedExactly(states: seq<State>, actions: seq<Action>, i: nat)
    requires IsRun(states, actions) && i < |actions| && actions[i].Drain? && states[i].queue[0].Update?
    ensures var s := states[i]; var l := s.queue[0].load; var d := s.loads[l].dir;
      && (s.loads[l].cookie == s.dirs[d].cookie <==> IsLatest(s, l))
      && states[i + 1].dirs[d].files == if IsLatest(s, l) then s.loads[l].files else s.dirs[d].files
  {
    var s := states[i];
    var l := s.queue[0].load;
    RunInv(states, actions, i);
    RunCurrent(states, actions, i);
    assert Leads(states[i], actions[i], states[i + 1]);
    DrainApplies(s, actions[i].reload, actions[i].fileinfo);
    if !IsLatest(s, l) { Overtaken(s, l); }
    hide Inv, Current, Next;
  }

  lemma Overtaken(s: State, l: nat)
    requires Inv(s) && l < |s.loads| && !IsLatest(s, l)
    ensures s.loads[l].cookie < s.dirs[s.loads[l].dir].cookie
  {
    hide Updates, Batches, Applied, Counted;
    var k :| l < k < |s.loads| && s.loads[k].dir == s.loads[l].dir;
  }

  /** In every interleaving every step finds the directories it uses alive, every applied batch belongs to
      the directory's current files, and the reference counts are exactly those owed. */
  lemma RunsAreSafe(states: seq<State>, actions: seq<Action>, i: nat)
    requires IsRun(states, actions) && i < |actions|
    ensures Entitled(states[i], actions[i]) && Counted(states[i])
  {
    RunInv(states, actions, i);
    StepKeeps(states[i], actions[i]);
  }

  /** A step faults exactly when a worker returns to a work item that the main thread has already taken from
      the queue (and so freed). */
  lemma FaultExactly(s: State, a: Action)
    requires Inv(s) && Enabled(s, a)
    ensures Next(s, a).fault <==> a.Touch? && Update(a.l) !in s.queue
  {
  }

  /** The fault is reachable: a load is started and posted, the main thread drains the queue, and only then
      does the worker read the cookie of its work item. */
  lemma FaultReachable()
    ensures exists states: seq<State>, actions: seq<Action> :: IsRun(states, actions) && states[|actions|].fault
  {
    var actions := [NewDir, Start(0, false), Post(0, {7}, false), Drain(false, false), Touch(0)];
    var dir := Dir(3, 1, 1, {});
    var s1 := State([Dir(1, 1, 0, {})], [], [], false);
    var s2 := State([dir], [Load(0, 1, false, {}, Reading, false)], [], false);
    var s3 := State([dir], [Load(0, 1, false, {7}, Posted(true), false)], [Update(0)], false);
    var s4 := State([Dir(2, 1, 1, {7})], [Load(0, 1, false, {7}, Posted(true), true)], [], false);
    StartLeads(s1, s2);
    PostLeads(s2, s3);
    DrainLeads(s3, s4);
    TouchLeads(s4);
    hide *;
    FiveSteps(INIT, s1, s2, s3, s4, s4.(fault := true), actions);
  }

  lemma FiveSteps(s0: State, s1: State, s2: State, s3: State, s4: State, s5: State, a: seq<Action>)
    requires |a| == 5 && s0 == INIT && s5.fault
    requires Leads(s0, a[0], s1) && Leads(s1, a[1], s2) && Leads(s2, a[2], s3) && Leads(s3, a[3], s4) &&
      Leads(s4, a[4], s5)
    ensures exists states: seq<State>, actions: seq<Action> :: IsRun(states, actions) && states[|actions|].fault
  {
    hide Leads, INIT;
    var states := [s0, s1, s2, s3, s4, s5];
    assert IsRun(states, a) && states[|a|].fault;
  }

  lemma StartLeads(s: State, s': State)
    requires s == State([Dir(1, 1, 0, {})], [], [], false)
    requires s' == State([Dir(3, 1, 1, {})], [Load(0, 1, false, {}, Reading, false)], [], false)
    ensures Leads(INIT, NewDir, s) && Leads(s, Start(0, false), s')
  {
  }

  lemma PostLeads(s: State, s': State)
    requires s == State([Dir(3, 1, 1, {})], [Load(0, 1, false, {}, Reading, false)], [], false)
    requires s' == State(s.dirs, [Load(0, 1, false, {7}, Posted(true), false)], [Update(0)], false)
    ensures Leads(s, Post(0, {7}, false), s')
  {
    assert 7 in {7};
  }

  lemma DrainLeads(s: State, s': State)
    requires s == State([Dir(3, 1, 1, {})], [Load(0, 1, false, {7}, Posted(true), false)], [Update(0)], false)
    requires s' == State([Dir(2, 1, 1, {7})], [Load(0, 1, false, {7}, Posted(true), true)], [], false)
    ensures Leads(s, Drain(false, false), s')
  {
  }

  lemma TouchLeads(s: State)
    requires s == State([Dir(2, 1, 1, {7})], [Load(0, 1, false, {7}, Posted(true), true)], [], false)
    ensures Leads(s, Touch(0), s.(fault := true))
  {
  }
}
