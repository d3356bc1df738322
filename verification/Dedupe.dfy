/**
  isDuplicateUpdate: one answer from a per-process memory cache, a shared file cache and a
  shared table.  Processes may restart and the file may lose entries at any time.
  */
module Dedupe {
  import opened Bytes

  const TTL := 120
  const CLEANUP_EVERY := 60

  /** Update ids with the time each was stored. */
  type Cache = map<int, int>

  datatype Process = Process(memory: Cache, lastCleanup: int)

  datatype World = World(procs: map<nat, Process>, file: Cache, table: Cache)

  /** The table during one call: absent or failing at once, failing at the insert, or working. */
  datatype Db = Unavailable | InsertFails | Works

  /**
    What the surroundings do during one call: the Redis answer, the file, the table, and which
    entries an eviction keeps when times are equal.
    */
  datatype Env = Env(redis: Option<bool>, fileOk: bool, writeOk: bool, db: Db, kept: set<int>)

  const CAPACITY := 200

  /** The entries left by an eviction: the newest, as many as fit. */
  ghost predicate Newest(m: Cache, kept: set<int>) {
    && kept <= m.Keys
    && |kept| == CAPACITY
    && forall i, j :: i in kept && j in m && j !in kept ==> m[j] <= m[i]
  }

  function Trim(m: Cache, kept: set<int>): Cache {
    if |m| > CAPACITY then map i | i in m && i in kept :: m[i] else m
  }

  function Expire(m: Cache, now: int): Cache {
    map i | i in m && now - m[i] <= TTL :: m[i]
  }

  function ProcessOf(w: World, pid: nat): Process {
    if pid in w.procs then w.procs[pid] else Process(map[], 0)
  }

  /** The file cache: whether it knows the id, and its content afterwards. */
  function FileStep(file: Cache, id: int, now: int, env: Env): (bool, Cache) {
    if !env.fileOk then (false, file)
    else
      var recent := Expire(file, now);
      if id in recent then (true, file)
      else
        var recent' := recent[id := now];
        (false, if env.writeOk then Trim(recent', env.kept) else file)
  }

  /** The table: clean up when due, then INSERT IGNORE, which may fail. */
  function TableStep(table: Cache, last: int, id: int, now: int, insertOk: bool): (bool, Cache, int) {
    var due := last == 0 || now - last > CLEANUP_EVERY;
    var t := if due then map i | i in table && !(table[i] < now - TTL) :: table[i] else table;
    (insertOk && id in t, if insertOk && id !in t then t[id := now] else t, if due then now else last)
  }

  /** isDuplicateUpdate in process pid at time now. */
  function Check(w: World, pid: nat, id: int, now: int, env: Env): (World, bool) {
    if id <= 0 then (w, false)
    else
      var p := ProcessOf(w, pid);
      var mem := Expire(p.memory, now);
      if id in mem then (w.(procs := w.procs[pid := p.(memory := mem)]), true)
      else if env.redis == Some(true) then (w.(procs := w.procs[pid := p.(memory := mem[id := now])]), false)
      else if env.redis == Some(false) then (w.(procs := w.procs[pid := p.(memory := mem)]), true)
      else
        var (inFile, file) := FileStep(w.file, id, now, env);
        if inFile || env.db.Unavailable? then
          (World(w.procs[pid := p.(memory := if inFile then mem else mem[id := now])], file, w.table), inFile)
        else
          var (inTable, table, last) := TableStep(w.table, p.lastCleanup, id, now, env.db.Works?);
          (World(w.procs[pid := Process(if inTable then mem else mem[id := now], last)], file, table), inTable)
  }

  lemma Inhabited(s: set<int>)
    ensures s == {} || exists i :: i in s
  {
    if forall i :: i !in s { assert s == {}; }
  }

  class Tracker {
    var procs: map<nat, Process>
    var file: Cache
    var table: Cache

    constructor ()
      ensures View() == World(map[], map[], map[])
    {
      procs, file, table := map[], map[], map[];
    }

    ghost function View(): World
      reads this
    {
      World(procs, file, table)
    }

    /** The loop that drops expired entries. */
    method DropExpired(m: Cache, now: int) returns (r: Cache)
      ensures r == Expire(m, now)
    {
      r := m;
      var todo: set<int> := m.Keys;
      while todo != {}
        invariant todo <= m.Keys
        invariant r == map i | i in m && (i in todo || now - m[i] <= TTL) :: m[i]
        decreases |todo|
      {
        Inhabited(todo);
        var i: int :| i in todo;
        if now - m[i] > TTL { r := r - {i}; }
        todo := todo - {i};
      }
    }

    /** An oldest entry among some of the keys. */
    method Oldest(m: Cache, among: set<int>) returns (i: int)
      requires among != {} && among <= m.Keys
      ensures i in among && forall j :: j in among ==> m[i] <= m[j]
    {
      Inhabited(among);
      i :| i in among;
      var todo := among - {i};
      while todo != {}
        invariant todo <= among && i in among
        invariant forall j :: j in among && j !in todo ==> m[i] <= m[j]
        decreases |todo|
      {
        Inhabited(todo);
        var j: int :| j in todo;
        if m[j] < m[i] { i := j; }
        todo := todo - {j};
      }
    }

    /** asort and array_slice(-200): drop oldest entries until the rest fit. */
    method Evict(m: Cache) returns (r: Cache)
      requires |m| > CAPACITY
      ensures Newest(m, r.Keys) && r == Trim(m, r.Keys)
    {
      var left: set<int> := m.Keys;
      while |left| > CAPACITY
        invariant left <= m.Keys && |left| >= CAPACITY
        invariant forall i, j :: i in left && j in m && j !in left ==> m[j] <= m[i]
        decreases |left|
      {
        var i := Oldest(m, left);
        left := left - {i};
      }
      r := map i | i in m && i in left :: m[i];
      assert r.Keys == left;
    }

    method FileLayer(id: int, now: int, env: Env) returns (dup: bool, ghost kept: set<int>)
      modifies this`file
      ensures (dup, file) == FileStep(old(file), id, now, env.(kept := kept))
      ensures var m := Expire(old(file), now)[id := now];
              |m| > CAPACITY && file != old(file) ==> Newest(m, kept)
    {
      kept := env.kept;
      if !env.fileOk { return false, kept; }
      var recent := DropExpired(file, now);
      if id in recent { return true, kept; }
      recent := recent[id := now];
      if |recent| > CAPACITY {
        recent := Evict(recent);
        kept := recent.Keys;
      }
      if env.writeOk { file := recent; }
      dup := false;
    }

    method TableLayer(last0: int, id: int, now: int, insertOk: bool) returns (dup: bool, last: int)
      modifies this`table
      ensures (dup, table, last) == TableStep(old(table), last0, id, now, insertOk)
    {
      last := last0;
      if last == 0 || now - last > CLEANUP_EVERY {
        table := map i | i in table && !(table[i] < now - TTL) :: table[i];
        last := now;
      }
      if !insertOk { return false, last; }
      dup := id in table;
      if !dup { table := table[id := now]; }
    }

    /** isDuplicateUpdate; kept is what the eviction, if one happened, left in the file. */
    method IsDuplicate(pid: nat, id: int, now: int, env: Env) returns (dup: bool, ghost kept: set<int>)
      modifies this
      ensures (View(), dup) == Check(old(View()), pid, id, now, env.(kept := kept))
      ensures var m := Expire(old(file), now)[id := now];
              |m| > CAPACITY && file != old(file) ==> Newest(m, kept)
    {
      hide Expire, TableStep, Newest;
      kept := env.kept;
      if id <= 0 { return false, kept; }
      var p := if pid in procs then procs[pid] else Process(map[], 0);
      var mem := DropExpired(p.memory, now);
      var last := p.lastCleanup;
      if id in mem {
        dup := true;
      } else if env.redis == Some(true) {
        mem := mem[id := now];
        dup := false;
      } else if env.redis == Some(false) {
        dup := true;
      } else {
        dup, kept := FileLayer(id, now, env);
        if !dup && !env.db.Unavailable? { dup, last := TableLayer(last, id, now, env.db.Works?); }
        if !dup { mem := mem[id := now]; }
      }
      procs := procs[pid := Process(mem, last)];
    }
  }

  // ---------------------------------------------------------------- runs

  datatype Step =
    | Call(pid: nat, id: int, now: int, env: Env)
    | Restart(pid: nat)
    | LoseFile(lost: set<int>)

  /** One finished call. */
  datatype Answer = Answer(id: int, now: int, dup: bool)

  datatype Trace = Trace(w: World, past: seq<Answer>)

  function Next(t: Trace, s: Step): Trace {
    match s
    case Call(pid, id, now, env) =>
      var (w, dup) := Check(t.w, pid, id, now, env);
      Trace(w, t.past + [Answer(id, now, dup)])
    case Restart(pid) => t.(w := t.w.(procs := t.w.procs - {pid}))
    case LoseFile(lost) => t.(w := t.w.(file := t.w.file - lost))
  }

  function Run(steps: seq<Step>): Trace {
    if steps == [] then Trace(World(map[], map[], map[]), [])
    else Next(Run(steps[..|steps| - 1]), steps[|steps| - 1])
  }

  function Clock(past: seq<Answer>): int { if past == [] then 0 else past[|past| - 1].now }

  /** Time never runs back. */
  ghost predicate Forward(past: seq<Answer>) {
    && (forall i :: 0 <= i < |past| ==> past[i].now > 0)
    && forall i, j :: 0 <= i < j < |past| ==> past[i].now <= past[j].now
  }

  /** Redis gives no answer in any call. */
  ghost predicate NoRedis(steps: seq<Step>) {
    forall i :: 0 <= i < |steps| && steps[i].Call? ==> steps[i].env.redis.None?
  }

  ghost predicate TableWorks(steps: seq<Step>) {
    forall i :: 0 <= i < |steps| && steps[i].Call? ==> steps[i].env.db.Works?
  }

  // ---------------------------------------------------------------- no update is new twice

  /** Every recent new answer still has its row. */
  ghost predicate Remembered(t: Trace) {
    forall k :: 0 <= k < |t.past| && !t.past[k].dup && t.past[k].id > 0 && Clock(t.past) - t.past[k].now <= TTL ==>
      t.past[k].id in t.w.table && t.w.table[t.past[k].id] == t.past[k].now
  }

  /** No id was answered new twice within the TTL. */
  ghost predicate NewOnce(past: seq<Answer>) {
    forall i, j :: 0 <= i < j < |past| && past[i].id == past[j].id > 0 && !past[i].dup && !past[j].dup ==>
      past[j].now - past[i].now > TTL
  }

  lemma CallRemembers(t: Trace, pid: nat, id: int, now: int, env: Env)
    requires Forward(t.past) && Remembered(t) && NewOnce(t.past)
    requires env.redis.None? && env.db.Works? && now >= Clock(t.past)
    ensures var t' := Next(t, Call(pid, id, now, env)); Remembered(t') && NewOnce(t'.past)
  {
    hide FileStep, Expire;
    var (w, dup) := Check(t.w, pid, id, now, env);
    var past' := t.past + [Answer(id, now, dup)];
    assert Clock(past') == now;
    forall k | 0 <= k < |t.past| && !t.past[k].dup && t.past[k].id > 0 && now - t.past[k].now <= TTL
      ensures t.past[k].id in w.table && w.table[t.past[k].id] == t.past[k].now
      ensures t.past[k].id == id ==> dup
    {
      assert t.past[k].id in t.w.table && t.w.table[t.past[k].id] == t.past[k].now;
    }
    assert forall k :: 0 <= k < |t.past| ==> past'[k] == t.past[k];
  }

  lemma InitHypotheses(steps: seq<Step>)
    requires steps != [] && NoRedis(steps) && Forward(Run(steps).past)
    ensures NoRedis(steps[..|steps| - 1]) && Forward(Run(steps[..|steps| - 1]).past)
    ensures TableWorks(steps) ==> TableWorks(steps[..|steps| - 1])
    ensures steps[|steps| - 1].Call? ==>
              steps[|steps| - 1].now > 0 && steps[|steps| - 1].now >= Clock(Run(steps[..|steps| - 1]).past)
  {
    hide Check, Run;
    var init := steps[..|steps| - 1];
    var t := Run(init);
    assert Run(steps) == Next(t, steps[|steps| - 1]) by { RunLast(steps); }
    var past := Run(steps).past;
    assert |t.past| <= |past| && forall k :: 0 <= k < |t.past| ==> past[k] == t.past[k];
    if steps[|steps| - 1].Call? {
      assert past[|t.past|].now == steps[|steps| - 1].now;
    }
  }

  lemma RunLast(steps: seq<Step>)
    requires steps != []
    ensures Run(steps) == Next(Run(steps[..|steps| - 1]), steps[|steps| - 1])
  {
  }

  /**
    With the table working, no Redis answer and a clock that never runs back, no update id is
    answered new twice within 120 seconds, whatever the file evicts or the memory forgets.
    */
  lemma {:induction false} NeverNewTwice(steps: seq<Step>)
    requires NoRedis(steps) && TableWorks(steps) && Forward(Run(steps).past)
    ensures NewOnce(Run(steps).past) && Remembered(Run(steps))
  {
    hide Check, Forward, NewOnce, Clock;
    if steps == [] {
      assert NewOnce([]) by { NewOnceEmpty(); }
    } else {
      var init, last := steps[..|steps| - 1], steps[|steps| - 1];
      InitHypotheses(steps);
      NeverNewTwice(init);
      if last.Call? {
        CallRemembers(Run(init), last.pid, last.id, last.now, last.env);
      }
    }
  }

  lemma NewOnceEmpty()
    ensures NewOnce([])
  {
  }

  // ---------------------------------------------------------------- duplicates were seen

  /** Some call for this id was answered at this time. */
  ghost predicate Seen(past: seq<Answer>, id: int, at: int) {
    exists k :: 0 <= k < |past| && past[k].id == id && past[k].now == at
  }

  ghost predicate FromCalls(past: seq<Answer>, m: Cache) {
    forall i :: i in m ==> Seen(past, i, m[i])
  }

  ghost predicate Rooted(t: Trace) {
    && FromCalls(t.past, t.w.file) && FromCalls(t.past, t.w.table)
    && (forall q :: q in t.w.procs ==> FromCalls(t.past, t.w.procs[q].memory))
  }

  ghost predicate Tidy(t: Trace) {
    && (forall q, i :: q in t.w.procs && t.w.procs[q].lastCleanup != 0 && i in t.w.table ==>
          t.w.table[i] >= t.w.procs[q].lastCleanup - TTL)
    && (forall q :: q in t.w.procs ==> t.w.procs[q].lastCleanup <= Clock(t.past))
  }

  /** Every stored entry comes from a call, and the table holds nothing older than a clean-up allows. */
  ghost predicate Grounded(t: Trace) {
    Rooted(t) && Tidy(t)
  }

  /** A duplicate answer at k: the same id was submitted before, at most 180 seconds ago. */
  ghost predicate Justified(past: seq<Answer>, k: nat)
    requires k < |past|
  {
    past[k].dup ==>
      exists j :: 0 <= j < k && past[j].id == past[k].id && past[k].now - past[j].now <= TTL + CLEANUP_EVERY
  }

  lemma SeenLater(past: seq<Answer>, a: Answer, m: Cache)
    ensures FromCalls(past, m) ==> FromCalls(past + [a], m)
    ensures FromCalls(past, m) ==> FromCalls(past + [a], m[a.id := a.now])
  {
    var all := past + [a];
    assert all[|past|] == a;
    assert forall k :: 0 <= k < |past| ==> all[k] == past[k];
    forall i | i in m && Seen(past, i, m[i])
      ensures Seen(all, i, m[i])
    {
      var k :| 0 <= k < |past| && past[k].id == i && past[k].now == m[i];
      assert all[k].id == i;
    }
  }

  lemma SubCache(past: seq<Answer>, m: Cache, n: Cache)
    requires FromCalls(past, m) && forall i :: i in n ==> i in m && n[i] == m[i]
    ensures FromCalls(past, n)
  {
    hide Seen;
  }

  lemma FileGrounded(past: seq<Answer>, file: Cache, id: int, now: int, env: Env, a: Answer)
    requires FromCalls(past, file) && a.id == id && a.now == now
    ensures FromCalls(past + [a], FileStep(file, id, now, env).1)
    ensures FileStep(file, id, now, env).0 ==> id in file && now - file[id] <= TTL
  {
    hide FromCalls;
    var recent := Expire(file, now);
    SubCache(past, file, recent);
    SeenLater(past, a, recent);
    SeenLater(past, a, file);
    SubCache(past + [a], recent[id := now], Trim(recent[id := now], env.kept));
  }

  lemma TableGrounded(past: seq<Answer>, table: Cache, last: int, id: int, now: int, insertOk: bool, a: Answer)
    requires FromCalls(past, table) && a.id == id && a.now == now
    ensures FromCalls(past + [a], TableStep(table, last, id, now, insertOk).1)
  {
    hide FromCalls;
    var due := last == 0 || now - last > CLEANUP_EVERY;
    var t := if due then map i | i in table && !(table[i] < now - TTL) :: table[i] else table;
    SubCache(past, table, t);
    SeenLater(past, a, t);
  }

  lemma Widen(past: seq<Answer>, a: Answer, w: World)
    requires forall q :: q in w.procs ==> FromCalls(past, w.procs[q].memory)
    ensures forall q :: q in w.procs ==> FromCalls(past + [a], w.procs[q].memory)
  {
    hide FromCalls;
    forall q | q in w.procs
      ensures FromCalls(past + [a], w.procs[q].memory)
    {
      SeenLater(past, a, w.procs[q].memory);
    }
  }

  /** A call that reaches the table keeps the table no older than each clean-up allows. */
  lemma TableFresh(t: Trace, p: Process, id: int, now: int, insertOk: bool)
    requires Grounded(t) && now >= Clock(t.past) && now > 0
    requires p == Process(map[], 0) || p.lastCleanup <= Clock(t.past)
    requires p.lastCleanup == 0 || forall i :: i in t.w.table ==> t.w.table[i] >= p.lastCleanup - TTL
    ensures var (dup, table, last) := TableStep(t.w.table, p.lastCleanup, id, now, insertOk);
            && last <= now
            && (last != 0 ==> forall i :: i in table ==> table[i] >= last - TTL)
            && (forall q, i :: q in t.w.procs && t.w.procs[q].lastCleanup != 0 && i in table ==>
                  table[i] >= t.w.procs[q].lastCleanup - TTL)
            && (dup ==> id in t.w.table && now - t.w.table[id] <= TTL + CLEANUP_EVERY)
  {
    hide FromCalls;
  }

  /** A stored entry that is young enough justifies a duplicate answer. */
  lemma EntryJustifies(past: seq<Answer>, m: Cache, a: Answer)
    requires FromCalls(past, m) && a.id in m && a.now - m[a.id] <= TTL + CLEANUP_EVERY
    ensures Justified(past + [a], |past|)
  {
    var all := past + [a];
    var k :| 0 <= k < |past| && past[k].id == a.id && past[k].now == m[a.id];
    assert all[k] == past[k] && all[|past|] == a;
  }

  lemma NewJustifies(past: seq<Answer>, a: Answer)
    requires !a.dup
    ensures Justified(past + [a], |past|)
  {
  }

  /** Everything a call may store comes from calls, once the call itself is on record. */
  lemma LayersGrounded(t: Trace, p: Process, id: int, now: int, env: Env, a: Answer)
    requires FromCalls(t.past, p.memory) && FromCalls(t.past, t.w.file) && FromCalls(t.past, t.w.table)
    requires a.id == id && a.now == now
    ensures FromCalls(t.past + [a], Expire(p.memory, now))
    ensures FromCalls(t.past + [a], Expire(p.memory, now)[id := now])
    ensures FromCalls(t.past + [a], t.w.file) && FromCalls(t.past + [a], t.w.table)
    ensures FromCalls(t.past + [a], FileStep(t.w.file, id, now, env).1)
    ensures FromCalls(t.past + [a], TableStep(t.w.table, p.lastCleanup, id, now, env.db.Works?).1)
  {
    hide FromCalls, FileStep, TableStep;
    var mem := Expire(p.memory, now);
    SubCache(t.past, p.memory, mem);
    SeenLater(t.past, a, mem);
    SeenLater(t.past, a, t.w.file);
    SeenLater(t.past, a, t.w.table);
    FileGrounded(t.past, t.w.file, id, now, env, a);
    TableGrounded(t.past, t.w.table, p.lastCleanup, id, now, env.db.Works?, a);
  }

  lemma ProcessGrounded(t: Trace, pid: nat)
    requires Grounded(t)
    ensures var p := ProcessOf(t.w, pid);
            && FromCalls(t.past, p.memory)
            && (p == Process(map[], 0) || p.lastCleanup <= Clock(t.past))
            && (p.lastCleanup == 0 || forall i :: i in t.w.table ==> t.w.table[i] >= p.lastCleanup - TTL)
  {
  }

  lemma CallGrounded(t: Trace, pid: nat, id: int, now: int, env: Env)
    requires Grounded(t) && env.redis.None? && now >= Clock(t.past) && now > 0
    ensures Grounded(Next(t, Call(pid, id, now, env)))
  {
    hide Rooted, Tidy;
    CallRooted(t, pid, id, now, env);
    CallTidy(t, pid, id, now, env);
  }

  lemma CallRooted(t: Trace, pid: nat, id: int, now: int, env: Env)
    requires Grounded(t) && env.redis.None?
    ensures Rooted(Next(t, Call(pid, id, now, env)))
  {
    hide FromCalls, FileStep, TableStep, Expire, Tidy;
    var (w, dup) := Check(t.w, pid, id, now, env);
    var a := Answer(id, now, dup);
    ProcessGrounded(t, pid);
    LayersGrounded(t, ProcessOf(t.w, pid), id, now, env, a);
    Widen(t.past, a, t.w);
  }

  lemma CallTidy(t: Trace, pid: nat, id: int, now: int, env: Env)
    requires Grounded(t) && env.redis.None? && now >= Clock(t.past) && now > 0
    ensures Tidy(Next(t, Call(pid, id, now, env)))
  {
    hide FromCalls, FileStep, TableStep, Expire, Rooted;
    var (w, dup) := Check(t.w, pid, id, now, env);
    ProcessGrounded(t, pid);
    TableFresh(t, ProcessOf(t.w, pid), id, now, env.db.Works?);
    assert Clock(t.past + [Answer(id, now, dup)]) == now;
  }

  lemma CallJustified(t: Trace, pid: nat, id: int, now: int, env: Env)
    requires Grounded(t) && env.redis.None? && now >= Clock(t.past) && now > 0
    ensures Justified(Next(t, Call(pid, id, now, env)).past, |t.past|)
  {
    hide FromCalls, FileStep, TableStep, Justified;
    var dup := Check(t.w, pid, id, now, env).1;
    var a := Answer(id, now, dup);
    var p := ProcessOf(t.w, pid);
    ProcessGrounded(t, pid);
    TableFresh(t, p, id, now, env.db.Works?);
    FileGrounded(t.past, t.w.file, id, now, env, a);
    if !dup {
      NewJustifies(t.past, a);
    } else if id in Expire(p.memory, now) {
      EntryJustifies(t.past, p.memory, a);
    } else if FileStep(t.w.file, id, now, env).0 {
      EntryJustifies(t.past, t.w.file, a);
    } else {
      EntryJustifies(t.past, t.w.table, a);
    }
  }

  lemma LossGrounded(t: Trace, s: Step)
    requires Grounded(t) && !s.Call?
    ensures Grounded(Next(t, s)) && Next(t, s).past == t.past
  {
    hide Seen, Check;
  }

  lemma JustifiedLater(past: seq<Answer>, a: Answer, k: nat)
    requires k < |past| && Justified(past, k)
    ensures Justified(past + [a], k)
  {
    var all := past + [a];
    assert forall i :: 0 <= i < |past| ==> all[i] == past[i];
    if past[k].dup {
      var j :| 0 <= j < k && past[j].id == past[k].id && past[k].now - past[j].now <= TTL + CLEANUP_EVERY;
      assert all[j].id == all[k].id;
    }
  }

  /**
    Without Redis, every duplicate answer is for an id submitted before, at most 180 seconds
    earlier: 120 for the caches, and 60 more for a row whose clean-up is not yet due.
    */
  lemma {:induction false} DuplicatesWereSeen(steps: seq<Step>)
    requires NoRedis(steps) && Forward(Run(steps).past)
    ensures Grounded(Run(steps))
    ensures forall k :: 0 <= k < |Run(steps).past| ==> Justified(Run(steps).past, k)
  {
    hide Check, Forward, Justified, Grounded, Clock;
    if steps == [] {
      assert Grounded(Run([])) by { StartGrounded(); }
    } else {
      var init, last := steps[..|steps| - 1], steps[|steps| - 1];
      var t := Run(init);
      InitHypotheses(steps);
      DuplicatesWereSeen(init);
      if last.Call? {
        CallGrounded(t, last.pid, last.id, last.now, last.env);
        CallJustified(t, last.pid, last.id, last.now, last.env);
        var a := Answer(last.id, last.now, Check(t.w, last.pid, last.id, last.now, last.env).1);
        assert Run(steps).past == t.past + [a];
        forall k | 0 <= k < |Run(steps).past|
          ensures Justified(Run(steps).past, k)
        {
          if k < |t.past| { JustifiedLater(t.past, a, k); }
        }
      } else {
        LossGrounded(t, last);
      }
    }
  }

  lemma StartGrounded()
    ensures Grounded(Run([]))
  {
  }

  // ---------------------------------------------------------------- past the time to live

  /** The clean-up branch of this process is not taken at this time. */
  predicate CleanupNotDue(p: Process, now: int) {
    p.lastCleanup != 0 && now - p.lastCleanup <= CLEANUP_EVERY
  }

  lemma OldEntriesExpire(past: seq<Answer>, m: Cache, id: int, now: int)
    requires FromCalls(past, m)
    requires forall k :: 0 <= k < |past| && past[k].id == id ==> now - past[k].now > TTL
    ensures id in m ==> now - m[id] > TTL
  {
  }

  /**
    An id whose every earlier call is past the time to live is answered duplicate exactly when its
    row is still in the table and the clean-up of the answering process is not yet due.
    */
  lemma OldDuplicateExactly(t: Trace, pid: nat, id: int, now: int, env: Env)
    requires Grounded(t) && env.redis.None? && id > 0
    requires forall k :: 0 <= k < |t.past| && t.past[k].id == id ==> now - t.past[k].now > TTL
    ensures Check(t.w, pid, id, now, env).1 <==>
            env.db.Works? && id in t.w.table && CleanupNotDue(ProcessOf(t.w, pid), now)
  {
    hide FromCalls;
    var p := ProcessOf(t.w, pid);
    ProcessGrounded(t, pid);
    OldEntriesExpire(t.past, p.memory, id, now);
    OldEntriesExpire(t.past, t.w.file, id, now);
    OldEntriesExpire(t.past, t.w.table, id, now);
  }

  /** The same after every run. */
  lemma LateDuplicatesExactly(steps: seq<Step>, pid: nat, id: int, now: int, env: Env)
    requires NoRedis(steps) && Forward(Run(steps).past) && env.redis.None? && id > 0
    requires forall k :: 0 <= k < |Run(steps).past| && Run(steps).past[k].id == id ==>
               now - Run(steps).past[k].now > TTL
    ensures Check(Run(steps).w, pid, id, now, env).1 <==>
            env.db.Works? && id in Run(steps).w.table && CleanupNotDue(ProcessOf(Run(steps).w, pid), now)
  {
    hide Check, Run, Grounded;
    DuplicatesWereSeen(steps);
    OldDuplicateExactly(Run(steps), pid, id, now, env);
  }

  // A run in which the extra minute shows: one process, no file, a working table.
  const QUIET := Env(None, false, false, Works, {})
  const START := World(map[], map[], map[])
  const AFTER_ONE := World(map[0 := Process(map[1 := 1000], 1000)], map[], map[1 := 1000])
  const AFTER_TWO := World(map[0 := Process(map[1 := 1000, 2 := 1061], 1061)], map[], map[1 := 1000, 2 := 1061])

  lemma FirstCall()
    ensures Check(START, 0, 1, 1000, QUIET) == (AFTER_ONE, false)
  {
    assert Expire(map[], 1000) == map[];
    assert TableStep(map[], 0, 1, 1000, true) == (false, map[1 := 1000], 1000);
  }

  lemma SecondCall()
    ensures Check(AFTER_ONE, 0, 2, 1061, QUIET) == (AFTER_TWO, false)
  {
    var one := map[1 := 1000];
    assert Expire(one, 1061) == one;
    assert (map i | i in one && !(one[i] < 1061 - TTL) :: one[i]) == one;
    assert one[2 := 1061] == map[1 := 1000, 2 := 1061];
    assert TableStep(one, 1000, 2, 1061, true) == (false, map[1 := 1000, 2 := 1061], 1061);
    assert AFTER_ONE.procs[0 := Process(map[1 := 1000, 2 := 1061], 1061)] == AFTER_TWO.procs;
  }

  /** An id whose only earlier call is 121 seconds old is answered duplicate while no clean-up is due. */
  lemma LateDuplicate()
    ensures var steps := [Call(0, 1, 1000, QUIET), Call(0, 2, 1061, QUIET), Call(0, 1, 1121, QUIET)];
            Run(steps).past == [Answer(1, 1000, false), Answer(2, 1061, false), Answer(1, 1121, true)]
  {
    hide Check;
    var a, b, c := Call(0, 1, 1000, QUIET), Call(0, 2, 1061, QUIET), Call(0, 1, 1121, QUIET);
    FirstCall();
    SecondCall();
    assert [a][..0] == [] && [a, b][..1] == [a] && [a, b, c][..2] == [a, b];
    assert Run([]) == Trace(START, []);
    assert Run([a]) == Next(Run([]), a) && Run([a]).w == AFTER_ONE;
    assert Run([a, b]) == Next(Run([a]), b) && Run([a, b]).w == AFTER_TWO;
    LateDuplicatesExactly([a, b], 0, 1, 1121, QUIET);
    assert Run([a, b, c]) == Next(Run([a, b]), c);
  }

  // ---------------------------------------------------------------- with Redis

  /**
    The keys Redis holds, with the time each was set.  A key set for 120 seconds is gone later; in
    the last of these seconds the store may still have it or not, as fractions of a second decide.
    */
  type Store = map<int, int>

  predicate Holds(store: Store, id: int, now: int, late: bool) {
    id in store && (now - store[id] < TTL || (now - store[id] == TTL && late))
  }

  /** A call reaches Redis unless the id is not positive or the process remembers it. */
  predicate AsksRedis(w: World, pid: nat, id: int, now: int) {
    id > 0 && id !in Expire(ProcessOf(w, pid).memory, now)
  }

  /** The store after a run in which every call that asks sets its key if it is not there. */
  function StoreAfter(steps: seq<Step>, late: bool): Store {
    if steps == [] then map[]
    else
      var init, s := steps[..|steps| - 1], steps[|steps| - 1];
      var store := StoreAfter(init, late);
      if s.Call? && AsksRedis(Run(init).w, s.pid, s.id, s.now) && !Holds(store, s.id, s.now, late)
      then store[s.id := s.now] else store
  }

  /** Redis answers each call: true when it set the key, false when it was there. */
  ghost predicate RedisAnswers(steps: seq<Step>, late: bool) {
    forall k :: 0 <= k < |steps| && steps[k].Call? ==>
      steps[k].env.redis == Some(!Holds(StoreAfter(steps[..k], late), steps[k].id, steps[k].now, late))
  }

  /** The id of call k was accepted by an earlier call, less than so many seconds before. */
  ghost predicate Accepted(past: seq<Answer>, k: nat, seconds: int)
    requires k < |past|
  {
    exists j :: 0 <= j < k && past[j].id == past[k].id && !past[j].dup && past[k].now - past[j].now < seconds
  }

  /** Accepted ids are on record. */
  ghost predicate AcceptedAt(past: seq<Answer>, id: int, at: int) {
    exists j :: 0 <= j < |past| && past[j].id == id && !past[j].dup && past[j].now == at
  }

  /** Memory and store hold accepted ids only, and the store the latest time of each recent one. */
  ghost predicate Stored(t: Trace, store: Store) {
    && (forall q, i :: q in t.w.procs && i in t.w.procs[q].memory ==> AcceptedAt(t.past, i, t.w.procs[q].memory[i]))
    && (forall i :: i in store ==> AcceptedAt(t.past, i, store[i]))
    && (forall j :: 0 <= j < |t.past| && t.past[j].id > 0 && !t.past[j].dup && Clock(t.past) - t.past[j].now <= TTL ==>
          t.past[j].id in store && t.past[j].now <= store[t.past[j].id])
  }

  lemma AcceptedLater(past: seq<Answer>, a: Answer, id: int, at: int)
    ensures AcceptedAt(past, id, at) ==> AcceptedAt(past + [a], id, at)
    ensures AcceptedAt(past + [a], a.id, a.now) <== !a.dup
  {
    var all := past + [a];
    assert all[|past|] == a;
    if AcceptedAt(past, id, at) {
      var j :| 0 <= j < |past| && past[j].id == id && !past[j].dup && past[j].now == at;
      assert all[j] == past[j];
    }
  }

  /** The answer of a call, by memory or by the store. */
  lemma RedisAnswer(w: World, pid: nat, id: int, now: int, env: Env)
    requires env.redis.Some? && id > 0
    ensures Check(w, pid, id, now, env).1 <==> !AsksRedis(w, pid, id, now) || env.redis == Some(false)
    ensures var w' := Check(w, pid, id, now, env).0;
            var mem := Expire(ProcessOf(w, pid).memory, now);
            w'.procs.Keys == w.procs.Keys + {pid}
            && (forall q :: q in w.procs && q != pid ==> w'.procs[q] == w.procs[q])
            && w'.procs[pid].memory == if AsksRedis(w, pid, id, now) && env.redis == Some(true)
                                       then mem[id := now] else mem
  {
    hide Expire;
    if env.redis.value { assert env.redis == Some(true); } else { assert env.redis == Some(false); }
  }

  /** The window is kept at call k; its last second belongs to it if keys outlive it. */
  ghost predicate InWindow(past: seq<Answer>, k: nat, late: bool)
    requires k < |past|
  {
    past[k].id > 0 ==>
      && (past[k].dup ==> Accepted(past, k, TTL + 1))
      && (Accepted(past, k, if late then TTL + 1 else TTL) ==> past[k].dup)
  }

  /** Accepted entries of a younger trace. */
  lemma AcceptedAmong(past: seq<Answer>, a: Answer, seconds: int)
    ensures Accepted(past + [a], |past|, seconds) <==>
            exists j :: 0 <= j < |past| && past[j].id == a.id && !past[j].dup && a.now - past[j].now < seconds
  {
    var all := past + [a];
    assert all[|past|] == a;
    assert forall j :: 0 <= j < |past| ==> all[j] == past[j];
    if exists j :: 0 <= j < |past| && past[j].id == a.id && !past[j].dup && a.now - past[j].now < seconds {
      var j :| 0 <= j < |past| && past[j].id == a.id && !past[j].dup && a.now - past[j].now < seconds;
      assert all[j].id == all[|past|].id && !all[j].dup;
    }
  }

  lemma WindowLater(past: seq<Answer>, a: Answer, k: nat, late: bool)
    requires k < |past| && InWindow(past, k, late)
    ensures InWindow(past + [a], k, late)
  {
    var all := past + [a];
    assert forall j :: 0 <= j < |past| ==> all[j] == past[j];
    assert forall n :: Accepted(all, k, n) <==> Accepted(past, k, n);
  }

  lemma WindowsLater(past: seq<Answer>, a: Answer, late: bool)
    requires forall k :: 0 <= k < |past| ==> InWindow(past, k, late)
    ensures forall k :: 0 <= k < |past| ==> InWindow(past + [a], k, late)
  {
    hide InWindow;
    forall k | 0 <= k < |past|
      ensures InWindow(past + [a], k, late)
    {
      WindowLater(past, a, k, late);
    }
  }

  /** One call against the store keeps the window. */
  lemma CallInWindow(t: Trace, store: Store, pid: nat, id: int, now: int, env: Env, late: bool)
    requires Stored(t, store) && env.redis == Some(!Holds(store, id, now, late)) && now >= Clock(t.past)
    ensures InWindow(Next(t, Call(pid, id, now, env)).past, |t.past|, late)
  {
    hide Check;
    if id > 0 {
      var dup := Check(t.w, pid, id, now, env).1;
      var a := Answer(id, now, dup);
      RedisAnswer(t.w, pid, id, now, env);
      AcceptedAmong(t.past, a, TTL);
      AcceptedAmong(t.past, a, TTL + 1);
      if dup {
        var m := ProcessOf(t.w, pid).memory;
        var at := if AsksRedis(t.w, pid, id, now) then store[id] else m[id];
        assert AcceptedAt(t.past, id, at) && now - at <= TTL;
        var j :| 0 <= j < |t.past| && t.past[j].id == id && !t.past[j].dup && t.past[j].now == at;
      }
    }
  }

  /** One call keeps memory and store in step with what was accepted. */
  lemma CallStored(t: Trace, store: Store, pid: nat, id: int, now: int, env: Env, late: bool)
    requires Stored(t, store) && env.redis == Some(!Holds(store, id, now, late)) && now >= Clock(t.past)
    requires forall i :: i in store ==> store[i] <= Clock(t.past)
    ensures var store' := if AsksRedis(t.w, pid, id, now) && !Holds(store, id, now, late)
                          then store[id := now] else store;
            Stored(Next(t, Call(pid, id, now, env)), store')
  {
    hide Check, AcceptedAt;
    var (w, dup) := Check(t.w, pid, id, now, env);
    var a := Answer(id, now, dup);
    forall i, at
      ensures AcceptedAt(t.past, i, at) ==> AcceptedAt(t.past + [a], i, at)
    {
      AcceptedLater(t.past, a, i, at);
    }
    AcceptedLater(t.past, a, id, now);
    if id > 0 { RedisAnswer(t.w, pid, id, now, env); } else { NothingDone(t.w, pid, id, now, env); }
  }

  lemma NothingDone(w: World, pid: nat, id: int, now: int, env: Env)
    requires id <= 0
    ensures Check(w, pid, id, now, env) == (w, false)
  {
  }

  ghost predicate RedisKeeps(t: Trace, store: Store, late: bool) {
    && Stored(t, store)
    && (forall i :: i in store ==> store[i] <= Clock(t.past))
    && forall k :: 0 <= k < |t.past| ==> InWindow(t.past, k, late)
  }

  lemma {:induction false} RedisAlong(steps: seq<Step>, late: bool)
    requires RedisAnswers(steps, late) && Forward(Run(steps).past)
    ensures RedisKeeps(Run(steps), StoreAfter(steps, late), late)
  {
    hide Check, Stored, InWindow, Holds, AsksRedis, Forward, RedisAnswers;
    if steps == [] {
      assert Stored(Run([]), map[]) by { NothingStored(); }
    } else {
      var init, s := steps[..|steps| - 1], steps[|steps| - 1];
      var t, store := Run(init), StoreAfter(init, late);
      RedisInit(steps, late);
      RedisAlong(init, late);
      if s.Call? {
        CallStored(t, store, s.pid, s.id, s.now, s.env, late);
        CallInWindow(t, store, s.pid, s.id, s.now, s.env, late);
        var a := Answer(s.id, s.now, Check(t.w, s.pid, s.id, s.now, s.env).1);
        assert Clock(t.past + [a]) == s.now;
        WindowsLater(t.past, a, late);
      } else {
        LossStored(t, store, s);
      }
    }
  }

  lemma NothingStored()
    ensures Stored(Run([]), map[])
  {
  }

  lemma LossStored(t: Trace, store: Store, s: Step)
    requires Stored(t, store) && !s.Call?
    ensures Stored(Next(t, s), store) && Next(t, s).past == t.past
  {
    hide Check, AcceptedAt;
  }

  lemma RedisInit(steps: seq<Step>, late: bool)
    requires steps != [] && RedisAnswers(steps, late) && Forward(Run(steps).past)
    ensures var init, s := steps[..|steps| - 1], steps[|steps| - 1];
            && RedisAnswers(init, late) && Forward(Run(init).past)
            && (s.Call? ==> s.now >= Clock(Run(init).past)
                            && s.env.redis == Some(!Holds(StoreAfter(init, late), s.id, s.now, late)))
  {
    hide Check, Run, StoreAfter, Holds;
    var init := steps[..|steps| - 1];
    assert forall k :: 0 <= k < |init| ==> init[..k] == steps[..k] && init[k] == steps[k];
    var t := Run(init);
    RunLast(steps);
    var past := Run(steps).past;
    assert |t.past| <= |past| && forall k :: 0 <= k < |t.past| ==> past[k] == t.past[k];
    if steps[|steps| - 1].Call? {
      assert past[|t.past|].now == steps[|steps| - 1].now;
    }
  }

  /**
    While Redis answers every call from one set-if-absent store, a positive id is answered
    duplicate if and only if it was accepted at most 120 seconds before, however the processes
    restart; if keys may be gone in the last of these seconds, an answer within it may be new.
    */
  lemma RedisExactly(steps: seq<Step>, late: bool, k: nat)
    requires RedisAnswers(steps, late) && Forward(Run(steps).past)
    requires k < |Run(steps).past| && Run(steps).past[k].id > 0
    ensures var past := Run(steps).past;
            && (past[k].dup ==> Accepted(past, k, 121))
            && (Accepted(past, k, 120) ==> past[k].dup)
            && (late ==> (past[k].dup <==> Accepted(past, k, 121)))
  {
    hide Run, Stored, StoreAfter, RedisAnswers;
    RedisAlong(steps, late);
    assert InWindow(Run(steps).past, k, late);
    var past := Run(steps).past;
    if Accepted(past, k, 120) {
      assert Accepted(past, k, 121);
    }
  }

  // ---------------------------------------------------------------- without Redis and the table

  /** Redis and the table are down, the file works, is not lost, and never has to evict. */
  ghost predicate FileOnly(steps: seq<Step>) {
    forall k :: 0 <= k < |steps| ==>
      && !steps[k].LoseFile?
      && (steps[k].Call? ==>
            var env := steps[k].env;
            && env.redis.None? && env.db.Unavailable? && env.fileOk && env.writeOk
            && |Expire(Run(steps[..k]).w.file, steps[k].now)[steps[k].id := steps[k].now]| <= 200)
  }

  /** One call that is left to memory and file. */
  lemma FileAnswer(w: World, pid: nat, id: int, now: int, env: Env)
    requires env.redis.None? && env.db.Unavailable? && env.fileOk && env.writeOk && id > 0
    requires |Expire(w.file, now)[id := now]| <= 200
    ensures var (w', dup) := Check(w, pid, id, now, env);
            var mem := Expire(ProcessOf(w, pid).memory, now);
            && (dup <==> id in mem || Holds(w.file, id, now, true))
            && w'.procs.Keys == w.procs.Keys + {pid}
            && (forall q :: q in w.procs && q != pid ==> w'.procs[q] == w.procs[q])
            && w'.procs[pid].memory == (if dup then mem else mem[id := now])
            && w'.file == if dup then w.file else Expire(w.file, now)[id := now]
  {
  }

  /** A cache with a new entry, or after an expiry, holds accepted ids only. */
  lemma EntriesAccepted(past: seq<Answer>, a: Answer, m: Cache)
    requires forall i :: i in m ==> AcceptedAt(past, i, m[i])
    ensures forall i :: i in Expire(m, a.now) ==> AcceptedAt(past + [a], i, m[i])
    ensures forall i :: i in m ==> AcceptedAt(past + [a], i, m[i])
    ensures !a.dup ==> AcceptedAt(past + [a], a.id, a.now)
  {
    hide AcceptedAt;
    AcceptedLater(past, a, a.id, a.now);
    forall i | i in m
      ensures AcceptedAt(past + [a], i, m[i])
    {
      AcceptedLater(past, a, i, m[i]);
    }
  }

  lemma MemoriesAccepted(t: Trace, w: World, pid: nat, a: Answer)
    requires forall q, i :: q in t.w.procs && i in t.w.procs[q].memory ==> AcceptedAt(t.past, i, t.w.procs[q].memory[i])
    requires w.procs.Keys == t.w.procs.Keys + {pid}
    requires forall q :: q in t.w.procs && q != pid ==> w.procs[q] == t.w.procs[q]
    requires var mem := Expire(ProcessOf(t.w, pid).memory, a.now);
             w.procs[pid].memory == if a.dup then mem else mem[a.id := a.now]
    ensures forall q, i :: q in w.procs && i in w.procs[q].memory ==>
              AcceptedAt(t.past + [a], i, w.procs[q].memory[i])
  {
    hide AcceptedAt, Expire;
    forall q, i | q in w.procs && i in w.procs[q].memory
      ensures AcceptedAt(t.past + [a], i, w.procs[q].memory[i])
    {
      EntriesAccepted(t.past, a, ProcessOf(t.w, q).memory);
      ExpireShrinks(ProcessOf(t.w, q).memory, a.now);
    }
  }

  lemma ExpireShrinks(m: Cache, now: int)
    ensures forall i :: i in Expire(m, now) ==> i in m && Expire(m, now)[i] == m[i]
  {
  }

  lemma FileStored(t: Trace, pid: nat, id: int, now: int, env: Env)
    requires Stored(t, t.w.file) && now >= Clock(t.past) && id > 0
    requires forall i :: i in t.w.file ==> t.w.file[i] <= Clock(t.past)
    requires env.redis.None? && env.db.Unavailable? && env.fileOk && env.writeOk
    requires |Expire(t.w.file, now)[id := now]| <= 200
    ensures var t' := Next(t, Call(pid, id, now, env)); Stored(t', t'.w.file)
  {
    hide Check, AcceptedAt, Expire, Holds;
    var (w, dup) := Check(t.w, pid, id, now, env);
    var a := Answer(id, now, dup);
    FileAnswer(t.w, pid, id, now, env);
    EntriesAccepted(t.past, a, t.w.file);
    ExpireShrinks(t.w.file, now);
    MemoriesAccepted(t, w, pid, a);
    FileCovers(t, w, a);
    assert Clock(t.past + [a]) == now;
  }

  /** Every recent accepted id is still in the file. */
  lemma FileCovers(t: Trace, w: World, a: Answer)
    requires Stored(t, t.w.file) && a.now >= Clock(t.past)
    requires forall i :: i in t.w.file ==> t.w.file[i] <= Clock(t.past)
    requires w.file == if a.dup then t.w.file else Expire(t.w.file, a.now)[a.id := a.now]
    ensures var past := t.past + [a];
            forall j :: 0 <= j < |past| && past[j].id > 0 && !past[j].dup && a.now - past[j].now <= TTL ==>
              past[j].id in w.file && past[j].now <= w.file[past[j].id]
  {
    hide AcceptedAt;
    var past := t.past + [a];
    forall j | 0 <= j < |past| && past[j].id > 0 && !past[j].dup && a.now - past[j].now <= TTL
      ensures past[j].id in w.file && past[j].now <= w.file[past[j].id]
    {
      if j < |t.past| {
        assert past[j] == t.past[j];
        assert t.past[j].now <= t.w.file[t.past[j].id] <= Clock(t.past);
      }
    }
  }

  lemma NothingChanges(t: Trace, store: Store, a: Answer, late: bool)
    requires Stored(t, store) && a.id <= 0 && a.now >= Clock(t.past)
    ensures Stored(t.(past := t.past + [a]), store) && InWindow(t.past + [a], |t.past|, late)
  {
    hide AcceptedAt;
    assert Clock(t.past + [a]) == a.now;
    forall i, at
      ensures AcceptedAt(t.past, i, at) ==> AcceptedAt(t.past + [a], i, at)
    {
      AcceptedLater(t.past, a, i, at);
    }
  }

  lemma FileCall(t: Trace, pid: nat, id: int, now: int, env: Env)
    requires Stored(t, t.w.file) && now >= Clock(t.past)
    requires env.redis.None? && env.db.Unavailable? && env.fileOk && env.writeOk
    requires |Expire(t.w.file, now)[id := now]| <= 200
    requires forall i :: i in t.w.file ==> t.w.file[i] <= Clock(t.past)
    ensures var t' := Next(t, Call(pid, id, now, env));
            Stored(t', t'.w.file) && InWindow(t'.past, |t.past|, true)
            && forall i :: i in t'.w.file ==> t'.w.file[i] <= now
  {
    hide Check, AcceptedAt, Stored, InWindow;
    var dup := Check(t.w, pid, id, now, env).1;
    if id > 0 {
      FileStored(t, pid, id, now, env);
      FileAnswer(t.w, pid, id, now, env);
      FileWindow(t, pid, Answer(id, now, dup));
    } else {
      NothingDone(t.w, pid, id, now, env);
      NothingChanges(t, t.w.file, Answer(id, now, dup), true);
    }
  }

  lemma FileWindow(t: Trace, pid: nat, a: Answer)
    requires Stored(t, t.w.file) && a.now >= Clock(t.past) && a.id > 0
    requires a.dup <==> a.id in Expire(ProcessOf(t.w, pid).memory, a.now) || Holds(t.w.file, a.id, a.now, true)
    ensures InWindow(t.past + [a], |t.past|, true)
  {
    AcceptedAmong(t.past, a, TTL + 1);
    if a.dup {
      var m := ProcessOf(t.w, pid).memory;
      var at := if Holds(t.w.file, a.id, a.now, true) then t.w.file[a.id] else m[a.id];
      assert AcceptedAt(t.past, a.id, at) && a.now - at <= TTL;
      var j :| 0 <= j < |t.past| && t.past[j].id == a.id && !t.past[j].dup && t.past[j].now == at;
    }
  }

  lemma {:induction false} FileAlong(steps: seq<Step>)
    requires FileOnly(steps) && Forward(Run(steps).past)
    ensures RedisKeeps(Run(steps), Run(steps).w.file, true)
  {
    hide Check, Stored, InWindow, Expire, Forward, FileOnly;
    if steps == [] {
      assert Stored(Run([]), map[]) by { NothingStored(); }
    } else {
      var init, s := steps[..|steps| - 1], steps[|steps| - 1];
      var t := Run(init);
      FileInit(steps);
      FileAlong(init);
      if s.Call? {
        FileCall(t, s.pid, s.id, s.now, s.env);
        var a := Answer(s.id, s.now, Check(t.w, s.pid, s.id, s.now, s.env).1);
        assert Clock(t.past + [a]) == s.now;
        WindowsLater(t.past, a, true);
      } else {
        LossStored(t, t.w.file, s);
      }
    }
  }

  lemma FileInit(steps: seq<Step>)
    requires steps != [] && FileOnly(steps) && Forward(Run(steps).past)
    ensures var init, s := steps[..|steps| - 1], steps[|steps| - 1];
            && FileOnly(init) && Forward(Run(init).past) && !s.LoseFile?
            && (s.Call? ==>
                  && s.now >= Clock(Run(init).past)
                  && s.env.redis.None? && s.env.db.Unavailable? && s.env.fileOk && s.env.writeOk
                  && |Expire(Run(init).w.file, s.now)[s.id := s.now]| <= 200)
  {
    hide Check, Run, Expire;
    var init := steps[..|steps| - 1];
    assert forall k :: 0 <= k < |init| ==> init[..k] == steps[..k] && init[k] == steps[k];
    var t := Run(init);
    RunLast(steps);
    var past := Run(steps).past;
    assert |t.past| <= |past| && forall k :: 0 <= k < |t.past| ==> past[k] == t.past[k];
    if steps[|steps| - 1].Call? {
      assert past[|t.past|].now == steps[|steps| - 1].now;
    }
  }

  /**
    While the file alone has to do and never fills, a positive id is answered duplicate if and
    only if it was accepted at most 120 seconds before, by any process.
    */
  lemma FileExactly(steps: seq<Step>, k: nat)
    requires FileOnly(steps) && Forward(Run(steps).past)
    requires k < |Run(steps).past| && Run(steps).past[k].id > 0
    ensures Run(steps).past[k].dup <==> Accepted(Run(steps).past, k, 121)
  {
    hide Run, Stored, FileOnly;
    FileAlong(steps);
    assert InWindow(Run(steps).past, k, true);
  }

  /** A file that cannot be used or written stays as it is, and a database that fails stores nothing. */
  lemma FailuresStoreNothing(w: World, pid: nat, id: int, now: int, env: Env)
    ensures var w' := Check(w, pid, id, now, env).0;
            && (!env.fileOk || !env.writeOk || env.redis.Some? ==> w'.file == w.file)
            && (env.db.Unavailable? || env.redis.Some? ==> w'.table == w.table)
            && (forall i :: i in w'.table && i !in w.table ==> env.db.Works? && i == id && w'.table[i] == now)
            && (forall i :: i in w'.table && i in w.table ==>
                  w'.table[i] == w.table[i]
                  || (env.db.Works? && i == id && w'.table[i] == now && now - w.table[i] > 120))
  {
    if env.redis.Some? {
      if env.redis.value { assert env.redis == Some(true); } else { assert env.redis == Some(false); }
    }
  }
}
