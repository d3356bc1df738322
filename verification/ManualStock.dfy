/**
  Manual-sale panels: the rows of the manualsell table under purchase, renewal and removal.
  Each SQL UPDATE is one map comprehension; ORDER BY RAND() LIMIT 1 is an arbitrary choice.
  Requests run side by side, and other requests may come between any two statements.
*/
module ManualStock {
  import opened Bytes

  datatype Status = Active | Selled | Deleted

  datatype Row = Row(panel: string, product: string, group: Option<string>, status: Status, owner: Option<string>)

  type Table = map<nat, Row>

  /** PHP's !empty(group_id): the row belongs to a bundle. */
  predicate Grouped(r: Row) {
    r.group.Some? && r.group.value != "" && r.group.value != "0"
  }

  predicate InStock(r: Row, panel: string, product: Option<string>) {
    r.status == Active && r.panel == panel && (product.Some? ==> r.product == product.value)
  }

  /** A random active row of the panel and product, or none when there is none. */
  ghost predicate Picks(t: Table, panel: string, product: Option<string>, pick: Option<nat>) {
    if pick.Some? then pick.value in t && InStock(t[pick.value], panel, product)
    else forall i :: i in t ==> !InStock(t[i], panel, product)
  }

  // ---------------------------------------------------------------- SQL updates

  function ClaimGroup(t: Table, g: string, user: string): Table {
    map i | i in t :: if t[i].group == Some(g) && t[i].status == Active
                      then t[i].(status := Selled, owner := Some(user)) else t[i]
  }

  function MarkSold(t: Table, id: nat): Table
    requires id in t
  {
    t[id := t[id].(status := Selled)]
  }

  function SetOwner(t: Table, id: nat, user: string): Table
    requires id in t
  {
    t[id := t[id].(owner := Some(user))]
  }

  /** The user's earlier rows, except those of the bundle or row about to be claimed. */
  function ReleaseOthers(t: Table, id: nat, user: string): Table
    requires id in t
  {
    map i | i in t :: if t[i].owner == Some(user) && (if Grouped(t[id]) then t[i].group != t[id].group else i != id)
                      then t[i].(status := Deleted, owner := None) else t[i]
  }

  function MarkDeleted(t: Table, user: string): Table {
    map i | i in t :: if t[i].owner == Some(user) then t[i].(status := Deleted) else t[i]
  }

  /** The rows a claim of id is meant to hand over. */
  function Bundle(t: Table, id: nat): set<nat>
    requires id in t
  {
    if Grouped(t[id]) then set i | i in t && t[i].group == t[id].group else {id}
  }

  // ---------------------------------------------------------------- the operations

  /** What other requests do to the rows in the n-th gap between two statements of a request. */
  type Others = nat -> Table -> Table

  /** Requests neither add nor drop rows, nor move them to another group. */
  ghost predicate KeepGroups(others: Others) {
    forall n, t :: others(n)(t).Keys == t.Keys && forall i :: i in t ==> others(n)(t)[i].group == t[i].group
  }

  /** The claim shared by createUser and extend: the whole group, or the one row in two statements. */
  ghost function Claim(t: Table, id: nat, user: string, others: Others): Table
    requires id in t && KeepGroups(others)
  {
    if Grouped(t[id]) then ClaimGroup(t, t[id].group.value, user)
    else SetOwner(others(0)(MarkSold(t, id)), id, user)
  }

  /** All of createUser: gap 1 lies between the query and the claim, gap 0 inside the claim. */
  ghost function Buy(t: Table, user: string, pick: Option<nat>, others: Others): Table
    requires pick.Some? ==> pick.value in t
    requires KeepGroups(others)
  {
    if pick.None? then t else Claim(others(1)(t), pick.value, user, others)
  }

  /** extend from its query on: gap 2 lies before the release, gap 1 before the claim, gap 0 inside it. */
  ghost function Renew(t: Table, user: string, pick: Option<nat>, others: Others): Table
    requires pick.Some? ==> pick.value in t
    requires KeepGroups(others)
  {
    if pick.None? then t
    else
      var t' := others(1)(ReleaseOthers(others(2)(t), pick.value, user));
      Claim(t', pick.value, user, others)
  }

  class Stock {
    var rows: Table

    constructor (rows: Table)
      ensures this.rows == rows
    {
      this.rows := rows;
    }

    /** The Manualsale branch of createUser; pick is the row the query returned. */
    method CreateUser(user: string, panel: string, product: string, pick: Option<nat>, others: Others)
      requires Picks(rows, panel, Some(product), pick) && KeepGroups(others)
      modifies this
      ensures rows == Buy(old(rows), user, pick, others)
    {
      if pick.None? { return; }
      rows := others(1)(rows);
      ClaimPicked(pick.value, user, others);
    }

    method RemoveUser(user: string)
      modifies this
      ensures rows == MarkDeleted(old(rows), user)
    {
      rows := map i | i in rows :: if rows[i].owner == Some(user) then rows[i].(status := Deleted) else rows[i];
    }

    /** The Manualsale branch of extend: a row of the product, else any row of the panel, else an error. */
    method Extend(user: string, panel: string, product: string, first: Option<nat>, second: Option<nat>, others: Others)
      returns (ok: bool)
      requires Picks(rows, panel, Some(product), first) && KeepGroups(others)
      requires first.None? ==> Picks(others(3)(rows), panel, None, second)
      modifies this
      ensures first.Some? ==> ok && rows == Renew(old(rows), user, first, others)
      ensures first.None? ==> ok == second.Some? && rows == Renew(others(3)(old(rows)), user, second, others)
      ensures !ok ==> forall i :: i in rows ==> !InStock(rows[i], panel, None)
    {
      var pick := first;
      if pick.None? {
        rows := others(3)(rows);
        pick := second;
      }
      if pick.None? { return false; }
      rows := others(2)(rows);
      Release(pick.value, user);
      rows := others(1)(rows);
      ClaimPicked(pick.value, user, others);
      ok := true;
    }

    /** The first UPDATE of extend. */
    method Release(id: nat, user: string)
      requires id in rows
      modifies this
      ensures rows == ReleaseOthers(old(rows), id, user)
    {
      var g := rows[id].group;
      if Grouped(rows[id]) {
        rows := map i | i in rows :: if rows[i].owner == Some(user) && rows[i].group != g
                                     then rows[i].(status := Deleted, owner := None) else rows[i];
      } else {
        rows := map i | i in rows :: if rows[i].owner == Some(user) && i != id
                                     then rows[i].(status := Deleted, owner := None) else rows[i];
      }
    }

    /** The claiming UPDATEs. */
    method ClaimPicked(id: nat, user: string, others: Others)
      requires id in rows && KeepGroups(others)
      modifies this
      ensures rows == Claim(old(rows), id, user, others)
    {
      if Grouped(rows[id]) {
        var g := rows[id].group.value;
        rows := map i | i in rows :: if rows[i].group == Some(g) && rows[i].status == Active
                                     then rows[i].(status := Selled, owner := Some(user)) else rows[i];
      } else {
        rows := rows[id := rows[id].(status := Selled)];
        rows := others(0)(rows);
        rows := rows[id := rows[id].(owner := Some(user))];
      }
    }
  }

  // ---------------------------------------------------------------- requests side by side

  /** The next UPDATE of a request: the release, the claim, or the second half of an ungrouped claim. */
  datatype Phase = Releasing | Claiming | Naming

  /** A request that has picked a row. */
  datatype Job = Job(user: string, id: nat, phase: Phase)

  datatype World = World(rows: Table, jobs: map<nat, Job>)

  /** One SQL statement of one request. */
  datatype Step =
    | Select(req: nat, user: string, renew: bool, panel: string, product: Option<string>, pick: Option<nat>)
    | Update(req: nat)
    | Remove(user: string)

  /** A query returns a row in stock; only a renewal asks without a product. */
  ghost predicate Legal(w: World, s: Step) {
    match s
    case Select(req, _, renew, panel, product, pick) =>
      req !in w.jobs && (product.None? ==> renew) && Picks(w.rows, panel, product, pick)
    case Update(req) => req in w.jobs
    case Remove(_) => true
  }

  /** The rows after the next UPDATE of a job. */
  function Updated(t: Table, j: Job): Table
    requires j.id in t
  {
    match j.phase
    case Releasing => ReleaseOthers(t, j.id, j.user)
    case Claiming => if Grouped(t[j.id]) then ClaimGroup(t, t[j.id].group.value, j.user) else MarkSold(t, j.id)
    case Naming => SetOwner(t, j.id, j.user)
  }

  /** What that UPDATE leaves to do. */
  function After(jobs: map<nat, Job>, req: nat, grouped: bool): map<nat, Job>
    requires req in jobs
  {
    var j := jobs[req];
    if j.phase == Releasing then jobs[req := j.(phase := Claiming)]
    else if j.phase == Claiming && !grouped then jobs[req := j.(phase := Naming)]
    else jobs - {req}
  }

  function Next(w: World, s: Step): World {
    match s
    case Select(req, user, renew, _, _, pick) =>
      if pick.None? then w
      else w.(jobs := w.jobs[req := Job(user, pick.value, if renew then Releasing else Claiming)])
    case Update(req) =>
      if req in w.jobs && w.jobs[req].id in w.rows then
        World(Updated(w.rows, w.jobs[req]), After(w.jobs, req, Grouped(w.rows[w.jobs[req].id])))
      else w
    case Remove(user) => w.(rows := MarkDeleted(w.rows, user))
  }

  function Run(w: World, steps: seq<Step>): World {
    if steps == [] then w else Next(Run(w, steps[..|steps| - 1]), steps[|steps| - 1])
  }

  ghost predicate LegalRun(w: World, steps: seq<Step>) {
    forall k :: 0 <= k < |steps| ==> Legal(Run(w, steps[..k]), steps[k])
  }

  // ---------------------------------------------------------------- what every run keeps

  /** Stock has no owner, and the rows of a bundle agree. */
  ghost predicate Uniform(t: Table) {
    && (forall i :: i in t && t[i].status == Active ==> t[i].owner.None?)
    && (forall i, j :: i in t && j in t && Grouped(t[i]) && t[i].group == t[j].group ==>
          t[i].status == t[j].status && t[i].owner == t[j].owner)
  }

  /** A sold row without an owner is between the two halves of a claim. */
  ghost predicate Named(w: World) {
    forall i :: i in w.rows && w.rows[i].status == Selled && w.rows[i].owner.None? ==>
      exists req :: req in w.jobs && w.jobs[req].id == i && w.jobs[req].phase == Naming
  }

  ghost predicate JobsFit(w: World) {
    forall req :: req in w.jobs ==>
      && w.jobs[req].id in w.rows
      && (w.jobs[req].phase == Naming ==> !Grouped(w.rows[w.jobs[req].id]) && w.rows[w.jobs[req].id].status != Active)
  }

  ghost predicate Valid(w: World) {
    Uniform(w.rows) && Named(w) && JobsFit(w)
  }

  function Rank(s: Status): nat {
    match s
    case Active => 0
    case Selled => 1
    case Deleted => 2
  }

  /** A row moves from active to selled to deleted, and no owner is replaced by another. */
  predicate Forward(r: Row, r': Row) {
    && r'.panel == r.panel && r'.product == r.product && r'.group == r.group
    && Rank(r.status) <= Rank(r'.status)
    && (r.owner.Some? ==> r'.owner == r.owner || (r'.owner.None? && r'.status == Deleted))
    && (r.status == Deleted ==> r'.owner == r.owner || r'.owner.None?)
  }

  ghost predicate AllForward(t: Table, t': Table) {
    t'.Keys == t.Keys && forall i :: i in t ==> Forward(t[i], t'[i])
  }

  /** The UPDATE would bring a deleted row back, or give a row to a second owner. */
  predicate Clash(r: Row, j: Job) {
    match j.phase
    case Releasing => false
    case Claiming => !Grouped(r) && r.status == Deleted
    case Naming => if r.owner.Some? then r.owner != Some(j.user) else r.status == Deleted
  }

  predicate Clashes(w: World, s: Step) {
    s.Update? && s.req in w.jobs && w.jobs[s.req].id in w.rows && Clash(w.rows[w.jobs[s.req].id], w.jobs[s.req])
  }

  lemma ReleaseForward(t: Table, id: nat, user: string)
    requires Uniform(t) && id in t
    ensures AllForward(t, ReleaseOthers(t, id, user))
  {
  }

  lemma ReleaseUniform(t: Table, id: nat, user: string)
    requires Uniform(t) && id in t
    ensures Uniform(ReleaseOthers(t, id, user))
  {
    var r := ReleaseOthers(t, id, user);
    forall i, j | i in r && j in r && Grouped(r[i]) && r[i].group == r[j].group
      ensures r[i].status == r[j].status && r[i].owner == r[j].owner
    {
      assert Grouped(t[i]) && t[i].group == t[j].group;
    }
  }

  lemma ClaimGroupKeeps(t: Table, g: string, user: string)
    requires Uniform(t)
    ensures Uniform(ClaimGroup(t, g, user)) && AllForward(t, ClaimGroup(t, g, user))
  {
  }

  lemma MarkDeletedKeeps(t: Table, user: string)
    requires Uniform(t)
    ensures Uniform(MarkDeleted(t, user)) && AllForward(t, MarkDeleted(t, user))
  {
  }

  /** One UPDATE keeps groups uniform whatever came between, and moves rows forward unless it clashes. */
  lemma UpdateKeeps(t: Table, j: Job)
    requires Uniform(t) && j.id in t
    requires j.phase == Naming ==> !Grouped(t[j.id]) && t[j.id].status != Active
    ensures Uniform(Updated(t, j)) && Updated(t, j).Keys == t.Keys
    ensures AllForward(t, Updated(t, j)) <==> !Clash(t[j.id], j)
  {
    hide ReleaseOthers, ClaimGroup;
    match j.phase {
      case Releasing =>
        ReleaseForward(t, j.id, j.user);
        ReleaseUniform(t, j.id, j.user);
      case Claiming => if Grouped(t[j.id]) { ClaimGroupKeeps(t, t[j.id].group.value, j.user); } else { OneRow(t, j); }
      case Naming => OneRow(t, j);
    }
  }

  lemma RowForward(r: Row, j: Job)
    requires !Grouped(r) && j.phase != Releasing
    ensures !Clash(r, j) <==>
            Forward(r, if j.phase == Claiming then r.(status := Selled) else r.(owner := Some(j.user)))
  {
  }

  lemma OneRow(t: Table, j: Job)
    requires Uniform(t) && j.id in t && !Grouped(t[j.id])
    requires j.phase == Claiming || (j.phase == Naming && t[j.id].status != Active)
    ensures Uniform(Updated(t, j)) && Updated(t, j).Keys == t.Keys
    ensures AllForward(t, Updated(t, j)) <==> !Clash(t[j.id], j)
  {
    hide Forward, Clash;
    var u := Updated(t, j);
    var r := if j.phase == Claiming then t[j.id].(status := Selled) else t[j.id].(owner := Some(j.user));
    assert u == t[j.id := r];
    assert Forward(t[j.id], r) <==> !Clash(t[j.id], j) by { RowForward(t[j.id], j); }
    forall i | i in t && i != j.id
      ensures u[i] == t[i] && Forward(t[i], u[i])
    {
      ForwardItself(t[i]);
    }
  }

  /** What an UPDATE does to a row, as far as the jobs depend on it. */
  lemma UpdateRows(t: Table, j: Job, i: nat)
    requires j.id in t && i in t
    ensures i in Updated(t, j)
    ensures var r, u := t[i], Updated(t, j)[i];
            && u.group == r.group && (u.status == Active ==> r.status == Active)
            && (u.status == Selled && u.owner.None? ==>
                  if i == j.id && !Grouped(r) then j.phase != Naming && (j.phase == Releasing ==> u == r) else u == r)
  {
  }

  lemma UpdateFits(w: World, req: nat)
    requires JobsFit(w) && req in w.jobs
    ensures JobsFit(Next(w, Update(req)))
  {
    hide Updated;
    var j := w.jobs[req];
    var n := Next(w, Update(req));
    forall q | q in n.jobs
      ensures n.jobs[q].id in n.rows
      ensures n.jobs[q].phase == Naming ==> !Grouped(n.rows[n.jobs[q].id]) && n.rows[n.jobs[q].id].status != Active
    {
      UpdateRows(w.rows, j, n.jobs[q].id);
      if q == req && n.jobs[q].phase == Naming { MarkedIsSold(w.rows, j); }
    }
  }

  lemma MarkedIsSold(t: Table, j: Job)
    requires j.id in t && !Grouped(t[j.id]) && j.phase == Claiming
    ensures j.id in Updated(t, j) && Updated(t, j)[j.id] == t[j.id].(status := Selled)
  {
  }

  lemma UpdateNames(w: World, req: nat)
    requires Named(w) && JobsFit(w) && req in w.jobs && Updated(w.rows, w.jobs[req]).Keys == w.rows.Keys
    ensures Named(Next(w, Update(req)))
  {
    hide Updated;
    var j := w.jobs[req];
    var n := Next(w, Update(req));
    forall i | i in n.rows && n.rows[i].status == Selled && n.rows[i].owner.None?
      ensures exists q :: q in n.jobs && n.jobs[q].id == i && n.jobs[q].phase == Naming
    {
      UpdateRows(w.rows, j, i);
      if i == j.id && !Grouped(w.rows[i]) && j.phase == Claiming {
        assert n.jobs[req].id == i && n.jobs[req].phase == Naming;
      } else {
        var q :| q in w.jobs && w.jobs[q].id == i && w.jobs[q].phase == Naming;
        assert n.jobs[q] == w.jobs[q];
      }
    }
  }

  /** Whatever requests do in between, one step keeps the invariant, and fails to move forward only by clashing. */
  lemma StepKeeps(w: World, s: Step)
    requires Valid(w) && Legal(w, s)
    ensures Valid(Next(w, s)) && Next(w, s).rows.Keys == w.rows.Keys
    ensures AllForward(w.rows, Next(w, s).rows) <==> !Clashes(w, s)
  {
    hide Updated, MarkDeleted, Uniform, Clash;
    match s {
      case Select(req, user, renew, panel, product, pick) => SelectKeeps(w, s);
      case Update(req) =>
        UpdateKeeps(w.rows, w.jobs[req]);
        UpdateFits(w, req);
        UpdateNames(w, req);
      case Remove(user) =>
        MarkDeletedKeeps(w.rows, user);
        RemoveKeeps(w, user);
    }
  }

  lemma SelectKeeps(w: World, s: Step)
    requires Valid(w) && Legal(w, s) && s.Select?
    ensures Valid(Next(w, s)) && Next(w, s).rows == w.rows
  {
    hide Uniform;
    var n := Next(w, s);
    forall i | i in n.rows && n.rows[i].status == Selled && n.rows[i].owner.None?
      ensures exists q :: q in n.jobs && n.jobs[q].id == i && n.jobs[q].phase == Naming
    {
      var q :| q in w.jobs && w.jobs[q].id == i && w.jobs[q].phase == Naming;
      assert n.jobs[q] == w.jobs[q];
    }
  }

  lemma RemoveKeeps(w: World, user: string)
    requires Named(w) && JobsFit(w)
    ensures Named(Next(w, Remove(user))) && JobsFit(Next(w, Remove(user)))
  {
    var n := Next(w, Remove(user));
    forall i | i in n.rows && n.rows[i].status == Selled && n.rows[i].owner.None?
      ensures exists q :: q in n.jobs && n.jobs[q].id == i && n.jobs[q].phase == Naming
    {
      assert n.rows[i] == w.rows[i];
    }
  }

  // ---------------------------------------------------------------- every run

  lemma LegalInit(w: World, steps: seq<Step>)
    requires LegalRun(w, steps) && steps != []
    ensures LegalRun(w, steps[..|steps| - 1]) && Legal(Run(w, steps[..|steps| - 1]), steps[|steps| - 1])
  {
    hide Run, Legal;
    var init := steps[..|steps| - 1];
    assert forall k :: 0 <= k < |init| ==> init[..k] == steps[..k] && init[k] == steps[k];
  }

  lemma LegalPrefix(w: World, steps: seq<Step>, k: nat)
    requires LegalRun(w, steps) && k <= |steps|
    ensures LegalRun(w, steps[..k])
  {
    hide Run, Legal;
    assert forall j :: 0 <= j < k ==> steps[..k][..j] == steps[..j] && steps[..k][j] == steps[j];
  }

  lemma RunStep(w: World, steps: seq<Step>, k: nat)
    requires k < |steps|
    ensures Run(w, steps[..k + 1]) == Next(Run(w, steps[..k]), steps[k])
  {
    assert steps[..k + 1][..k] == steps[..k];
  }

  /**
    From consistent stock, in every run of any requests, interleaved statement by statement: the
    rows of a bundle agree in status and owner, stock has no owner, and a sold row has one unless
    its claim is half done.
    */
  lemma {:induction false} BundlesStayUniform(w: World, steps: seq<Step>)
    requires Valid(w) && LegalRun(w, steps)
    ensures Valid(Run(w, steps)) && Run(w, steps).rows.Keys == w.rows.Keys
  {
    hide Valid, Next, Legal;
    if steps != [] {
      LegalInit(w, steps);
      BundlesStayUniform(w, steps[..|steps| - 1]);
      StepKeeps(Run(w, steps[..|steps| - 1]), steps[|steps| - 1]);
    }
  }

  ghost predicate NoClash(w: World, steps: seq<Step>) {
    forall k :: 0 <= k < |steps| ==> !Clashes(Run(w, steps[..k]), steps[k])
  }

  lemma ForwardFrom(w: World, steps: seq<Step>, j: nat, k: nat)
    requires Valid(w) && LegalRun(w, steps) && NoClash(w, steps) && j <= k <= |steps|
    ensures AllForward(Run(w, steps[..j]).rows, Run(w, steps[..k]).rows)
    decreases k - j
  {
    hide Valid, Next, Legal, Run, Clashes, Forward;
    var t := Run(w, steps[..k]).rows;
    if j == k {
      forall i | i in t
        ensures Forward(t[i], t[i])
      {
        ForwardItself(t[i]);
      }
    } else {
      ForwardFrom(w, steps, j, k - 1);
      LegalPrefix(w, steps, k - 1);
      BundlesStayUniform(w, steps[..k - 1]);
      StepKeeps(Run(w, steps[..k - 1]), steps[k - 1]);
      RunStep(w, steps, k - 1);
      var t0, t1 := Run(w, steps[..j]).rows, Run(w, steps[..k - 1]).rows;
      forall i | i in t0
        ensures Forward(t0[i], t[i])
      {
        ForwardTwice(t0[i], t1[i], t[i]);
      }
    }
  }

  lemma ForwardItself(r: Row)
    ensures Forward(r, r)
  {
  }

  lemma ForwardTwice(r: Row, r': Row, r'': Row)
    requires Forward(r, r') && Forward(r', r'')
    ensures Forward(r, r'')
  {
  }

  /**
    A sold row never gets a second owner, and a row only moves from active to selled to deleted,
    between any two moments of the run, if and only if no half of an ungrouped claim meets a row
    that was deleted or named in the meantime. Bundles need no condition.
    */
  lemma SoldOnceExactly(w: World, steps: seq<Step>)
    requires Valid(w) && LegalRun(w, steps)
    ensures (forall j: nat, k: nat :: j <= k <= |steps| ==>
               AllForward(Run(w, steps[..j]).rows, Run(w, steps[..k]).rows)) <==> NoClash(w, steps)
  {
    hide Valid, Next, Legal, Run, Clashes, AllForward;
    if NoClash(w, steps) {
      forall j: nat, k: nat | j <= k <= |steps|
        ensures AllForward(Run(w, steps[..j]).rows, Run(w, steps[..k]).rows)
      {
        ForwardFrom(w, steps, j, k);
      }
    } else {
      var k :| 0 <= k < |steps| && Clashes(Run(w, steps[..k]), steps[k]);
      LegalPrefix(w, steps, k);
      BundlesStayUniform(w, steps[..k]);
      StepKeeps(Run(w, steps[..k]), steps[k]);
      RunStep(w, steps, k);
      assert !AllForward(Run(w, steps[..k]).rows, Run(w, steps[..k + 1]).rows);
    }
  }

  // ---------------------------------------------------------------- enough for safety

  /** No two jobs hold the same ungrouped row. */
  ghost predicate Exclusive(w: World) {
    forall q, r :: q in w.jobs && r in w.jobs && q != r && w.jobs[q].id == w.jobs[r].id && w.jobs[q].id in w.rows ==>
      Grouped(w.rows[w.jobs[q].id])
  }

  /** A job that waits for its claim still finds its ungrouped row active; a half claimed row has no owner. */
  ghost predicate Held(w: World) {
    forall q :: q in w.jobs && w.jobs[q].id in w.rows && !Grouped(w.rows[w.jobs[q].id]) ==>
      var r := w.rows[w.jobs[q].id];
      r.owner.None? && r.status == if w.jobs[q].phase == Naming then Selled else Active
  }

  /** An ungrouped row without owner changes only by its own claim. */
  lemma UnownedStays(t: Table, j: Job, i: nat)
    requires j.id in t && i in t && !Grouped(t[i]) && t[i].owner.None?
    requires j.phase == Releasing || i != j.id
    ensures i in Updated(t, j) && Updated(t, j)[i] == t[i]
  {
  }

  lemma HeldUpdate(w: World, req: nat)
    requires Valid(w) && Held(w) && Exclusive(w) && req in w.jobs
    ensures Held(Next(w, Update(req)))
  {
    hide Updated, Uniform, Named;
    var j := w.jobs[req];
    var n := Next(w, Update(req));
    forall q | q in n.jobs && n.jobs[q].id in n.rows && !Grouped(n.rows[n.jobs[q].id])
      ensures n.rows[n.jobs[q].id].owner.None?
      ensures n.rows[n.jobs[q].id].status == if n.jobs[q].phase == Naming then Selled else Active
    {
      var i := n.jobs[q].id;
      UpdateRows(w.rows, j, i);
      assert Held(w) && w.jobs[q].id == i;
      if j.phase == Releasing || i != j.id {
        UnownedStays(w.rows, j, i);
      } else {
        MarkedIsSold(w.rows, j);
      }
    }
  }

  lemma HeldStep(w: World, s: Step)
    requires Valid(w) && Held(w) && Exclusive(w) && Legal(w, s)
    ensures Held(Next(w, s)) && !Clashes(w, s)
  {
    match s {
      case Select(req, user, renew, panel, product, pick) =>
      case Update(req) => HeldUpdate(w, req);
      case Remove(user) =>
    }
  }

  /** The runs in which a picked ungrouped row is never picked by a second request before the claim is done. */
  ghost predicate ExclusiveRun(w: World, steps: seq<Step>) {
    forall k :: 0 <= k < |steps| ==> Exclusive(Run(w, steps[..k]))
  }

  lemma {:induction false} HeldAlong(w: World, steps: seq<Step>)
    requires Valid(w) && w.jobs == map[] && LegalRun(w, steps) && ExclusiveRun(w, steps)
    ensures Held(Run(w, steps))
  {
    hide Valid, Held, Exclusive, Next, Legal;
    if steps == [] {
      assert Held(w) by { NoJobsHeld(w); }
    } else {
      var init := steps[..|steps| - 1];
      LegalInit(w, steps);
      assert forall k :: 0 <= k < |init| ==> init[..k] == steps[..k];
      HeldAlong(w, init);
      BundlesStayUniform(w, init);
      HeldStep(Run(w, init), steps[|steps| - 1]);
    }
  }

  lemma NoJobsHeld(w: World)
    requires w.jobs == map[]
    ensures Held(w)
  {
  }

  /** Locking a picked row, and so serving one request at a time, is enough: nothing is sold twice. */
  lemma ExclusiveIsSafe(w: World, steps: seq<Step>, j: nat, k: nat)
    requires Valid(w) && w.jobs == map[] && LegalRun(w, steps) && ExclusiveRun(w, steps) && j <= k <= |steps|
    ensures AllForward(Run(w, steps[..j]).rows, Run(w, steps[..k]).rows)
  {
    hide Valid, Held, Exclusive, Next, Legal, Run, AllForward, Clashes;
    forall m | 0 <= m < |steps|
      ensures !Clashes(Run(w, steps[..m]), steps[m])
    {
      var init := steps[..m];
      LegalPrefix(w, steps, m);
      assert forall i :: 0 <= i < m ==> init[..i] == steps[..i];
      HeldAlong(w, init);
      BundlesStayUniform(w, init);
      HeldStep(Run(w, init), steps[m]);
    }
    ForwardFrom(w, steps, j, k);
  }

  /** A table with one ungrouped row. */
  function LastRow(status: Status, owner: Option<string>): Table {
    map[0 := Row("p", "s", None, status, owner)]
  }

  function Purchase(req: nat, user: string): Step {
    Select(req, user, false, "p", Some("s"), Some(0))
  }

  lemma PurchaseStep(w: World, req: nat, user: string)
    requires req !in w.jobs && w.rows == LastRow(Active, None)
    ensures Legal(w, Purchase(req, user))
    ensures Next(w, Purchase(req, user)) == w.(jobs := w.jobs[req := Job(user, 0, Claiming)])
  {
  }

  lemma LastRowSold(w: World, req: nat, status: Status, owner: Option<string>)
    requires w.rows == LastRow(status, owner) && req in w.jobs && w.jobs[req].id == 0
    requires w.jobs[req].phase == Claiming || w.jobs[req].phase == Naming
    ensures Legal(w, Update(req))
    ensures Next(w, Update(req)) ==
            if w.jobs[req].phase == Claiming
            then World(LastRow(Selled, owner), w.jobs[req := w.jobs[req].(phase := Naming)])
            else World(LastRow(status, Some(w.jobs[req].user)), w.jobs - {req})
  {
  }

  /** Two purchases both pick the last row, and both are served: the row passes from a to b. */
  lemma SoldTwice()
    ensures var w := World(LastRow(Active, None), map[]);
            var steps := [Purchase(1, "a"), Purchase(2, "b"), Update(1), Update(1), Update(2), Update(2)];
            && Valid(w) && LegalRun(w, steps)
            && Run(w, steps[..4]).rows == LastRow(Selled, Some("a"))
            && Run(w, steps).rows == LastRow(Selled, Some("b"))
  {
    hide Run, Next, Legal, LastRow, Purchase, Valid;
    var w := World(LastRow(Active, None), map[]);
    LastRowValid(w);
    var steps := [Purchase(1, "a"), Purchase(2, "b"), Update(1), Update(1), Update(2), Update(2)];
    var w1 := w.(jobs := w.jobs[1 := Job("a", 0, Claiming)]);
    PurchaseStep(w, 1, "a");
    var w2 := w.(jobs := w1.jobs[2 := Job("b", 0, Claiming)]);
    PurchaseStep(w1, 2, "b");
    var w3 := World(LastRow(Selled, None), w2.jobs[1 := Job("a", 0, Naming)]);
    LastRowSold(w2, 1, Active, None);
    var w4 := World(LastRow(Selled, Some("a")), w3.jobs - {1});
    LastRowSold(w3, 1, Selled, None);
    var w5 := World(LastRow(Selled, Some("a")), w4.jobs[2 := Job("b", 0, Naming)]);
    LastRowSold(w4, 2, Selled, Some("a"));
    LastRowSold(w5, 2, Selled, Some("a"));
    FirstStep(w, steps);
    assert Run(w, steps[..1]) == w1 by { RunStep(w, steps, 0); }
    assert Run(w, steps[..2]) == w2 by { RunStep(w, steps, 1); }
    assert Run(w, steps[..3]) == w3 by { RunStep(w, steps, 2); }
    assert Run(w, steps[..4]) == w4 by { RunStep(w, steps, 3); }
    assert Run(w, steps[..5]) == w5 by { RunStep(w, steps, 4); }
    RunStep(w, steps, 5);
    assert steps[..6] == steps;
  }

  lemma FirstStep(w: World, steps: seq<Step>)
    ensures Run(w, steps[..0]) == w
  {
  }

  lemma LastRowValid(w: World)
    requires w == World(LastRow(Active, None), map[])
    ensures Valid(w)
  {
  }

  // ---------------------------------------------------------------- what a request achieves

  function Owned(t: Table, user: string): set<nat> {
    set i | i in t && t[i].owner == Some(user)
  }

  /**
    The UPDATE that completes a claim leaves the user with exactly the bundle if and only if the
    user owned nothing else and a bundle was still in stock, or the user's already.
    */
  lemma ClaimOwnsExactly(t: Table, j: Job)
    requires Uniform(t) && j.id in t && j.phase == if Grouped(t[j.id]) then Claiming else Naming
    ensures Owned(Updated(t, j), j.user) == Bundle(t, j.id) <==>
            && Owned(t, j.user) <= Bundle(t, j.id)
            && (Grouped(t[j.id]) ==> t[j.id].status == Active || t[j.id].owner == Some(j.user))
  {
    var o, o', b := Owned(t, j.user), Owned(Updated(t, j), j.user), Bundle(t, j.id);
    assert o <= o';
    assert forall i :: i in o' ==> i in o || i in b;
    assert j.id in b;
  }

  /** A purchase whose row nobody touches hands over the whole bundle, and leaves every other row to the others. */
  lemma PurchaseClaimsBundle(t: Table, user: string, id: nat, others: Others)
    requires KeepGroups(others) && id in t && t[id].status == Active
    requires Uniform(others(1)(t)) && others(1)(t)[id] == t[id]
    requires !Grouped(t[id]) ==> others(0)(MarkSold(others(1)(t), id))[id] == t[id].(status := Selled)
    ensures var bought, before := Buy(t, user, Some(id), others), others(1)(t);
            var last := if Grouped(t[id]) then before else others(0)(MarkSold(before, id));
            && bought.Keys == t.Keys
            && forall i :: i in t ==>
                 bought[i] == if i in Bundle(t, id) then before[i].(status := Selled, owner := Some(user)) else last[i]
  {
    var before := others(1)(t);
    assert before.Keys == t.Keys && forall i :: i in t ==> before[i].group == t[i].group;
    if !Grouped(t[id]) {
      assert others(0)(MarkSold(before, id)).Keys == t.Keys;
    }
  }

  /** No other request comes between the statements. */
  function Alone(): Others {
    (n: nat) => (t: Table) => t
  }

  /** The statements of one request, from its query to its last UPDATE. */
  function Whole(sel: Step, grouped: bool): seq<Step>
    requires sel.Select?
  {
    var u := Update(sel.req);
    [sel] + (if sel.renew then [u] else []) + [u] + if grouped then [] else [u]
  }

  /** After a renewal that nothing interrupts, in any run, the user owns exactly the bundle just claimed. */
  lemma RenewalOwnsExactly(w: World, steps: seq<Step>, user: string, id: nat)
    requires Valid(w) && LegalRun(w, steps) && id in Run(w, steps).rows && Run(w, steps).rows[id].status == Active
    ensures var before := Run(w, steps).rows;
            var after := Renew(before, user, Some(id), Alone());
            && Owned(after, user) == Bundle(before, id)
            && forall i :: i in Bundle(before, id) ==> after[i].status == Selled
  {
    hide Run, LegalRun;
    BundlesStayUniform(w, steps);
    RenewAlone(Run(w, steps).rows, user, id);
  }

  /** A release takes every row from the user, and leaves the picked bundle alone. */
  lemma ReleaseAlone(t: Table, id: nat, user: string)
    requires Uniform(t) && id in t && t[id].status == Active
    ensures var r := ReleaseOthers(t, id, user);
            && r.Keys == t.Keys
            && forall i :: i in t ==>
                 r[i].group == t[i].group && r[i].owner != Some(user) && (i in Bundle(t, id) ==> r[i] == t[i])
  {
  }

  lemma RenewAlone(t: Table, user: string, id: nat)
    requires Uniform(t) && id in t && t[id].status == Active
    ensures var after := Renew(t, user, Some(id), Alone());
            Owned(after, user) == Bundle(t, id) && forall i :: i in Bundle(t, id) ==> after[i].status == Selled
  {
    hide ReleaseOthers;
    ReleaseAlone(t, id, user);
    var r := ReleaseOthers(t, id, user);
    var after := Renew(t, user, Some(id), Alone());
    assert after == Claim(r, id, user, Alone());
    assert forall i :: i in t ==> (after[i].owner == Some(user) <==> i in Bundle(t, id));
  }

  /** Run step by step without interruption, a request does what createUser or extend does. */
  lemma WholeRequest(w: World, sel: Step)
    requires Legal(w, sel) && sel.Select? && sel.pick.Some?
    ensures var t := w.rows;
            var t' := if sel.renew then Renew(t, sel.user, sel.pick, Alone()) else Buy(t, sel.user, sel.pick, Alone());
            Run(w, Whole(sel, Grouped(t[sel.pick.value]))) == World(t', w.jobs)
  {
    hide ReleaseOthers, Claim, Run;
    var req := sel.req;
    var grouped := Grouped(w.rows[sel.pick.value]);
    RunAppend(w, [], sel);
    assert [] + [sel] == [sel] && Run(w, []) == w by { RunNothing(w); }
    var j := Job(sel.user, sel.pick.value, if sel.renew then Releasing else Claiming);
    var w1 := w.(jobs := w.jobs[req := j]);
    assert Run(w, [sel]) == w1;
    if sel.renew {
      RunAppend(w, [sel], Update(req));
      ReleaseKeepsGroups(w.rows, j.id, j.user);
      ClaimAlone(w, [sel] + [Update(req)], req);
    } else {
      assert [sel] + [] == [sel];
      ClaimAlone(w, [sel], req);
    }
  }

  lemma RunNothing(w: World)
    ensures Run(w, []) == w
  {
  }

  lemma ReleaseKeepsGroups(t: Table, id: nat, user: string)
    requires id in t
    ensures id in ReleaseOthers(t, id, user) && ReleaseOthers(t, id, user)[id].group == t[id].group
  {
  }

  lemma ClaimAlone(w: World, steps: seq<Step>, req: nat)
    requires var x := Run(w, steps); req in x.jobs && x.jobs[req].phase == Claiming && x.jobs[req].id in x.rows
    ensures var x := Run(w, steps);
            var j := x.jobs[req];
            Run(w, steps + [Update(req)] + if Grouped(x.rows[j.id]) then [] else [Update(req)]) ==
            World(Claim(x.rows, j.id, j.user, Alone()), x.jobs - {req})
  {
    hide Run, ClaimGroup;
    RunAppend(w, steps, Update(req));
    RunAppend(w, steps + [Update(req)], Update(req));
    assert steps + [Update(req)] + [] == steps + [Update(req)];
  }

  lemma RunAppend(w: World, steps: seq<Step>, s: Step)
    ensures Run(w, steps + [s]) == Next(Run(w, steps), s)
  {
    assert (steps + [s])[..|steps|] == steps;
  }

  /** A removal deletes each row the user owns, keeping the rest of it, and touches no other row. */
  lemma RemovalDeletes(t: Table, user: string)
    ensures MarkDeleted(t, user).Keys == t.Keys
    ensures forall i :: i in t ==>
              var r := MarkDeleted(t, user)[i];
              if t[i].owner == Some(user)
              then r == Row(t[i].panel, t[i].product, t[i].group, Deleted, Some(user))
              else r == t[i]
  {
  }

  /** In any run, right after a removal no row is sold to the user or in stock under the name. */
  lemma RemovedIsGone(w: World, steps: seq<Step>, user: string)
    requires Valid(w) && LegalRun(w, steps)
    ensures var before, after := Run(w, steps), Run(w, steps + [Remove(user)]);
            && after.jobs == before.jobs && after.rows.Keys == w.rows.Keys
            && (forall i :: i in w.rows ==> after.rows[i].owner == before.rows[i].owner)
            && (forall i :: i in w.rows && after.rows[i].owner == Some(user) ==> after.rows[i].status == Deleted)
            && (forall i :: i in w.rows && after.rows[i].owner != Some(user) ==> after.rows[i] == before.rows[i])
  {
    hide Valid, LegalRun, MarkDeleted, Run;
    BundlesStayUniform(w, steps);
    RunAppend(w, steps, Remove(user));
    RemovalDeletes(Run(w, steps).rows, user);
  }

  /** A release takes every row of the user but the picked one and its bundle; it touches no other row. */
  lemma ReleaseDeletes(t: Table, id: nat, user: string)
    requires id in t
    ensures ReleaseOthers(t, id, user).Keys == t.Keys
    ensures forall i :: i in t ==>
              var r := ReleaseOthers(t, id, user)[i];
              if t[i].owner == Some(user) && i !in Bundle(t, id)
              then r == Row(t[i].panel, t[i].product, t[i].group, Deleted, None)
              else r == t[i]
  {
  }

  /** A bundle is the rows of one group, or the row alone when its group is absent, empty or "0". */
  lemma BundleIs(t: Table, id: nat)
    requires id in t
    ensures forall j :: j in Bundle(t, id) <==>
              j in t && (j == id || (t[j].group == t[id].group && t[id].group !in {None, Some(""), Some("0")}))
  {
  }
}
