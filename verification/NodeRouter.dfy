/** RendezvousSelector: node IDs per group, and a flat index of all of them. A rendezvous table is a
    set of IDs; which one it picks is left open. Go visits a map in any order, so do the loops. */
module NodeRouter {
  import opened Wrappers

  datatype UpdateType = UpdateAdd | UpdateRemove
  datatype UpdateOp = UpdateOp(kind: UpdateType, ids: seq<string>)

  type Groups = map<string, set<string>>

  function Elems<T>(s: seq<T>): set<T> { set x <- s }

  function Group(rs: Groups, g: string): set<string> { if g in rs then rs[g] else {} }

  /** All IDs of all groups. */
  function Members(rs: Groups): set<string> { set g <- rs, id <- rs[g] :: id }

  function Apply(ids: set<string>, op: UpdateOp): set<string> {
    match op.kind
    case UpdateAdd => ids + Elems(op.ids)
    case UpdateRemove => ids - Elems(op.ids)
  }

  function ApplyAll(ids: set<string>, ops: seq<UpdateOp>): set<string> {
    if ops == [] then ids else Apply(ApplyAll(ids, ops[..|ops| - 1]), ops[|ops| - 1])
  }

  /** The last operation that names an ID decides whether it is in; no other matters. */
  lemma {:induction false} LastOpDecides(ids: set<string>, ops: seq<UpdateOp>, i: nat, id: string)
    requires i <= |ops| && forall j | i <= j < |ops| :: id !in ops[j].ids
    ensures i == 0 ==> (id in ApplyAll(ids, ops) <==> id in ids)
    ensures i > 0 && id in ops[i - 1].ids ==> (id in ApplyAll(ids, ops) <==> ops[i - 1].kind.UpdateAdd?)
  {
    if i < |ops| {
      LastOpDecides(ids, ops[..|ops| - 1], i, id);
    }
  }

  // ---------- when an index kept by visits is exact ----------

  function Lists(groups: map<string, seq<string>>): Groups { map g <- groups :: Elems(groups[g]) }

  function Replayed(rs: Groups, updates: map<string, seq<UpdateOp>>): Groups {
    map g <- updates :: ApplyAll(Group(rs, g), updates[g])
  }

  /** The selector's groups after Update: each named group replays its operations. */
  function Merged(rs: Groups, updates: map<string, seq<UpdateOp>>): Groups {
    rs + Replayed(rs, updates)
  }

  /** No group but g holds any of these IDs. */
  ghost predicate NowhereElse(rs: Groups, g: string, ids: set<string>) {
    forall h <- rs :: h != g ==> rs[h] !! ids
  }

  /** Replacing a group moves the index by exactly that group if and only if no other group holds an ID
      that leaves it. */
  lemma ReplaceExactly(rs: Groups, g: string, ids: set<string>)
    ensures Members(rs[g := ids]) == Members(rs) - Group(rs, g) + ids <==> NowhereElse(rs, g, Group(rs, g) - ids)
  {
    var rs' := rs[g := ids];
    if NowhereElse(rs, g, Group(rs, g) - ids) {
      forall id
        ensures id in Members(rs') <==> id in Members(rs) - Group(rs, g) + ids
      {
        if id in ids {
          assert id in rs'[g];
        } else if id in Members(rs) - Group(rs, g) {
          var h :| h in rs && id in rs[h];
          assert h != g && id in rs'[h];
        }
      }
    } else {
      var h :| h in rs && h != g && !(rs[h] !! Group(rs, g) - ids);
      var id :| id in rs[h] && id in Group(rs, g) - ids;
      assert id in rs'[h] && id in Members(rs') && id !in Members(rs) - Group(rs, g) + ids;
    }
  }

  /** One operation does to the index what it does to its group if and only if it adds, or no other group
      holds an ID it removes. */
  lemma OpExactly(rs: Groups, g: string, op: UpdateOp)
    ensures Members(rs[g := Apply(Group(rs, g), op)]) == Apply(Members(rs), op)
            <==> op.kind.UpdateAdd? || NowhereElse(rs, g, Elems(op.ids))
  {
    var rs' := rs[g := Apply(Group(rs, g), op)];
    if op.kind.UpdateAdd? || NowhereElse(rs, g, Elems(op.ids)) {
      forall id
        ensures id in Members(rs') <==> id in Apply(Members(rs), op)
      {
        if id in Apply(Group(rs, g), op) {
          assert id in rs'[g];
        } else if id in Apply(Members(rs), op) {
          var h :| h in rs && id in rs[h];
          assert h != g && id in rs'[h];
        }
      }
    } else {
      var h :| h in rs && h != g && !(rs[h] !! Elems(op.ids));
      var id :| id in rs[h] && id in Elems(op.ids);
      assert id in rs'[h];
    }
  }

  /** What a whole visit of a group takes out of the index, and what it puts in. */
  datatype Visit = Visit(out: set<string>, into: set<string>)

  function Through(ids: set<string>, v: Visit): set<string> { ids - v.out + v.into }

  /** Set takes out what the group held, and puts in what it holds from now on. */
  function SetVisits(rs: Groups, groups: map<string, seq<string>>): map<string, Visit> {
    map g <- groups :: Visit(Group(rs, g) - Elems(groups[g]), Elems(groups[g]))
  }

  /** An ID mentioned by the operations ends up where the last of them puts it. */
  function OpsVisit(ops: seq<UpdateOp>): (v: Visit)
    ensures v.out !! v.into
  {
    if ops == [] then Visit({}, {})
    else
      var before, op := OpsVisit(ops[..|ops| - 1]), ops[|ops| - 1];
      match op.kind
      case UpdateAdd => Visit(before.out - Elems(op.ids), before.into + Elems(op.ids))
      case UpdateRemove => Visit(before.out + Elems(op.ids), before.into - Elems(op.ids))
  }

  function UpdateVisits(updates: map<string, seq<UpdateOp>>): map<string, Visit> {
    map g <- updates :: OpsVisit(updates[g])
  }

  /** Replaying operations is one visit. */
  lemma {:induction false} ReplayIsVisit(ids: set<string>, ops: seq<UpdateOp>)
    ensures ApplyAll(ids, ops) == Through(ids, OpsVisit(ops))
  {
    if ops != [] {
      ReplayIsVisit(ids, ops[..|ops| - 1]);
    }
  }

  /** A group after visiting all of `visits`. */
  function Settled(start: Groups, visits: map<string, Visit>, g: string): set<string> {
    if g in visits then Through(Group(start, g), visits[g]) else Group(start, g)
  }

  /** No visit takes an ID out of the index that another group holds in the end. */
  ghost predicate Clean(start: Groups, visits: map<string, Visit>) {
    forall g <- visits, h: string | h != g :: Settled(start, visits, h) !! visits[g].out
  }

  /** Part of the way, in whatever order: the groups in `todo` are still to be visited. */
  ghost predicate Visited(rs: Groups, start: Groups, visits: map<string, Visit>, todo: set<string>) {
    && todo <= visits.Keys
    && rs.Keys == start.Keys + (visits.Keys - todo)
    && forall g <- rs :: rs[g] == if g in todo then start[g] else Settled(start, visits, g)
  }

  /** What is in a group now and stays there. */
  function Staying(rs: Groups, visits: map<string, Visit>, todo: set<string>, h: string): set<string>
    requires h in rs && todo <= visits.Keys
  {
    if h in todo then rs[h] - visits[h].out else rs[h]
  }

  /** The index lists nothing that is not there, and everything that stays. */
  ghost predicate HalfIndexed(rs: Groups, index: set<string>, visits: map<string, Visit>, todo: set<string>)
    requires todo <= visits.Keys
  {
    index <= Members(rs) && forall h <- rs :: Staying(rs, visits, todo, h) <= index
  }

  lemma VisitNone(start: Groups, index: set<string>, visits: map<string, Visit>)
    ensures Visited(start, start, visits, visits.Keys)
    ensures index == Members(start) ==> HalfIndexed(start, index, visits, visits.Keys)
  {
  }

  lemma VisitOne(rs: Groups, start: Groups, visits: map<string, Visit>, todo: set<string>, g: string)
    requires Visited(rs, start, visits, todo) && g in todo
    ensures g in visits && Group(rs, g) == Group(start, g)
    ensures Visited(rs[g := Through(Group(rs, g), visits[g])], start, visits, todo - {g})
  {
  }

  lemma VisitKeepsIndex(rs: Groups, index: set<string>, start: Groups, visits: map<string, Visit>, todo: set<string>, g: string)
    requires Visited(rs, start, visits, todo) && g in todo
    requires Clean(start, visits) && HalfIndexed(rs, index, visits, todo)
    ensures HalfIndexed(rs[g := Through(Group(rs, g), visits[g])], Through(index, visits[g]), visits, todo - {g})
  {
    var rs' := rs[g := Through(Group(rs, g), visits[g])];
    forall id | id in Through(index, visits[g])
      ensures id in Members(rs')
    {
      if id in visits[g].into || id in Group(rs, g) {
        assert id in rs'[g];
      } else {
        var h :| h in rs && id in rs[h];
        assert id in rs'[h];
      }
    }
    forall h <- rs'
      ensures Staying(rs', visits, todo - {g}, h) <= Through(index, visits[g])
    {
      if h != g {
        assert Staying(rs, visits, todo, h) <= Settled(start, visits, h);
      } else if g in rs {
        assert Staying(rs, visits, todo, g) <= index;
      }
    }
  }

  lemma VisitAll(rs: Groups, index: set<string>, start: Groups, visits: map<string, Visit>)
    requires Visited(rs, start, visits, {}) && HalfIndexed(rs, index, visits, {})
    ensures index == Members(rs)
  {
    forall id | id in Members(rs)
      ensures id in index
    {
      var h :| h in rs && id in rs[h];
      assert Staying(rs, visits, {}, h) <= index;
    }
  }

  // ---------- for which visits every order is right ----------

  /** Some order of visiting each of these groups once. */
  ghost predicate Order(order: seq<string>, groups: set<string>) {
    Elems(order) == groups && forall i, j | 0 <= i < j < |order| :: order[i] != order[j]
  }

  function GroupsAfter(start: Groups, visits: map<string, Visit>, order: seq<string>): Groups
    requires Elems(order) <= visits.Keys
  {
    if order == [] then start
    else
      var rs, g := GroupsAfter(start, visits, order[..|order| - 1]), order[|order| - 1];
      rs[g := Through(Group(rs, g), visits[g])]
  }

  function IndexAfter(index: set<string>, visits: map<string, Visit>, order: seq<string>): set<string>
    requires Elems(order) <= visits.Keys
  {
    if order == [] then index
    else Through(IndexAfter(index, visits, order[..|order| - 1]), visits[order[|order| - 1]])
  }

  lemma {:induction false} OrderedVisits(start: Groups, visits: map<string, Visit>, order: seq<string>, groups: set<string>)
    requires Order(order, groups) && groups <= visits.Keys
    ensures Visited(GroupsAfter(start, visits, order), start, visits, visits.Keys - groups)
    ensures Clean(start, visits) ==>
              HalfIndexed(GroupsAfter(start, visits, order), IndexAfter(Members(start), visits, order),
                          visits, visits.Keys - groups)
    decreases |order|
  {
    if order == [] {
      VisitNone(start, Members(start), visits);
      assert visits.Keys - groups == visits.Keys;
    } else {
      var before, g := order[..|order| - 1], order[|order| - 1];
      assert order == before + [g];
      OrderedVisits(start, visits, before, groups - {g});
      var rs, todo := GroupsAfter(start, visits, before), visits.Keys - (groups - {g});
      assert todo - {g} == visits.Keys - groups;
      VisitOne(rs, start, visits, todo, g);
      if Clean(start, visits) {
        VisitKeepsIndex(rs, IndexAfter(Members(start), visits, before), start, visits, todo, g);
      }
    }
  }

  lemma OrderGrows(order: seq<string>, groups: set<string>, g: string)
    requires Order(order, groups) && g !in groups
    ensures Order(order + [g], groups + {g})
  {
    assert forall i | 0 <= i < |order| :: order[i] in Elems(order);
    assert Elems(order + [g]) == Elems(order) + {g};
  }

  lemma {:induction false} SomeOrder(groups: set<string>) returns (order: seq<string>)
    ensures Order(order, groups)
    decreases |groups|
  {
    if groups == {} {
      order := [];
    } else {
      var g :| g in groups;
      var before := SomeOrder(groups - {g});
      OrderGrows(before, groups - {g}, g);
      order := before + [g];
      assert groups - {g} + {g} == groups;
    }
  }

  lemma GroupsEnd(start: Groups, visits: map<string, Visit>, order: seq<string>)
    requires Order(order, visits.Keys)
    ensures Visited(GroupsAfter(start, visits, order), start, visits, {})
  {
    OrderedVisits(start, visits, order, visits.Keys);
    assert visits.Keys - visits.Keys == {};
  }

  lemma CleanOrdersAgree(start: Groups, visits: map<string, Visit>, order: seq<string>)
    requires Order(order, visits.Keys) && Clean(start, visits)
    ensures IndexAfter(Members(start), visits, order) == Members(GroupsAfter(start, visits, order))
  {
    OrderedVisits(start, visits, order, visits.Keys);
    assert visits.Keys - visits.Keys == {};
    VisitAll(GroupsAfter(start, visits, order), IndexAfter(Members(start), visits, order), start, visits);
  }

  /** If the visit of g takes out an ID that another group holds in the end, visiting g last unlists it. */
  lemma LastVisitLoses(start: Groups, visits: map<string, Visit>, g: string, h: string) returns (order: seq<string>)
    requires g in visits && h != g && visits[g].out !! visits[g].into
    requires !(Settled(start, visits, h) !! visits[g].out)
    ensures Order(order, visits.Keys)
    ensures IndexAfter(Members(start), visits, order) != Members(GroupsAfter(start, visits, order))
  {
    var before := SomeOrder(visits.Keys - {g});
    OrderGrows(before, visits.Keys - {g}, g);
    order := before + [g];
    assert order[..|order| - 1] == before && visits.Keys - {g} + {g} == visits.Keys;
    GroupsEnd(start, visits, order);
    var rs := GroupsAfter(start, visits, order);
    var id :| id in Settled(start, visits, h) && id in visits[g].out;
    assert h in rs && id in rs[h];
    assert id in Members(rs);
  }

  /** Whatever the order, visiting the groups leaves an exact index if and only if no visit takes out an ID
      that another group holds in the end. */
  lemma EveryOrderExactly(start: Groups, visits: map<string, Visit>)
    requires forall g <- visits :: visits[g].out !! visits[g].into
    ensures Clean(start, visits) <==>
              forall order | Order(order, visits.Keys) ::
                IndexAfter(Members(start), visits, order) == Members(GroupsAfter(start, visits, order))
  {
    if Clean(start, visits) {
      forall order | Order(order, visits.Keys)
        ensures IndexAfter(Members(start), visits, order) == Members(GroupsAfter(start, visits, order))
      {
        CleanOrdersAgree(start, visits, order);
      }
    } else {
      var g, h: string :| g in visits && h != g && !(Settled(start, visits, h) !! visits[g].out);
      var order := LastVisitLoses(start, visits, g, h);
    }
  }

  class RendezvousSelector {
    var rs: Groups
    var nodeIDs: set<string>
    const lookup: (set<string>, seq<int>) -> string
    const lookupN: (set<string>, seq<int>, int) -> seq<string>

    constructor (lookup: (set<string>, seq<int>) -> string, lookupN: (set<string>, seq<int>, int) -> seq<string>)
      ensures this.lookup == lookup && this.lookupN == lookupN && rs == map[] && nodeIDs == {}
    {
      this.lookup, this.lookupN, rs, nodeIDs := lookup, lookupN, map[], {};
    }

    /** What is assumed of the rendezvous library: it picks members, and "" from nothing. */
    ghost predicate Picks() {
      && (forall ids, key :: if ids == {} then lookup(ids, key) == "" else lookup(ids, key) in ids)
      && (forall ids, key, n :: Elems(lookupN(ids, key, n)) <= ids)
    }

    /** The index holds exactly the members of all groups. */
    ghost predicate Indexed()
      reads this
    {
      nodeIDs == Members(rs)
    }

    /** The named groups are replaced. The index ends up exact for every visiting order if no replaced
        group loses an ID that another group holds in the end; with `all` that is always so. */
    method Set(groups: map<string, seq<string>>, all: bool)
      modifies this`rs, this`nodeIDs
      ensures rs == (if all then map[] else old(rs)) + Lists(groups)
      ensures all || (old(Indexed()) && Clean(old(rs), SetVisits(old(rs), groups))) ==> Indexed()
    {
      if all {
        rs, nodeIDs := map[], {};
      }
      ghost var start, visits := rs, SetVisits(rs, groups);
      ghost var clean := nodeIDs == Members(rs) && Clean(start, visits);
      var todo := groups.Keys;
      VisitNone(rs, nodeIDs, visits);
      while todo != {}
        invariant Visited(rs, start, visits, todo)
        invariant clean ==> HalfIndexed(rs, nodeIDs, visits, todo)
        decreases |todo|
      {
        var g :| g in todo;
        VisitOne(rs, start, visits, todo, g);
        if clean {
          VisitKeepsIndex(rs, nodeIDs, start, visits, todo, g);
        }
        SetIsVisit(rs, nodeIDs, start, groups, g);
        SetGroup(g, groups[g], all);
        todo := todo - {g};
      }
      if clean {
        VisitAll(rs, nodeIDs, start, visits);
      }
      SettledSet(rs, start, groups);
      if all {
        NothingToLose(groups);
      }
    }

    /** One turn of Set. A single replaced group keeps the index exact if and only if no other group holds
        an ID that it loses. */
    method SetGroup(g: string, ids: seq<string>, all: bool)
      modifies this`rs, this`nodeIDs
      ensures rs == old(rs)[g := Elems(ids)]
      ensures nodeIDs == old(nodeIDs) - (if all then {} else Group(old(rs), g)) + Elems(ids)
      ensures !all && old(Indexed()) ==> (Indexed() <==> NowhereElse(old(rs), g, Group(old(rs), g) - Elems(ids)))
    {
      ReplaceExactly(rs, g, Elems(ids));
      if !all {
        RemoveNodeIDs(Group(rs, g));
      }
      rs := rs[g := Elems(ids)];
      AddNodeIDs(ids);
    }

    method AddNodeIDs(ids: seq<string>)
      modifies this`nodeIDs
      ensures nodeIDs == old(nodeIDs) + Elems(ids)
    {
      for i := 0 to |ids|
        invariant nodeIDs == old(nodeIDs) + Elems(ids[..i])
      {
        assert ids[..i + 1] == ids[..i] + [ids[i]];
        nodeIDs := nodeIDs + {ids[i]};
      }
      assert ids[..|ids|] == ids;
    }

    method RemoveNodeIDs(ids: set<string>)
      modifies this`nodeIDs
      ensures nodeIDs == old(nodeIDs) - ids
    {
      nodeIDs := nodeIDs - ids;
    }

    method AddToGroup(g: string, ids: seq<string>)
      requires g in rs
      modifies this`rs, this`nodeIDs
      ensures rs == old(rs)[g := old(rs[g]) + Elems(ids)]
      ensures nodeIDs == old(nodeIDs) + Elems(ids)
    {
      assert rs[g] + Elems(ids[..0]) == rs[g];
      for i := 0 to |ids|
        invariant g in rs && rs == old(rs)[g := old(rs[g]) + Elems(ids[..i])]
        invariant nodeIDs == old(nodeIDs) + Elems(ids[..i])
      {
        assert Elems(ids[..i + 1]) == Elems(ids[..i]) + {ids[i]};
        assert rs[g] + {ids[i]} == old(rs[g]) + Elems(ids[..i + 1]);
        rs := rs[g := rs[g] + {ids[i]}];
        nodeIDs := nodeIDs + {ids[i]};
      }
      assert ids[..|ids|] == ids;
    }

    method RemoveFromGroup(g: string, ids: seq<string>)
      requires g in rs
      modifies this`rs, this`nodeIDs
      ensures rs == old(rs)[g := old(rs[g]) - Elems(ids)]
      ensures nodeIDs == old(nodeIDs) - Elems(ids)
    {
      assert rs[g] - Elems(ids[..0]) == rs[g];
      for i := 0 to |ids|
        invariant g in rs && rs == old(rs)[g := old(rs[g]) - Elems(ids[..i])]
        invariant nodeIDs == old(nodeIDs) - Elems(ids[..i])
      {
        assert Elems(ids[..i + 1]) == Elems(ids[..i]) + {ids[i]};
        assert rs[g] - {ids[i]} == old(rs[g]) - Elems(ids[..i + 1]);
        rs := rs[g := rs[g] - {ids[i]}];
        nodeIDs := nodeIDs - {ids[i]};
      }
      assert ids[..|ids|] == ids;
    }

    /** One operation on one group, ID by ID. It keeps the index exact if and only if it adds, or no other
        group holds an ID it removes. */
    method ApplyOp(g: string, op: UpdateOp)
      requires g in rs
      modifies this`rs, this`nodeIDs
      ensures rs == old(rs)[g := Apply(old(rs[g]), op)]
      ensures nodeIDs == Apply(old(nodeIDs), op)
      ensures old(Indexed()) ==> (Indexed() <==> op.kind.UpdateAdd? || NowhereElse(old(rs), g, Elems(op.ids)))
    {
      OpExactly(rs, g, op);
      match op.kind {
        case UpdateAdd => AddToGroup(g, op.ids);
        case UpdateRemove => RemoveFromGroup(g, op.ids);
      }
    }

    method ApplyOps(g: string, ops: seq<UpdateOp>)
      requires g in rs
      modifies this`rs, this`nodeIDs
      ensures rs == old(rs)[g := ApplyAll(old(rs[g]), ops)]
      ensures nodeIDs == ApplyAll(old(nodeIDs), ops)
    {
      for i := 0 to |ops|
        invariant g in rs && rs == old(rs)[g := ApplyAll(old(rs[g]), ops[..i])]
        invariant nodeIDs == ApplyAll(old(nodeIDs), ops[..i])
      {
        assert ops[..i + 1][..i] == ops[..i];
        ApplyOp(g, ops[i]);
      }
      assert ops[..|ops|] == ops;
    }

    /** Every named group replays its own operations. The index ends up exact for every visiting order if
        no ID whose last operation in a group is a removal is held by another group in the end. */
    method Update(updates: map<string, seq<UpdateOp>>)
      modifies this`rs, this`nodeIDs
      ensures rs == Merged(old(rs), updates)
      ensures old(Indexed()) && Clean(old(rs), UpdateVisits(updates)) ==> Indexed()
    {
      ghost var visits := UpdateVisits(updates);
      ghost var clean := old(Indexed()) && Clean(old(rs), visits);
      var todo := updates.Keys;
      VisitNone(rs, nodeIDs, visits);
      while todo != {}
        invariant Visited(rs, old(rs), visits, todo)
        invariant clean ==> HalfIndexed(rs, nodeIDs, visits, todo)
        decreases |todo|
      {
        var g :| g in todo;
        VisitOne(rs, old(rs), visits, todo, g);
        if clean {
          VisitKeepsIndex(rs, nodeIDs, old(rs), visits, todo, g);
        }
        ReplayIsVisit(Group(rs, g), updates[g]);
        ReplayIsVisit(nodeIDs, updates[g]);
        UpdateGroup(g, updates[g]);
        todo := todo - {g};
      }
      if clean {
        VisitAll(rs, nodeIDs, old(rs), visits);
      }
      SettledUpdate(rs, old(rs), updates);
    }

    method UpdateGroup(g: string, ops: seq<UpdateOp>)
      modifies this`rs, this`nodeIDs
      ensures rs == old(rs)[g := ApplyAll(Group(old(rs), g), ops)]
      ensures nodeIDs == ApplyAll(old(nodeIDs), ops)
    {
      if g !in rs {
        rs := rs[g := {}];
      }
      ApplyOps(g, ops);
    }

    method Pick(group: string, key: seq<int>, n: int) returns (ids: seq<string>)
      requires Picks()
      ensures Elems(ids) <= Group(rs, group)
      ensures group !in rs ==> ids == []
      ensures group in rs && n > 1 ==> ids == lookupN(rs[group], key, n)
      ensures group in rs && n <= 1 ==> ids == (if lookup(rs[group], key) == "" then [] else [lookup(rs[group], key)])
      ensures n <= 1 && "" !in Group(rs, group) ==> (ids == [] <==> Group(rs, group) == {})
    {
      if group !in rs {
        return [];
      }
      if n <= 1 {
        var id := lookup(rs[group], key);
        if id == "" {
          return [];
        }
        return [id];
      }
      return lookupN(rs[group], key, n);
    }

    predicate Has(nodeID: string)
      reads this
    {
      nodeID in nodeIDs
    }
  }

  lemma SetIsVisit(rs: Groups, index: set<string>, start: Groups, groups: map<string, seq<string>>, g: string)
    requires g in groups && Group(rs, g) == Group(start, g)
    ensures var v := SetVisits(start, groups)[g];
            && Through(Group(rs, g), v) == Elems(groups[g])
            && Through(index, v) == index - Group(start, g) + Elems(groups[g])
  {
  }

  lemma SettledSet(rs: Groups, start: Groups, groups: map<string, seq<string>>)
    requires Visited(rs, start, SetVisits(start, groups), {})
    ensures rs == start + Lists(groups)
  {
    forall g <- groups
      ensures rs[g] == Elems(groups[g])
    {
      SetIsVisit(start, {}, start, groups, g);
    }
  }

  lemma SettledUpdate(rs: Groups, start: Groups, updates: map<string, seq<UpdateOp>>)
    requires Visited(rs, start, UpdateVisits(updates), {})
    ensures rs == Merged(start, updates)
  {
    forall g <- updates
      ensures rs[g] == ApplyAll(Group(start, g), updates[g])
    {
      ReplayIsVisit(Group(start, g), updates[g]);
    }
  }

  /** Setting all groups anew takes nothing out. */
  lemma NothingToLose(groups: map<string, seq<string>>)
    ensures Clean(map[], SetVisits(map[], groups))
  {
  }

  // ---------- one group per ID ----------

  ghost predicate AllHome(ids: set<string>, g: string, home: string -> string) { forall id <- ids :: home(id) == g }

  ghost predicate OpsHome(ops: seq<UpdateOp>, g: string, home: string -> string) {
    forall op <- ops :: AllHome(Elems(op.ids), g, home)
  }

  /** Every ID has one group it can be in. */
  ghost predicate Homed(rs: Groups, home: string -> string) { forall g <- rs :: AllHome(rs[g], g, home) }

  ghost predicate HomedLists(groups: map<string, seq<string>>, home: string -> string) {
    forall g <- groups :: AllHome(Elems(groups[g]), g, home)
  }

  ghost predicate HomedOps(updates: map<string, seq<UpdateOp>>, home: string -> string) {
    forall g <- updates :: OpsHome(updates[g], g, home)
  }

  ghost predicate HomedVisits(visits: map<string, Visit>, home: string -> string) {
    forall g <- visits :: AllHome(visits[g].out + visits[g].into, g, home)
  }

  lemma Disjointness(rs: Groups, home: string -> string)
    requires Homed(rs, home)
    ensures forall g, h | g in rs && h in rs && g != h :: rs[g] !! rs[h]
  {
  }

  /** With one group per ID, groups stay apart and no visit takes out what another group holds. */
  lemma HomedIsClean(rs: Groups, start: Groups, visits: map<string, Visit>, home: string -> string)
    requires Homed(start, home) && HomedVisits(visits, home)
    ensures Clean(start, visits)
    ensures Visited(rs, start, visits, {}) ==> Homed(rs, home)
  {
    forall h: string
      ensures AllHome(Settled(start, visits, h), h, home)
    {
      assert h in start ==> AllHome(start[h], h, home);
      assert h in visits ==> AllHome(visits[h].out + visits[h].into, h, home);
    }
    forall g <- visits, h: string | h != g
      ensures Settled(start, visits, h) !! visits[g].out
    {
      assert AllHome(visits[g].out + visits[g].into, g, home) && AllHome(Settled(start, visits, h), h, home);
    }
  }

  lemma {:induction false} HomedOpsVisit(ops: seq<UpdateOp>, g: string, home: string -> string)
    requires OpsHome(ops, g, home)
    ensures AllHome(OpsVisit(ops).out + OpsVisit(ops).into, g, home)
  {
    if ops != [] {
      HomedOpsVisit(ops[..|ops| - 1], g, home);
      assert AllHome(Elems(ops[|ops| - 1].ids), g, home);
    }
  }

  lemma HomedUpdate(rs: Groups, updates: map<string, seq<UpdateOp>>, home: string -> string)
    requires Homed(rs, home) && HomedOps(updates, home)
    ensures Clean(rs, UpdateVisits(updates)) && Homed(Merged(rs, updates), home)
  {
    var visits, after := UpdateVisits(updates), Merged(rs, updates);
    forall g <- updates
      ensures AllHome(visits[g].out + visits[g].into, g, home)
      ensures after[g] == Settled(rs, visits, g)
    {
      HomedOpsVisit(updates[g], g, home);
      ReplayIsVisit(Group(rs, g), updates[g]);
    }
    HomedIsClean(after, rs, visits, home);
    assert Visited(after, rs, visits, {});
  }

  lemma HomedSet(rs: Groups, groups: map<string, seq<string>>, home: string -> string)
    requires Homed(rs, home) && HomedLists(groups, home)
    ensures Clean(rs, SetVisits(rs, groups)) && Homed(rs + Lists(groups), home)
  {
    var visits, after := SetVisits(rs, groups), rs + Lists(groups);
    forall g <- groups
      ensures AllHome(visits[g].out + visits[g].into, g, home)
      ensures after[g] == Settled(rs, visits, g)
    {
      assert AllHome(Elems(groups[g]), g, home);
      assert g in rs ==> AllHome(rs[g], g, home);
      SetIsVisit(rs, {}, rs, groups, g);
    }
    HomedIsClean(after, rs, visits, home);
    assert Visited(after, rs, visits, {});
  }
}

/** Router: actors that are not registered yet are placed by node group. */
module ActorRouter {
  import opened Arithmetic
  import opened Wrappers
  import opened ActorKeys
  import ClusterCenter
  import opened NodeRouter

  type Node = ClusterCenter.Node

  datatype EventType = NodeAdd | NodeDel
  datatype NodeEvent = NodeEvent(kind: EventType, node: Option<Node>)

  datatype Error = NoAvailableNode | FixedNodeNotAvailable

  // ---------- the reference: a view of the live nodes, kept event by event ----------

  type View = map<string, Node>

  function Observe(view: View, ev: NodeEvent): View {
    match ev
    case NodeEvent(_, None) => view
    case NodeEvent(NodeAdd, Some(n)) => view[n.Id() := n]
    case NodeEvent(NodeDel, Some(n)) => view - {n.Id()}
  }

  function ObserveAll(view: View, events: seq<NodeEvent>): View {
    if events == [] then view else Observe(ObserveAll(view, events[..|events| - 1]), events[|events| - 1])
  }

  function ViewOf(nodes: seq<Option<Node>>): View {
    if nodes == [] then map[]
    else
      var v := ViewOf(nodes[..|nodes| - 1]);
      match nodes[|nodes| - 1]
      case None => v
      case Some(n) => v[n.Id() := n]
  }

  /** The last node, or event, about an ID is what the view holds for it. */
  lemma {:induction false} LastNodeDecides(nodes: seq<Option<Node>>, i: nat, id: string)
    requires i <= |nodes| && forall j | i <= j < |nodes| && nodes[j].Some? :: nodes[j].value.Id() != id
    ensures i == 0 ==> id !in ViewOf(nodes)
    ensures i > 0 && nodes[i - 1].Some? && nodes[i - 1].value.Id() == id ==>
              id in ViewOf(nodes) && ViewOf(nodes)[id] == nodes[i - 1].value
  {
    if i < |nodes| {
      LastNodeDecides(nodes[..|nodes| - 1], i, id);
    }
  }

  lemma {:induction false} LastEventDecides(view: View, events: seq<NodeEvent>, i: nat, id: string)
    requires i <= |events| && forall j | i <= j < |events| && events[j].node.Some? :: events[j].node.value.Id() != id
    ensures i == 0 ==> (id in ObserveAll(view, events) <==> id in view)
    ensures i == 0 && id in view ==> ObserveAll(view, events)[id] == view[id]
    ensures i > 0 && events[i - 1].node.Some? && events[i - 1].node.value.Id() == id ==>
              && (id in ObserveAll(view, events) <==> events[i - 1].kind.NodeAdd?)
              && (events[i - 1].kind.NodeAdd? ==> ObserveAll(view, events)[id] == events[i - 1].node.value)
  {
    if i < |events| {
      LastEventDecides(view, events[..|events| - 1], i, id);
    }
  }

  /** The group a node routes under; an empty name means none. */
  function Routed(nodeGroup: Node -> Option<string>, n: Node): Option<string> {
    if nodeGroup(n) == Some("") then None else nodeGroup(n)
  }

  function Expected(nodeGroup: Node -> Option<string>, view: View, g: string): set<string> {
    set id <- view | Routed(nodeGroup, view[id]) == Some(g)
  }

  function ExpectedAll(nodeGroup: Node -> Option<string>, view: View): set<string> {
    set id <- view | Routed(nodeGroup, view[id]).Some?
  }

  /** An ID is expected in a group, and in the index, exactly if its node routes under that group, or under any. */
  lemma ExpectedExactly(nodeGroup: Node -> Option<string>, view: View, g: string, id: string)
    ensures id in Expected(nodeGroup, view, g) <==> id in view && nodeGroup(view[id]) == Some(g) && g != ""
    ensures id in ExpectedAll(nodeGroup, view) <==> id in view && nodeGroup(view[id]) !in {None, Some("")}
  {
  }

  /** A node's group depends on its ID alone, and `home` names it. */
  ghost predicate ByID(nodeGroup: Node -> Option<string>, home: string -> string) {
    && (forall n: Node :: Routed(nodeGroup, n).Some? ==> Routed(nodeGroup, n).value == home(n.Id()))
    && (forall n: Node, m: Node :: n.Id() == m.Id() ==> Routed(nodeGroup, n) == Routed(nodeGroup, m))
  }

  ghost predicate Keyed(view: View) { forall id <- view :: view[id].Id() == id }

  /** Same IDs per group as the view (a group without nodes may be listed or not), same index. */
  ghost predicate Mirrors(rs: Groups, nodeIDs: set<string>, nodeGroup: Node -> Option<string>, view: View) {
    && (forall g :: Group(rs, g) == Expected(nodeGroup, view, g))
    && nodeIDs == ExpectedAll(nodeGroup, view)
  }

  // ---------- what SetNodes and UpdateEvents hand to the selector ----------

  function Push<T>(m: map<string, seq<T>>, g: string, x: T): map<string, seq<T>> {
    m[g := (if g in m then m[g] else []) + [x]]
  }

  function GroupNodes(nodeGroup: Node -> Option<string>, nodes: seq<Option<Node>>): map<string, seq<string>> {
    if nodes == [] then map[]
    else
      var m := GroupNodes(nodeGroup, nodes[..|nodes| - 1]);
      match nodes[|nodes| - 1]
      case None => m
      case Some(n) => if Routed(nodeGroup, n).None? then m else Push(m, Routed(nodeGroup, n).value, n.Id())
  }

  /** A group lists exactly the IDs of the nodes that name it, and the empty name is no group. */
  lemma {:induction false} GroupedExactly(nodeGroup: Node -> Option<string>, nodes: seq<Option<Node>>, g: string, id: string)
    ensures g in GroupNodes(nodeGroup, nodes) && id in GroupNodes(nodeGroup, nodes)[g] <==>
              g != "" && exists i | 0 <= i < |nodes| ::
                nodes[i].Some? && nodeGroup(nodes[i].value) == Some(g) && nodes[i].value.Id() == id
  {
    if nodes != [] {
      var init := nodes[..|nodes| - 1];
      GroupedExactly(nodeGroup, init, g, id);
      assert forall i | 0 <= i < |init| :: init[i] == nodes[i];
    }
  }

  function OpOf(ev: NodeEvent): UpdateOp
    requires ev.node.Some?
  {
    UpdateOp(if ev.kind.NodeAdd? then UpdateAdd else UpdateRemove, [ev.node.value.Id()])
  }

  function GroupEvents(nodeGroup: Node -> Option<string>, events: seq<NodeEvent>): map<string, seq<UpdateOp>> {
    if events == [] then map[]
    else
      var m := GroupEvents(nodeGroup, events[..|events| - 1]);
      var ev := events[|events| - 1];
      if ev.node.None? || Routed(nodeGroup, ev.node.value).None? then m
      else Push(m, Routed(nodeGroup, ev.node.value).value, OpOf(ev))
  }

  function OpsFor(m: map<string, seq<UpdateOp>>, g: string): seq<UpdateOp> { if g in m then m[g] else [] }

  lemma {:induction false} ObserveKeepsKeys(view: View, events: seq<NodeEvent>)
    requires Keyed(view)
    ensures Keyed(ObserveAll(view, events))
  {
    if events != [] {
      ObserveKeepsKeys(view, events[..|events| - 1]);
    }
  }

  /** Sorting a batch of events by group and replaying each group's operations gives, group by group,
      what watching the events one at a time in order gives. */
  lemma {:induction false} BatchEqualsReplay(nodeGroup: Node -> Option<string>, home: string -> string, view: View,
                                             events: seq<NodeEvent>, g: string)
    requires ByID(nodeGroup, home) && Keyed(view)
    ensures ApplyAll(Expected(nodeGroup, view, g), OpsFor(GroupEvents(nodeGroup, events), g))
            == Expected(nodeGroup, ObserveAll(view, events), g)
  {
    if events != [] {
      var before, ev := events[..|events| - 1], events[|events| - 1];
      BatchEqualsReplay(nodeGroup, home, view, before, g);
      ObserveKeepsKeys(view, before);
      var v := ObserveAll(view, before);
      if ev.node.Some? {
        ReplayOne(nodeGroup, home, v, ev, g);
        var m := GroupEvents(nodeGroup, before);
        var ops := OpsFor(m, g);
        if Routed(nodeGroup, ev.node.value) == Some(g) {
          assert OpsFor(GroupEvents(nodeGroup, events), g) == ops + [OpOf(ev)];
          assert (ops + [OpOf(ev)])[..|ops|] == ops;
        } else {
          assert OpsFor(GroupEvents(nodeGroup, events), g) == ops;
        }
      }
    }
  }

  lemma ReplayOne(nodeGroup: Node -> Option<string>, home: string -> string, view: View, ev: NodeEvent, g: string)
    requires ByID(nodeGroup, home) && Keyed(view) && ev.node.Some?
    ensures Expected(nodeGroup, Observe(view, ev), g) ==
            if Routed(nodeGroup, ev.node.value) == Some(g)
            then Apply(Expected(nodeGroup, view, g), OpOf(ev)) else Expected(nodeGroup, view, g)
  {
  }

  lemma {:induction false} EventsAreHomed(nodeGroup: Node -> Option<string>, home: string -> string, events: seq<NodeEvent>)
    requires ByID(nodeGroup, home)
    ensures HomedOps(GroupEvents(nodeGroup, events), home)
  {
    if events != [] {
      EventsAreHomed(nodeGroup, home, events[..|events| - 1]);
    }
  }

  lemma {:induction false} GroupedNodes(nodeGroup: Node -> Option<string>, home: string -> string,
                                        nodes: seq<Option<Node>>, g: string)
    requires ByID(nodeGroup, home)
    ensures Keyed(ViewOf(nodes)) && HomedLists(GroupNodes(nodeGroup, nodes), home)
    ensures var m := GroupNodes(nodeGroup, nodes);
            (if g in m then Elems(m[g]) else {}) == Expected(nodeGroup, ViewOf(nodes), g)
  {
    if nodes != [] {
      var before := nodes[..|nodes| - 1];
      GroupedNodes(nodeGroup, home, before, g);
      match nodes[|nodes| - 1]
      case None =>
      case Some(n) =>
        var ids := if g in GroupNodes(nodeGroup, before) then GroupNodes(nodeGroup, before)[g] else [];
        assert Elems(ids + [n.Id()]) == Elems(ids) + {n.Id()};
        ReplayOne(nodeGroup, home, ViewOf(before), NodeEvent(NodeAdd, Some(n)), g);
        assert Elems([n.Id()]) == {n.Id()};
    }
  }

  /** If every group is as expected, the union of the groups is the expected index. */
  lemma IndexFromGroups(rs: Groups, nodeGroup: Node -> Option<string>, view: View)
    requires forall g :: Group(rs, g) == Expected(nodeGroup, view, g)
    ensures Members(rs) == ExpectedAll(nodeGroup, view)
  {
    forall id
      ensures id in Members(rs) <==> id in ExpectedAll(nodeGroup, view)
    {
      if id in Members(rs) {
        var g :| g in rs && id in rs[g];
        assert id in Group(rs, g);
      }
      if id in ExpectedAll(nodeGroup, view) {
        var g := Routed(nodeGroup, view[id]).value;
        assert id in Expected(nodeGroup, view, g);
        assert id in Group(rs, g) && g in rs;
      }
    }
  }

  lemma MirrorIsHomed(rs: Groups, nodeIDs: set<string>, nodeGroup: Node -> Option<string>, home: string -> string, view: View)
    requires ByID(nodeGroup, home) && Keyed(view) && Mirrors(rs, nodeIDs, nodeGroup, view)
    ensures Homed(rs, home) && nodeIDs == Members(rs)
  {
    forall g <- rs, id <- rs[g]
      ensures home(id) == g
    {
      assert id in Group(rs, g);
      assert id in Expected(nodeGroup, view, g);
    }
    IndexFromGroups(rs, nodeGroup, view);
  }

  // ---------- the router ----------

  /** A big-endian number of `width` bytes. */
  function BigEndian(x: nat, width: nat): (s: seq<int>)
    ensures |s| == width
  {
    if width == 0 then [] else BigEndian(x / 256, width - 1) + [x % 256]
  }

  function RouteKey(uid: ActorUID): seq<int> {
    BigEndian(uid.category, 2) + BigEndian(if uid.id < 0 then uid.id + 2 * INT64_BOUND else uid.id, 8)
  }

  function Pow256(width: nat): nat { if width == 0 then 1 else 256 * Pow256(width - 1) }

  /** Byte i of a big-endian number. */
  lemma {:induction false} BigEndianAt(x: nat, width: nat, i: nat)
    requires i < width
    ensures Pow256(width - 1 - i) > 0 && BigEndian(x, width)[i] == x / Pow256(width - 1 - i) % 256
  {
    if i < width - 1 {
      BigEndianAt(x / 256, width - 1, i);
      var m := Pow256(width - 2 - i);
      ByteThenDivide(x, m);
      assert Pow256(width - 1 - i) == 256 * m;
    }
  }

  lemma ByteThenDivide(x: nat, m: nat)
    requires m > 0
    ensures x / (256 * m) == x / 256 / m
  {
    var q, r := x / 256 / m, x / 256 % m;
    assert x / 256 == q * m + r;
    DivIs(x, 256 * m, q, 256 * r + x % 256);
  }

  /** The key is the category's two bytes and the ID's eight, in two's complement, the highest first. */
  lemma RouteKeyBytes(uid: ActorUID, i: nat)
    requires i < 8
    ensures var key, word := RouteKey(uid), if uid.id < 0 then uid.id + 0x1_0000_0000_0000_0000 else uid.id;
            && |key| == 10 && key[0] == uid.category / 256 && key[1] == uid.category % 256
            && Pow256(7 - i) > 0 && key[2 + i] == word / Pow256(7 - i) % 256
  {
    var word := if uid.id < 0 then uid.id + 0x1_0000_0000_0000_0000 else uid.id;
    BigEndianAt(uid.category, 2, 0);
    BigEndianAt(uid.category, 2, 1);
    BigEndianAt(word, 8, i);
    assert Pow256(0) == 1 && Pow256(1) == 256;
  }

  lemma {:induction false} BigEndianInjective(x: nat, y: nat, width: nat)
    requires x < Pow256(width) && y < Pow256(width) && BigEndian(x, width) == BigEndian(y, width)
    ensures x == y
  {
    if width > 0 {
      var s, t := BigEndian(x, width), BigEndian(y, width);
      assert s[..width - 1] == BigEndian(x / 256, width - 1) && t[..width - 1] == BigEndian(y / 256, width - 1);
      assert s[width - 1] == x % 256 && t[width - 1] == y % 256;
      BigEndianInjective(x / 256, y / 256, width - 1);
    }
  }

  /** Different actors hash different keys. */
  lemma RouteKeyInjective(u: ActorUID, v: ActorUID)
    requires RouteKey(u) == RouteKey(v)
    ensures u == v
  {
    var x: int, y: int := u.id, v.id;
    var a: nat, b: nat := if x < 0 then x + 2 * INT64_BOUND else x, if y < 0 then y + 2 * INT64_BOUND else y;
    assert RouteKey(u)[..2] == BigEndian(u.category, 2) && RouteKey(v)[..2] == BigEndian(v.category, 2);
    assert RouteKey(u)[2..] == BigEndian(a, 8) && RouteKey(v)[2..] == BigEndian(b, 8);
    assert Pow256(2) == 65536;
    assert Pow256(4) == 65536 * 65536;
    assert Pow256(6) == 65536 * 65536 * 65536;
    assert Pow256(8) == 2 * INT64_BOUND;
    BigEndianInjective(u.category, v.category, 2);
    BigEndianInjective(a, b, 8);
  }

  class Router {
    const selector: RendezvousSelector
    const nodeGroup: Node -> Option<string>
    const actorFixedNode: ActorUID -> Option<string>
    const actorNodeGroup: ActorUID -> Option<string>

    constructor (selector: RendezvousSelector, nodeGroup: Node -> Option<string>,
                 actorFixedNode: ActorUID -> Option<string>, actorNodeGroup: ActorUID -> Option<string>)
      ensures this.selector == selector && this.nodeGroup == nodeGroup
      ensures this.actorFixedNode == actorFixedNode && this.actorNodeGroup == actorNodeGroup
    {
      this.selector, this.nodeGroup := selector, nodeGroup;
      this.actorFixedNode, this.actorNodeGroup := actorFixedNode, actorNodeGroup;
    }

    /** The selector routes exactly to the nodes of this view. */
    ghost predicate Shows(view: View)
      reads selector
    {
      Mirrors(selector.rs, selector.nodeIDs, nodeGroup, view)
    }

    /** Rebuilding with all=true routes to exactly the given nodes, whatever was there before. */
    method SetNodes(nodes: seq<Option<Node>>, all: bool, ghost home: string -> string)
      modifies selector`rs, selector`nodeIDs
      ensures selector.rs == (if all then map[] else old(selector.rs)) +
                             Lists(GroupNodes(nodeGroup, nodes))
      ensures all && ByID(nodeGroup, home) ==> Shows(ViewOf(nodes))
      ensures ByID(nodeGroup, home) && old(selector.Indexed()) && Homed(old(selector.rs), home) ==>
                selector.Indexed() && Homed(selector.rs, home)
    {
      var groups: map<string, seq<string>> := map[];
      for i := 0 to |nodes|
        invariant groups == GroupNodes(nodeGroup, nodes[..i])
      {
        assert nodes[..i + 1][..i] == nodes[..i];
        if nodes[i].Some? {
          var group := nodeGroup(nodes[i].value);
          if group.Some? && group.value != "" {
            groups := Push(groups, group.value, nodes[i].value.Id());
          }
        }
      }
      assert nodes[..|nodes|] == nodes;
      selector.Set(groups, all);
      if ByID(nodeGroup, home) {
        forall g
          ensures all ==> Group(selector.rs, g) == Expected(nodeGroup, ViewOf(nodes), g)
        {
          GroupedNodes(nodeGroup, home, nodes, g);
        }
        assert HomedLists(groups, home) by { GroupedNodes(nodeGroup, home, nodes, ""); }
        if all {
          IndexFromGroups(selector.rs, nodeGroup, ViewOf(nodes));
        }
        if Homed(old(selector.rs), home) {
          HomedSet(old(selector.rs), groups, home);
        }
      }
    }

    /** Sorts the operations of a batch of events by group. */
    method CollectUpdates(events: seq<NodeEvent>) returns (updates: map<string, seq<UpdateOp>>)
      ensures updates == GroupEvents(nodeGroup, events)
    {
      updates := map[];
      for i := 0 to |events|
        invariant updates == GroupEvents(nodeGroup, events[..i])
      {
        assert events[..i + 1][..i] == events[..i];
        if events[i].node.Some? {
          var group := nodeGroup(events[i].node.value);
          if group.Some? && group.value != "" {
            var id := events[i].node.value.Id();
            match events[i].kind {
              case NodeAdd => updates := Push(updates, group.value, UpdateOp(UpdateAdd, [id]));
              case NodeDel => updates := Push(updates, group.value, UpdateOp(UpdateRemove, [id]));
            }
          }
        }
      }
      assert events[..|events|] == events;
    }

    /** Updating incrementally, in any order of the groups, routes to exactly the nodes left after
        watching the events one at a time: the same selector a rebuild on that view would give. */
    method UpdateEvents(events: seq<NodeEvent>, ghost home: string -> string, ghost view: View)
      modifies selector`rs, selector`nodeIDs
      ensures ByID(nodeGroup, home) && Keyed(view) && old(Shows(view)) ==>
                Shows(ObserveAll(view, events)) && Keyed(ObserveAll(view, events))
      ensures selector.rs == Merged(old(selector.rs), GroupEvents(nodeGroup, events))
    {
      var updates := CollectUpdates(events);
      if |updates| != 0 {
        selector.Update(updates);
      }
      if ByID(nodeGroup, home) && Keyed(view) && old(Shows(view)) {
        Mirrored(old(selector.rs), old(selector.nodeIDs), home, view, events);
      }
    }

    lemma Mirrored(rs: Groups, nodeIDs: set<string>, home: string -> string, view: View, events: seq<NodeEvent>)
      requires ByID(nodeGroup, home) && Keyed(view) && Mirrors(rs, nodeIDs, nodeGroup, view)
      ensures nodeIDs == Members(rs) && Clean(rs, UpdateVisits(GroupEvents(nodeGroup, events)))
      ensures Keyed(ObserveAll(view, events))
      ensures var rs' := Merged(rs, GroupEvents(nodeGroup, events));
              Mirrors(rs', Members(rs'), nodeGroup, ObserveAll(view, events))
    {
      MirrorIsHomed(rs, nodeIDs, nodeGroup, home, view);
      EventsAreHomed(nodeGroup, home, events);
      HomedUpdate(rs, GroupEvents(nodeGroup, events), home);
      ObserveKeepsKeys(view, events);
      var rs' := Merged(rs, GroupEvents(nodeGroup, events));
      forall g
        ensures Group(rs', g) == Expected(nodeGroup, ObserveAll(view, events), g)
      {
        BatchEqualsReplay(nodeGroup, home, view, events, g);
      }
      IndexFromGroups(rs', nodeGroup, ObserveAll(view, events));
    }

    /** A fixed actor goes to its node if that is listed; any other actor to the node its group's
        table picks. Whatever is returned is listed at that moment. */
    method PickActorNode(uid: ActorUID) returns (answer: Result<string, Error>)
      requires selector.Picks()
      ensures selector.Indexed() && answer.Ok? ==> selector.Has(answer.value)
      ensures actorFixedNode(uid).Some? ==>
                answer == if actorFixedNode(uid).value == "" then Err(NoAvailableNode)
                          else if selector.Has(actorFixedNode(uid).value) then Ok(actorFixedNode(uid).value)
                          else Err(FixedNodeNotAvailable)
      ensures actorFixedNode(uid).None? && actorNodeGroup(uid).Some? && actorNodeGroup(uid).value != "" ==>
                var ids := Group(selector.rs, actorNodeGroup(uid).value);
                && (answer.Ok? ==> answer.value in ids && answer.value == selector.lookup(ids, RouteKey(uid)))
                && (answer.Err? ==> answer.error == NoAvailableNode && (ids == {} || "" in ids))
      ensures actorFixedNode(uid).None? && (actorNodeGroup(uid).None? || actorNodeGroup(uid).value == "") ==>
                answer == Err(NoAvailableNode)
    {
      var fixed := actorFixedNode(uid);
      if fixed.Some? {
        if fixed.value == "" {
          return Err(NoAvailableNode);
        }
        if !selector.Has(fixed.value) {
          return Err(FixedNodeNotAvailable);
        }
        return Ok(fixed.value);
      }
      var group := actorNodeGroup(uid);
      if group.None? || group.value == "" {
        return Err(NoAvailableNode);
      }
      var ids := selector.Pick(group.value, RouteKey(uid), 1);
      if |ids| == 0 || ids[0] == "" {
        return Err(NoAvailableNode);
      }
      assert ids[0] in Elems(ids);
      return Ok(ids[0]);
    }
  }

  /** Two selectors that mirror the same view route alike, however they got there. */
  lemma IncrementalEqualsRebuild(nodeGroup: Node -> Option<string>, home: string -> string, rs: Groups, nodeIDs: set<string>,
                                 view: View, events: seq<NodeEvent>, nodes: seq<Option<Node>>)
    requires ByID(nodeGroup, home) && Keyed(view) && Mirrors(rs, nodeIDs, nodeGroup, view)
    requires ViewOf(nodes) == ObserveAll(view, events)
    ensures var ops, lists := GroupEvents(nodeGroup, events), GroupNodes(nodeGroup, nodes);
            var updated := Merged(rs, ops);
            var rebuilt := Lists(lists);
            && (forall g :: Group(updated, g) == Group(rebuilt, g))
            && Members(updated) == Members(rebuilt)
  {
    var ops, lists := GroupEvents(nodeGroup, events), GroupNodes(nodeGroup, nodes);
    var updated := Merged(rs, ops);
    var rebuilt := Lists(lists);
    forall g
      ensures Group(updated, g) == Expected(nodeGroup, ViewOf(nodes), g)
      ensures Group(rebuilt, g) == Expected(nodeGroup, ViewOf(nodes), g)
    {
      BatchEqualsReplay(nodeGroup, home, view, events, g);
      GroupedNodes(nodeGroup, home, nodes, g);
    }
    IndexFromGroups(updated, nodeGroup, ViewOf(nodes));
    IndexFromGroups(rebuilt, nodeGroup, ViewOf(nodes));
  }
}
