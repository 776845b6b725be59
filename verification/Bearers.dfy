/**
 The mapping between EPS bearers and radio bearers: per user one map by bearer identity and
 one from logical channel (LCID) to bearer identity, and in the eNodeB one such pair per RNTI.
 */
module Bearers {
  datatype Rat = Lte | Nr | NullType

  datatype RadioBearer = RadioBearer(rat: Rat, lcid: nat, id: nat)

  const INVALID_RB := RadioBearer(NullType, 0, 0)

  /** The two maps of one user. */
  datatype User = User(bearers: map<nat, RadioBearer>, lcids: map<nat, nat>)

  const EMPTY := User(map[], map[])

  function Added(u: User, id: nat, rat: Rat, lcid: nat): User {
    if id in u.bearers then u
    else
      User(u.bearers[id := RadioBearer(rat, lcid, id)],
           if lcid in u.lcids then u.lcids else u.lcids[lcid := id])
  }

  function Removed(u: User, id: nat): User {
    if id !in u.bearers then u else User(u.bearers - {id}, u.lcids - {u.bearers[id].lcid})
  }

  function ById(u: User, id: nat): RadioBearer {
    if id in u.bearers then u.bearers[id] else INVALID_RB
  }

  // ----- what every run keeps -----

  /** Each bearer carries its own identity, and each LCID entry names a live bearer on that LCID. */
  ghost predicate Sound(u: User) {
    && (forall id :: id in u.bearers ==> u.bearers[id].id == id)
    && (forall l :: l in u.lcids ==> u.lcids[l] in u.bearers && u.bearers[u.lcids[l]].lcid == l)
  }

  function ByLcid(u: User, lcid: nat): RadioBearer
    requires Sound(u)
  {
    if lcid in u.lcids then u.bearers[u.lcids[lcid]] else INVALID_RB
  }

  /** The two maps are inverse to each other: every live bearer is found by its LCID too. */
  ghost predicate Exact(u: User) {
    && Sound(u)
    && (forall id :: id in u.bearers ==> u.bearers[id].lcid in u.lcids && u.lcids[u.bearers[id].lcid] == id)
  }

  ghost predicate Distinct(u: User) {
    forall i, j :: i in u.bearers && j in u.bearers && i != j ==> u.bearers[i].lcid != u.bearers[j].lcid
  }

  datatype Op = Add(id: nat, rat: Rat, lcid: nat) | Remove(id: nat) | Reset

  function Apply(u: User, op: Op): User {
    match op
    case Add(id, rat, lcid) => Added(u, id, rat, lcid)
    case Remove(id) => Removed(u, id)
    case Reset => EMPTY
  }

  function ApplyAll(u: User, ops: seq<Op>): User
    decreases |ops|
  {
    if ops == [] then u else ApplyAll(Apply(u, ops[0]), ops[1..])
  }

  lemma StepStaysSound(u: User, op: Op)
    requires Sound(u)
    ensures Sound(Apply(u, op))
  {
  }

  /** The `at` in the LCID lookup never misses, whatever the run of operations. */
  lemma {:induction false} RunStaysSound(u: User, ops: seq<Op>)
    requires Sound(u)
    ensures Sound(ApplyAll(u, ops))
    decreases |ops|
  {
    hide Sound, Apply;
    if ops != [] {
      StepStaysSound(u, ops[0]);
      RunStaysSound(Apply(u, ops[0]), ops[1..]);
    }
  }

  /** A new bearer is put on the LCID of a live one. */
  ghost predicate Clash(u: User, op: Op) {
    op.Add? && op.id !in u.bearers && exists j :: j in u.bearers && u.bearers[j].lcid == op.lcid
  }

  ghost predicate NeverClashes(u: User, ops: seq<Op>)
    decreases |ops|
  {
    ops == [] || (!Clash(u, ops[0]) && NeverClashes(Apply(u, ops[0]), ops[1..]))
  }

  ghost predicate AlwaysExact(u: User, ops: seq<Op>)
    decreases |ops|
  {
    Exact(u) && (ops == [] || AlwaysExact(Apply(u, ops[0]), ops[1..]))
  }

  lemma StepStaysExact(u: User, op: Op)
    requires Exact(u)
    ensures Exact(Apply(u, op)) <==> !Clash(u, op)
  {
    StepStaysSound(u, op);
    if Clash(u, op) {
      var j :| j in u.bearers && u.bearers[j].lcid == op.lcid;
      var v := Apply(u, op);
      assert v.bearers[op.id].lcid == op.lcid && v.lcids[op.lcid] == j;
    } else if op.Remove? && op.id in u.bearers {
      ExactIsDistinct(u);
    }
  }

  lemma ExactIsDistinct(u: User)
    requires Exact(u)
    ensures Distinct(u)
  {
  }

  /** The maps stay inverse throughout a run exactly when no bearer is added on an LCID in use. */
  lemma {:induction false} ExactIffNoClash(u: User, ops: seq<Op>)
    requires Exact(u)
    ensures AlwaysExact(u, ops) <==> NeverClashes(u, ops)
    decreases |ops|
  {
    hide Exact, Apply, Clash;
    if ops != [] {
      StepStaysExact(u, ops[0]);
      if !Clash(u, ops[0]) {
        ExactIffNoClash(Apply(u, ops[0]), ops[1..]);
      }
    }
  }

  /** Where the maps are inverse, the two lookups undo each other, and each LCID has its one bearer. */
  lemma ExactLookups(u: User, id: nat, lcid: nat)
    requires Exact(u)
    ensures id in u.bearers ==> ByLcid(u, ById(u, id).lcid) == ById(u, id)
    ensures lcid in u.lcids <==> exists j :: j in u.bearers && u.bearers[j].lcid == lcid
    ensures lcid in u.lcids ==> ById(u, ByLcid(u, lcid).id) == ByLcid(u, lcid) && ByLcid(u, lcid).lcid == lcid
  {
  }

  /** Two bearers on one LCID: removing either of them loses the LCID of the other, which is still live. */
  lemma SharedLcidIsLost(i: nat, j: nat, rat: Rat, lcid: nat, gone: nat)
    requires i != j && (gone == i || gone == j)
    ensures var u := ApplyAll(EMPTY, [Add(i, rat, lcid), Add(j, rat, lcid), Remove(gone)]);
      && Sound(u)
      && ById(u, i + j - gone) == RadioBearer(rat, lcid, i + j - gone)
      && ByLcid(u, lcid) == INVALID_RB
  {
    var ops := [Add(i, rat, lcid), Add(j, rat, lcid), Remove(gone)];
    assert ops[1..] == [Add(j, rat, lcid), Remove(gone)];
    assert ops[1..][1..] == [Remove(gone)];
    var u := Apply(Apply(EMPTY, ops[0]), ops[1]);
    assert ApplyAll(u, [Remove(gone)]) == Apply(u, Remove(gone));
    assert ApplyAll(EMPTY, ops) == Apply(u, Remove(gone));
    RunStaysSound(EMPTY, ops);
  }

  /**
   What the lookups answer after an addition: the new bearer under its identity, and under its LCID
   only if no bearer had that LCID before; every other answer is what it was.
   */
  lemma AnswersAfterAdd(u: User, id: nat, rat: Rat, lcid: nat, other: nat)
    requires Sound(u) && id !in u.bearers
    ensures var v := Added(u, id, rat, lcid);
      && ById(v, other) == (if other == id then RadioBearer(rat, lcid, id) else ById(u, other))
      && Sound(v)
      && ByLcid(v, other) == (if other == lcid && lcid !in u.lcids then RadioBearer(rat, lcid, id)
                              else ByLcid(u, other))
  {
  }

  /** And after a removal: neither its identity nor its LCID is found, every other answer is what it was. */
  lemma AnswersAfterRemove(u: User, id: nat, other: nat)
    requires Sound(u) && id in u.bearers
    ensures var v := Removed(u, id);
      && ById(v, other) == (if other == id then RadioBearer(NullType, 0, 0) else ById(u, other))
      && Sound(v)
      && ByLcid(v, other) == (if other == u.bearers[id].lcid then RadioBearer(NullType, 0, 0) else ByLcid(u, other))
  {
  }

  /** Removing what was just added gives back both maps, exactly when the LCID had no entry. */
  lemma AddThenRemove(u: User, id: nat, rat: Rat, lcid: nat)
    requires id !in u.bearers
    ensures Removed(Added(u, id, rat, lcid), id) == u <==> lcid !in u.lcids
  {
  }

  /** `ue_bearer_manager_impl`. */
  class UeBearers {
    var bearers: map<nat, RadioBearer>
    var lcids: map<nat, nat>

    ghost function State(): User
      reads this
    {
      User(bearers, lcids)
    }

    constructor ()
      ensures State() == EMPTY
    {
      bearers, lcids := map[], map[];
    }

    method AddBearer(id: nat, rat: Rat, lcid: nat) returns (ok: bool)
      requires Sound(State())
      modifies this
      ensures Sound(State())
      ensures State() == Added(old(State()), id, rat, lcid)
      ensures ok <==> id !in old(bearers)
    {
      StepStaysSound(State(), Add(id, rat, lcid));
      if id in bearers {
        return false;
      }
      bearers := bearers[id := RadioBearer(rat, lcid, id)];
      if lcid !in lcids {
        lcids := lcids[lcid := id];
      }
      return true;
    }

    method RemoveBearer(id: nat) returns (ok: bool)
      requires Sound(State())
      modifies this
      ensures Sound(State())
      ensures State() == Removed(old(State()), id)
      ensures ok <==> id in old(bearers)
    {
      StepStaysSound(State(), Remove(id));
      if id !in bearers {
        return false;
      }
      var lcid := bearers[id].lcid;
      bearers := bearers - {id};
      lcids := lcids - {lcid};
      return true;
    }

    method Clear()
      modifies this
      ensures State() == EMPTY
    {
      lcids := map[];
      bearers := map[];
    }

    method GetByLcid(lcid: nat) returns (rb: RadioBearer)
      requires Sound(State())
      ensures rb == ByLcid(State(), lcid)
      ensures rb.rat != NullType ==> rb.lcid == lcid && ById(State(), rb.id) == rb
    {
      if lcid in lcids {
        assert lcids[lcid] in bearers;
        rb := bearers[lcids[lcid]];
      } else {
        rb := INVALID_RB;
      }
    }
  }

  // ----- the eNodeB: one pair of maps per RNTI -----

  datatype EnbOp =
    | OnBearer(rnti: nat, id: nat, rat: Rat, lcid: nat)
    | OffBearer(rnti: nat, id: nat)
    | OffUser(rnti: nat)

  type Users = map<nat, User>

  /** What the lookups see of a user: an unknown user answers like one without bearers. */
  function View(us: Users, rnti: nat): User {
    if rnti in us then us[rnti] else EMPTY
  }

  function EnbApply(us: Users, op: EnbOp): Users {
    match op
    case OnBearer(r, id, rat, lcid) => us[r := Added(View(us, r), id, rat, lcid)]
    case OffBearer(r, id) => if r in us then us[r := Removed(us[r], id)] else us
    case OffUser(r) => us - {r}
  }

  function EnbApplyAll(us: Users, ops: seq<EnbOp>): Users
    decreases |ops|
  {
    if ops == [] then us else EnbApplyAll(EnbApply(us, ops[0]), ops[1..])
  }

  /** The operations of a run that are about one user; dropping the user is a reset of it. */
  function Only(ops: seq<EnbOp>, rnti: nat): seq<Op>
    decreases |ops|
  {
    if ops == [] then []
    else
      var rest := Only(ops[1..], rnti);
      match ops[0]
      case OnBearer(r, id, rat, lcid) => if r == rnti then [Add(id, rat, lcid)] + rest else rest
      case OffBearer(r, id) => if r == rnti then [Remove(id)] + rest else rest
      case OffUser(r) => if r == rnti then [Reset] + rest else rest
  }

  /** After any run, every user answers as if the operations on all other users had not happened. */
  lemma {:induction false} UsersAreIndependent(us: Users, ops: seq<EnbOp>, rnti: nat)
    ensures View(EnbApplyAll(us, ops), rnti) == ApplyAll(View(us, rnti), Only(ops, rnti))
    decreases |ops|
  {
    hide Added, Removed;
    if ops != [] {
      var next := EnbApply(us, ops[0]);
      UsersAreIndependent(next, ops[1..], rnti);
      if ops[0].rnti == rnti {
        assert Only(ops, rnti)[1..] == Only(ops[1..], rnti);
        EmptyRemoved(ops[0]);
        assert View(next, rnti) == Apply(View(us, rnti), Only(ops, rnti)[0]);
      } else {
        assert View(next, rnti) == View(us, rnti);
      }
    }
  }

  lemma EmptyRemoved(op: EnbOp)
    ensures op.OffBearer? ==> Removed(EMPTY, op.id) == EMPTY
  {
  }

  /** So every reachable user is sound. */
  lemma EveryUserIsSound(ops: seq<EnbOp>, rnti: nat)
    ensures Sound(View(EnbApplyAll(map[], ops), rnti))
  {
    UsersAreIndependent(map[], ops, rnti);
    RunStaysSound(EMPTY, Only(ops, rnti));
  }

  lemma StartsSound()
    ensures Sound(EMPTY)
  {
  }

  /** No two users share their maps. */
  ghost predicate Separate(users: map<nat, UeBearers>) {
    forall r, q :: r in users && q in users && r != q ==> users[r] != users[q]
  }

  lemma SeparateUpdate(users: map<nat, UeBearers>, rnti: nat, user: UeBearers)
    requires Separate(users) && forall r :: r in users ==> users[r] != user
    ensures Separate(users[rnti := user])
  {
  }

  /** `enb_bearer_manager`. */
  class EnbBearers {
    var users: map<nat, UeBearers>

    ghost predicate Valid()
      reads this, users.Values
    {
      && Separate(users)
      && (forall r :: r in users ==> Sound(users[r].State()))
    }

    ghost function State(): Users
      reads this, users.Values
    {
      map r | r in users :: users[r].State()
    }

    constructor ()
      ensures Valid() && State() == map[] && users == map[]
    {
      users := map[];
    }

    /** A user not seen before gets its own empty pair of maps. */
    method EnsureUser(rnti: nat)
      requires Valid()
      modifies this
      ensures Valid() && rnti in users && fresh(users.Values - old(users.Values))
      ensures State() == old(State())[rnti := View(old(State()), rnti)]
    {
      hide Sound, Separate;
      if rnti !in users {
        StartsSound();
        var user := new UeBearers();
        SeparateUpdate(users, rnti, user);
        users := users[rnti := user];
      }
    }

    method AddToUser(rnti: nat, id: nat, rat: Rat, lcid: nat)
      requires Valid() && rnti in users
      modifies users[rnti]
      ensures Valid()
      ensures State() == old(State())[rnti := Added(old(State())[rnti], id, rat, lcid)]
    {
      hide Sound, Added;
      var _ := users[rnti].AddBearer(id, rat, lcid);
    }

    method AddBearer(rnti: nat, id: nat, rat: Rat, lcid: nat)
      requires Valid()
      modifies this, users.Values
      ensures Valid() && fresh(users.Values - old(users.Values))
      ensures State() == EnbApply(old(State()), OnBearer(rnti, id, rat, lcid))
    {
      hide Sound, Added, Valid;
      EnsureUser(rnti);
      AddToUser(rnti, id, rat, lcid);
    }

    method RemoveBearer(rnti: nat, id: nat)
      requires Valid()
      modifies users.Values
      ensures Valid()
      ensures State() == EnbApply(old(State()), OffBearer(rnti, id))
    {
      hide Sound, Removed;
      if rnti in users {
        var _ := users[rnti].RemoveBearer(id);
      }
    }

    method RemoveUser(rnti: nat)
      requires Valid()
      modifies this
      ensures Valid() && users.Values <= old(users.Values)
      ensures State() == EnbApply(old(State()), OffUser(rnti))
    {
      hide Sound;
      users := users - {rnti};
    }

    method HasActive(rnti: nat, id: nat) returns (b: bool)
      requires Valid()
      ensures b <==> id in View(State(), rnti).bearers
    {
      b := rnti in users && id in users[rnti].bearers;
    }

    method GetByLcid(rnti: nat, lcid: nat) returns (rb: RadioBearer)
      requires Valid()
      ensures Sound(View(State(), rnti)) && rb == ByLcid(View(State(), rnti), lcid)
    {
      if rnti !in users {
        return INVALID_RB;
      }
      rb := users[rnti].GetByLcid(lcid);
    }

    method GetById(rnti: nat, id: nat) returns (rb: RadioBearer)
      requires Valid()
      ensures rb == ById(View(State(), rnti), id)
    {
      if rnti !in users || id !in users[rnti].bearers {
        return INVALID_RB;
      }
      rb := users[rnti].bearers[id];
    }
  }
}
