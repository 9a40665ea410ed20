/** The pheromone field as a value: node list and matrix rows, and what each operation of the
    in-memory backend makes of them.  Over distinct node ids it refines an ordered map. */
module FieldValue {
  import opened Traces

  type NodeId = string

  datatype Option<T> = None | Some(value: T)

  /** Row i of the matrix belongs to ids[i]. */
  datatype Field = Field(ids: seq<NodeId>, rows: seq<Row>)

  /** The traces a snapshot holds for one node; any of the four may be absent. */
  datatype Saved = Saved(v: Option<real>, l: Option<real>, s: Option<real>, c: Option<real>)

  function Full(row: Row): Saved {
    Saved(Some(row.v), Some(row.l), Some(row.s), Some(row.c))
  }

  function Or(x: Option<real>, default: real): real {
    match x case Some(y) => y case None => default
  }

  function Overlay(row: Row, t: Saved): Row {
    Row(Or(t.v, row.v), Or(t.l, row.l), Or(t.s, row.s), Or(t.c, row.c))
  }

  /** A trace the snapshot holds replaces the node's, one it lacks leaves it. */
  lemma OverlayByTrace(row: Row, t: Saved)
    ensures Overlay(row, Full(row)) == row
    ensures t.v == None ==> Overlay(row, t).v == row.v
    ensures t.l == None ==> Overlay(row, t).l == row.l
    ensures t.s == None ==> Overlay(row, t).s == row.s
    ensures t.c == None ==> Overlay(row, t).c == row.c
    ensures forall x :: t.v == Some(x) ==> Overlay(row, t).v == x
    ensures forall x :: t.l == Some(x) ==> Overlay(row, t).l == x
    ensures forall x :: t.s == Some(x) ==> Overlay(row, t).s == x
    ensures forall x :: t.c == Some(x) ==> Overlay(row, t).c == x
  {
  }

  ghost predicate Distinct(ids: seq<NodeId>) {
    forall i, j :: 0 <= i < j < |ids| ==> ids[i] != ids[j]
  }

  predicate Shaped(f: Field) {
    |f.ids| == |f.rows|
  }

  /** The index dictionary built by enumerating the list: a repeated id keeps its last position. */
  function Enumerate(ids: seq<NodeId>): (index: map<NodeId, nat>)
    ensures forall id :: id in index <==> id in ids
    ensures forall id :: id in index ==> index[id] < |ids| && ids[index[id]] == id
  {
    if ids == [] then map[]
    else
      assert ids == ids[..|ids| - 1] + [ids[|ids| - 1]];
      Enumerate(ids[..|ids| - 1])[ids[|ids| - 1] := |ids| - 1]
  }

  /** On distinct ids the dictionary inverts the list. */
  lemma IndexInvertsList(ids: seq<NodeId>, i: nat)
    requires Distinct(ids) && i < |ids|
    ensures ids[i] in Enumerate(ids) && Enumerate(ids)[ids[i]] == i
  {
    assert ids[i] in ids;
    var j := Enumerate(ids)[ids[i]];
    assert ids[j] == ids[i];
  }

  /** The matrix row of a node. */
  function RowFor(f: Field, id: NodeId): Row
    requires Shaped(f) && id in f.ids
  {
    f.rows[Enumerate(f.ids)[id]]
  }

  // ------------------------------------------------------------------ operations

  function DepositAt(f: Field, id: NodeId, x: Sample, scale: real): Field
    requires Shaped(f) && id in f.ids
  {
    var i := Enumerate(f.ids)[id];
    f.(rows := f.rows[i := DepositRow(f.rows[i], x, scale)])
  }

  function EvaporateAll(f: Field, rate: real, flags: Flags): Field {
    f.(rows := seq(|f.rows|, i requires 0 <= i < |f.rows| => EvaporateRow(f.rows[i], rate, flags)))
  }

  function AddNode(f: Field, id: NodeId): Field {
    if id in f.ids then f else Field(f.ids + [id], f.rows + [BASELINE])
  }

  function Without<T>(s: seq<T>, i: nat): seq<T>
    requires i < |s|
  {
    s[..i] + s[i + 1..]
  }

  function RemoveNode(f: Field, id: NodeId): Field
    requires Shaped(f)
  {
    if id in f.ids then
      var i := Enumerate(f.ids)[id];
      Field(Without(f.ids, i), Without(f.rows, i))
    else f
  }

  function HydrateRow(f: Field, metrics: map<NodeId, Saved>, i: nat): Row
    requires Shaped(f) && i < |f.rows|
  {
    if f.ids[i] in metrics && Enumerate(f.ids)[f.ids[i]] == i
    then Overlay(f.rows[i], metrics[f.ids[i]])
    else f.rows[i]
  }

  function Hydrate(f: Field, metrics: map<NodeId, Saved>): Field
    requires Shaped(f)
  {
    f.(rows := seq(|f.rows|, i requires 0 <= i < |f.rows| => HydrateRow(f, metrics, i)))
  }

  // ------------------------------------------------------------------ refinement of an ordered map

  datatype Ordered = Ordered(order: seq<NodeId>, rows: map<NodeId, Row>)

  function Abstract(f: Field): Ordered
    requires Shaped(f)
  {
    Ordered(f.ids, map id | id in f.ids :: f.rows[Enumerate(f.ids)[id]])
  }

  datatype Op =
    | Add(id: NodeId)
    | Remove(id: NodeId)
    | Deposit(id: NodeId, x: Sample)
    | Evaporate(rate: real)
    | Restore(metrics: map<NodeId, Saved>)

  /** The rate test of apply_evaporation; outside it ValueError is raised. */
  predicate ValidRate(rate: real) {
    0.0 <= rate < 1.0
  }

  /** The state after one operation of the backend; an operation that raises leaves it alone. */
  function Apply(f: Field, op: Op, scale: real, flags: Flags): Field
    requires Shaped(f)
  {
    match op
    case Add(id) => AddNode(f, id)
    case Remove(id) => RemoveNode(f, id)
    case Deposit(id, x) => if id in f.ids then DepositAt(f, id, x, scale) else f
    case Evaporate(rate) => if ValidRate(rate) then EvaporateAll(f, rate, flags) else f
    case Restore(metrics) => Hydrate(f, metrics)
  }

  function Filtered(order: seq<NodeId>, gone: NodeId): seq<NodeId> {
    if order == [] then []
    else (if order[0] == gone then [] else [order[0]]) + Filtered(order[1..], gone)
  }

  /** The same operation on an ordered map, with no index and no matrix. */
  function ApplyOrdered(m: Ordered, op: Op, scale: real, flags: Flags): Ordered {
    match op
    case Add(id) =>
      if id in m.order then m else Ordered(m.order + [id], m.rows[id := BASELINE])
    case Remove(id) =>
      Ordered(Filtered(m.order, id), m.rows - {id})
    case Deposit(id, x) =>
      if id in m.rows then m.(rows := m.rows[id := DepositRow(m.rows[id], x, scale)]) else m
    case Evaporate(rate) =>
      if ValidRate(rate)
      then m.(rows := map id | id in m.rows :: EvaporateRow(m.rows[id], rate, flags)) else m
    case Restore(metrics) =>
      m.(rows := map id | id in m.rows ::
        if id in metrics then Overlay(m.rows[id], metrics[id]) else m.rows[id])
  }

  /** `rows` holds, under each id, the matrix row at that id's position. */
  ghost predicate Represents(rows: map<NodeId, Row>, f: Field) {
    && Shaped(f)
    && (forall id :: id in rows <==> id in f.ids)
    && (forall i :: 0 <= i < |f.ids| ==> rows[f.ids[i]] == f.rows[i])
  }

  lemma AbstractRepresents(f: Field)
    requires Shaped(f) && Distinct(f.ids)
    ensures Represents(Abstract(f).rows, f)
  {
    forall i | 0 <= i < |f.ids| ensures Abstract(f).rows[f.ids[i]] == f.rows[i] {
      IndexInvertsList(f.ids, i);
    }
  }

  lemma RepresentationUnique(f: Field, rows: map<NodeId, Row>)
    requires Represents(rows, f)
    ensures Abstract(f).rows == rows
  {
  }

  lemma {:induction false} FilteredIsWithout(order: seq<NodeId>, i: nat)
    requires Distinct(order) && i < |order|
    ensures Filtered(order, order[i]) == Without(order, i)
  {
    if i == 0 {
      FilteredAbsent(order[1..], order[0]);
    } else {
      FilteredIsWithout(order[1..], i - 1);
      assert Without(order, i) == [order[0]] + Without(order[1..], i - 1);
    }
  }

  lemma {:induction false} FilteredAbsent(order: seq<NodeId>, gone: NodeId)
    requires gone !in order
    ensures Filtered(order, gone) == order
  {
    if order != [] {
      FilteredAbsent(order[1..], gone);
    }
  }

  lemma AddRefines(f: Field, rows: map<NodeId, Row>, id: NodeId)
    requires Represents(rows, f) && Distinct(f.ids) && id !in f.ids
    ensures Distinct(AddNode(f, id).ids) && Represents(rows[id := BASELINE], AddNode(f, id))
  {
  }

  lemma RemoveRefines(f: Field, rows: map<NodeId, Row>, k: nat)
    requires Represents(rows, f) && Distinct(f.ids) && k < |f.ids|
    ensures var f' := Field(Without(f.ids, k), Without(f.rows, k));
            Distinct(f'.ids) && Represents(rows - {f.ids[k]}, f')
  {
    var f' := Field(Without(f.ids, k), Without(f.rows, k));
    WithoutAt(f.ids, k);
    WithoutAt(f.rows, k);
    WithoutMembers(f.ids, k);
  }

  lemma WithoutMembers(ids: seq<NodeId>, k: nat)
    requires Distinct(ids) && k < |ids|
    ensures Distinct(Without(ids, k))
    ensures forall id :: id in Without(ids, k) <==> id in ids && id != ids[k]
  {
    var rest := Without(ids, k);
    WithoutAt(ids, k);
    forall id | id in ids && id != ids[k] ensures id in rest {
      var i :| 0 <= i < |ids| && ids[i] == id;
      assert rest[if i < k then i else i - 1] == id;
    }
  }

  lemma WithoutAt<T>(s: seq<T>, k: nat)
    requires k < |s|
    ensures |Without(s, k)| == |s| - 1
    ensures forall j :: 0 <= j < |s| - 1 ==> Without(s, k)[j] == s[if j < k then j else j + 1]
  {
  }

  lemma DepositRefines(f: Field, rows: map<NodeId, Row>, id: NodeId, x: Sample, scale: real)
    requires Represents(rows, f) && Distinct(f.ids) && id in f.ids
    ensures Represents(rows[id := DepositRow(rows[id], x, scale)], DepositAt(f, id, x, scale))
  {
  }

  lemma EvaporateRefines(f: Field, rows: map<NodeId, Row>, rate: real, flags: Flags)
    requires Represents(rows, f)
    ensures Represents(map id | id in rows :: EvaporateRow(rows[id], rate, flags), EvaporateAll(f, rate, flags))
  {
  }

  lemma RestoreRefines(f: Field, rows: map<NodeId, Row>, metrics: map<NodeId, Saved>)
    requires Represents(rows, f) && Distinct(f.ids)
    ensures Represents(map id | id in rows :: if id in metrics then Overlay(rows[id], metrics[id]) else rows[id],
                       Hydrate(f, metrics))
  {
    hide Enumerate, Overlay;
    forall i | 0 <= i < |f.ids| ensures Enumerate(f.ids)[f.ids[i]] == i {
      IndexInvertsList(f.ids, i);
    }
  }

  lemma RemoveRepresents(f: Field, rows: map<NodeId, Row>, id: NodeId)
    requires Represents(rows, f) && Distinct(f.ids)
    ensures var f' := RemoveNode(f, id);
            Distinct(f'.ids) && Filtered(f.ids, id) == f'.ids && Represents(rows - {id}, f')
  {
    hide Enumerate, Filtered, Without;
    if id in f.ids {
      RemoveRefines(f, rows, Enumerate(f.ids)[id]);
      FilteredIsWithout(f.ids, Enumerate(f.ids)[id]);
    } else {
      FilteredAbsent(f.ids, id);
      assert rows - {id} == rows;
    }
  }

  lemma StepRepresents(f: Field, rows: map<NodeId, Row>, op: Op, scale: real, flags: Flags)
    requires Represents(rows, f) && Distinct(f.ids)
    ensures var f' := Apply(f, op, scale, flags);
            var m := ApplyOrdered(Ordered(f.ids, rows), op, scale, flags);
            Distinct(f'.ids) && m.order == f'.ids && Represents(m.rows, f')
  {
    match op {
      case Add(id) =>
        if id !in f.ids { AddRefines(f, rows, id); }
      case Remove(id) => RemoveRepresents(f, rows, id);
      case Deposit(id, x) =>
        if id in f.ids { DepositRefines(f, rows, id, x, scale); }
      case Evaporate(rate) =>
        EvaporateRefines(f, rows, rate, flags);
      case Restore(metrics) =>
        RestoreRefines(f, rows, metrics);
    }
  }

  /** One step: list, index and matrix do what the ordered map does, and ids stay distinct. */
  lemma StepRefines(f: Field, op: Op, scale: real, flags: Flags)
    requires Shaped(f) && Distinct(f.ids)
    ensures var f' := Apply(f, op, scale, flags);
            Shaped(f') && Distinct(f'.ids) && Abstract(f') == ApplyOrdered(Abstract(f), op, scale, flags)
  {
    var rows, f' := Abstract(f).rows, Apply(f, op, scale, flags);
    AbstractRepresents(f);
    StepRepresents(f, rows, op, scale, flags);
    assert Abstract(f) == Ordered(f.ids, rows);
    RepresentationUnique(f', ApplyOrdered(Ordered(f.ids, rows), op, scale, flags).rows);
  }

  function ApplyAllOrdered(m: Ordered, ops: seq<Op>, scale: real, flags: Flags): Ordered {
    if ops == [] then m
    else ApplyOrdered(ApplyAllOrdered(m, ops[..|ops| - 1], scale, flags), ops[|ops| - 1], scale, flags)
  }

  function ApplyAll(f: Field, ops: seq<Op>, scale: real, flags: Flags): (f': Field)
    requires Shaped(f)
    ensures Shaped(f')
  {
    if ops == [] then f
    else Apply(ApplyAll(f, ops[..|ops| - 1], scale, flags), ops[|ops| - 1], scale, flags)
  }

  /** Over every sequence of operations the field is the ordered map, and its index always inverts
      its list. */
  lemma {:induction false} RunRefines(f: Field, ops: seq<Op>, scale: real, flags: Flags)
    requires Shaped(f) && Distinct(f.ids)
    ensures var f' := ApplyAll(f, ops, scale, flags);
            && Distinct(f'.ids)
            && Abstract(f') == ApplyAllOrdered(Abstract(f), ops, scale, flags)
            && forall i :: 0 <= i < |f'.ids| ==> Enumerate(f'.ids)[f'.ids[i]] == i
  {
    if ops != [] {
      RunRefines(f, ops[..|ops| - 1], scale, flags);
      StepRefines(ApplyAll(f, ops[..|ops| - 1], scale, flags), ops[|ops| - 1], scale, flags);
    }
    var f' := ApplyAll(f, ops, scale, flags);
    forall i | 0 <= i < |f'.ids| ensures Enumerate(f'.ids)[f'.ids[i]] == i {
      IndexInvertsList(f'.ids, i);
    }
  }

  /** Adding a fresh id and removing it restores the field, duplicates elsewhere or not. */
  lemma AddThenRemove(f: Field, id: NodeId)
    requires Shaped(f) && id !in f.ids
    ensures RemoveNode(AddNode(f, id), id) == f
  {
    var added := AddNode(f, id);
    assert added.ids[|f.ids|] == id;
    assert id in added.ids;
    assert Enumerate(added.ids)[id] == |f.ids|;
    assert Without(added.ids, |f.ids|) == f.ids && Without(added.rows, |f.ids|) == f.rows;
  }
}
