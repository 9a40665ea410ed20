/** The lock-guarded in-memory backend: node list, index dictionary and N x 4 matrix, all updated
    in place.  Every method is tied to the operation on field values it performs. */
module InMemory {
  import opened Traces
  import opened FieldValue

  datatype Error = KeyError | ValueError | AttributeError

  datatype Outcome<T> = Done(value: T) | Raised(error: Error)

  /** What hydrate_from_snapshot accepts: a snapshot object, or a plain dictionary. */
  datatype Snapshot = Matrix(metrics: map<NodeId, Saved>) | Dictionary(metrics: map<NodeId, Saved>)

  function InitialRow(initial: array2?<real>, i: nat): Row
    requires initial != null ==> i < initial.Length0 && initial.Length1 == 4
    reads initial
  {
    if initial == null then BASELINE else Row(initial[i, 0], initial[i, 1], initial[i, 2], initial[i, 3])
  }

  /** A row with column j multiplied by `factor`. */
  function Scaled(row: Row, j: nat, factor: real): Row {
    if j == 0 then row.(v := row.v * factor)
    else if j == 1 then row.(l := row.l * factor)
    else if j == 2 then row.(s := row.s * factor)
    else row.(c := row.c * factor)
  }

  function ScaledAll(rows: seq<Row>, j: nat, factor: real): seq<Row> {
    seq(|rows|, i requires 0 <= i < |rows| => Scaled(rows[i], j, factor))
  }

  /** Evaporation column by column. */
  function ByColumns(rows: seq<Row>, factor: real, flags: Flags): seq<Row> {
    var v := if flags.success then ScaledAll(rows, 0, factor) else rows;
    var vls := ScaledAll(ScaledAll(v, 1, factor), 2, factor);
    if flags.capability then ScaledAll(vls, 3, factor) else vls
  }

  /** One row, column by column. */
  function RowByColumns(row: Row, factor: real, flags: Flags): Row {
    var v := if flags.success then Scaled(row, 0, factor) else row;
    var vls := Scaled(Scaled(v, 1, factor), 2, factor);
    if flags.capability then Scaled(vls, 3, factor) else vls
  }

  lemma RowByColumnsIsScaled(row: Row, factor: real, flags: Flags)
    ensures RowByColumns(row, factor, flags) == ScaleRow(row, factor, flags)
  {
  }

  lemma ByColumnsIsByRows(f: Field, rate: real, flags: Flags)
    ensures ByColumns(f.rows, 1.0 - rate, flags) == EvaporateAll(f, rate, flags).rows
  {
    hide Scaled, ScaleRow;
    var factor := 1.0 - rate;
    var columns, byRow := ByColumns(f.rows, factor, flags), EvaporateAll(f, rate, flags).rows;
    assert |columns| == |byRow|;
    forall i | 0 <= i < |byRow| ensures columns[i] == byRow[i] {
      RowByColumnsIsScaled(f.rows[i], factor, flags);
      assert columns[i] == RowByColumns(f.rows[i], factor, flags);
    }
  }

  /** Hydration that has yet to handle the snapshot's nodes in `todo`. */
  function HydrateExcept(f: Field, metrics: map<NodeId, Saved>, todo: set<NodeId>): seq<Row>
    requires Shaped(f)
  {
    seq(|f.rows|, i requires 0 <= i < |f.rows| => if f.ids[i] in todo then f.rows[i] else HydrateRow(f, metrics, i))
  }

  function OverlayAt(ids: seq<NodeId>, rows: seq<Row>, id: NodeId, t: Saved): seq<Row>
    requires |ids| == |rows|
  {
    if id in ids then rows[Enumerate(ids)[id] := Overlay(rows[Enumerate(ids)[id]], t)] else rows
  }

  lemma HydrateOneMore(f: Field, metrics: map<NodeId, Saved>, todo: set<NodeId>, id: NodeId)
    requires Shaped(f) && id in metrics && id in todo
    ensures HydrateExcept(f, metrics, todo - {id})
            == OverlayAt(f.ids, HydrateExcept(f, metrics, todo), id, metrics[id])
  {
  }

  lemma HydrateEnds(f: Field, metrics: map<NodeId, Saved>)
    requires Shaped(f)
    ensures HydrateExcept(f, metrics, metrics.Keys) == f.rows
    ensures HydrateExcept(f, metrics, {}) == Hydrate(f, metrics).rows
  {
  }

  lemma CountOneLess(todo: set<NodeId>, known: set<NodeId>, id: NodeId)
    requires id in todo
    ensures |todo * known| == |(todo - {id}) * known| + (if id in known then 1 else 0)
  {
    if id in known {
      assert todo * known == (todo - {id}) * known + {id};
    } else {
      assert todo * known == (todo - {id}) * known;
    }
  }

  lemma DepositedCells(row: Row, x: Sample, scale: real)
    ensures DepositRow(row, x, scale) ==
            Row(0.5 * (if x.success then 1.0 else 0.0) + 0.5 * row.v, 0.5 * x.latency + 0.5 * row.l,
                x.activeLoad as real * scale, 0.5 * Clamp(x.capability) + 0.5 * row.c)
  {
  }

  class MemoryField {
    var nodeIds: seq<NodeId>
    var nodeIndex: map<NodeId, nat>
    var state: array2<real>
    const saturationScale: real
    const flags: Flags

    /** The rows the matrix holds. */
    ghost var rows: seq<Row>

    ghost predicate Valid()
      reads this, state
    {
      && state.Length0 == |nodeIds| == |rows| && state.Length1 == 4
      && nodeIndex == Enumerate(nodeIds)
      && forall i :: 0 <= i < |rows| ==> RowAt(i) == rows[i]
    }

    function RowAt(i: nat): Row
      requires state.Length1 == 4 && i < state.Length0
      reads this, state
    {
      Row(state[i, 0], state[i, 1], state[i, 2], state[i, 3])
    }

    /** The field as a value. */
    ghost function Value(): Field
      reads this
    {
      Field(nodeIds, rows)
    }

    /** A field on which every row is the baseline, or a copy of the caller's matrix. */
    constructor (ids: seq<NodeId>, initial: array2?<real>, scale: real, flags: Flags)
      requires initial != null ==> initial.Length0 == |ids| && initial.Length1 == 4
      ensures Valid() && fresh(state)
      ensures saturationScale == scale && this.flags == flags
      ensures nodeIds == ids
      ensures forall i :: 0 <= i < |ids| ==> rows[i] == InitialRow(initial, i)
    {
      nodeIds := ids;
      saturationScale := scale;
      this.flags := flags;
      var index := BuildIndex(ids);
      var matrix := InitialMatrix(|ids|, initial);
      nodeIndex := index;
      state := matrix;
      rows := seq(|ids|, i requires 0 <= i < |ids| reads matrix =>
        Row(matrix[i, 0], matrix[i, 1], matrix[i, 2], matrix[i, 3]));
    }

    static method InitialMatrix(n: nat, initial: array2?<real>) returns (matrix: array2<real>)
      requires initial != null ==> initial.Length0 == n && initial.Length1 == 4
      ensures fresh(matrix) && matrix.Length0 == n && matrix.Length1 == 4
      ensures forall i :: 0 <= i < n ==>
                Row(matrix[i, 0], matrix[i, 1], matrix[i, 2], matrix[i, 3]) == InitialRow(initial, i)
    {
      matrix := new real[n, 4];
      forall i, j | 0 <= i < n && 0 <= j < 4 {
        matrix[i, j] := if initial != null then initial[i, j] else [1.0, 0.1, 0.0, 1.0][j];
      }
    }

    /** Construction as the caller sees it: a matrix of the wrong shape raises ValueError. */
    static method Create(ids: seq<NodeId>, initial: array2?<real>, scale: real, flags: Flags)
      returns (r: Outcome<MemoryField>)
      ensures r.Raised? <==> initial != null && (initial.Length0 != |ids| || initial.Length1 != 4)
      ensures r.Raised? ==> r.error == ValueError
      ensures r.Done? ==>
                && fresh(r.value) && r.value.Valid() && fresh(r.value.state) && r.value.nodeIds == ids
                && r.value.saturationScale == scale && r.value.flags == flags
                && forall i :: 0 <= i < |ids| ==> r.value.rows[i] == InitialRow(initial, i)
    {
      if initial != null && (initial.Length0 != |ids| || initial.Length1 != 4) {
        return Raised(ValueError);
      }
      var field := new MemoryField(ids, initial, scale, flags);
      return Done(field);
    }

    /** A defensive copy: changing it cannot change the field. */
    method GetStateVector() returns (copy: array2<real>)
      requires Valid()
      ensures fresh(copy) && copy.Length0 == |nodeIds| && copy.Length1 == 4
      ensures forall i :: 0 <= i < |nodeIds| ==>
                Row(copy[i, 0], copy[i, 1], copy[i, 2], copy[i, 3]) == rows[i]
    {
      copy := new real[state.Length0, 4];
      forall i, j | 0 <= i < state.Length0 && 0 <= j < 4 {
        copy[i, j] := state[i, j];
      }
    }

    /** Overwrites the cells of one row. */
    method WriteRow(idx: nat, v: real, l: real, s: real, c: real)
      requires Valid() && idx < |rows|
      modifies state, this`rows
      ensures Valid() && rows == old(rows)[idx := Row(v, l, s, c)]
    {
      state[idx, 0] := v;
      state[idx, 1] := l;
      state[idx, 2] := s;
      state[idx, 3] := c;
      rows := rows[idx := Row(v, l, s, c)];
    }

    method DepositTrace(id: NodeId, x: Sample) returns (r: Outcome<()>)
      requires Valid()
      modifies state, this`rows
      ensures Valid()
      ensures r == if id in nodeIds then Done(()) else Raised(KeyError)
      ensures Value() == Apply(old(Value()), Deposit(id, x), saturationScale, flags)
    {
      hide Enumerate, DepositRow;
      if id !in nodeIndex {
        return Raised(KeyError);
      }
      var idx := nodeIndex[id];
      var successVal := if x.success then 1.0 else 0.0;
      var atMostOne := if 1.0 < x.capability then 1.0 else x.capability;
      var cap := if atMostOne > 0.0 then atMostOne else 0.0;
      ghost var row := rows[idx];
      assert row == RowAt(idx);
      assert DepositRow(row, x, saturationScale)
          == Row(0.5 * successVal + 0.5 * row.v, 0.5 * x.latency + 0.5 * row.l,
                 x.activeLoad as real * saturationScale, 0.5 * cap + 0.5 * row.c) by {
        DepositedCells(row, x, saturationScale);
      }
      WriteRow(idx,
               0.5 * successVal + (1.0 - 0.5) * state[idx, 0],
               0.5 * x.latency + (1.0 - 0.5) * state[idx, 1],
               x.activeLoad as real * saturationScale,
               0.5 * cap + (1.0 - 0.5) * state[idx, 3]);
      return Done(());
    }

    method ScaleColumn(j: nat, factor: real)
      requires Valid() && j < 4
      modifies state, this`rows
      ensures Valid() && rows == ScaledAll(old(rows), j, factor)
    {
      hide Enumerate;
      forall i | 0 <= i < state.Length0 {
        state[i, j] := state[i, j] * factor;
      }
      rows := ScaledAll(rows, j, factor);
    }

    method ApplyEvaporation(rate: real) returns (r: Outcome<()>)
      requires Valid()
      modifies state, this`rows
      ensures Valid()
      ensures r == if ValidRate(rate) then Done(()) else Raised(ValueError)
      ensures Value() == Apply(old(Value()), Evaporate(rate), saturationScale, flags)
    {
      hide Enumerate, ScaledAll, EvaporateRow;
      if !(0.0 <= rate < 1.0) {
        return Raised(ValueError);
      }
      if flags.success {
        ScaleColumn(0, 1.0 - rate);
      }
      ScaleColumn(1, 1.0 - rate);
      ScaleColumn(2, 1.0 - rate);
      if flags.capability {
        ScaleColumn(3, 1.0 - rate);
      }
      ByColumnsIsByRows(old(Value()), rate, flags);
      return Done(());
    }

    /** A copy of the matrix with one more row, the baseline. */
    method GrownMatrix() returns (grown: array2<real>)
      requires Valid()
      ensures fresh(grown) && grown.Length0 == |rows| + 1 && grown.Length1 == 4
      ensures forall i :: 0 <= i <= |rows| ==>
                Row(grown[i, 0], grown[i, 1], grown[i, 2], grown[i, 3]) == (rows + [BASELINE])[i]
    {
      var n := |nodeIds|;
      grown := new real[n + 1, 4];
      forall i, j | 0 <= i < n && 0 <= j < 4 {
        grown[i, j] := state[i, j];
      }
      grown[n, 0], grown[n, 1], grown[n, 2], grown[n, 3] := 1.0, 0.1, 0.0, 1.0;
      forall i | 0 <= i < n ensures Row(grown[i, 0], grown[i, 1], grown[i, 2], grown[i, 3]) == rows[i] {
        assert RowAt(i) == rows[i];
      }
    }

    method Add(id: NodeId)
      requires Valid()
      modifies this
      ensures Valid() && (state == old(state) || fresh(state))
      ensures Value() == AddNode(old(Value()), id)
    {
      if id in nodeIndex {
        return;
      }
      var n := |nodeIds|;
      var grown := GrownMatrix();
      nodeIndex := nodeIndex[id := n];
      nodeIds := nodeIds + [id];
      assert nodeIds[..n] == old(nodeIds);
      state := grown;
      rows := rows + [BASELINE];
    }

    /** A copy of the matrix without one row. */
    method DeleteRow(idx: nat) returns (shrunk: array2<real>)
      requires Valid() && idx < |rows|
      ensures fresh(shrunk) && shrunk.Length0 == |rows| - 1 && shrunk.Length1 == 4
      ensures forall i :: 0 <= i < |rows| - 1 ==>
                Row(shrunk[i, 0], shrunk[i, 1], shrunk[i, 2], shrunk[i, 3]) == Without(rows, idx)[i]
    {
      shrunk := new real[state.Length0 - 1, 4];
      forall i, j | 0 <= i < state.Length0 - 1 && 0 <= j < 4 {
        shrunk[i, j] := state[if i < idx then i else i + 1, j];
      }
      WithoutAt(rows, idx);
      forall i | 0 <= i < |rows| - 1
        ensures Row(shrunk[i, 0], shrunk[i, 1], shrunk[i, 2], shrunk[i, 3]) == Without(rows, idx)[i]
      {
        assert RowAt(if i < idx then i else i + 1) == rows[if i < idx then i else i + 1];
      }
    }

    method Remove(id: NodeId)
      requires Valid()
      modifies this
      ensures Valid() && (state == old(state) || fresh(state))
      ensures Value() == RemoveNode(old(Value()), id)
    {
      if id !in nodeIndex {
        return;
      }
      var idx := nodeIndex[id];
      var shrunk := DeleteRow(idx);
      WithoutAt(nodeIds, idx);
      nodeIds := Without(nodeIds, idx);
      nodeIndex := BuildIndex(nodeIds);
      state := shrunk;
      rows := Without(rows, idx);
    }

    static method BuildIndex(ids: seq<NodeId>) returns (index: map<NodeId, nat>)
      ensures index == Enumerate(ids)
    {
      index := map[];
      for i := 0 to |ids|
        invariant index == Enumerate(ids[..i])
      {
        assert ids[..i + 1][..i] == ids[..i];
        index := index[ids[i] := i];
      }
      assert ids[..|ids|] == ids;
    }

    /** Writes the traces that are present over one row. */
    method OverlayRow(idx: nat, t: Saved)
      requires Valid() && idx < |rows|
      modifies state, this`rows
      ensures Valid() && rows == old(rows)[idx := Overlay(old(rows)[idx], t)]
    {
      hide Enumerate;
      if t.v.Some? { state[idx, 0] := t.v.value; }
      if t.l.Some? { state[idx, 1] := t.l.value; }
      if t.s.Some? { state[idx, 2] := t.s.value; }
      if t.c.Some? { state[idx, 3] := t.c.value; }
      rows := rows[idx := Overlay(rows[idx], t)];
    }

    method HydrateNode(id: NodeId, t: Saved) returns (known: bool)
      requires Valid()
      modifies state, this`rows
      ensures Valid() && (known <==> id in nodeIndex)
      ensures rows == OverlayAt(nodeIds, old(rows), id, t)
    {
      known := id in nodeIndex;
      if known {
        OverlayRow(nodeIndex[id], t);
      }
    }

    /** Overwrites the traces of the known nodes, and counts them. */
    method HydrateKnown(metrics: map<NodeId, Saved>) returns (updated: nat)
      requires Valid()
      modifies state, this`rows
      ensures Valid()
      ensures Value() == Hydrate(old(Value()), metrics)
      ensures updated == |metrics.Keys * nodeIndex.Keys|
    {
      var todo := metrics.Keys;
      updated := 0;
      ghost var before, known := Value(), nodeIndex.Keys;
      HydrateEnds(before, metrics);
      while todo != {}
        invariant Valid() && todo <= metrics.Keys
        invariant updated + |todo * known| == |metrics.Keys * known|
        invariant rows == HydrateExcept(before, metrics, todo)
        decreases todo
      {
        var id :| id in todo;
        HydrateOneMore(before, metrics, todo, id);
        CountOneLess(todo, known, id);
        var isKnown := HydrateNode(id, metrics[id]);
        if isKnown {
          updated := updated + 1;
        }
        todo := todo - {id};
      }
      assert |{} * known| == 0;
    }

    /** A snapshot object without nodes falls through to a dictionary lookup it does not support. */
    method HydrateFromSnapshot(snapshot: Snapshot) returns (r: Outcome<nat>)
      requires Valid()
      modifies state, this`rows
      ensures Valid()
      ensures r.Raised? <==> snapshot == Matrix(map[])
      ensures r.Raised? ==> r.error == AttributeError && Value() == old(Value())
      ensures r.Done? ==> Value() == Hydrate(old(Value()), snapshot.metrics)
      ensures r.Done? ==> r.value == |snapshot.metrics.Keys * nodeIndex.Keys|
    {
      if snapshot.Matrix? && snapshot.metrics == map[] {
        return Raised(AttributeError);
      }
      var updated := HydrateKnown(snapshot.metrics);
      return Done(updated);
    }
  }
}
