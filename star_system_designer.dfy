/**
 * The star system designer menu (`MyStarSystemDesignerMenu`) with its
 * widgets abstracted away: the pending overlay of edited and new objects,
 * the selection, and the listbox rows it builds from the committed star
 * system and the overlay.
 *
 * The C# menu keeps object references: an object edited in the menu is the
 * same object as the committed one it was selected from and as its pending
 * entry. The model works on values, so an edit writes the edited value into
 * the overlay, and a committed object that has a pending entry is shown
 * through that entry; the rows and the selection come out the same.
 */
module StarSystemDesigner {
  import opened Wrappers
  import opened SystemObjects

  /** A listbox row: its text and the id in its `UserData`. */
  datatype Row = Row(text: string, id: Guid)

  /** What the menu asks of an asteroid provider: `GetInstanceData(id)` and `GetDefaultData()`. */
  datatype ProviderView<D> = ProviderView(instanceData: Guid -> D, defaultData: D)

  /**
   * The pending overlay: `m_pendingSystemObjects` with its enumeration
   * order (the order of insertion, as nothing is ever removed), and
   * `m_pendingAsteroidData`.
   */
  datatype Overlay<D> = Overlay(objects: map<Guid, SystemObject>, order: seq<Guid>, asteroidData: map<Guid, D>)
  {
    /** The order lists every pending id once; each entry sits under its own id and is well typed. */
    ghost predicate Valid()
    {
      && Distinct(order)
      && OrderInObjects()
      && (forall id :: id in objects ==> id in order)
      && asteroidData.Keys <= objects.Keys
      && (forall id :: id in objects ==> objects[id].id == id && WellTyped(objects[id]))
    }

    predicate OrderInObjects()
    {
      forall i :: 0 <= i < |order| ==> order[i] in objects
    }

    /** The order only names entries, and each entry sits under its own id. */
    predicate KeyedById()
    {
      OrderInObjects() && forall id :: id in objects ==> objects[id].id == id
    }
  }

  /** The traversal only visits committed objects. */
  predicate TraversalInObjects(sys: StarSystem)
  {
    forall i :: 0 <= i < |sys.traversal| ==> sys.traversal[i] in sys.objects
  }

  // ---------------------------------------------------------------------
  // Labels
  // ---------------------------------------------------------------------

  /** `depth` times three spaces; nothing for a depth of zero or less. */
  function Indent(depth: int): (s: string)
    ensures |s| == if depth > 0 then 3 * depth else 0
    ensures forall i :: 0 <= i < |s| ==> s[i] == ' '
    decreases depth
  {
    if depth <= 0 then "" else Indent(depth - 1) + "   "
  }

  /** The text `AddObjectToList` gives a row: indentation, name, and " *" for a pending object. */
  function RowText(name: string, depth: int, pending: bool): string
  {
    Indent(depth) + name + (if pending then " *" else "")
  }

  /** The row `AddObjectToList(obj, depth)` appends. */
  function RowFor<D>(ov: Overlay<D>, obj: SystemObject, depth: int): Row
  {
    Row(RowText(obj.displayName, depth, obj.id in ov.objects), obj.id)
  }

  /**
   * The depth `OnObjectEdited` labels an object with: its committed depth,
   * or one more than its parent's when it is not committed (0 when the
   * parent is not committed either). It is never negative.
   */
  function EditedDepth(sys: StarSystem, obj: SystemObject): (d: int)
    ensures d >= 0
    ensures obj.id in sys.depth ==> d == sys.depth[obj.id]
    ensures obj.id !in sys.depth && obj.parentId in sys.depth ==> d == sys.depth[obj.parentId] + 1
    ensures obj.id !in sys.depth && obj.parentId !in sys.depth ==> d == 0
  {
    var depth := sys.GetDepth(obj.id);
    if depth < 0 then sys.GetDepth(obj.parentId) + 1 else depth
  }

  /**
   * The label `OnObjectEdited` writes into the selected row: three spaces
   * per level of depth, the new name, and " *".
   */
  function EditedLabel(sys: StarSystem, obj: SystemObject): (caption: string)
    ensures var d := EditedDepth(sys, obj);
      && |caption| == 3 * d + |obj.displayName| + 2
      && (forall i :: 0 <= i < 3 * d ==> caption[i] == ' ')
      && caption[3 * d..3 * d + |obj.displayName|] == obj.displayName
      && caption[|caption| - 2..] == " *"
  {
    var depth := EditedDepth(sys, obj);
    var prefix := if depth > 0 then Indent(depth) else "";
    prefix + obj.displayName + " *"
  }

  // ---------------------------------------------------------------------
  // Rows
  // ---------------------------------------------------------------------

  /**
   * The object a committed id is listed with: its pending entry when it has
   * one (in the C# menu that entry is the committed object itself), else the
   * committed object.
   */
  function Shown<D>(sys: StarSystem, ov: Overlay<D>, id: Guid): SystemObject
    requires id in sys.objects || id in ov.objects
  {
    if id in ov.objects then ov.objects[id] else sys.objects[id]
  }

  /**
   * The inner loop of `RefreshSystemList` over the first `n` pending
   * entries: a row at `depth` for each entry that is not committed and
   * whose parent is `parentId`.
   */
  function PendingChildRows<D>(sys: StarSystem, ov: Overlay<D>, n: nat, parentId: Guid, depth: int): seq<Row>
    requires n <= |ov.order| && ov.OrderInObjects()
  {
    if n == 0 then []
    else
      var rows := PendingChildRows(sys, ov, n - 1, parentId, depth);
      var id := ov.order[n - 1];
      if !sys.Contains(id) && ov.objects[id].parentId == parentId
      then rows + [RowFor(ov, ov.objects[id], depth)]
      else rows
  }

  /**
   * The outer loop of `RefreshSystemList` over the first `n` visited
   * objects: each object's row at its depth, followed by the rows of its
   * pending children one level deeper.
   */
  function TraversalRows<D>(sys: StarSystem, ov: Overlay<D>, n: nat): seq<Row>
    requires n <= |sys.traversal| && TraversalInObjects(sys) && ov.OrderInObjects()
  {
    if n == 0 then []
    else
      var id := sys.traversal[n - 1];
      var depth := sys.GetDepth(id);
      TraversalRows(sys, ov, n - 1) + [RowFor(ov, Shown(sys, ov, id), depth)]
        + PendingChildRows(sys, ov, |ov.order|, id, depth + 1)
  }

  /** The rows one visited object contributes: its own row, then its pending children one level deeper. */
  function VisitRows<D>(sys: StarSystem, ov: Overlay<D>, id: Guid): seq<Row>
    requires id in sys.objects && ov.OrderInObjects()
  {
    var depth := sys.GetDepth(id);
    [RowFor(ov, Shown(sys, ov, id), depth)] + PendingChildRows(sys, ov, |ov.order|, id, depth + 1)
  }

  /** The rows `RefreshSystemList` builds: none without a star system. */
  function ListRows<D>(system: Option<StarSystem>, ov: Overlay<D>): seq<Row>
    requires system.Some? ==> TraversalInObjects(system.value)
    requires ov.OrderInObjects()
  {
    if system.None? then [] else TraversalRows(system.value, ov, |system.value.traversal|)
  }

  /**
   * A row that shows its object at the depth `OnObjectEdited` would label
   * it with, marked " *" exactly when it is pending, and that is a
   * committed object or a pending object under a committed parent.
   */
  ghost predicate LabelledRow<D>(sys: StarSystem, ov: Overlay<D>, r: Row)
  {
    && (r.id in sys.objects || (r.id in ov.objects && ov.objects[r.id].parentId in sys.objects))
    && r == RowFor(ov, Shown(sys, ov, r.id), EditedDepth(sys, Shown(sys, ov, r.id)))
  }

  /** The ids of a list of rows. */
  ghost function RowIds(rows: seq<Row>): set<Guid>
  {
    set k | 0 <= k < |rows| :: rows[k].id
  }

  /** No id is listed twice, so `m_itemList.Add` never throws. */
  ghost predicate DistinctIds(rows: seq<Row>)
  {
    forall i, j :: 0 <= i < j < |rows| ==> rows[i].id != rows[j].id
  }

  /** The ids of the committed rows, in row order. */
  ghost function CommittedIds(rows: seq<Row>, sys: StarSystem): seq<Guid>
  {
    if rows == [] then []
    else CommittedIds(rows[..|rows| - 1], sys) + (if sys.Contains(rows[|rows| - 1].id) then [rows[|rows| - 1].id] else [])
  }

  lemma RowIdsConcat(a: seq<Row>, b: seq<Row>)
    ensures RowIds(a + b) == RowIds(a) + RowIds(b)
  {
    var ab := a + b;
    forall g | g in RowIds(ab) ensures g in RowIds(a) + RowIds(b) {
      var k :| 0 <= k < |ab| && ab[k].id == g;
      if k < |a| { assert a[k] == ab[k]; } else { assert b[k - |a|] == ab[k]; }
    }
    forall g | g in RowIds(a) + RowIds(b) ensures g in RowIds(ab) {
      if g in RowIds(a) {
        var k :| 0 <= k < |a| && a[k].id == g;
        assert ab[k] == a[k];
      } else {
        var k :| 0 <= k < |b| && b[k].id == g;
        assert ab[|a| + k] == b[k];
      }
    }
  }

  lemma RowIdsSingle(r: Row)
    ensures RowIds([r]) == {r.id}
  {
    assert [r][0] == r;
  }

  lemma {:induction false} DistinctConcat(a: seq<Row>, b: seq<Row>)
    requires DistinctIds(a) && DistinctIds(b) && RowIds(a) !! RowIds(b)
    ensures DistinctIds(a + b)
  {
    var ab := a + b;
    forall i, j | 0 <= i < j < |ab| ensures ab[i].id != ab[j].id {
      if j >= |a| && i < |a| {
        assert ab[i].id in RowIds(a) && ab[j].id in RowIds(b) by {
          assert ab[i] == a[i] && ab[j] == b[j - |a|];
        }
      } else if i >= |a| {
        assert ab[i] == b[i - |a|] && ab[j] == b[j - |a|];
      }
    }
  }

  /**
   * The pending child rows of `parentId` are exactly the uncommitted pending
   * entries among the first `n` whose parent is `parentId`, each once, each
   * a pending row at `depth`.
   */
  lemma {:induction false} PendingChildRowsFacts<D>(sys: StarSystem, ov: Overlay<D>, n: nat, parentId: Guid, depth: int)
    requires ov.Valid() && n <= |ov.order|
    ensures var rows := PendingChildRows(sys, ov, n, parentId, depth);
      && DistinctIds(rows)
      && (forall g :: g in RowIds(rows) <==>
            g in ov.order[..n] && g in ov.objects && !sys.Contains(g) && ov.objects[g].parentId == parentId)
      && (forall k :: 0 <= k < |rows| ==>
            && rows[k].id in ov.objects && !sys.Contains(rows[k].id)
            && ov.objects[rows[k].id].parentId == parentId
            && rows[k] == RowFor(ov, ov.objects[rows[k].id], depth))
  {
    if n > 0 {
      PendingChildRowsFacts(sys, ov, n - 1, parentId, depth);
      var prev := PendingChildRows(sys, ov, n - 1, parentId, depth);
      var id := ov.order[n - 1];
      var rows := PendingChildRows(sys, ov, n, parentId, depth);
      PrefixSnoc(ov.order, n);
      NotInPrefix(ov.order, n - 1);
      if !sys.Contains(id) && ov.objects[id].parentId == parentId {
        var row := [RowFor(ov, ov.objects[id], depth)];
        assert ov.objects[id].id == id;
        assert id !in RowIds(prev);
        RowIdsSingle(row[0]);
        RowIdsConcat(prev, row);
        DistinctConcat(prev, row);
        assert RowIds(rows) == RowIds(prev) + {id};
      } else {
        assert rows == prev;
      }
      forall g ensures g in RowIds(rows) <==>
        g in ov.order[..n] && g in ov.objects && !sys.Contains(g) && ov.objects[g].parentId == parentId
      {
        assert g in ov.order[..n] <==> g in ov.order[..n - 1] || g == id;
      }
    }
  }

  /** `g` is listed by the first `n` blocks: it is one of the first `n` visited objects or a pending child of one. */
  ghost predicate ListedBy<D>(sys: StarSystem, ov: Overlay<D>, n: nat, g: Guid)
    requires n <= |sys.traversal|
  {
    g in sys.traversal[..n]
    || (g in ov.objects && !sys.Contains(g) && ov.objects[g].parentId in sys.traversal[..n])
  }

  /** The rows for the first `n` visited objects are those for the first `n - 1` followed by the n-th visit. */
  lemma TraversalRowsSnoc<D>(sys: StarSystem, ov: Overlay<D>, n: nat)
    requires TraversalInObjects(sys) && ov.OrderInObjects() && 0 < n <= |sys.traversal|
    ensures TraversalRows(sys, ov, n) == TraversalRows(sys, ov, n - 1) + VisitRows(sys, ov, sys.traversal[n - 1])
  {
    var id := sys.traversal[n - 1];
    var depth := sys.GetDepth(id);
    var own := [RowFor(ov, Shown(sys, ov, id), depth)];
    var children := PendingChildRows(sys, ov, |ov.order|, id, depth + 1);
    assert TraversalRows(sys, ov, n - 1) + own + children == TraversalRows(sys, ov, n - 1) + (own + children);
  }

  /** A visit lists its object and that object's uncommitted pending children, each once. */
  lemma VisitRowIds<D>(sys: StarSystem, ov: Overlay<D>, id: Guid)
    requires sys.KeyedById() && ov.Valid() && id in sys.objects
    ensures forall g :: g in RowIds(VisitRows(sys, ov, id)) <==> g == id || IsPendingChildOf(sys, ov, g, id)
    ensures DistinctIds(VisitRows(sys, ov, id))
  {
    var depth := sys.GetDepth(id);
    var own := [RowFor(ov, Shown(sys, ov, id), depth)];
    var children := PendingChildRows(sys, ov, |ov.order|, id, depth + 1);
    PendingChildRowsFacts(sys, ov, |ov.order|, id, depth + 1);
    assert ov.order[..|ov.order|] == ov.order;
    assert Shown(sys, ov, id).id == id;
    RowIdsSingle(own[0]);
    RowIdsConcat(own, children);
    DistinctConcat(own, children);
  }

  /**
   * The rows for the first `n` visited objects list those objects and the
   * pending uncommitted entries whose parent is among them, and nothing else.
   */
  lemma {:induction false} TraversalRowIdSet<D>(sys: StarSystem, ov: Overlay<D>, n: nat)
    requires TraversalInObjects(sys) && sys.KeyedById() && ov.Valid() && n <= |sys.traversal|
    ensures forall g :: g in RowIds(TraversalRows(sys, ov, n)) <==> ListedBy(sys, ov, n, g)
  {
    if n > 0 {
      TraversalRowIdSet(sys, ov, n - 1);
      var id := sys.traversal[n - 1];
      TraversalRowsSnoc(sys, ov, n);
      VisitRowIds(sys, ov, id);
      RowIdsConcat(TraversalRows(sys, ov, n - 1), VisitRows(sys, ov, id));
      PrefixSnoc(sys.traversal, n);
    }
  }

  /** The rows for the first `n` visited objects list no id twice. */
  lemma {:induction false} TraversalRowsDistinct<D>(sys: StarSystem, ov: Overlay<D>, n: nat)
    requires TraversalInObjects(sys) && sys.KeyedById() && Distinct(sys.traversal) && ov.Valid() && n <= |sys.traversal|
    ensures DistinctIds(TraversalRows(sys, ov, n))
  {
    if n > 0 {
      TraversalRowsDistinct(sys, ov, n - 1);
      var prev := TraversalRows(sys, ov, n - 1);
      var id := sys.traversal[n - 1];
      TraversalRowsSnoc(sys, ov, n);
      VisitRowIds(sys, ov, id);
      VisitNotListedYet(sys, ov, n - 1);
      DistinctConcat(prev, VisitRows(sys, ov, id));
    }
  }

  /** Nothing the i-th visit lists has a row before it. */
  lemma VisitNotListedYet<D>(sys: StarSystem, ov: Overlay<D>, i: nat)
    requires TraversalInObjects(sys) && sys.KeyedById() && Distinct(sys.traversal) && ov.Valid() && i < |sys.traversal|
    ensures RowIds(TraversalRows(sys, ov, i)) !! RowIds(VisitRows(sys, ov, sys.traversal[i]))
  {
    var id := sys.traversal[i];
    TraversalRowIdSet(sys, ov, i);
    VisitRowIds(sys, ov, id);
    NotInPrefix(sys.traversal, i);
  }

  /** Before block `i` is listed, its committed object has no row yet. */
  lemma OwnRowIsNew<D>(sys: StarSystem, ov: Overlay<D>, i: nat)
    requires sys.WellFormed() && ov.Valid() && i < |sys.traversal|
    ensures sys.traversal[i] !in RowIds(TraversalRows(sys, ov, i))
    ensures Shown(sys, ov, sys.traversal[i]).id == sys.traversal[i]
  {
    TraversalRowIdSet(sys, ov, i);
    NotInPrefix(sys.traversal, i);
  }

  /** `g` is a pending object, not committed, whose parent is `parentId`. */
  ghost predicate IsPendingChildOf<D>(sys: StarSystem, ov: Overlay<D>, g: Guid, parentId: Guid)
  {
    g in ov.objects && !sys.Contains(g) && ov.objects[g].parentId == parentId
  }

  /** When block `i` starts listing children, none of them has a row yet. */
  lemma NoChildListedYet<D>(sys: StarSystem, ov: Overlay<D>, i: nat)
    requires sys.WellFormed() && ov.Valid() && i < |sys.traversal|
    ensures var id := sys.traversal[i];
      var head := TraversalRows(sys, ov, i) + [RowFor(ov, Shown(sys, ov, id), sys.GetDepth(id))];
      forall k :: 0 <= k < |head| ==> !IsPendingChildOf(sys, ov, head[k].id, id)
  {
    var id := sys.traversal[i];
    var prev := TraversalRows(sys, ov, i);
    var head := prev + [RowFor(ov, Shown(sys, ov, id), sys.GetDepth(id))];
    TraversalRowIdSet(sys, ov, i);
    NotInPrefix(sys.traversal, i);
    assert Shown(sys, ov, id).id == id;
    forall k | 0 <= k < |head| ensures !IsPendingChildOf(sys, ov, head[k].id, id) {
      if k < |prev| {
        assert head[k] == prev[k];
        assert prev[k].id in RowIds(prev);
      }
    }
  }

  /** `index` maps each listed id to its row, as `m_itemList` does. */
  ghost predicate Indexes(rows: seq<Row>, index: map<Guid, nat>)
  {
    && index.Keys == RowIds(rows)
    && forall k :: 0 <= k < |rows| ==> rows[k].id in index && index[rows[k].id] == k
  }

  /** Appending a row whose id is new keeps the index exact. */
  lemma IndexSnoc(rows: seq<Row>, index: map<Guid, nat>, r: Row)
    requires Indexes(rows, index) && r.id !in index
    ensures Indexes(rows + [r], index[r.id := |rows|])
  {
    RowIdsSingle(r);
    RowIdsConcat(rows, [r]);
    var rows' := rows + [r];
    forall k | 0 <= k < |rows'| ensures rows'[k].id in index[r.id := |rows|] && index[r.id := |rows|][rows'[k].id] == k {
      if k < |rows| {
        assert rows'[k] == rows[k];
      }
    }
  }

  /**
   * Every row shows its object at the depth `OnObjectEdited` would label it
   * with, marked " *" exactly when it is pending; a pending row is listed
   * under its committed parent.
   */
  lemma {:induction false} TraversalRowLabels<D>(sys: StarSystem, ov: Overlay<D>, n: nat)
    requires sys.WellFormed() && ov.Valid() && n <= |sys.traversal|
    ensures AllLabelled(sys, ov, TraversalRows(sys, ov, n))
  {
    if n > 0 {
      TraversalRowLabels(sys, ov, n - 1);
      var prev := TraversalRows(sys, ov, n - 1);
      var id := sys.traversal[n - 1];
      var depth := sys.GetDepth(id);
      var own := RowFor(ov, Shown(sys, ov, id), depth);
      var children := PendingChildRows(sys, ov, |ov.order|, id, depth + 1);
      assert TraversalRows(sys, ov, n) == prev + [own] + children;
      OwnRowLabelled(sys, ov, id);
      ChildRowsLabelled(sys, ov, |ov.order|, id);
      AllLabelledConcat(sys, ov, prev, [own]);
      AllLabelledConcat(sys, ov, prev + [own], children);
    }
  }

  ghost predicate AllLabelled<D>(sys: StarSystem, ov: Overlay<D>, rows: seq<Row>)
  {
    forall k :: 0 <= k < |rows| ==> LabelledRow(sys, ov, rows[k])
  }

  lemma AllLabelledConcat<D>(sys: StarSystem, ov: Overlay<D>, a: seq<Row>, b: seq<Row>)
    requires AllLabelled(sys, ov, a) && AllLabelled(sys, ov, b)
    ensures AllLabelled(sys, ov, a + b)
  {
    forall k | 0 <= k < |a + b| ensures LabelledRow(sys, ov, (a + b)[k]) {
      if k < |a| { assert (a + b)[k] == a[k]; } else { assert (a + b)[k] == b[k - |a|]; }
    }
  }

  /** A visited object's own row is labelled with its committed depth. */
  lemma OwnRowLabelled<D>(sys: StarSystem, ov: Overlay<D>, id: Guid)
    requires sys.WellFormed() && ov.Valid() && id in sys.objects
    ensures AllLabelled(sys, ov, [RowFor(ov, Shown(sys, ov, id), sys.GetDepth(id))])
  {
    assert Shown(sys, ov, id).id == id;
    assert id in sys.depth;
  }

  /** A pending child's row is labelled one level below its committed parent. */
  lemma {:induction false} ChildRowsLabelled<D>(sys: StarSystem, ov: Overlay<D>, n: nat, parentId: Guid)
    requires sys.WellFormed() && ov.Valid() && parentId in sys.objects && n <= |ov.order|
    ensures AllLabelled(sys, ov, PendingChildRows(sys, ov, n, parentId, sys.GetDepth(parentId) + 1))
  {
    if n > 0 {
      var depth := sys.GetDepth(parentId) + 1;
      ChildRowsLabelled(sys, ov, n - 1, parentId);
      var id := ov.order[n - 1];
      if !sys.Contains(id) && ov.objects[id].parentId == parentId {
        var obj := ov.objects[id];
        assert obj.id == id && id !in sys.depth && parentId in sys.depth;
        assert EditedDepth(sys, obj) == depth;
        assert LabelledRow(sys, ov, RowFor(ov, obj, depth));
        AllLabelledConcat(sys, ov, PendingChildRows(sys, ov, n - 1, parentId, depth), [RowFor(ov, obj, depth)]);
      }
    }
  }

  /** The rows' committed ids of a single row. */
  lemma CommittedIdsSingle(r: Row, sys: StarSystem)
    ensures CommittedIds([r], sys) == if sys.Contains(r.id) then [r.id] else []
  {
    assert [r][..0] == [];
  }

  /** Read in order, the committed rows are the traversal. */
  lemma {:induction false} CommittedIdsConcat(a: seq<Row>, b: seq<Row>, sys: StarSystem)
    ensures CommittedIds(a + b, sys) == CommittedIds(a, sys) + CommittedIds(b, sys)
    decreases |b|
  {
    if b != [] {
      var b' := b[..|b| - 1];
      assert (a + b)[..|a + b| - 1] == a + b';
      CommittedIdsConcat(a, b', sys);
    } else {
      assert a + b == a;
    }
  }

  lemma {:induction false} PendingChildRowsUncommitted<D>(sys: StarSystem, ov: Overlay<D>, n: nat, parentId: Guid, depth: int)
    requires ov.KeyedById() && n <= |ov.order|
    ensures CommittedIds(PendingChildRows(sys, ov, n, parentId, depth), sys) == []
  {
    if n > 0 {
      PendingChildRowsUncommitted(sys, ov, n - 1, parentId, depth);
      var prev := PendingChildRows(sys, ov, n - 1, parentId, depth);
      var id := ov.order[n - 1];
      if !sys.Contains(id) && ov.objects[id].parentId == parentId {
        var row := [RowFor(ov, ov.objects[id], depth)];
        CommittedIdsConcat(prev, row, sys);
        CommittedIdsSingle(row[0], sys);
      }
    }
  }

  lemma {:induction false} TraversalRowOrder<D>(sys: StarSystem, ov: Overlay<D>, n: nat)
    requires TraversalInObjects(sys) && sys.KeyedById() && ov.KeyedById() && n <= |sys.traversal|
    ensures CommittedIds(TraversalRows(sys, ov, n), sys) == sys.traversal[..n]
  {
    if n > 0 {
      TraversalRowOrder(sys, ov, n - 1);
      TraversalRowOrderStep(sys, ov, n);
    }
  }

  /** The n-th visit appends the n-th visited id, and no other, to the committed rows. */
  lemma TraversalRowOrderStep<D>(sys: StarSystem, ov: Overlay<D>, n: nat)
    requires TraversalInObjects(sys) && sys.KeyedById() && ov.KeyedById() && 0 < n <= |sys.traversal|
    requires CommittedIds(TraversalRows(sys, ov, n - 1), sys) == sys.traversal[..n - 1]
    ensures CommittedIds(TraversalRows(sys, ov, n), sys) == sys.traversal[..n]
  {
    var id := sys.traversal[n - 1];
    TraversalRowsSnoc(sys, ov, n);
    VisitCommittedIds(sys, ov, id);
    CommittedIdsAppend(TraversalRows(sys, ov, n - 1), VisitRows(sys, ov, id), sys, sys.traversal[..n - 1], id);
    PrefixSnoc(sys.traversal, n);
  }

  lemma CommittedIdsAppend(prev: seq<Row>, block: seq<Row>, sys: StarSystem, before: seq<Guid>, id: Guid)
    requires CommittedIds(prev, sys) == before && CommittedIds(block, sys) == [id]
    ensures CommittedIds(prev + block, sys) == before + [id]
  {
    CommittedIdsConcat(prev, block, sys);
  }

  /** The only committed row of a visit is the visited object's own. */
  lemma VisitCommittedIds<D>(sys: StarSystem, ov: Overlay<D>, id: Guid)
    requires sys.KeyedById() && ov.KeyedById() && id in sys.objects
    ensures CommittedIds(VisitRows(sys, ov, id), sys) == [id]
  {
    var depth := sys.GetDepth(id);
    var own := [RowFor(ov, Shown(sys, ov, id), depth)];
    var children := PendingChildRows(sys, ov, |ov.order|, id, depth + 1);
    OwnRowCommitted(sys, ov, id, depth);
    PendingChildRowsUncommitted(sys, ov, |ov.order|, id, depth + 1);
    CommittedIdsConcat(own, children, sys);
    assert CommittedIds(own + children, sys) == [id] + [];
  }

  lemma OwnRowCommitted<D>(sys: StarSystem, ov: Overlay<D>, id: Guid, depth: int)
    requires sys.KeyedById() && ov.KeyedById() && id in sys.objects
    ensures CommittedIds([RowFor(ov, Shown(sys, ov, id), depth)], sys) == [id]
  {
    assert Shown(sys, ov, id).id == id;
    CommittedIdsSingle(RowFor(ov, Shown(sys, ov, id), depth), sys);
  }

  /**
   * The row at `k`, when it is not committed, is a pending object whose
   * parent's row comes earlier with only uncommitted rows in between.
   */
  ghost predicate UnderParentAt<D>(sys: StarSystem, ov: Overlay<D>, rows: seq<Row>, k: int)
    requires 0 <= k < |rows|
  {
    !sys.Contains(rows[k].id) ==>
      && rows[k].id in ov.objects
      && exists j :: 0 <= j < k && rows[j].id == ov.objects[rows[k].id].parentId
                     && forall m :: j < m <= k ==> !sys.Contains(rows[m].id)
  }

  ghost predicate AllUnderParent<D>(sys: StarSystem, ov: Overlay<D>, rows: seq<Row>)
  {
    forall k :: 0 <= k < |rows| ==> UnderParentAt(sys, ov, rows, k)
  }

  /** Appending a committed row followed by pending children of it keeps every pending row under its parent. */
  lemma UnderParentExtend<D>(sys: StarSystem, ov: Overlay<D>, prev: seq<Row>, own: Row, children: seq<Row>)
    requires AllUnderParent(sys, ov, prev) && sys.Contains(own.id)
    requires forall c :: 0 <= c < |children| ==>
      !sys.Contains(children[c].id) && children[c].id in ov.objects && ov.objects[children[c].id].parentId == own.id
    ensures AllUnderParent(sys, ov, prev + [own] + children)
  {
    var rows := prev + [own] + children;
    forall k | 0 <= k < |rows| ensures UnderParentAt(sys, ov, rows, k) {
      if k < |prev| {
        assert rows[k] == prev[k];
        if !sys.Contains(prev[k].id) {
          assert UnderParentAt(sys, ov, prev, k);
          var j :| 0 <= j < k && prev[j].id == ov.objects[prev[k].id].parentId
                   && forall m :: j < m <= k ==> !sys.Contains(prev[m].id);
          assert rows[j] == prev[j];
          assert forall m :: j < m <= k ==> rows[m] == prev[m];
        }
      } else if k > |prev| {
        assert rows[k] == children[k - |prev| - 1];
        assert rows[|prev|] == own;
        forall m | |prev| < m <= k ensures !sys.Contains(rows[m].id) {
          assert rows[m] == children[m - |prev| - 1];
        }
      }
    }
  }

  /**
   * Each pending row comes after its parent's row with only pending rows in
   * between: the parent's block is the parent followed by its pending
   * children.
   */
  lemma {:induction false} TraversalRowsUnderParent<D>(sys: StarSystem, ov: Overlay<D>, n: nat)
    requires sys.WellFormed() && ov.Valid() && n <= |sys.traversal|
    ensures AllUnderParent(sys, ov, TraversalRows(sys, ov, n))
  {
    if n > 0 {
      TraversalRowsUnderParent(sys, ov, n - 1);
      var id := sys.traversal[n - 1];
      var depth := sys.GetDepth(id);
      var own := RowFor(ov, Shown(sys, ov, id), depth);
      var children := PendingChildRows(sys, ov, |ov.order|, id, depth + 1);
      assert TraversalRows(sys, ov, n) == TraversalRows(sys, ov, n - 1) + [own] + children;
      PendingChildRowsFacts(sys, ov, |ov.order|, id, depth + 1);
      assert Shown(sys, ov, id).id == id;
      UnderParentExtend(sys, ov, TraversalRows(sys, ov, n - 1), own, children);
    }
  }

  /**
   * What `RefreshSystemList` lists: every committed object, each once, in
   * traversal order, and each pending uncommitted object whose parent is
   * committed, once, after its parent and before the next committed object;
   * a pending object whose parent is not committed is not listed. Every row
   * shows its object at the depth `OnObjectEdited` computes, with " *"
   * exactly when the object is pending.
   */
  lemma ListRowsProperties<D>(sys: StarSystem, ov: Overlay<D>)
    requires sys.WellFormed() && ov.Valid()
    ensures var rows := ListRows(Some(sys), ov);
      && DistinctIds(rows)
      && (forall g :: g in RowIds(rows) <==>
            sys.Contains(g) || (g in ov.objects && ov.objects[g].parentId in sys.objects))
      && CommittedIds(rows, sys) == sys.traversal
      && AllLabelled(sys, ov, rows)
      && AllUnderParent(sys, ov, rows)
  {
    var n := |sys.traversal|;
    assert sys.traversal[..n] == sys.traversal;
    TraversalRowIdSet(sys, ov, n);
    TraversalRowsDistinct(sys, ov, n);
    TraversalRowLabels(sys, ov, n);
    TraversalRowOrder(sys, ov, n);
    TraversalRowsUnderParent(sys, ov, n);
    forall g | g in ov.objects && ov.objects[g].parentId in sys.objects && !sys.Contains(g)
      ensures ov.objects[g].parentId in sys.traversal
    {
    }
  }

  /** The label an edit writes into the selected row is the text the next refresh gives a listed pending object. */
  lemma EditLabelMatchesRefresh<D>(sys: StarSystem, ov: Overlay<D>, k: nat)
    requires sys.WellFormed() && ov.Valid()
    requires k < |ListRows(Some(sys), ov)|
    requires ListRows(Some(sys), ov)[k].id in ov.objects
    ensures ListRows(Some(sys), ov)[k].text == EditedLabel(sys, ov.objects[ListRows(Some(sys), ov)[k].id])
  {
    ListRowsProperties(sys, ov);
    var id := ListRows(Some(sys), ov)[k].id;
    var obj := ov.objects[id];
    var d := EditedDepth(sys, obj);
    if d == 0 {
      assert Indent(d) == "";
    }
  }

  // ---------------------------------------------------------------------
  // Overlay transitions
  // ---------------------------------------------------------------------

  /**
   * The overlay after `OnObjectEdited(obj)`: the id is inserted once, at the
   * end of the order, together with the provider's instance data for an
   * ASTEROIDS object of a known provider; a later edit only replaces the
   * entry's value.
   */
  function RecordEdit<D>(ov: Overlay<D>, obj: SystemObject, providers: map<string, ProviderView<D>>): Overlay<D>
  {
    if obj.id in ov.objects then ov.(objects := ov.objects[obj.id := obj])
    else
      var data :=
        if obj.kind == Asteroids && obj.details.AsteroidDetails? && obj.details.asteroidTypeName in providers
        then ov.asteroidData[obj.id := providers[obj.details.asteroidTypeName].instanceData(obj.id)]
        else ov.asteroidData;
      Overlay(ov.objects[obj.id := obj], ov.order + [obj.id], data)
  }

  /** The overlay after "add object" put a new object and, for asteroids, its data into it. */
  function AddNew<D>(ov: Overlay<D>, obj: SystemObject, data: Option<D>): Overlay<D>
  {
    Overlay(ov.objects[obj.id := obj], ov.order + [obj.id],
            if data.Some? then ov.asteroidData[obj.id := data.value] else ov.asteroidData)
  }

  /**
   * Recording an edit keeps the overlay consistent. The entry holds the
   * edited value; a new id goes to the end of the order and, for an
   * ASTEROIDS object of a known provider, gets that provider's instance
   * data; nothing else changes.
   */
  lemma RecordEditValid<D>(ov: Overlay<D>, obj: SystemObject, providers: map<string, ProviderView<D>>)
    requires ov.Valid() && WellTyped(obj)
    ensures RecordEdit(ov, obj, providers).Valid()
    ensures RecordEdit(ov, obj, providers).objects.Keys == ov.objects.Keys + {obj.id}
    ensures RecordEdit(ov, obj, providers).objects == ov.objects[obj.id := obj]
    ensures RecordEdit(ov, obj, providers).order == if obj.id in ov.objects then ov.order else ov.order + [obj.id]
    ensures obj.id !in ov.objects && obj.kind == Asteroids && obj.details.asteroidTypeName in providers ==>
      RecordEdit(ov, obj, providers).asteroidData
        == ov.asteroidData[obj.id := providers[obj.details.asteroidTypeName].instanceData(obj.id)]
    ensures !(obj.id !in ov.objects && obj.kind == Asteroids && obj.details.asteroidTypeName in providers) ==>
      RecordEdit(ov, obj, providers).asteroidData == ov.asteroidData
  {
    var r := RecordEdit(ov, obj, providers);
    if obj.id !in ov.objects {
      assert obj.id !in ov.order;
      forall i, j | 0 <= i < j < |r.order| ensures r.order[i] != r.order[j] {
        if j == |ov.order| { assert r.order[i] == ov.order[i]; }
      }
    }
  }

  /**
   * Editing the same object twice keeps a single entry: the order and the
   * asteroid data are those of the first edit, and the entry holds the
   * latest value.
   */
  lemma RecordEditTwice<D>(ov: Overlay<D>, first: SystemObject, second: SystemObject, providers: map<string, ProviderView<D>>)
    requires first.id == second.id
    ensures var once := RecordEdit(ov, first, providers);
      var twice := RecordEdit(once, second, providers);
      && twice.order == once.order
      && twice.asteroidData == once.asteroidData
      && twice.objects == ov.objects[first.id := second]
      && |twice.order| <= |ov.order| + 1
  {
  }

  /** After an edit the selection shows the edited value, whether or not the object is committed. */
  lemma EditIsSelected<D>(sys: StarSystem, ov: Overlay<D>, obj: SystemObject, providers: map<string, ProviderView<D>>)
    ensures SelectedView(sys, RecordEdit(ov, obj, providers), obj.id) == Some(Selection(obj, sys.Contains(obj.id)))
  {
  }

  lemma AddNewValid<D>(ov: Overlay<D>, obj: SystemObject, data: Option<D>)
    requires ov.Valid() && WellTyped(obj) && obj.id !in ov.objects
    ensures AddNew(ov, obj, data).Valid()
  {
    var r := AddNew(ov, obj, data);
    assert obj.id !in ov.order;
    forall i, j | 0 <= i < j < |r.order| ensures r.order[i] != r.order[j] {
      if j == |ov.order| { assert r.order[i] == ov.order[i]; }
    }
  }

  // ---------------------------------------------------------------------
  // New objects and the selection
  // ---------------------------------------------------------------------

  /**
   * The object "add object" creates under the selected id: named "New
   * Asteroid" with the chosen provider for ASTEROIDS, "New Object" otherwise,
   * with a planet record for PLANET and MOON, centred on the parent when the
   * parent is committed. The parent's centre is read from the tree object,
   * which the sub-menus edit in place; its current value is the pending
   * entry when it has one.
   */
  function NewObject<D>(sys: StarSystem, ov: Overlay<D>, parentId: Guid, kind: ObjectType, asteroidTypeName: string,
                        newId: Guid): (o: SystemObject)
    ensures o.id == newId && o.parentId == parentId && o.kind == kind && WellTyped(o)
    ensures !sys.Contains(parentId) ==> o.center == Origin
    ensures sys.Contains(parentId) ==> o.center == SelectedView(sys, ov, parentId).value.obj.center
    ensures sys.Contains(parentId) && parentId !in ov.objects ==> o.center == sys.objects[parentId].center
    ensures parentId in ov.objects && sys.Contains(parentId) ==> o.center == ov.objects[parentId].center
    ensures o.displayName == if kind == Asteroids then "New Asteroid" else "New Object"
    ensures kind == Asteroids ==> o.details.asteroidTypeName == asteroidTypeName
  {
    var center := match sys.GetById(parentId)
      case Some(parent) => if parentId in ov.objects then ov.objects[parentId].center else parent.center
      case None => Origin;
    match kind
    case Asteroids =>
      SystemObject(newId, "New Asteroid", kind, center, parentId, AsteroidDetails(asteroidTypeName, 0, 0, None))
    case Planet =>
      SystemObject(newId, "New Object", kind, center, parentId, PlanetDetails("", 0.0, false))
    case Moon =>
      SystemObject(newId, "New Object", kind, center, parentId, PlanetDetails("", 0.0, false))
    case OtherType =>
      SystemObject(newId, "New Object", kind, center, parentId, Generic)
  }

  /**
   * A committed object moved by an edit passes its new centre to the
   * children "add object" creates under it afterwards.
   */
  lemma NewObjectFollowsEdit<D>(sys: StarSystem, ov: Overlay<D>, moved: SystemObject, providers: map<string, ProviderView<D>>,
                                kind: ObjectType, asteroidTypeName: string, newId: Guid)
    requires sys.Contains(moved.id)
    ensures NewObject(sys, RecordEdit(ov, moved, providers), moved.id, kind, asteroidTypeName, newId).center == moved.center
  {
  }

  /** The object the sub-menu edits, and whether it is committed. */
  datatype Selection = Selection(obj: SystemObject, committed: bool)

  /**
   * The object-selection part of `SetSubMenuControls`: the pending entry
   * takes precedence over the committed object; with neither, nothing is
   * shown.
   */
  function SelectedView<D>(sys: StarSystem, ov: Overlay<D>, id: Guid): (r: Option<Selection>)
    ensures r.None? <==> id !in ov.objects && !sys.Contains(id)
    ensures r.Some? ==> r.value.committed == sys.Contains(id)
    ensures id in ov.objects ==> r.value.obj == ov.objects[id]
    ensures id !in ov.objects && sys.Contains(id) ==> r == Some(Selection(sys.objects[id], true))
  {
    if id in ov.objects then Some(Selection(ov.objects[id], sys.Contains(id)))
    else match sys.GetById(id)
      case Some(o) => Some(Selection(o, true))
      case None => None
  }

  /**
   * A new object is listed by the next refresh exactly when its parent is
   * committed, as a pending row one level below the parent; it is selected
   * as an uncommitted object.
   */
  lemma NewObjectListed<D>(sys: StarSystem, ov: Overlay<D>, parentId: Guid, kind: ObjectType, asteroidTypeName: string,
                           newId: Guid, data: Option<D>)
    requires sys.WellFormed() && ov.Valid()
    requires newId !in ov.objects && !sys.Contains(newId)
    ensures var obj := NewObject(sys, ov, parentId, kind, asteroidTypeName, newId);
      var ov' := AddNew(ov, obj, data);
      && ov'.Valid()
      && (newId in RowIds(ListRows(Some(sys), ov')) <==> sys.Contains(parentId))
      && SelectedView(sys, ov', newId) == Some(Selection(obj, false))
  {
    var obj := NewObject(sys, ov, parentId, kind, asteroidTypeName, newId);
    AddNewValid(ov, obj, data);
    ListRowsProperties(sys, AddNew(ov, obj, data));
  }

  /** Why "add object" could not create an object. */
  datatype DesignerError = UnknownProvider(typeName: string)

  // ---------------------------------------------------------------------
  // The menu
  // ---------------------------------------------------------------------

  class DesignerMenu<D> {
    var pendingObjects: map<Guid, SystemObject>
    var pendingOrder: seq<Guid>
    var pendingAsteroidData: map<Guid, D>
    /** The listbox's rows and `m_itemList`, which maps an id to its row. */
    var rows: seq<Row>
    var itemList: map<Guid, nat>
    var selectedId: Guid

    function Pending(): Overlay<D>
      reads this
    {
      Overlay(pendingObjects, pendingOrder, pendingAsteroidData)
    }

    ghost predicate Valid()
      reads this
    {
      Pending().Valid()
    }

    /** `m_itemList` maps each listed id to its row. */
    ghost predicate IndexesRows()
      reads this
    {
      Indexes(rows, itemList)
    }

    /** A new menu has an empty overlay, no rows and nothing selected. */
    constructor ()
      ensures Valid() && IndexesRows()
      ensures Pending() == Overlay(map[], [], map[])
      ensures rows == [] && itemList == map[] && selectedId == EmptyGuid
    {
      pendingObjects, pendingOrder, pendingAsteroidData := map[], [], map[];
      rows, itemList := [], map[];
      selectedId := EmptyGuid;
    }

    /** `Close` forgets the selection but keeps the pending edits. */
    method Close()
      modifies this`selectedId
      ensures selectedId == EmptyGuid
      ensures Pending() == old(Pending()) && rows == old(rows) && itemList == old(itemList)
    {
      selectedId := EmptyGuid;
    }

    /**
     * `AddObjectToList`: appends the object's row; `m_itemList.Add` then
     * throws (`added` is false) when the id already has a row, leaving the
     * map as it was.
     */
    method AddObjectToList(obj: SystemObject, depth: int) returns (added: bool)
      modifies this`rows, this`itemList
      ensures rows == old(rows) + [RowFor(Pending(), obj, depth)]
      ensures added == (obj.id !in old(itemList))
      ensures itemList == if added then old(itemList)[obj.id := |old(rows)|] else old(itemList)
    {
      var text := "";
      var i := 0;
      while i < depth
        invariant 0 <= i && (i == 0 || i <= depth)
        invariant text == Indent(i)
      {
        text := text + "   ";
        i := i + 1;
      }
      assert text == Indent(depth);
      text := text + obj.displayName;
      if obj.id in pendingObjects {
        text := text + " *";
      }
      assert Row(text, obj.id) == RowFor(Pending(), obj, depth);
      rows := rows + [Row(text, obj.id)];
      added := obj.id !in itemList;
      if added {
        itemList := itemList[obj.id := |rows| - 1];
      }
    }

    /**
     * `RefreshSystemList`: clears the rows and `m_itemList` and, when there
     * is a star system, lists each visited object followed by its pending
     * uncommitted children. No id is listed twice, so no `Add` throws.
     */
    method RefreshSystemList(system: Option<StarSystem>)
      requires Valid()
      requires system.Some? ==> system.value.WellFormed()
      modifies this`rows, this`itemList
      ensures rows == ListRows(system, Pending())
      ensures IndexesRows()
      ensures system.None? ==> rows == []
    {
      rows, itemList := [], map[];
      if system.None? {
        return;
      }
      var sys := system.value;
      var ov := Pending();
      var i := 0;
      while i < |sys.traversal|
        invariant 0 <= i <= |sys.traversal|
        invariant ov == Pending() && ov.Valid() && sys.WellFormed()
        invariant rows == TraversalRows(sys, ov, i)
        invariant IndexesRows()
      {
        var id := sys.traversal[i];
        var depth := sys.GetDepth(id);
        OwnRowIsNew(sys, ov, i);
        IndexSnoc(rows, itemList, RowFor(ov, Shown(sys, ov, id), depth));
        var ok := AddObjectToList(Shown(sys, ov, id), depth);
        assert ok;
        ghost var head := rows;
        assert head == TraversalRows(sys, ov, i) + [RowFor(ov, Shown(sys, ov, id), depth)];
        NoChildListedYet(sys, ov, i);
        AddPendingChildren(sys, id, depth + 1);
        assert TraversalRows(sys, ov, i + 1) == head + PendingChildRows(sys, ov, |ov.order|, id, depth + 1);
        i := i + 1;
      }
    }

    /**
     * The inner loop of `RefreshSystemList`: appends a row at `depth` for
     * each pending object, in pending order, that is not committed and
     * whose parent is `parentId`; none of them may have a row already.
     */
    method AddPendingChildren(sys: StarSystem, parentId: Guid, depth: int)
      requires Valid() && IndexesRows()
      requires forall k :: 0 <= k < |rows| ==> !IsPendingChildOf(sys, Pending(), rows[k].id, parentId)
      modifies this`rows, this`itemList
      ensures rows == old(rows) + PendingChildRows(sys, Pending(), |pendingOrder|, parentId, depth)
      ensures IndexesRows()
    {
      var ov := Pending();
      ghost var head := rows;
      var j := 0;
      while j < |ov.order|
        invariant 0 <= j <= |ov.order|
        invariant ov == Pending()
        invariant rows == head + PendingChildRows(sys, ov, j, parentId, depth)
        invariant IndexesRows()
      {
        var pid := ov.order[j];
        ghost var children := PendingChildRows(sys, ov, j, parentId, depth);
        if !sys.Contains(pid) && ov.objects[pid].parentId == parentId {
          var row := RowFor(ov, ov.objects[pid], depth);
          assert pid !in RowIds(rows) by {
            PendingChildRowsFacts(sys, ov, j, parentId, depth);
            NotInPrefix(ov.order, j);
            RowIdsConcat(head, children);
          }
          assert ov.objects[pid].id == pid;
          IndexSnoc(rows, itemList, row);
          var added := AddObjectToList(ov.objects[pid], depth);
          assert added;
          assert PendingChildRows(sys, ov, j + 1, parentId, depth) == children + [row];
          assert rows == head + (children + [row]);
        } else {
          assert PendingChildRows(sys, ov, j + 1, parentId, depth) == children;
        }
        j := j + 1;
      }
    }

    /**
     * `OnObjectEdited`: renames the object after the name box, records it
     * in the overlay, and returns the label written into the selected row.
     */
    method OnObjectEdited(sys: StarSystem, obj: SystemObject, nameText: string, providers: map<string, ProviderView<D>>)
      returns (caption: string)
      requires Valid() && WellTyped(obj)
      modifies this`pendingObjects, this`pendingOrder, this`pendingAsteroidData
      ensures var edited := obj.(displayName := nameText);
        && caption == EditedLabel(sys, edited)
        && Pending() == RecordEdit(old(Pending()), edited, providers)
      ensures Valid()
      ensures pendingObjects.Keys == old(pendingObjects.Keys) + {obj.id}
    {
      var edited := obj.(displayName := nameText);
      var depth := sys.GetDepth(edited.id);
      if depth < 0 {
        depth := sys.GetDepth(edited.parentId) + 1;
      }
      caption := edited.displayName;
      if depth > 0 {
        caption := Indent(depth) + caption;
      }
      caption := caption + " *";
      RecordEditValid(Pending(), edited, providers);
      if edited.id !in pendingObjects {
        pendingObjects := pendingObjects[edited.id := edited];
        pendingOrder := pendingOrder + [edited.id];
        if edited.kind == Asteroids && edited.details.asteroidTypeName in providers {
          var provider := providers[edited.details.asteroidTypeName];
          pendingAsteroidData := pendingAsteroidData[edited.id := provider.instanceData(edited.id)];
        }
      } else {
        pendingObjects := pendingObjects[edited.id := edited];
      }
    }

    /**
     * `OnTypeEntered` (and, for ASTEROIDS, the provider dialog's confirm
     * handler): creates the new object under the selected id, puts it and
     * any default asteroid data into the overlay, selects it and refreshes
     * the list. An unknown provider name throws before anything changes.
     */
    method OnTypeEntered(sys: StarSystem, kind: ObjectType, asteroidTypeName: string,
                         providers: map<string, ProviderView<D>>, newId: Guid)
      returns (r: Result<(), DesignerError>)
      requires Valid() && sys.WellFormed()
      requires newId != EmptyGuid && !sys.Contains(newId) && newId !in pendingObjects
      modifies this
      ensures kind == Asteroids && asteroidTypeName !in providers ==>
        r == Err(UnknownProvider(asteroidTypeName)) && unchanged(this)
      ensures !(kind == Asteroids && asteroidTypeName !in providers) ==>
        var obj := NewObject(sys, old(Pending()), old(selectedId), kind, asteroidTypeName, newId);
        && r == Ok(())
        && Pending() == AddNew(old(Pending()), obj,
                               if kind == Asteroids then Some(providers[asteroidTypeName].defaultData) else None)
        && selectedId == newId
        && rows == ListRows(Some(sys), Pending())
        && IndexesRows()
      ensures Valid()
    {
      if kind == Asteroids && asteroidTypeName !in providers {
        return Err(UnknownProvider(asteroidTypeName));
      }
      var obj := NewObject(sys, Pending(), selectedId, kind, asteroidTypeName, newId);
      var data: Option<D> := if kind == Asteroids then Some(providers[asteroidTypeName].defaultData) else None;
      AddNewValid(Pending(), obj, data);
      pendingObjects := pendingObjects[newId := obj];
      pendingOrder := pendingOrder + [newId];
      if data.Some? {
        pendingAsteroidData := pendingAsteroidData[newId := data.value];
      }
      selectedId := newId;
      RefreshSystemList(Some(sys));
      r := Ok(());
    }
  }
}
