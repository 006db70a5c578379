/**
 * Product-tag association bookkeeping of the `/api/products` routes.
 *
 * Creating a product turns the requested tag ids into join-table rows.
 * Updating a product diffs the stored join-table rows against the requested
 * tag ids: the rows whose tag is no longer requested are destroyed, and a
 * row is created for every requested tag not yet present. Both are modelled
 * as pure functions; the store calls that consume their results are not.
 */
module ProductRoutes {

  datatype Option<T> = None | Some(value: T)

  /** A product-tag row already stored for the product being updated. */
  datatype ProductTagRow = ProductTagRow(id: int, tagId: int)

  /** A `{product_id, tag_id}` object handed to the store's bulk create. */
  datatype NewProductTag = NewProductTag(productId: int, tagId: int)

  /** The two store operations an update issues: rows to create, row ids to destroy. */
  datatype Plan = Plan(toInsert: seq<NewProductTag>, toRemove: seq<int>)

  /** What the create handler does with the request's `tagIds`. */
  datatype CreateOutcome =
    | ProductOnly                                // empty list: only the product is returned
    | ProductWithTags(pairs: seq<NewProductTag>)  // non-empty list: these rows are bulk-created
    | MissingTagIds                              // no list: reading `.length` throws, answered with 400

  /** The store's primary key: no two stored rows share an id. */
  predicate DistinctIds(rows: seq<ProductTagRow>) {
    forall i, j :: 0 <= i < |rows| && 0 <= j < |rows| && i != j ==> rows[i].id != rows[j].id
  }

  /** No value occurs more than once in `s`. */
  ghost predicate AtMostOnce(s: seq<int>) {
    forall t :: multiset(s)[t] <= 1
  }

  // ---------------------------------------------------------------------------
  // The building blocks: the `map`, `filter` and `includes` chains.
  // ---------------------------------------------------------------------------

  /** The tag ids of the stored rows, in row order. */
  function TagIdsOf(rows: seq<ProductTagRow>): (ids: seq<int>)
    ensures |ids| == |rows|
    ensures forall i :: 0 <= i < |rows| ==> ids[i] == rows[i].tagId
  {
    if rows == [] then [] else [rows[0].tagId] + TagIdsOf(rows[1..])
  }

  /**
   * The ids of the stored rows, in row order: what the update destroys when
   * no stored tag is requested (see `EmptyRequest`).
   */
  function IdsOf(rows: seq<ProductTagRow>): (ids: seq<int>)
    ensures |ids| == |rows|
    ensures forall i :: 0 <= i < |rows| ==> ids[i] == rows[i].id
  {
    if rows == [] then [] else [rows[0].id] + IdsOf(rows[1..])
  }

  /** One join-table row for `productId` per tag id, in order. */
  function PairsFor(productId: int, tagIds: seq<int>): (pairs: seq<NewProductTag>)
    ensures |pairs| == |tagIds|
    ensures forall i :: 0 <= i < |tagIds| ==> pairs[i] == NewProductTag(productId, tagIds[i])
  {
    if tagIds == [] then [] else [NewProductTag(productId, tagIds[0])] + PairsFor(productId, tagIds[1..])
  }

  /** The tag ids of the objects handed to the bulk create, in order. */
  function PairTags(pairs: seq<NewProductTag>): (tags: seq<int>)
    ensures |tags| == |pairs|
    ensures forall i :: 0 <= i < |pairs| ==> tags[i] == pairs[i].tagId
  {
    if pairs == [] then [] else [pairs[0].tagId] + PairTags(pairs[1..])
  }

  /**
   * The requested tag ids that are not among the current ones, in request
   * order; a tag requested twice is kept twice.
   */
  function NewTagIds(requested: seq<int>, current: seq<int>): (r: seq<int>)
    ensures forall t :: t in r <==> t in requested && t !in current
  {
    if requested == [] then []
    else if requested[0] in current then NewTagIds(requested[1..], current)
    else [requested[0]] + NewTagIds(requested[1..], current)
  }

  /** The ids of the stored rows whose tag is no longer requested, in row order. */
  function RemovedIds(rows: seq<ProductTagRow>, requested: seq<int>): (r: seq<int>)
    ensures |r| <= |rows|
    ensures forall x :: x in r <==>
      exists i :: 0 <= i < |rows| && rows[i].id == x && rows[i].tagId !in requested
  {
    if rows == [] then []
    else
      var rest := RemovedIds(rows[1..], requested);
      assert forall x :: x in rest <==>
        exists i :: 1 <= i < |rows| && rows[i].id == x && rows[i].tagId !in requested
      by {
        forall x | x in rest
          ensures exists i :: 1 <= i < |rows| && rows[i].id == x && rows[i].tagId !in requested
        {
          var k :| 0 <= k < |rows[1..]| && rows[1..][k].id == x && rows[1..][k].tagId !in requested;
          assert rows[k + 1] == rows[1..][k];
        }
        forall x, i | 1 <= i < |rows| && rows[i].id == x && rows[i].tagId !in requested
          ensures x in rest
        {
          assert rows[1..][i - 1] == rows[i];
        }
      }
      if rows[0].tagId in requested then rest else [rows[0].id] + rest
  }

  // ---------------------------------------------------------------------------
  // The two handlers' computations.
  // ---------------------------------------------------------------------------

  /**
   * The update's diff: rows to create for `productId`, and ids of stored rows
   * to destroy. The two never touch the same tag.
   */
  function Reconcile(productId: int, rows: seq<ProductTagRow>, requested: seq<int>): (plan: Plan)
    ensures forall p :: p in plan.toInsert ==>
      p.productId == productId && p.tagId in requested && p.tagId !in TagIdsOf(rows)
    ensures forall i :: 0 <= i < |rows| && rows[i].tagId !in requested ==> rows[i].id in plan.toRemove
    ensures forall i :: 0 <= i < |rows| && rows[i].tagId in requested && DistinctIds(rows) ==>
      rows[i].id !in plan.toRemove
    ensures forall p, i :: p in plan.toInsert && 0 <= i < |rows| && rows[i].id in plan.toRemove ==>
      p.tagId != rows[i].tagId
    ensures forall t :: t in requested && t !in TagIdsOf(rows) ==> NewProductTag(productId, t) in plan.toInsert
    ensures forall x :: x in plan.toRemove ==>
      exists i :: 0 <= i < |rows| && rows[i].id == x && rows[i].tagId !in requested
  {
    var current := TagIdsOf(rows);
    var plan := Plan(PairsFor(productId, NewTagIds(requested, current)), RemovedIds(rows, requested));
    assert forall i :: 0 <= i < |rows| ==> rows[i].tagId in current by {
      forall i | 0 <= i < |rows| ensures rows[i].tagId in current { assert current[i] == rows[i].tagId; }
    }
    assert forall p :: p in plan.toInsert ==> p.productId == productId && p.tagId !in current by {
      forall p | p in plan.toInsert ensures p.productId == productId && p.tagId !in current {
        var k :| 0 <= k < |plan.toInsert| && plan.toInsert[k] == p;
      }
    }
    plan
  }

  /**
   * The update handler: the diff, or None when the body carries no `tagIds`
   * (calling `.filter` on it throws and the handler answers 400).
   */
  function UpdateTags(productId: int, rows: seq<ProductTagRow>, tagIds: Option<seq<int>>): (r: Option<Plan>)
    ensures r.None? <==> tagIds.None?
    ensures r.Some? ==> r.value == Reconcile(productId, rows, tagIds.value)
  {
    match tagIds
    case None => None
    case Some(requested) => Some(Reconcile(productId, rows, requested))
  }

  /** The create handler's use of `tagIds` for the freshly created product `productId`. */
  function CreateAssociations(productId: int, tagIds: Option<seq<int>>): (out: CreateOutcome)
    ensures out.MissingTagIds? <==> tagIds.None?
    ensures out.ProductOnly? <==> tagIds == Some([])
    ensures out.ProductWithTags? ==>
      |out.pairs| == |tagIds.value| > 0 &&
      forall i :: 0 <= i < |out.pairs| ==> out.pairs[i] == NewProductTag(productId, tagIds.value[i])
  {
    match tagIds
    case None => MissingTagIds
    case Some(ids) => if |ids| == 0 then ProductOnly else ProductWithTags(PairsFor(productId, ids))
  }

  // ---------------------------------------------------------------------------
  // The store after both operations succeed.
  // ---------------------------------------------------------------------------

  /** The rows left after destroying every row whose id is listed. */
  function Kept(rows: seq<ProductTagRow>, ids: seq<int>): (r: seq<ProductTagRow>)
    ensures forall row :: row in r <==> row in rows && row.id !in ids
  {
    if rows == [] then []
    else
      assert rows == [rows[0]] + rows[1..];
      if rows[0].id in ids then Kept(rows[1..], ids) else [rows[0]] + Kept(rows[1..], ids)
  }

  /**
   * The rows the bulk create stores, each with the id the store assigns to it.
   * The row's product id is not kept: `Reconcile` proves that every pair it
   * inserts carries the product being updated.
   */
  function Created(pairs: seq<NewProductTag>, newIds: seq<int>): (r: seq<ProductTagRow>)
    requires |newIds| == |pairs|
    ensures |r| == |pairs|
    ensures forall i :: 0 <= i < |r| ==> r[i].id == newIds[i]
    ensures TagIdsOf(r) == PairTags(pairs)
  {
    if pairs == [] then [] else [ProductTagRow(newIds[0], pairs[0].tagId)] + Created(pairs[1..], newIds[1..])
  }

  /** The product's rows once the destroy and the bulk create of `plan` have both run. */
  function Applied(rows: seq<ProductTagRow>, plan: Plan, newIds: seq<int>): (r: seq<ProductTagRow>)
    requires |newIds| == |plan.toInsert|
    ensures forall row :: row in r <==>
      (row in rows && row.id !in plan.toRemove) || row in Created(plan.toInsert, newIds)
    ensures TagIdsOf(r) == TagIdsOf(Kept(rows, plan.toRemove)) + PairTags(plan.toInsert)
  {
    var kept, created := Kept(rows, plan.toRemove), Created(plan.toInsert, newIds);
    TagIdsOfAppend(kept, created);
    kept + created
  }

  /** The tag ids of two row lists one after the other. */
  lemma {:induction false} TagIdsOfAppend(a: seq<ProductTagRow>, b: seq<ProductTagRow>)
    ensures TagIdsOf(a + b) == TagIdsOf(a) + TagIdsOf(b)
  {
    if a == [] {
      assert a + b == b;
    } else {
      assert (a + b)[0] == a[0];
      assert (a + b)[1..] == a[1..] + b;
      TagIdsOfAppend(a[1..], b);
    }
  }

  /** The stored rows whose tag is requested, in row order. */
  function RowsTaggedIn(rows: seq<ProductTagRow>, requested: seq<int>): (r: seq<ProductTagRow>)
    ensures forall t :: multiset(TagIdsOf(r))[t] == if t in requested then multiset(TagIdsOf(rows))[t] else 0
  {
    if rows == [] then []
    else
      assert TagIdsOf(rows) == [rows[0].tagId] + TagIdsOf(rows[1..]);
      if rows[0].tagId in requested then
        assert TagIdsOf([rows[0]] + RowsTaggedIn(rows[1..], requested))
            == [rows[0].tagId] + TagIdsOf(RowsTaggedIn(rows[1..], requested));
        [rows[0]] + RowsTaggedIn(rows[1..], requested)
      else RowsTaggedIn(rows[1..], requested)
  }

  // ---------------------------------------------------------------------------
  // Lemmas.
  // ---------------------------------------------------------------------------

  /** The insert list is the request filtered piecewise: it keeps request order. */
  lemma {:induction false} NewTagIdsAppend(a: seq<int>, b: seq<int>, current: seq<int>)
    ensures NewTagIds(a + b, current) == NewTagIds(a, current) + NewTagIds(b, current)
  {
    if a == [] {
      assert a + b == b;
    } else {
      assert (a + b)[0] == a[0];
      assert (a + b)[1..] == a[1..] + b;
      NewTagIdsAppend(a[1..], b, current);
      var tail := NewTagIds(a[1..], current) + NewTagIds(b, current);
      if a[0] in current {
        assert NewTagIds(a + b, current) == NewTagIds(a[1..] + b, current);
      } else {
        assert NewTagIds(a + b, current) == [a[0]] + NewTagIds(a[1..] + b, current);
        assert [a[0]] + tail == ([a[0]] + NewTagIds(a[1..], current)) + NewTagIds(b, current);
      }
    }
  }

  /** A new tag occurs in the insert list exactly as often as it was requested; a stored tag never. */
  lemma {:induction false} NewTagIdsCounts(requested: seq<int>, current: seq<int>)
    ensures forall t ::
      multiset(NewTagIds(requested, current))[t] == if t in current then 0 else multiset(requested)[t]
  {
    if requested != [] {
      assert requested == [requested[0]] + requested[1..];
      NewTagIdsCounts(requested[1..], current);
    }
  }

  /** The remove list is the rows filtered piecewise: it keeps row order. */
  lemma {:induction false} RemovedIdsAppend(a: seq<ProductTagRow>, b: seq<ProductTagRow>, requested: seq<int>)
    ensures RemovedIds(a + b, requested) == RemovedIds(a, requested) + RemovedIds(b, requested)
  {
    if a == [] {
      assert a + b == b;
    } else {
      assert (a + b)[0] == a[0];
      assert (a + b)[1..] == a[1..] + b;
      RemovedIdsAppend(a[1..], b, requested);
      var tail := RemovedIds(a[1..], requested) + RemovedIds(b, requested);
      if a[0].tagId in requested {
        assert RemovedIds(a + b, requested) == RemovedIds(a[1..] + b, requested);
        assert RemovedIds(a, requested) == RemovedIds(a[1..], requested);
      } else {
        assert RemovedIds(a + b, requested) == [a[0].id] + RemovedIds(a[1..] + b, requested);
        assert RemovedIds(a, requested) == [a[0].id] + RemovedIds(a[1..], requested);
        assert [a[0].id] + tail == ([a[0].id] + RemovedIds(a[1..], requested)) + RemovedIds(b, requested);
      }
    }
  }

  /** Destroying exactly the rows whose tag is unrequested leaves the requested-tag rows. */
  lemma {:induction false} KeptIsRowsTaggedIn(rows: seq<ProductTagRow>, requested: seq<int>, ids: seq<int>)
    requires forall i :: 0 <= i < |rows| ==> (rows[i].id in ids <==> rows[i].tagId !in requested)
    ensures Kept(rows, ids) == RowsTaggedIn(rows, requested)
  {
    if rows != [] {
      assert rows[0].id in ids <==> rows[0].tagId !in requested;
      forall i | 0 <= i < |rows[1..]|
        ensures rows[1..][i].id in ids <==> rows[1..][i].tagId !in requested
      {
        assert rows[1..][i] == rows[i + 1];
      }
      KeptIsRowsTaggedIn(rows[1..], requested, ids);
    }
  }

  /**
   * How often each tag id occurs among the product's rows after the update:
   * an unrequested tag never; a requested tag already stored as often as it
   * was stored; a requested new tag as often as it was requested.
   */
  lemma ReconciledTagCounts(productId: int, rows: seq<ProductTagRow>, requested: seq<int>, newIds: seq<int>)
    requires DistinctIds(rows)
    requires |newIds| == |Reconcile(productId, rows, requested).toInsert|
    ensures forall t ::
      multiset(TagIdsOf(Applied(rows, Reconcile(productId, rows, requested), newIds)))[t] ==
      if t !in requested then 0
      else if t in TagIdsOf(rows) then multiset(TagIdsOf(rows))[t]
      else multiset(requested)[t]
  {
    var plan := Reconcile(productId, rows, requested);
    var current := TagIdsOf(rows);
    var added := NewTagIds(requested, current);
    NewTagIdsCounts(requested, current);
    forall i | 0 <= i < |rows| ensures rows[i].id in plan.toRemove <==> rows[i].tagId !in requested {
      if rows[i].id in plan.toRemove {
        var j :| 0 <= j < |rows| && rows[j].id == rows[i].id && rows[j].tagId !in requested;
        assert j == i;
      }
    }
    KeptIsRowsTaggedIn(rows, requested, plan.toRemove);
    assert PairTags(plan.toInsert) == added;
    var kept := TagIdsOf(RowsTaggedIn(rows, requested));
    assert TagIdsOf(Applied(rows, plan, newIds)) == kept + added;
    forall t ensures t in current ==> multiset(current)[t] > 0 {
    }
  }

  /** After the update the product's tag ids are exactly the requested ones, as a set. */
  lemma ReconciledTagSet(productId: int, rows: seq<ProductTagRow>, requested: seq<int>, newIds: seq<int>)
    requires DistinctIds(rows)
    requires |newIds| == |Reconcile(productId, rows, requested).toInsert|
    ensures forall t :: t in TagIdsOf(Applied(rows, Reconcile(productId, rows, requested), newIds)) <==> t in requested
  {
    ReconciledTagCounts(productId, rows, requested, newIds);
    var after := TagIdsOf(Applied(rows, Reconcile(productId, rows, requested), newIds));
    forall t ensures t in after <==> t in requested {
      assert t in after <==> multiset(after)[t] > 0;
      assert t in requested <==> multiset(requested)[t] > 0;
      assert t in TagIdsOf(rows) <==> multiset(TagIdsOf(rows))[t] > 0;
    }
  }

  /** The update adds no duplicate row when neither the stored rows nor the request hold one. */
  lemma NoDuplicatesIntroduced(productId: int, rows: seq<ProductTagRow>, requested: seq<int>, newIds: seq<int>)
    requires DistinctIds(rows)
    requires AtMostOnce(TagIdsOf(rows)) && AtMostOnce(requested)
    requires |newIds| == |Reconcile(productId, rows, requested).toInsert|
    ensures AtMostOnce(TagIdsOf(Applied(rows, Reconcile(productId, rows, requested), newIds)))
  {
    ReconciledTagCounts(productId, rows, requested, newIds);
  }

  /** A tag requested twice that is not yet stored is inserted twice. */
  lemma RepeatedNewTagInsertedTwice(productId: int)
    ensures Reconcile(productId, [], [5, 5]).toInsert == [NewProductTag(productId, 5), NewProductTag(productId, 5)]
  {
    assert NewTagIds([5, 5], []) == [5] + NewTagIds([5], []);
  }

  /** Without distinct row ids the set equality fails: destroying by id also drops a kept row. */
  lemma SharedRowIdLosesTag(productId: int)
    ensures var rows := [ProductTagRow(1, 10), ProductTagRow(1, 20)];
      TagIdsOf(Applied(rows, Reconcile(productId, rows, [20]), [])) == []
  {
    var rows := [ProductTagRow(1, 10), ProductTagRow(1, 20)];
    assert TagIdsOf(rows) == [10, 20];
    assert NewTagIds([20], [10, 20]) == [];
    assert RemovedIds(rows, [20]) == [1];
    assert Kept(rows, [1]) == [];
  }

  /** Both lists are empty exactly when the stored tag set already equals the requested set. */
  lemma {:induction false} NoOperationsIffInSync(productId: int, rows: seq<ProductTagRow>, requested: seq<int>)
    ensures Reconcile(productId, rows, requested) == Plan([], []) <==>
      forall t :: t in TagIdsOf(rows) <==> t in requested
  {
    var current := TagIdsOf(rows);
    var plan := Reconcile(productId, rows, requested);
    var added := NewTagIds(requested, current);
    assert |added| > 0 ==> added[0] in added;
    assert |plan.toRemove| > 0 ==> plan.toRemove[0] in plan.toRemove;
    forall t | t in current ensures exists i :: 0 <= i < |rows| && rows[i].tagId == t {
      var i :| 0 <= i < |current| && current[i] == t;
    }
  }

  /** Reconciling again with the same request, after the update ran, issues no operation. */
  lemma ReconcileTwiceIsQuiet(productId: int, rows: seq<ProductTagRow>, requested: seq<int>, newIds: seq<int>)
    requires DistinctIds(rows)
    requires |newIds| == |Reconcile(productId, rows, requested).toInsert|
    ensures Reconcile(productId, Applied(rows, Reconcile(productId, rows, requested), newIds), requested) == Plan([], [])
  {
    ReconciledTagSet(productId, rows, requested, newIds);
    NoOperationsIffInSync(productId, Applied(rows, Reconcile(productId, rows, requested), newIds), requested);
  }

  /** An empty request creates nothing and destroys every stored row. */
  lemma {:induction false} EmptyRequest(productId: int, rows: seq<ProductTagRow>)
    ensures Reconcile(productId, rows, []) == Plan([], IdsOf(rows))
  {
    if rows != [] {
      EmptyRequest(productId, rows[1..]);
    }
  }

  /** A product with no stored rows gets one row per requested tag, in order, and loses none. */
  lemma {:induction false} EmptyCurrent(productId: int, requested: seq<int>)
    ensures Reconcile(productId, [], requested) == Plan(PairsFor(productId, requested), [])
  {
    if requested != [] {
      EmptyCurrent(productId, requested[1..]);
    }
  }

  /** Creating a product with tags stores the rows an update of a tagless product would insert. */
  lemma CreateMatchesUpdateFromNothing(productId: int, tagIds: seq<int>)
    requires tagIds != []
    ensures CreateAssociations(productId, Some(tagIds)) == ProductWithTags(Reconcile(productId, [], tagIds).toInsert)
  {
    EmptyCurrent(productId, tagIds);
  }

  /** Rows `{1: tag 10, 2: tag 20}` against request `[20, 30]`: destroy row 1, create tag 30. */
  lemma ExampleUpdate(productId: int)
    ensures Reconcile(productId, [ProductTagRow(1, 10), ProductTagRow(2, 20)], [20, 30])
      == Plan([NewProductTag(productId, 30)], [1])
  {
    assert TagIdsOf([ProductTagRow(1, 10), ProductTagRow(2, 20)]) == [10, 20];
    assert NewTagIds([20, 30], [10, 20]) == [30];
  }
}
