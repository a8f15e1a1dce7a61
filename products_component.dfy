/** The product catalog editor: the three pieces of component state and the
    handlers that replace them. Each remote call (`fetchProducts`,
    `addProduct`, `updateProduct`, `deleteProduct`) is an outcome the caller
    passes in; each handler runs to completion. */
module Editor {
  import opened Catalog
  import opened Drafts

  /** The session token, `user?.token`: absent when no user is logged in. */
  type Token = Option<string>

  /** One `updateProduct(row.id, row, token)` call made by the flush. */
  datatype UpdateCall = UpdateCall(id: Id, row: Product, token: Token)

  /** The one `addProduct(newProduct, token)` call an add makes, if any. */
  datatype AddCall = AddCall(draft: Draft, token: Token)

  /** Which notice the add handler shows. */
  datatype AddOutcome = MissingFields | Added | AddFailed

  class ProductsComponent {
    /** The products shown in the grid. */
    var database: seq<Product>
    /** Edited rows not yet sent, at most one per id. */
    var updatedRows: seq<Product>
    /** The add form's draft. */
    var newProduct: Draft

    ghost predicate Valid()
      reads this
    {
      NoDupIds(updatedRows)
    }

    /** The initial state: no products, no edits, an empty draft. */
    constructor ()
      ensures Valid()
      ensures database == [] && updatedRows == [] && newProduct == EmptyDraft()
    {
      database := [];
      updatedRows := [];
      newProduct := EmptyDraft();
    }

    /** The load effect: a successful fetch replaces the product list
        wholesale; a failed one is only logged. */
    method FetchData(fetched: Result<seq<Product>>) returns (ok: bool)
      requires Valid()
      modifies this`database
      ensures Valid()
      ensures ok == fetched.Ok?
      ensures database == if fetched.Ok? then fetched.value else old(database)
    {
      match fetched
      case Ok(products) =>
        database := products;
        ok := true;
      case Err(_) =>
        ok := false;
    }

    /** A cell edit records the whole edited row in the dirty list: it replaces
        the entry with the same id, or is appended when there is none. */
    method HandleCellEdited(updatedRow: Product)
      requires Valid()
      modifies this`updatedRows
      ensures Valid()
      ensures updatedRows == Upsert(old(updatedRows), updatedRow)
      ensures Lookup(updatedRows, updatedRow.id) == Some(updatedRow)
      ensures forall id :: id != updatedRow.id ==> Lookup(updatedRows, id) == Lookup(old(updatedRows), id)
    {
      UpsertKeepsIdsUnique(updatedRows, updatedRow);
      UpsertLookup(updatedRows, updatedRow, updatedRow.id);
      forall id | id != updatedRow.id
        ensures Lookup(Upsert(updatedRows, updatedRow), id) == Lookup(updatedRows, id)
      {
        UpsertLookup(updatedRows, updatedRow, id);
      }
      updatedRows := Upsert(updatedRows, updatedRow);
    }

    /** The "update products" flush. `accepted[k]` is whether the k-th update
        call succeeds. Rows are sent in list order, one call each, and the
        first failure stops the loop; nothing is rolled back and no state of
        the component changes, the dirty list included. `ok` is whether the
        success notice is shown; `calls` are the update calls made. */
    method HandleUpdateProducts(token: Token, accepted: seq<bool>) returns (ok: bool, calls: seq<UpdateCall>)
      requires |accepted| == |updatedRows|
      ensures ok <==> CommittedPrefix(accepted) == |updatedRows|
      ensures |calls| == if ok then |updatedRows| else CommittedPrefix(accepted) + 1
      ensures forall k :: 0 <= k < |calls| ==>
                calls[k] == UpdateCall(updatedRows[k].id, updatedRows[k], token)
    {
      calls := [];
      var i := 0;
      while i < |updatedRows|
        invariant i <= CommittedPrefix(accepted)
        invariant |calls| == i
        invariant forall k :: 0 <= k < i ==>
                    calls[k] == UpdateCall(updatedRows[k].id, updatedRows[k], token)
      {
        var row := updatedRows[i];
        calls := calls + [UpdateCall(row.id, row, token)];
        if !accepted[i] {
          return false, calls;
        }
        i := i + 1;
      }
      ok := true;
    }

    /** The add handler. An incomplete draft is refused locally: no call, no
        change. Otherwise the draft is sent; on success the returned product
        is appended and the draft reset, on failure nothing changes. */
    method HandleAddProduct(token: Token, response: Result<Product>) returns (call: Option<AddCall>, outcome: AddOutcome)
      requires Valid()
      modifies this`database, this`newProduct
      ensures Valid()
      ensures call == if Complete(old(newProduct)) then Some(AddCall(old(newProduct), token)) else None
      ensures outcome == if !Complete(old(newProduct)) then MissingFields
                         else if response.Ok? then Added else AddFailed
      ensures outcome == Added ==>
                database == old(database) + [response.value] && newProduct == EmptyDraft()
      ensures outcome != Added ==>
                database == old(database) && newProduct == old(newProduct)
      ensures outcome == Added && NoDupIds(old(database)) && !HasId(old(database), response.value.id) ==>
                NoDupIds(database)
    {
      if !Complete(newProduct) {
        return None, MissingFields;
      }
      call := Some(AddCall(newProduct, token));
      match response
      case Ok(addedProduct) =>
        if NoDupIds(database) && !HasId(database, addedProduct.id) {
          AppendFreshKeepsIdsUnique(database, addedProduct);
        }
        database := database + [addedProduct];
        newProduct := EmptyDraft();
        outcome := Added;
      case Err(_) =>
        outcome := AddFailed;
    }

    /** The delete handler: after the server acknowledges, every product with
        the id is filtered out; a failed call, a missing id included, leaves
        the list as it was. */
    method HandleDeleteProduct(id: Id, token: Token, ack: Result<()>) returns (ok: bool)
      requires Valid()
      modifies this`database
      ensures Valid()
      ensures ok == ack.Ok?
      ensures database == if ok then RemoveById(old(database), id) else old(database)
      ensures ok ==> !HasId(database, id)
      ensures NoDupIds(old(database)) ==> NoDupIds(database)
    {
      ok := ack.Ok?;
      if ok {
        if NoDupIds(database) {
          RemoveByIdKeepsIdsUnique(database, id);
        }
        database := RemoveById(database, id);
      }
    }

    /** One form input's `onChange`: only the edited draft field changes. */
    method HandleNewProductInput(f: Field, value: string)
      requires Valid()
      modifies this`newProduct
      ensures Valid()
      ensures newProduct == WithField(old(newProduct), f, value)
      ensures FieldOf(newProduct, f) == value
      ensures forall g :: g != f ==> FieldOf(newProduct, g) == FieldOf(old(newProduct), g)
    {
      newProduct := WithField(newProduct, f, value);
    }
  }

  /** Two edits of different ids, from the initial empty list, give both rows
      in edit order. */
  lemma TwoEditsAppend(p: Product, q: Product)
    requires p.id != q.id
    ensures Upsert(Upsert([], p), q) == [p, q]
  {
    assert Upsert([], p) == [p];
    assert !HasId([p], q.id);
  }

  /** A client of the contracts above: a row that is edited and then deleted
      stays in the dirty list, so the next flush sends it again, and when that
      call fails the rows edited after it are not sent. */
  method EditThenDeleteThenFlush(p: Product, q: Product, token: Token)
    requires p.id != q.id
  {
    var c := new ProductsComponent();
    c.HandleCellEdited(p);
    c.HandleCellEdited(q);
    var ok := c.HandleDeleteProduct(p.id, token, Ok(()));
    TwoEditsAppend(p, q);
    assert c.updatedRows == [p, q];
    assert CommittedPrefix([false, true]) == 0;
    var calls;
    ok, calls := c.HandleUpdateProducts(token, [false, true]);
    assert !ok && |calls| == 1 && calls[0] == UpdateCall(p.id, p, token);
  }
}
