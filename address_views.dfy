/** The address endpoints. Every one of them works on the caller's own
    addresses only (the queryset is filtered by the requesting user): list,
    retrieve, create, update, destroy and set-default. An address outside the
    caller's queryset is not found, and nothing changes. */
module AddressViews {
  import opened Wrappers
  import opened Models
  import opened AddressTable

  datatype ViewError = NotFound

  /** `Address.objects.filter(user=caller)`, in table order. */
  function OwnedBy(rows: seq<Address>, caller: UserId): seq<Address> {
    if rows == [] then []
    else (if rows[0].owner == caller then [rows[0]] else []) + OwnedBy(rows[1..], caller)
  }

  /** The caller's queryset holds an address with key `id`. */
  ghost predicate Owns(rows: seq<Address>, caller: UserId, id: AddressId) {
    exists k :: 0 <= k < |rows| && rows[k].id == id && rows[k].owner == caller
  }

  /** The filtered view holds exactly the caller's addresses. */
  lemma {:induction false} OwnedByMembership(rows: seq<Address>, caller: UserId)
    ensures forall x :: x in OwnedBy(rows, caller) <==> x in rows && x.owner == caller
  {
    if rows != [] {
      OwnedByMembership(rows[1..], caller);
      assert rows == [rows[0]] + rows[1..];
    }
  }

  lemma {:induction false} OwnedByAppend(s: seq<Address>, t: seq<Address>, caller: UserId)
    ensures OwnedBy(s + t, caller) == OwnedBy(s, caller) + OwnedBy(t, caller)
  {
    if s != [] {
      assert (s + t)[1..] == s[1..] + t;
      OwnedByAppend(s[1..], t, caller);
    } else {
      assert s + t == t;
    }
  }

  /** Two tables that agree on every row either of them gives `caller` show
      `caller` the same addresses. */
  lemma {:induction false} OwnedByAgree(s: seq<Address>, t: seq<Address>, caller: UserId)
    requires |s| == |t|
    requires forall k :: 0 <= k < |s| && (s[k].owner == caller || t[k].owner == caller) ==> s[k] == t[k]
    ensures OwnedBy(s, caller) == OwnedBy(t, caller)
  {
    if s != [] {
      OwnedByAgree(s[1..], t[1..], caller);
    }
  }

  /** Saving one user's address changes no other user's view of the table. */
  lemma SaveKeepsOtherUsersView(rows: seq<Address>, a: Address, other: UserId)
    requires other != a.owner
    requires forall k :: 0 <= k < |rows| && rows[k].id == a.id ==> rows[k].owner == a.owner
    ensures OwnedBy(Saved(rows, a), other) == OwnedBy(rows, other)
  {
    SavedPointwise(rows, a);
    var s := Saved(rows, a);
    var prefix := s[..|rows|];
    assert forall k :: 0 <= k < |rows| && (prefix[k].owner == other || rows[k].owner == other) ==>
      prefix[k] == rows[k];
    OwnedByAgree(prefix, rows, other);
    if !HasId(rows, a.id) {
      assert s == prefix + [a];
      OwnedByAppend(prefix, [a], other);
      assert OwnedBy([a], other) == [];
    } else {
      assert s == prefix;
    }
  }

  // ---------------------------------------------------------------- list and retrieve

  /** `AddressListView.get`: the caller's addresses and no one else's. */
  function ListAddresses(table: Addresses, caller: UserId): (r: seq<Address>)
    reads table
    ensures forall x :: x in r <==> x in table.rows && x.owner == caller
  {
    OwnedByMembership(table.rows, caller);
    OwnedBy(table.rows, caller)
  }

  /** `get_object()` on the caller's queryset: the index of the caller's
      address with key `id`, or -1 when the caller has none. */
  method FindOwned(table: Addresses, caller: UserId, id: AddressId) returns (k: int)
    ensures -1 <= k < |table.rows|
    ensures 0 <= k ==> table.rows[k].id == id && table.rows[k].owner == caller
    ensures k < 0 <==> !Owns(table.rows, caller, id)
  {
    var i := 0;
    while i < |table.rows|
      invariant 0 <= i <= |table.rows|
      invariant forall j :: 0 <= j < i ==> !(table.rows[j].id == id && table.rows[j].owner == caller)
    {
      if table.rows[i].id == id && table.rows[i].owner == caller {
        return i;
      }
      i := i + 1;
    }
    return -1;
  }

  /** `AddressDetailView.get`: the caller's address with key `id`. */
  method RetrieveAddress(table: Addresses, caller: UserId, id: AddressId) returns (r: Result<Address, ViewError>)
    ensures r.Err? <==> !Owns(table.rows, caller, id)
    ensures r.Ok? ==> r.value in table.rows && r.value.id == id && r.value.owner == caller
  {
    var k := FindOwned(table, caller, id);
    if k < 0 {
      return Err(NotFound);
    }
    return Ok(table.rows[k]);
  }

  // ---------------------------------------------------------------- create

  /** `AddressListView.perform_create`: the new address belongs to the
      caller, whatever the request carried. The address serializer does not
      expose `is_active`, so the new row takes that field's default. */
  method CreateAddress(table: Addresses, caller: UserId, input: AddressInput) returns (a: Address)
    requires table.Valid()
    modifies table
    ensures table.Valid()
    ensures a.owner == caller && a.isActive && a in table.rows
    ensures a == NewAddress(old(table.nextId), caller, input.(isActive := None))
    ensures table.rows == Saved(old(table.rows), a)
    ensures forall other :: other != caller ==> OwnedBy(table.rows, other) == OwnedBy(old(table.rows), other)
  {
    a := table.Create(caller, input.(isActive := None));
    SavedPointwise(old(table.rows), a);
    assert table.rows[|old(table.rows)|] == a;
    forall other | other != caller
      ensures OwnedBy(table.rows, other) == OwnedBy(old(table.rows), other)
    {
      SaveKeepsOtherUsersView(old(table.rows), a, other);
    }
  }

  // ---------------------------------------------------------------- update

  /** The fields the address serializer lets a client change; `None` keeps
      the stored value (a partial update). */
  datatype AddressChanges = AddressChanges(
    kind: Option<AddressType>,
    streetAddress: Option<string>,
    apartment: Option<string>,
    city: Option<string>,
    state: Option<string>,
    postalCode: Option<int>,
    country: Option<string>,
    isDefault: Option<bool>,
    deliveryInstructions: Option<string>)

  /** The serializer's update of one row: key, owner and `is_active` are not
      writable through it. */
  function ApplyChanges(a: Address, c: AddressChanges): (b: Address)
    ensures b.id == a.id && b.owner == a.owner && b.isActive == a.isActive
    ensures b.isDefault == c.isDefault.GetOr(a.isDefault)
  {
    a.(kind := c.kind.GetOr(a.kind),
       streetAddress := c.streetAddress.GetOr(a.streetAddress),
       apartment := c.apartment.GetOr(a.apartment),
       city := c.city.GetOr(a.city),
       state := c.state.GetOr(a.state),
       postalCode := c.postalCode.GetOr(a.postalCode),
       country := c.country.GetOr(a.country),
       isDefault := c.isDefault.GetOr(a.isDefault),
       deliveryInstructions := c.deliveryInstructions.GetOr(a.deliveryInstructions))
  }

  /** Saves a changed version of the caller's row `k` and states what every
      owner-scoped write shares: the row keeps its key and owner, the
      invariant holds, and no other user's view changes. */
  method SaveOwnedRow(table: Addresses, caller: UserId, k: nat, b: Address)
    requires table.Valid() && k < |table.rows| && table.rows[k].owner == caller
    requires b.id == table.rows[k].id && b.owner == caller
    modifies table
    ensures table.Valid() && table.nextId == old(table.nextId)
    ensures table.rows == Saved(old(table.rows), b)
    ensures b in table.rows
    ensures forall other :: other != caller ==> OwnedBy(table.rows, other) == OwnedBy(old(table.rows), other)
  {
    ghost var before := table.rows;
    assert forall j :: 0 <= j < |before| && before[j].id == b.id ==> j == k;
    table.Save(b);
    SavedPointwise(before, b);
    assert table.rows[k] == b;
    forall other | other != caller
      ensures OwnedBy(table.rows, other) == OwnedBy(before, other)
    {
      SaveKeepsOtherUsersView(before, b, other);
    }
  }

  /** `AddressDetailView.update`: applies the changes to the caller's address
      and saves it; any other key is not found and nothing changes. */
  method UpdateAddress(table: Addresses, caller: UserId, id: AddressId, c: AddressChanges)
    returns (r: Result<Address, ViewError>)
    requires table.Valid()
    modifies table
    ensures table.Valid() && table.nextId == old(table.nextId)
    ensures r.Err? <==> !Owns(old(table.rows), caller, id)
    ensures r.Err? ==> table.rows == old(table.rows)
    ensures r.Ok? ==> r.value.id == id && r.value.owner == caller && r.value in table.rows
    ensures r.Ok? ==> exists k :: (0 <= k < |old(table.rows)| && old(table.rows)[k].id == id &&
      r.value == ApplyChanges(old(table.rows)[k], c))
    ensures r.Ok? ==> table.rows == Saved(old(table.rows), r.value)
    ensures forall other :: other != caller ==> OwnedBy(table.rows, other) == OwnedBy(old(table.rows), other)
  {
    var k := FindOwned(table, caller, id);
    if k < 0 {
      return Err(NotFound);
    }
    var b := ApplyChanges(table.rows[k], c);
    SaveOwnedRow(table, caller, k, b);
    r := Ok(b);
  }

  /** `SetDefaultAddressView.update`: marks the caller's address default and
      saves it, which leaves it the caller's only default address; any other
      key is not found and no flag changes. */
  method SetDefault(table: Addresses, caller: UserId, id: AddressId) returns (r: Result<Address, ViewError>)
    requires table.Valid()
    modifies table
    ensures table.Valid() && table.nextId == old(table.nextId)
    ensures r.Err? <==> !Owns(old(table.rows), caller, id)
    ensures r.Err? ==> table.rows == old(table.rows)
    ensures r.Ok? ==> r.value.id == id && r.value.owner == caller && r.value.isDefault
    ensures r.Ok? ==> exists k :: (0 <= k < |old(table.rows)| && old(table.rows)[k].id == id &&
      r.value == old(table.rows)[k].(isDefault := true))
    ensures r.Ok? ==> table.rows == Saved(old(table.rows), r.value)
    ensures r.Ok? ==> r.value in table.rows && forall j :: (0 <= j < |table.rows| &&
      table.rows[j].owner == caller && table.rows[j].isDefault) ==> table.rows[j] == r.value
    ensures forall other :: other != caller ==> OwnedBy(table.rows, other) == OwnedBy(old(table.rows), other)
  {
    var k := FindOwned(table, caller, id);
    if k < 0 {
      return Err(NotFound);
    }
    var b := table.rows[k].(isDefault := true);
    SaveOwnedRow(table, caller, k, b);
    SaveLeavesSoleDefault(old(table.rows), b);
    r := Ok(b);
  }

  // ---------------------------------------------------------------- destroy

  /** `AddressDetailView.destroy`: deletes the caller's address; any other
      key is not found and nothing changes. */
  method DestroyAddress(table: Addresses, caller: UserId, id: AddressId) returns (r: Outcome<ViewError>)
    requires table.Valid()
    modifies table
    ensures table.Valid() && table.nextId == old(table.nextId)
    ensures r.Fail? <==> !Owns(old(table.rows), caller, id)
    ensures r.Fail? ==> table.rows == old(table.rows)
    ensures r.Pass? ==> exists k :: (0 <= k < |old(table.rows)| && old(table.rows)[k].id == id &&
      old(table.rows)[k].owner == caller && table.rows == old(table.rows)[..k] + old(table.rows)[k + 1..])
    ensures forall other :: other != caller ==> OwnedBy(table.rows, other) == OwnedBy(old(table.rows), other)
  {
    var k := FindOwned(table, caller, id);
    if k < 0 {
      return Fail(NotFound);
    }
    ghost var before := table.rows;
    table.DeleteAt(k);
    forall other | other != caller
      ensures OwnedBy(table.rows, other) == OwnedBy(before, other)
    {
      assert before == before[..k] + [before[k]] + before[k + 1..];
      OwnedByAppend(before[..k] + [before[k]], before[k + 1..], other);
      OwnedByAppend(before[..k], [before[k]], other);
      OwnedByAppend(before[..k], before[k + 1..], other);
      assert OwnedBy([before[k]], other) == [];
    }
    r := Pass;
  }
}
