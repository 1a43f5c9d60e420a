/** The address table and `Address.save`: saving an address that is marked
    default first clears the default flag on every other address of the same
    owner, then writes the row itself (an update by primary key, or an insert
    when no row has that key). The table keeps, for every owner, at most one
    default address. */
module AddressTable {
  import opened Models

  // ---------------------------------------------------------------- specification

  /** Primary keys are unique. */
  ghost predicate IdsUnique(rows: seq<Address>) {
    forall i, j :: 0 <= i < |rows| && 0 <= j < |rows| && rows[i].id == rows[j].id ==> i == j
  }

  /** Every key was issued before `next`. */
  ghost predicate IdsBelow(rows: seq<Address>, next: nat) {
    forall i :: 0 <= i < |rows| ==> rows[i].id < next
  }

  /** For every owner, at most one address is the default one. */
  ghost predicate AtMostOneDefault(rows: seq<Address>) {
    forall i, j ::
      (0 <= i < |rows| && 0 <= j < |rows| &&
       rows[i].isDefault && rows[j].isDefault && rows[i].owner == rows[j].owner) ==> i == j
  }

  predicate HasId(rows: seq<Address>, id: AddressId) {
    exists k :: 0 <= k < |rows| && rows[k].id == id
  }

  /** The bulk update on one row: a default sibling of `a` (same owner,
      another key) loses its default flag. */
  function ClearIfSibling(r: Address, a: Address): Address {
    if r.owner == a.owner && r.isDefault && r.id != a.id then r.(isDefault := false) else r
  }

  function ClearSiblings(rows: seq<Address>, a: Address): seq<Address> {
    if rows == [] then [] else [ClearIfSibling(rows[0], a)] + ClearSiblings(rows[1..], a)
  }

  /** The update by primary key: every row with `a`'s key becomes `a`. */
  function Overwrite(rows: seq<Address>, a: Address): seq<Address> {
    if rows == [] then [] else [if rows[0].id == a.id then a else rows[0]] + Overwrite(rows[1..], a)
  }

  /** The row write: update when the key exists, insert otherwise. */
  function Write(rows: seq<Address>, a: Address): seq<Address> {
    if HasId(rows, a.id) then Overwrite(rows, a) else rows + [a]
  }

  /** The table after `Address.save(a)`. */
  function Saved(rows: seq<Address>, a: Address): seq<Address> {
    Write(if a.isDefault then ClearSiblings(rows, a) else rows, a)
  }

  // ---------------------------------------------------------------- lemmas

  lemma {:induction false} ClearSiblingsPointwise(rows: seq<Address>, a: Address)
    ensures |ClearSiblings(rows, a)| == |rows|
    ensures forall k :: 0 <= k < |rows| ==> ClearSiblings(rows, a)[k] == ClearIfSibling(rows[k], a)
  {
    if rows != [] {
      ClearSiblingsPointwise(rows[1..], a);
    }
  }

  lemma {:induction false} OverwritePointwise(rows: seq<Address>, a: Address)
    ensures |Overwrite(rows, a)| == |rows|
    ensures forall k :: 0 <= k < |rows| ==>
      Overwrite(rows, a)[k] == if rows[k].id == a.id then a else rows[k]
  {
    if rows != [] {
      OverwritePointwise(rows[1..], a);
    }
  }

  /** What `save` does to each row: the row with `a`'s key becomes `a`; when
      `a` is default, its default siblings are cleared; every other row stays.
      When no row had the key, `a` is appended. */
  lemma SavedPointwise(rows: seq<Address>, a: Address)
    ensures |Saved(rows, a)| == if HasId(rows, a.id) then |rows| else |rows| + 1
    ensures forall k :: 0 <= k < |rows| ==>
      Saved(rows, a)[k] ==
        if rows[k].id == a.id then a
        else if a.isDefault then ClearIfSibling(rows[k], a)
        else rows[k]
    ensures !HasId(rows, a.id) ==> Saved(rows, a)[|rows|] == a
  {
    var cleared := if a.isDefault then ClearSiblings(rows, a) else rows;
    ClearSiblingsPointwise(rows, a);
    assert |cleared| == |rows|;
    assert forall k :: 0 <= k < |rows| ==> cleared[k].id == rows[k].id;
    assert HasId(cleared, a.id) <==> HasId(rows, a.id) by {
      if HasId(rows, a.id) {
        var k :| 0 <= k < |rows| && rows[k].id == a.id;
        assert cleared[k].id == a.id;
      }
      if HasId(cleared, a.id) {
        var k :| 0 <= k < |cleared| && cleared[k].id == a.id;
        assert rows[k].id == a.id;
      }
    }
    OverwritePointwise(cleared, a);
  }

  /** Saving a default address leaves it the only default of its owner. */
  lemma SaveLeavesSoleDefault(rows: seq<Address>, a: Address)
    requires a.isDefault
    ensures a in Saved(rows, a)
    ensures forall k :: (0 <= k < |Saved(rows, a)| &&
      Saved(rows, a)[k].owner == a.owner && Saved(rows, a)[k].isDefault) ==> Saved(rows, a)[k] == a
  {
    SavedPointwise(rows, a);
    if HasId(rows, a.id) {
      var k :| 0 <= k < |rows| && rows[k].id == a.id;
      assert Saved(rows, a)[k] == a;
    } else {
      assert Saved(rows, a)[|rows|] == a;
    }
  }

  /** Saving an address that is not default touches no other row. */
  lemma SaveNonDefaultTouchesNoOtherRow(rows: seq<Address>, a: Address)
    requires !a.isDefault
    ensures |rows| <= |Saved(rows, a)|
    ensures forall k :: 0 <= k < |rows| && rows[k].id != a.id ==> Saved(rows, a)[k] == rows[k]
  {
    SavedPointwise(rows, a);
  }

  /** Addresses of other owners are never touched. */
  lemma SaveSparesOtherOwners(rows: seq<Address>, a: Address)
    ensures |rows| <= |Saved(rows, a)|
    ensures forall k :: 0 <= k < |rows| && rows[k].owner != a.owner && rows[k].id != a.id ==>
      Saved(rows, a)[k] == rows[k]
  {
    SavedPointwise(rows, a);
  }

  /** On any other row, `save` changes at most the default flag, only from
      true to false, and only on a row of the same owner. */
  lemma SaveOnlyClearsSiblingFlags(rows: seq<Address>, a: Address)
    ensures |rows| <= |Saved(rows, a)|
    ensures forall k :: 0 <= k < |rows| && rows[k].id != a.id ==>
      || Saved(rows, a)[k] == rows[k]
      || (rows[k].owner == a.owner && rows[k].isDefault && Saved(rows, a)[k] == rows[k].(isDefault := false))
  {
    SavedPointwise(rows, a);
  }

  /** `save` keeps the table's invariants: unique keys, keys issued before
      `next`, and at most one default address per owner. */
  lemma SavePreservesInvariant(rows: seq<Address>, a: Address, next: nat)
    requires IdsUnique(rows) && IdsBelow(rows, next) && AtMostOneDefault(rows)
    requires a.id < next
    ensures IdsUnique(Saved(rows, a)) && IdsBelow(Saved(rows, a), next)
    ensures AtMostOneDefault(Saved(rows, a))
  {
    SavedPointwise(rows, a);
    var s := Saved(rows, a);
    assert forall k :: 0 <= k < |rows| ==> s[k].id == rows[k].id;
    forall i, j | 0 <= i < |s| && 0 <= j < |s| && s[i].id == s[j].id
      ensures i == j
    {
      if i == |rows| || j == |rows| {
        assert !HasId(rows, a.id);
      }
    }
    forall i, j | 0 <= i < |s| && 0 <= j < |s| && s[i].isDefault && s[j].isDefault && s[i].owner == s[j].owner
      ensures i == j
    {
      if a.isDefault && s[i].owner == a.owner {
        SaveLeavesSoleDefault(rows, a);
        assert s[i].id == s[j].id;
      } else {
        assert i < |rows| && rows[i].id != a.id && s[i] == rows[i];
        assert j < |rows| && rows[j].id != a.id && s[j] == rows[j];
      }
    }
  }

  // ---------------------------------------------------------------- the table

  /** The address table: its rows and the next primary key to issue. */
  class Addresses {
    var rows: seq<Address>
    var nextId: AddressId

    ghost predicate Valid()
      reads this
    {
      IdsUnique(rows) && IdsBelow(rows, nextId) && AtMostOneDefault(rows)
    }

    constructor ()
      ensures Valid() && rows == [] && nextId == 0
    {
      rows := [];
      nextId := 0;
    }

    /** `Address.save(a)` for a row whose key the table issued: a default
        address first clears its owner's other default flags, then the row
        itself is written. */
    method Save(a: Address)
      requires Valid() && a.id < nextId
      modifies this
      ensures Valid() && nextId == old(nextId)
      ensures rows == Saved(old(rows), a)
      ensures a.isDefault ==> a in rows && forall k :: (0 <= k < |rows| &&
        rows[k].owner == a.owner && rows[k].isDefault) ==> rows[k] == a
    {
      ghost var before := rows;
      assert IdsUnique(before) && IdsBelow(before, nextId) && AtMostOneDefault(before);
      if a.isDefault {
        ClearOtherDefaults(a);
      }
      WriteRow(a);
      SavePreservesInvariant(before, a, nextId);
      if a.isDefault {
        SaveLeavesSoleDefault(before, a);
      }
    }

    /** The bulk update `filter(user=a.user, is_default=True).exclude(pk=a.pk)
        .update(is_default=False)`, one row at a time. */
    method ClearOtherDefaults(a: Address)
      modifies this
      ensures nextId == old(nextId)
      ensures rows == ClearSiblings(old(rows), a)
    {
      ghost var before := rows;
      var i := 0;
      while i < |rows|
        invariant 0 <= i <= |rows| == |before| && nextId == old(nextId)
        invariant forall k :: 0 <= k < i ==> rows[k] == ClearIfSibling(before[k], a)
        invariant forall k :: i <= k < |rows| ==> rows[k] == before[k]
      {
        if rows[i].owner == a.owner && rows[i].isDefault && rows[i].id != a.id {
          rows := rows[i := rows[i].(isDefault := false)];
        }
        i := i + 1;
      }
      ClearSiblingsPointwise(before, a);
    }

    /** The row write of `save`: an update of the row with `a`'s key, or an
        insert when there is none. */
    method WriteRow(a: Address)
      modifies this
      ensures nextId == old(nextId)
      ensures rows == Write(old(rows), a)
    {
      ghost var before := rows;
      var updated := false;
      var j := 0;
      while j < |rows|
        invariant 0 <= j <= |rows| == |before| && nextId == old(nextId)
        invariant forall k :: 0 <= k < j ==> rows[k] == if before[k].id == a.id then a else before[k]
        invariant forall k :: j <= k < |rows| ==> rows[k] == before[k]
        invariant updated <==> exists k :: 0 <= k < j && before[k].id == a.id
      {
        if rows[j].id == a.id {
          rows := rows[j := a];
          updated := true;
        }
        j := j + 1;
      }
      if !updated {
        rows := rows + [a];
      }
      OverwritePointwise(before, a);
    }

    /** `Address.objects.create(...)`: a fresh key, the field defaults, then `save`. */
    method Create(owner: UserId, input: AddressInput) returns (a: Address)
      requires Valid()
      modifies this
      ensures Valid() && nextId == old(nextId) + 1
      ensures a == NewAddress(old(nextId), owner, input)
      ensures !HasId(old(rows), a.id)
      ensures rows == Saved(old(rows), a)
    {
      a := NewAddress(nextId, owner, input);
      assert !HasId(rows, a.id);
      nextId := nextId + 1;
      Save(a);
    }

    /** Deletes the row at index `k`. */
    method DeleteAt(k: nat)
      requires Valid() && k < |rows|
      modifies this
      ensures Valid() && nextId == old(nextId)
      ensures rows == old(rows)[..k] + old(rows)[k + 1..]
    {
      ghost var before := rows;
      rows := rows[..k] + rows[k + 1..];
      assert forall i :: 0 <= i < |rows| ==> rows[i] == before[if i < k then i else i + 1];
    }
  }
}
