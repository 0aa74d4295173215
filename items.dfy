/** Records of the item store, the field constraints checked on input, and the
    pure functions the handlers are specified with: id assignment, the first
    record carrying an id, and removal of one slot. */
module Items {

  /** An item as submitted by a client: the fields without an id. */
  datatype Item = Item(name: string, description: string, price: real)

  /** An item as stored in the primary file: the submitted fields plus the
      id the store assigned. */
  datatype Record = Record(id: int, name: string, description: string, price: real)

  /** Why a handler refused a request. */
  datatype Error = Invalid | NotFound

  datatype Result<T> = Ok(value: T) | Err(error: Error)

  datatype Option<T> = None | Some(value: T)

  const NameMaxLength: nat := 50
  const DescriptionMaxLength: nat := 200

  /** The field constraints of the input model: a name of 1 to 50 characters,
      a description of 1 to 200 characters and a strictly positive price, both
      length bounds inclusive. Each violated constraint alone refuses the item. */
  function ValidItem(item: Item): (ok: bool)
    ensures |item.name| == 0 || |item.name| > NameMaxLength ==> !ok
    ensures |item.description| == 0 || |item.description| > DescriptionMaxLength ==> !ok
    ensures item.price <= 0.0 ==> !ok
    ensures (1 <= |item.name| <= NameMaxLength && 1 <= |item.description| <= DescriptionMaxLength &&
             item.price > 0.0) ==> ok
  {
    1 <= |item.name| <= NameMaxLength &&
    1 <= |item.description| <= DescriptionMaxLength &&
    item.price > 0.0
  }

  /** The stored form of a submitted item under a given id. */
  function WithId(id: int, item: Item): (r: Record)
    ensures r.id == id && Fields(r) == item
  {
    Record(id, item.name, item.description, item.price)
  }

  /** The submitted fields of a stored record. */
  function Fields(r: Record): Item
  {
    Item(r.name, r.description, r.price)
  }

  /** No two records of the sequence share an id. */
  ghost predicate UniqueIds(s: seq<Record>)
  {
    forall i, j :: 0 <= i < j < |s| ==> s[i].id != s[j].id
  }

  /** Every id of the sequence is at least 1, as every id the store assigns is. */
  ghost predicate PositiveIds(s: seq<Record>)
  {
    forall i :: 0 <= i < |s| ==> s[i].id >= 1
  }

  /** The largest id in the sequence, or 0 when it is empty. */
  function MaxId(s: seq<Record>): (m: int)
    ensures |s| == 0 ==> m == 0
    ensures forall i :: 0 <= i < |s| ==> s[i].id <= m
    ensures |s| > 0 ==> exists i :: 0 <= i < |s| && s[i].id == m
  {
    if |s| == 0 then 0
    else if |s| == 1 then s[0].id
    else
      var rest := MaxId(s[1..]);
      if s[0].id >= rest then s[0].id else rest
  }

  /** The id a create assigns: one more than the largest id present, or 1 on
      an empty store. It is greater than every id present, and it is not a
      counter: it only depends on the ids present now. */
  function NextId(s: seq<Record>): (r: int)
    ensures |s| == 0 ==> r == 1
    ensures forall i :: 0 <= i < |s| ==> s[i].id < r
    ensures |s| > 0 ==> exists i :: 0 <= i < |s| && s[i].id == r - 1
    ensures PositiveIds(s) ==> r >= 1
  {
    MaxId(s) + 1
  }

  /** The position of the first record whose id is `id`, scanning left to
      right, or None when no record carries it. */
  function FirstIndex(s: seq<Record>, id: int): (r: Option<nat>)
    ensures r.Some? ==> r.value < |s| && s[r.value].id == id
    ensures r.Some? ==> forall j :: 0 <= j < r.value ==> s[j].id != id
    ensures r.None? <==> forall j :: 0 <= j < |s| ==> s[j].id != id
  {
    if |s| == 0 then None
    else if s[0].id == id then Some(0)
    else
      match FirstIndex(s[1..], id)
      case Some(k) => Some(k + 1)
      case None => None
  }

  /** The sequence without its slot `k`; the other records keep their order. */
  function RemoveAt(s: seq<Record>, k: nat): (r: seq<Record>)
    requires k < |s|
    ensures |r| == |s| - 1
    ensures forall i :: 0 <= i < k ==> r[i] == s[i]
    ensures forall i :: k <= i < |r| ==> r[i] == s[i + 1]
  {
    s[..k] + s[k + 1..]
  }

  /** Appending a record whose id exceeds every id present keeps ids unique
      and, when the new id is positive, positive. */
  lemma AppendFreshPreservesIds(s: seq<Record>, r: Record)
    requires forall i :: 0 <= i < |s| ==> s[i].id < r.id
    ensures UniqueIds(s) ==> UniqueIds(s + [r])
    ensures PositiveIds(s) && r.id >= 1 ==> PositiveIds(s + [r])
  {
  }

  /** Replacing the record at `k` by one with the same id keeps the ids. */
  lemma ReplaceKeepsIds(s: seq<Record>, k: nat, r: Record)
    requires k < |s| && r.id == s[k].id
    ensures UniqueIds(s) ==> UniqueIds(s[k := r])
    ensures PositiveIds(s) ==> PositiveIds(s[k := r])
  {
  }

  /** Removing a slot keeps ids unique and positive. */
  lemma RemoveKeepsIds(s: seq<Record>, k: nat)
    requires k < |s|
    ensures UniqueIds(s) ==> UniqueIds(RemoveAt(s, k))
    ensures PositiveIds(s) ==> PositiveIds(RemoveAt(s, k))
  {
  }

  /** A lookup of a freshly assigned id finds the record just appended. */
  lemma {:induction false} FindAppended(s: seq<Record>, r: Record)
    requires forall i :: 0 <= i < |s| ==> s[i].id < r.id
    ensures FirstIndex(s + [r], r.id) == Some(|s|)
  {
    var t := s + [r];
    assert t[|s|].id == r.id;
    forall j | 0 <= j < |s| ensures t[j].id != r.id {
      assert t[j] == s[j];
    }
  }

  /** After the record found for `id` is replaced by one that keeps `id`,
      the lookup finds the new record in the same slot. */
  lemma {:induction false} FindReplaced(s: seq<Record>, id: int, r: Record)
    requires FirstIndex(s, id).Some? && r.id == id
    ensures FirstIndex(s[FirstIndex(s, id).value := r], id) == FirstIndex(s, id)
  {
    var k := FirstIndex(s, id).value;
    var t := s[k := r];
    assert t[k].id == id;
    forall j | 0 <= j < k ensures t[j].id != id {
      assert t[j] == s[j];
    }
  }

  /** With unique ids, once the record carrying `id` is removed no record
      carries it any more. */
  lemma FindRemoved(s: seq<Record>, k: nat)
    requires k < |s| && UniqueIds(s)
    ensures FirstIndex(RemoveAt(s, k), s[k].id) == None
  {
  }

  /** Ids are reused: after the record with the largest id is removed, the
      next id assigned is at most the removed id, and equals it when the id
      just below it is still present (as after consecutive creates). */
  lemma {:induction false} NextIdAfterRemovingMax(s: seq<Record>, k: nat)
    requires k < |s| && UniqueIds(s) && PositiveIds(s)
    requires s[k].id == MaxId(s)
    ensures NextId(RemoveAt(s, k)) <= s[k].id
    ensures (exists j :: 0 <= j < |s| && s[j].id == s[k].id - 1) ==>
              NextId(RemoveAt(s, k)) == s[k].id
  {
    var r := RemoveAt(s, k);
    forall i | 0 <= i < |r| ensures r[i].id < s[k].id {
      var i' := if i < k then i else i + 1;
      assert r[i] == s[i'] && i' != k;
    }
    if j :| 0 <= j < |s| && s[j].id == s[k].id - 1 {
      assert j != k;
      var j' := if j < k then j else j - 1;
      assert r[j'] == s[j];
    }
  }
}
