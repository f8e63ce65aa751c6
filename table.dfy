/** The Azure tables the handlers use (`tables["Stars"]`, `tables["Users"]`): an
    ordered sequence of entities, in the order `list_entities()` returns them, keyed
    by PartitionKey and RowKey and sorted by that key. Whether a remote call raises (network failure,
    throttling) is a parameter, `fault`; a call that raises changes nothing. */
module TableStore {
  import opened Wrappers
  import opened PyValue

  /** (PartitionKey, RowKey). */
  type Key = (string, string)

  /** An entity as the service stores it: both key properties are strings. */
  predicate Keyed(e: Entity) {
    && "PartitionKey" in e && e["PartitionKey"].VStr?
    && "RowKey" in e && e["RowKey"].VStr?
  }

  function KeyOf(e: Entity): Key
    requires Keyed(e)
  {
    (e["PartitionKey"].str, e["RowKey"].str)
  }

  /** Row `e` has key `k`. */
  predicate HasKey(e: Entity, k: Key) {
    Keyed(e) && KeyOf(e) == k
  }

  /** Every row is keyed and no two rows share a key. */
  predicate WellKeyed(rows: seq<Entity>) {
    && (forall i :: 0 <= i < |rows| ==> Keyed(rows[i]))
    && (forall i, j :: 0 <= i < j < |rows| ==> KeyOf(rows[i]) != KeyOf(rows[j]))
  }

  /** Ordinal string order (character by character, a proper prefix first): the
      order the table service sorts keys in. */
  predicate StrLess(a: string, b: string)
    decreases |a|
  {
    if a == [] then b != []
    else if b == [] then false
    else a[0] < b[0] || (a[0] == b[0] && StrLess(a[1..], b[1..]))
  }

  lemma {:induction false} StrLessIrreflexive(a: string)
    ensures !StrLess(a, a)
    decreases |a|
  {
    if a != [] {
      StrLessIrreflexive(a[1..]);
    }
  }

  lemma {:induction false} StrLessTransitive(a: string, b: string, c: string)
    requires StrLess(a, b) && StrLess(b, c)
    ensures StrLess(a, c)
    decreases |a|
  {
    if a != [] && a[0] == b[0] && b[0] == c[0] {
      StrLessTransitive(a[1..], b[1..], c[1..]);
    }
  }

  lemma {:induction false} StrLessTotal(a: string, b: string)
    ensures a == b || StrLess(a, b) || StrLess(b, a)
    decreases |a|
  {
    if a != [] && b != [] && a[0] == b[0] {
      StrLessTotal(a[1..], b[1..]);
      if a[1..] == b[1..] {
        assert a == [a[0]] + a[1..] && b == [b[0]] + b[1..];
      }
    }
  }

  /** Key order: by PartitionKey, then by RowKey. */
  predicate KeyLess(k: Key, l: Key) {
    StrLess(k.0, l.0) || (k.0 == l.0 && StrLess(k.1, l.1))
  }

  /** Key order is a strict total order. */
  lemma KeyLessOrder(k: Key, l: Key, m: Key)
    ensures !KeyLess(k, k)
    ensures KeyLess(k, l) && KeyLess(l, m) ==> KeyLess(k, m)
    ensures k == l || KeyLess(k, l) || KeyLess(l, k)
  {
    StrLessIrreflexive(k.0);
    StrLessIrreflexive(k.1);
    if KeyLess(k, l) && KeyLess(l, m) {
      if StrLess(k.0, l.0) && StrLess(l.0, m.0) {
        StrLessTransitive(k.0, l.0, m.0);
      } else if k.0 == l.0 && l.0 == m.0 {
        StrLessTransitive(k.1, l.1, m.1);
      }
    }
    StrLessTotal(k.0, l.0);
    StrLessTotal(k.1, l.1);
  }

  /** The rows are listed in key order, as `list_entities()` and `query_entities()`
      return them. */
  predicate Ordered(rows: seq<Entity>) {
    forall i, j :: 0 <= i < j < |rows| && Keyed(rows[i]) && Keyed(rows[j]) ==>
      KeyLess(KeyOf(rows[i]), KeyOf(rows[j]))
  }

  /** Where a row with key `k` goes: after every row whose key is not greater. */
  function InsertPos(rows: seq<Entity>, k: Key): (p: nat)
    ensures p <= |rows|
  {
    if rows == [] then 0
    else if Keyed(rows[0]) && KeyLess(k, KeyOf(rows[0])) then 0
    else 1 + InsertPos(rows[1..], k)
  }

  /** In an ordered table the rows before the insertion point have smaller keys and
      the rows from it on have greater ones, when no row has the key. */
  lemma {:induction false} InsertPosSplits(rows: seq<Entity>, k: Key)
    requires WellKeyed(rows) && Ordered(rows)
    requires forall j :: 0 <= j < |rows| ==> !HasKey(rows[j], k)
    ensures forall j :: 0 <= j < InsertPos(rows, k) ==> KeyLess(KeyOf(rows[j]), k)
    ensures forall j :: InsertPos(rows, k) <= j < |rows| ==> KeyLess(k, KeyOf(rows[j]))
    decreases |rows|
  {
    if rows != [] {
      var t := rows[1..];
      if KeyLess(k, KeyOf(rows[0])) {
        forall j | 0 < j < |rows| ensures KeyLess(k, KeyOf(rows[j])) {
          KeyLessOrder(k, KeyOf(rows[0]), KeyOf(rows[j]));
        }
      } else {
        assert WellKeyed(t) && Ordered(t) by {
          forall a | 0 <= a < |t| ensures t[a] == rows[a + 1] { }
        }
        forall j | 0 <= j < |t| ensures !HasKey(t[j], k) {
          assert t[j] == rows[j + 1];
        }
        InsertPosSplits(t, k);
        KeyLessOrder(KeyOf(rows[0]), k, k);
        forall j | 0 < j < |rows| ensures rows[j] == t[j - 1] { }
      }
    }
  }

  /** `rows` with `e` put in at its place in key order. */
  function InsertByKey(rows: seq<Entity>, e: Entity): seq<Entity>
    requires Keyed(e)
  {
    var p := InsertPos(rows, KeyOf(e));
    rows[..p] + [e] + rows[p..]
  }

  /** Inserting a row whose key is new keeps the table well keyed and in key order,
      and adds just that row. */
  lemma InsertByKeyOrdered(rows: seq<Entity>, e: Entity)
    requires WellKeyed(rows) && Ordered(rows) && Keyed(e)
    requires forall j :: 0 <= j < |rows| ==> !HasKey(rows[j], KeyOf(e))
    ensures WellKeyed(InsertByKey(rows, e)) && Ordered(InsertByKey(rows, e))
    ensures multiset(InsertByKey(rows, e)) == multiset(rows) + multiset{e}
  {
    var p := InsertPos(rows, KeyOf(e));
    InsertPosSplits(rows, KeyOf(e));
    InsertAtOrdered(rows, p, e);
    OrderedWellKeyed(InsertByKey(rows, e));
    assert rows == rows[..p] + rows[p..];
  }

  /** A row whose key lies between the keys before and after position `p` can go
      there without breaking the order. */
  lemma InsertAtOrdered(rows: seq<Entity>, p: nat, e: Entity)
    requires WellKeyed(rows) && Ordered(rows) && Keyed(e) && p <= |rows|
    requires forall j :: 0 <= j < p ==> KeyLess(KeyOf(rows[j]), KeyOf(e))
    requires forall j :: p <= j < |rows| ==> KeyLess(KeyOf(e), KeyOf(rows[j]))
    ensures var r := rows[..p] + [e] + rows[p..];
      (forall a :: 0 <= a < |r| ==> Keyed(r[a])) && Ordered(r)
  {
    var r := rows[..p] + [e] + rows[p..];
    forall a | 0 <= a < |r| ensures r[a] == if a < p then rows[a] else if a == p then e else rows[a - 1] { }
    forall a, b | 0 <= a < b < |r| && Keyed(r[a]) && Keyed(r[b]) ensures KeyLess(KeyOf(r[a]), KeyOf(r[b])) {
      if a == p {
        assert r[b] == rows[b - 1];
      } else if b == p {
        assert r[a] == rows[a];
      } else {
        var a', b' := if a < p then a else a - 1, if b < p then b else b - 1;
        assert r[a] == rows[a'] && r[b] == rows[b'];
      }
    }
  }

  /** Keyed rows in strict key order have distinct keys. */
  lemma OrderedWellKeyed(rows: seq<Entity>)
    requires (forall a :: 0 <= a < |rows| ==> Keyed(rows[a])) && Ordered(rows)
    ensures WellKeyed(rows)
  {
    forall a, b | 0 <= a < b < |rows| ensures KeyOf(rows[a]) != KeyOf(rows[b]) {
      KeyLessOrder(KeyOf(rows[a]), KeyOf(rows[b]), KeyOf(rows[b]));
    }
  }

  /** Merging keeps every row's key, so the order stays. */
  lemma MergeOrdered(rows: seq<Entity>, e: Entity)
    requires WellKeyed(rows) && Ordered(rows) && Keyed(e)
    ensures Ordered(MergeInto(rows, e))
  {
    var r := MergeInto(rows, e);
    MergeWellKeyed(rows, e);
    forall i | 0 <= i < |rows| ensures Keyed(r[i]) && KeyOf(r[i]) == KeyOf(rows[i]) {
    }
  }

  /** Removing a row keeps the others in order. */
  lemma WithoutOrdered(rows: seq<Entity>, k: Key)
    requires WellKeyed(rows) && Ordered(rows)
    ensures Ordered(Without(rows, k))
  {
    WithoutExactly(rows, k);
    var r := IndexOfKey(rows, k);
    if r.Some? {
      OrderedRemoveAt(rows, r.value);
    }
  }

  /** Dropping one row keeps the others in order. */
  lemma OrderedRemoveAt(rows: seq<Entity>, i: nat)
    requires Ordered(rows) && i < |rows|
    ensures Ordered(rows[..i] + rows[i + 1..])
  {
    var w := rows[..i] + rows[i + 1..];
    forall a | 0 <= a < |w| ensures w[a] == rows[if a < i then a else a + 1] {
    }
    forall a, b | 0 <= a < b < |w| && Keyed(w[a]) && Keyed(w[b]) ensures KeyLess(KeyOf(w[a]), KeyOf(w[b])) {
      var a', b' := if a < i then a else a + 1, if b < i then b else b + 1;
      assert w[a] == rows[a'] && w[b] == rows[b'];
    }
  }

  /** The position of the row with key `k`, if there is one. */
  function IndexOfKey(rows: seq<Entity>, k: Key): (r: Option<nat>)
    ensures r.Some? ==> r.value < |rows| && HasKey(rows[r.value], k)
    ensures r.Some? ==> forall j :: 0 <= j < r.value ==> !HasKey(rows[j], k)
    ensures r.None? ==> forall j :: 0 <= j < |rows| ==> !HasKey(rows[j], k)
  {
    if rows == [] then None
    else if HasKey(rows[0], k) then Some(0)
    else
      var t := IndexOfKey(rows[1..], k);
      if t.Some? then Some(t.value + 1) else None
  }

  /** In a well-keyed table the row with a given key is the only one. */
  lemma IndexOfKeyUnique(rows: seq<Entity>, k: Key, i: nat)
    requires WellKeyed(rows)
    requires i < |rows| && HasKey(rows[i], k)
    ensures IndexOfKey(rows, k) == Some(i)
  {
  }

  /** The rows of one partition, in listing order: what
      `query_entities("PartitionKey eq '<pk>'")` returns. */
  function InPartition(rows: seq<Entity>, pk: string): (r: seq<Entity>)
    ensures forall e :: e in r ==> e in rows && "PartitionKey" in e && e["PartitionKey"] == VStr(pk)
    ensures forall e :: e in rows && "PartitionKey" in e && e["PartitionKey"] == VStr(pk) ==> e in r
  {
    if rows == [] then []
    else
      var e := rows[0];
      (if "PartitionKey" in e && e["PartitionKey"] == VStr(pk) then [e] else [])
        + InPartition(rows[1..], pk)
  }

  /** The table after removing the row with key `k` (the others keep their order). */
  function Without(rows: seq<Entity>, k: Key): seq<Entity>
  {
    if rows == [] then []
    else (if HasKey(rows[0], k) then [] else [rows[0]]) + Without(rows[1..], k)
  }

  /** A row survives the removal of key `k` exactly when it does not have that key. */
  lemma {:induction false} WithoutMembers(rows: seq<Entity>, k: Key)
    ensures forall e :: e in Without(rows, k) <==> e in rows && !HasKey(e, k)
  {
    if rows != [] {
      WithoutMembers(rows[1..], k);
      assert rows == [rows[0]] + rows[1..];
    }
  }

  /** In a well-keyed table, removing key `k` drops exactly the one row that had it,
      or nothing when no row had it. */
  lemma WithoutExactly(rows: seq<Entity>, k: Key)
    requires WellKeyed(rows)
    ensures IndexOfKey(rows, k).None? ==> Without(rows, k) == rows
    ensures IndexOfKey(rows, k).Some? ==>
      var i := IndexOfKey(rows, k).value;
      Without(rows, k) == rows[..i] + rows[i + 1..]
  {
    var r := IndexOfKey(rows, k);
    if r.None? {
      forall e | e in rows ensures !HasKey(e, k) {
        var j :| 0 <= j < |rows| && rows[j] == e;
      }
      WithoutAbsent(rows, k);
    } else {
      var i := r.value;
      forall j | 0 <= j < |rows| && j != i ensures !HasKey(rows[j], k) {
        if j > i {
          assert KeyOf(rows[i]) != KeyOf(rows[j]);
        }
      }
      WithoutAt(rows, i, k);
    }
  }

  /** Removing the key that only row `i` has drops just that row. */
  lemma WithoutAt(rows: seq<Entity>, i: nat, k: Key)
    requires i < |rows| && HasKey(rows[i], k)
    requires forall j :: 0 <= j < |rows| && j != i ==> !HasKey(rows[j], k)
    ensures Without(rows, k) == rows[..i] + rows[i + 1..]
  {
    var s, rest := rows[..i], rows[i + 1..];
    forall e | e in s ensures !HasKey(e, k) {
      var j :| 0 <= j < |s| && s[j] == e;
      assert rows[j] == e;
    }
    forall e | e in rest ensures !HasKey(e, k) {
      var j :| 0 <= j < |rest| && rest[j] == e;
      assert rows[i + 1 + j] == e;
    }
    assert rows == s + ([rows[i]] + rest);
    WithoutConcat(s, [rows[i]] + rest, k);
    WithoutAbsent(s, k);
    var xr := [rows[i]] + rest;
    assert xr[0] == rows[i] && xr[1..] == rest;
    assert Without(xr, k) == Without(rest, k);
    WithoutAbsent(rest, k);
  }

  lemma {:induction false} WithoutConcat(a: seq<Entity>, b: seq<Entity>, k: Key)
    ensures Without(a + b, k) == Without(a, k) + Without(b, k)
    decreases |a|
  {
    if a == [] {
      assert a + b == b;
    } else {
      assert (a + b)[1..] == a[1..] + b;
      WithoutConcat(a[1..], b, k);
    }
  }

  lemma {:induction false} WithoutAbsent(a: seq<Entity>, k: Key)
    requires forall e :: e in a ==> !HasKey(e, k)
    ensures Without(a, k) == a
    decreases |a|
  {
    if a != [] {
      WithoutAbsent(a[1..], k);
    }
  }

  /** Removing rows keeps the table well keyed. */
  lemma {:induction false} WithoutWellKeyed(rows: seq<Entity>, k: Key)
    requires WellKeyed(rows)
    ensures WellKeyed(Without(rows, k))
  {
    WithoutExactly(rows, k);
    var r := IndexOfKey(rows, k);
    if r.Some? {
      WellKeyedRemoveAt(rows, r.value);
    }
  }

  /** Dropping one row keeps a table well keyed. */
  lemma WellKeyedRemoveAt(rows: seq<Entity>, i: nat)
    requires WellKeyed(rows) && i < |rows|
    ensures WellKeyed(rows[..i] + rows[i + 1..])
  {
    var w := rows[..i] + rows[i + 1..];
    assert |w| == |rows| - 1;
    forall a | 0 <= a < |w| ensures w[a] == rows[if a < i then a else a + 1] {
    }
    forall a, b | 0 <= a < b < |w| ensures KeyOf(w[a]) != KeyOf(w[b]) {
      var a', b' := if a < i then a else a + 1, if b < i then b else b + 1;
      assert w[a] == rows[a'] && w[b] == rows[b'];
    }
  }

  /** `update_entity(e)` in its default MERGE mode: the properties of `e` overwrite
      those of the stored row with the same key; other properties are kept. */
  function MergeInto(rows: seq<Entity>, e: Entity): (r: seq<Entity>)
    requires Keyed(e)
    ensures |r| == |rows|
    ensures forall i :: 0 <= i < |rows| ==>
      r[i] == if HasKey(rows[i], KeyOf(e)) then rows[i] + e else rows[i]
  {
    seq(|rows|, i requires 0 <= i < |rows| => if HasKey(rows[i], KeyOf(e)) then rows[i] + e else rows[i])
  }

  /** Merging keeps the table well keyed, since the merged row keeps its key. */
  lemma MergeWellKeyed(rows: seq<Entity>, e: Entity)
    requires WellKeyed(rows) && Keyed(e)
    ensures WellKeyed(MergeInto(rows, e))
  {
    var r := MergeInto(rows, e);
    forall i | 0 <= i < |rows| ensures Keyed(r[i]) && KeyOf(r[i]) == KeyOf(rows[i]) {
    }
  }

  /** Merging back an edited copy of row `i` that keeps its key and all its
      properties replaces that one row by the copy; the other rows stay as they are. */
  lemma MergeEditedRow(rows: seq<Entity>, i: nat, f: Entity)
    requires WellKeyed(rows) && i < |rows|
    requires Keyed(f) && KeyOf(f) == KeyOf(rows[i]) && rows[i].Keys <= f.Keys
    ensures MergeInto(rows, f) == rows[i := f]
  {
    var m := MergeInto(rows, f);
    forall j | 0 <= j < |rows| ensures m[j] == rows[i := f][j] {
      if j == i {
        assert rows[i] + f == f;
      } else {
        assert KeyOf(rows[j]) != KeyOf(rows[i]);
      }
    }
  }

  /** The first row, in listing order, whose RowKey is `id`, whatever its partition:
      the search loop `if entity.get("RowKey") == star_id: ... break`. */
  predicate RowKeyIs(e: Entity, id: string) {
    "RowKey" in e && e["RowKey"] == VStr(id)
  }

  function FirstByRowKey(rows: seq<Entity>, id: string): (r: Option<nat>)
    ensures r.Some? ==> r.value < |rows| && RowKeyIs(rows[r.value], id)
    ensures r.Some? ==> forall j :: 0 <= j < r.value ==> !RowKeyIs(rows[j], id)
    ensures r.None? ==> forall j :: 0 <= j < |rows| ==> !RowKeyIs(rows[j], id)
  {
    if rows == [] then None
    else if RowKeyIs(rows[0], id) then Some(0)
    else
      var t := FirstByRowKey(rows[1..], id);
      if t.Some? then Some(t.value + 1) else None
  }

  /** The search loop itself: scan the listed entities and stop at the first match. */
  method FindByRowKey(rows: seq<Entity>, id: string) returns (r: Option<nat>)
    ensures r == FirstByRowKey(rows, id)
  {
    r := None;
    var i := 0;
    while i < |rows|
      invariant 0 <= i <= |rows|
      invariant forall j :: 0 <= j < i ==> !RowKeyIs(rows[j], id)
    {
      if RowKeyIs(rows[i], id) {
        r := Some(i);
        break;
      }
      i := i + 1;
    }
    FirstByRowKeyIsFirst(rows, id, r);
  }

  /** A position is the first match exactly when no earlier row matches. */
  lemma FirstByRowKeyIsFirst(rows: seq<Entity>, id: string, r: Option<nat>)
    requires r.Some? ==> r.value < |rows| && RowKeyIs(rows[r.value], id)
    requires r.Some? ==> forall j :: 0 <= j < r.value ==> !RowKeyIs(rows[j], id)
    requires r.None? ==> forall j :: 0 <= j < |rows| ==> !RowKeyIs(rows[j], id)
    ensures r == FirstByRowKey(rows, id)
  {
  }

  /** A table client. `rows` is the table's content in listing order, which is key
      order. */
  class Table {
    var rows: seq<Entity>

    ghost predicate Valid()
      reads this
    {
      WellKeyed(rows) && Ordered(rows)
    }

    constructor (initial: seq<Entity>)
      requires WellKeyed(initial) && Ordered(initial)
      ensures Valid() && rows == initial
    {
      rows := initial;
    }

    /** `list_entities()`. */
    method List(fault: bool) returns (r: Result<seq<Entity>>)
      ensures r.Success? <==> !fault
      ensures r.Success? ==> r.value == rows
    {
      if fault {
        r := Failure("ServiceRequestError");
      } else {
        r := Success(rows);
      }
    }

    /** `query_entities(query_filter="PartitionKey eq '<pk>'")`. */
    method Query(pk: string, fault: bool) returns (r: Result<seq<Entity>>)
      ensures r.Success? <==> !fault
      ensures r.Success? ==> r.value == InPartition(rows, pk)
    {
      if fault {
        r := Failure("ServiceRequestError");
      } else {
        r := Success(InPartition(rows, pk));
      }
    }

    /** `get_entity(partition_key, row_key)`: ResourceNotFoundError when no row has
        that key. */
    method Get(k: Key, fault: bool) returns (r: Result<Entity>)
      ensures r.Success? <==> !fault && IndexOfKey(rows, k).Some?
      ensures r.Success? ==> HasKey(r.value, k) && r.value == rows[IndexOfKey(rows, k).value]
    {
      var i := IndexOfKey(rows, k);
      if fault {
        r := Failure("ServiceRequestError");
      } else if i.None? {
        r := Failure("ResourceNotFoundError");
      } else {
        r := Success(rows[i.value]);
      }
    }

    /** `create_entity(e)`: ResourceExistsError when a row already has its key; the
        new row is listed at its place in key order. */
    method Create(e: Entity, fault: bool) returns (ok: bool)
      requires Valid() && Keyed(e)
      modifies this
      ensures Valid()
      ensures ok <==> !fault && IndexOfKey(old(rows), KeyOf(e)).None?
      ensures rows == if ok then InsertByKey(old(rows), e) else old(rows)
      ensures ok ==> multiset(rows) == multiset(old(rows)) + multiset{e}
    {
      ok := !fault && IndexOfKey(rows, KeyOf(e)).None?;
      if ok {
        InsertByKeyOrdered(rows, e);
        rows := InsertByKey(rows, e);
      }
    }

    /** `update_entity(e)` (MERGE mode): ResourceNotFoundError when no row has its key. */
    method Update(e: Entity, fault: bool) returns (ok: bool)
      requires Valid() && Keyed(e)
      modifies this
      ensures Valid()
      ensures ok <==> !fault && IndexOfKey(old(rows), KeyOf(e)).Some?
      ensures rows == if ok then MergeInto(old(rows), e) else old(rows)
    {
      ok := !fault && IndexOfKey(rows, KeyOf(e)).Some?;
      if ok {
        MergeWellKeyed(rows, e);
        MergeOrdered(rows, e);
        rows := MergeInto(rows, e);
      }
    }

    /** `delete_entity(partition_key, row_key)`: the service raises nothing when no
        row has the key. */
    method Delete(k: Key, fault: bool) returns (ok: bool)
      requires Valid()
      modifies this
      ensures Valid()
      ensures ok == !fault
      ensures rows == if ok then Without(old(rows), k) else old(rows)
    {
      ok := !fault;
      if ok {
        WithoutWellKeyed(rows, k);
        WithoutOrdered(rows, k);
        rows := Without(rows, k);
      }
    }
  }
}
