/** A document collection: a sequence of documents, each carrying its `_id`.
    The sequence order is the order an unsorted `find()` returns. Lookups,
    replacement, removal, filtering and counting are defined once here and
    used by every route. */
module Store {
  import opened Common

  type Id = string

  datatype Doc<T> = Doc(id: Id, val: T)

  type Table<T> = seq<Doc<T>>

  /** The `_id` index is unique. */
  predicate UniqueIds<T>(t: Table<T>) {
    forall i, j :: 0 <= i < j < |t| ==> t[i].id != t[j].id
  }

  predicate Has<T>(t: Table<T>, id: Id) {
    exists i :: 0 <= i < |t| && t[i].id == id
  }

  /** Position of the first document with `_id == id`. */
  function IndexOf<T>(t: Table<T>, id: Id): (r: Option<nat>)
    ensures r.Some? ==> r.value < |t| && t[r.value].id == id
    ensures r.Some? ==> forall j :: 0 <= j < r.value ==> t[j].id != id
    ensures r.None? <==> !Has(t, id)
  {
    if |t| == 0 then None
    else if t[0].id == id then Some(0)
    else
      var rest := IndexOf(t[1..], id);
      if rest.None? then None else Some(rest.value + 1)
  }

  /** `findById`: the document with that id, if any. */
  function Get<T>(t: Table<T>, id: Id): (r: Option<T>)
    ensures r.Some? <==> Has(t, id)
    ensures r.Some? ==> exists i :: 0 <= i < |t| && t[i] == Doc(id, r.value)
  {
    var k := IndexOf(t, id);
    if k.None? then None else Some(t[k.value].val)
  }

  /** Under a unique index, the document at position `i` is the one `findById` returns. */
  lemma GetAt<T>(t: Table<T>, i: int)
    requires UniqueIds(t)
    requires 0 <= i < |t|
    ensures Get(t, t[i].id) == Some(t[i].val)
  {
    assert IndexOf(t, t[i].id) == Some(i);
  }

  /** Writes `v` as the contents of the document `id`; absent ids leave the table as it is. */
  function Put<T>(t: Table<T>, id: Id, v: T): (r: Table<T>)
    ensures |r| == |t|
    ensures forall i :: 0 <= i < |t| ==> r[i].id == t[i].id
    ensures forall i :: 0 <= i < |t| && t[i].id != id ==> r[i] == t[i]
    ensures forall i :: 0 <= i < |t| && t[i].id == id ==> r[i].val == v
  {
    seq(|t|, i requires 0 <= i < |t| => if t[i].id == id then Doc(id, v) else t[i])
  }

  lemma {:induction false} IndexOfSameIds<T>(t: Table<T>, u: Table<T>, x: Id)
    requires |t| == |u|
    requires forall i :: 0 <= i < |t| ==> t[i].id == u[i].id
    ensures IndexOf(t, x) == IndexOf(u, x)
  {
    if |t| > 0 && t[0].id != x {
      IndexOfSameIds(t[1..], u[1..], x);
    }
  }

  /** After `Put`, `findById` sees the new contents under `id` and the old ones elsewhere. */
  lemma GetPut<T>(t: Table<T>, id: Id, v: T, x: Id)
    ensures Get(Put(t, id, v), x) == if x == id && Has(t, id) then Some(v) else Get(t, x)
  {
    IndexOfSameIds(Put(t, id, v), t, x);
  }

  /** Appending a document with a fresh id makes it visible and hides nothing. */
  lemma {:induction false} GetAppend<T>(t: Table<T>, id: Id, v: T, x: Id)
    requires !Has(t, id)
    ensures Get(t + [Doc(id, v)], x) == if x == id then Some(v) else Get(t, x)
  {
    if |t| == 0 {
    } else {
      assert (t + [Doc(id, v)])[1..] == t[1..] + [Doc(id, v)];
      assert !Has(t[1..], id) by {
        assert forall i :: 0 <= i < |t[1..]| ==> t[1..][i] == t[i + 1];
      }
      GetAppend(t[1..], id, v, x);
    }
  }

  /** Appending keeps the `_id` index unique when the new id is fresh. */
  lemma AppendUnique<T>(t: Table<T>, id: Id, v: T)
    requires UniqueIds(t)
    requires !Has(t, id)
    ensures UniqueIds(t + [Doc(id, v)])
  {
  }

  /** `deleteOne({_id})`: drops the document with that id, keeping the others in order.
      It drops every document with that id, which under a unique index is the one. */
  function Remove<T(!new)>(t: Table<T>, id: Id): (r: Table<T>)
    ensures !Has(r, id)
    ensures forall d :: d in r <==> d in t && d.id != id
    ensures |r| <= |t|
  {
    if |t| == 0 then []
    else if t[0].id == id then Remove(t[1..], id)
    else [t[0]] + Remove(t[1..], id)
  }

  /** After `Remove`, `findById` no longer finds `id` and still finds every other document. */
  lemma {:induction false} GetRemove<T(!new)>(t: Table<T>, id: Id, x: Id)
    ensures Get(Remove(t, id), x) == if x == id then None else Get(t, x)
  {
    if |t| == 0 || x == id {
    } else {
      GetRemove(t[1..], id, x);
      GetCons(t, x);
      if t[0].id != id {
        var r := Remove(t, id);
        assert r == [t[0]] + Remove(t[1..], id);
        assert r[0] == t[0] && r[1..] == Remove(t[1..], id);
        GetCons(r, x);
      }
    }
  }

  /** `findById` looks at the first document, then at the rest. */
  lemma GetCons<T>(t: Table<T>, x: Id)
    requires |t| > 0
    ensures Get(t, x) == if t[0].id == x then Some(t[0].val) else Get(t[1..], x)
  {
    if t[0].id != x {
      var k := IndexOf(t[1..], x);
      assert k.Some? ==> t[1..][k.value] == t[k.value + 1];
    }
  }

  /** Removal keeps the `_id` index unique. */
  lemma {:induction false} RemoveUnique<T(!new)>(t: Table<T>, id: Id)
    requires UniqueIds(t)
    ensures UniqueIds(Remove(t, id))
  {
    if Has(t, id) {
      RemoveExact(t, id);
      var k := IndexOf(t, id).value;
      var r := t[..k] + t[k + 1..];
      forall i, j | 0 <= i < j < |r| ensures r[i].id != r[j].id {
        DropAt(t, k, i);
        DropAt(t, k, j);
      }
    } else {
      RemoveAbsent(t, id);
    }
  }

  /** Position `i` of `t` without its entry `k` is position `i` or `i + 1` of `t`. */
  lemma DropAt<E>(t: seq<E>, k: nat, i: nat)
    requires k < |t| && i < |t| - 1
    ensures (t[..k] + t[k + 1..])[i] == t[if i < k then i else i + 1]
  {
  }

  /** With a unique index, removal deletes exactly the one document at its position. */
  lemma {:induction false} RemoveExact<T(!new)>(t: Table<T>, id: Id)
    requires UniqueIds(t)
    requires Has(t, id)
    ensures var k := IndexOf(t, id).value; Remove(t, id) == t[..k] + t[k + 1..]
    decreases |t|, 1
  {
    var t' := t[1..];
    if t[0].id == id {
      assert !Has(t', id) by {
        assert forall i :: 0 <= i < |t'| ==> t'[i] == t[i + 1];
      }
      RemoveAbsent(t', id);
      assert t[..0] + t[1..] == t';
    } else {
      RemoveExactStep(t, id);
    }
  }

  lemma {:induction false} RemoveExactStep<T(!new)>(t: Table<T>, id: Id)
    requires UniqueIds(t)
    requires Has(t, id)
    requires t[0].id != id
    ensures var k := IndexOf(t, id).value; Remove(t, id) == t[..k] + t[k + 1..]
    decreases |t|, 0
  {
    var t' := t[1..];
    assert UniqueIds(t') && Has(t', id) by {
      assert forall i :: 0 <= i < |t'| ==> t'[i] == t[i + 1];
    }
    RemoveExact(t', id);
    var k' := IndexOf(t', id).value;
    assert IndexOf(t, id).value == k' + 1;
    assert Remove(t, id) == [t[0]] + Remove(t', id);
    ConsSlices(t, k');
  }

  lemma ConsSlices<E>(t: seq<E>, k: nat)
    requires k + 1 < |t|
    ensures [t[0]] + (t[1..][..k] + t[1..][k + 1..]) == t[..k + 1] + t[k + 2..]
  {
    assert t[1..][..k] == t[1..k + 1];
    assert t[1..][k + 1..] == t[k + 2..];
    assert t[..k + 1] == [t[0]] + t[1..k + 1];
  }

  /** Removing an id that is not present changes nothing. */
  lemma {:induction false} RemoveAbsent<T(!new)>(t: Table<T>, id: Id)
    requires !Has(t, id)
    ensures Remove(t, id) == t
  {
    if |t| > 0 {
      assert t[0].id != id;
      assert forall i :: 0 <= i < |t[1..]| ==> t[1..][i] == t[i + 1];
      RemoveAbsent(t[1..], id);
      assert [t[0]] + t[1..] == t;
    }
  }

  /** Number of documents whose contents satisfy `p` (`countDocuments(filter)`). */
  function Count<T>(t: Table<T>, p: T -> bool): (n: nat)
    ensures n <= |t|
    ensures n == 0 <==> forall i :: 0 <= i < |t| ==> !p(t[i].val)
    ensures n == |t| <==> forall i :: 0 <= i < |t| ==> p(t[i].val)
  {
    if |t| == 0 then 0
    else (if p(t[0].val) then 1 else 0) + Count(t[1..], p)
  }

  /** Replacing one document changes the count by what the old and new contents contribute. */
  lemma {:induction false} CountUpdate<T>(t: Table<T>, k: int, d: Doc<T>, p: T -> bool)
    requires 0 <= k < |t|
    ensures Count(t[k := d], p) == Count(t, p) - (if p(t[k].val) then 1 else 0) + (if p(d.val) then 1 else 0)
  {
    if k == 0 {
      assert t[k := d][1..] == t[1..];
    } else {
      assert t[k := d][1..] == t[1..][k - 1 := d];
      CountUpdate(t[1..], k - 1, d, p);
    }
  }

  /** Under a unique index, `Put` replaces the one document at the id's position. */
  lemma PutIsUpdate<T>(t: Table<T>, id: Id, v: T)
    requires UniqueIds(t)
    requires Has(t, id)
    ensures Put(t, id, v) == t[IndexOf(t, id).value := Doc(id, v)]
  {
    var k := IndexOf(t, id).value;
    assert forall i :: 0 <= i < |t| && i != k ==> t[i].id != id;
  }

  /** Documents matching two exclusive filters are never more than the collection. */
  lemma {:induction false} CountDisjoint<T>(t: Table<T>, p: T -> bool, q: T -> bool)
    requires forall i :: 0 <= i < |t| ==> !(p(t[i].val) && q(t[i].val))
    ensures Count(t, p) + Count(t, q) <= |t|
  {
    if |t| > 0 {
      assert forall i :: 0 <= i < |t[1..]| ==> t[1..][i] == t[i + 1];
      CountDisjoint(t[1..], p, q);
    }
  }

  /** `find(filter)`: the documents whose contents satisfy `p`, in table order. */
  function Filter<T(!new)>(t: Table<T>, p: T -> bool): (r: Table<T>)
    ensures |r| == Count(t, p)
    ensures forall d :: d in r <==> d in t && p(d.val)
  {
    if |t| == 0 then []
    else if p(t[0].val) then [t[0]] + Filter(t[1..], p)
    else Filter(t[1..], p)
  }

  /** `sort({key: -1})`: ordered by a numeric key, largest first. */
  predicate SortedDesc<E>(s: seq<E>, key: E -> int) {
    forall i, j :: 0 <= i < j < |s| ==> key(s[i]) >= key(s[j])
  }

  function InsertDesc<E(!new)>(x: E, s: seq<E>, key: E -> int): (r: seq<E>)
    requires SortedDesc(s, key)
    ensures SortedDesc(r, key)
    ensures multiset(r) == multiset(s) + multiset{x}
  {
    if |s| == 0 then [x]
    else if key(x) >= key(s[0]) then [x] + s
    else
      var rest := InsertDesc(x, s[1..], key);
      assert s == [s[0]] + s[1..];
      BoundedBy(rest, s[1..], x, key, key(s[0]));
      [s[0]] + rest
  }

  /** Every element of `r`, a permutation of `s` plus `x`, is bounded by `k`
      when `s`'s elements and `x` are. */
  lemma BoundedBy<E>(r: seq<E>, s: seq<E>, x: E, key: E -> int, k: int)
    requires multiset(r) == multiset(s) + multiset{x}
    requires key(x) <= k
    requires forall i :: 0 <= i < |s| ==> key(s[i]) <= k
    requires SortedDesc(r, key)
    ensures forall i :: 0 <= i < |r| ==> key(r[i]) <= k
  {
    forall i | 0 <= i < |r| ensures key(r[i]) <= k {
      assert r[i] in multiset(r);
      if r[i] != x {
        assert r[i] in multiset(s);
        assert r[i] in s;
      }
    }
  }

  /** A sort by descending key. Ties keep no particular order in the database; the
      properties below hold for every tie-break. */
  function SortDesc<E(!new)>(s: seq<E>, key: E -> int): (r: seq<E>)
    ensures SortedDesc(r, key)
    ensures multiset(r) == multiset(s)
    ensures |r| == |s|
  {
    if |s| == 0 then []
    else
      assert s == [s[0]] + s[1..];
      InsertDesc(s[0], SortDesc(s[1..], key), key)
  }

  /** A prefix takes each element at most as often as the whole sequence has it. */
  lemma PrefixMultiset<E>(s: seq<E>, k: nat)
    requires k <= |s|
    ensures multiset(s[..k]) <= multiset(s)
  {
    assert s == s[..k] + s[k..];
  }

  /** A prefix of a descending sequence is descending and takes its elements
      from the sequence. */
  lemma PrefixSorted<E>(s: seq<E>, key: E -> int, k: nat)
    requires k <= |s|
    requires SortedDesc(s, key)
    ensures SortedDesc(s[..k], key)
    ensures forall x :: x in s[..k] ==> x in s
    ensures multiset(s[..k]) <= multiset(s)
  {
    assert forall i :: 0 <= i < k ==> s[..k][i] == s[i];
    PrefixMultiset(s, k);
  }

  /** `limit(n)` after a descending sort keeps the top `n`: whatever it drops is no
      larger than anything it keeps. */
  lemma TopOfSorted<E>(s: seq<E>, key: E -> int, n: nat, x: E)
    requires SortedDesc(s, key)
    requires x in s && x !in s[..Min(n, |s|)]
    ensures forall y :: y in s[..Min(n, |s|)] ==> key(y) >= key(x)
  {
    var k := Min(n, |s|);
    var j :| 0 <= j < |s| && s[j] == x;
    assert forall i :: 0 <= i < k ==> s[..k][i] == s[i];
    forall y | y in s[..k] ensures key(y) >= key(x) {
      var i :| 0 <= i < k && s[..k][i] == y;
      assert s[i] == y;
    }
  }
}
