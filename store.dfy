/** An in-memory stand-in for the JPA repositories: rows by id, the store order
    in which paged queries enumerate them, and the next generated identity. */
module Store {
  import opened Errors

  /** A table: rows keyed by id, the order in which the store lists them
      (assumed to be insertion order) and the id the next insert receives. */
  datatype Table<T> = Table(rows: map<int, T>, order: seq<int>, nextId: int)

  /** The empty table; generated identities start at 1. */
  function EmptyTable<T>(): Table<T>
  {
    Table(map[], [], 1)
  }

  /** Every stored id is listed exactly once, and no stored id reaches nextId. */
  ghost predicate WellFormed<T>(t: Table<T>)
  {
    && Distinct(t.order)
    && (forall i :: 0 <= i < |t.order| ==> t.order[i] in t.rows)
    && (forall k :: k in t.rows ==> k in t.order)
    && (forall k :: k in t.rows ==> k < t.nextId)
  }

  /** No element occurs twice. */
  ghost predicate Distinct<T>(s: seq<T>)
  {
    forall i, j :: 0 <= i < j < |s| ==> s[i] != s[j]
  }

  function Min(a: int, b: int): int
  {
    if a <= b then a else b
  }

  /** The rows, in store order. */
  function Listing<T>(t: Table<T>): (r: seq<T>)
    requires forall i :: 0 <= i < |t.order| ==> t.order[i] in t.rows
    ensures |r| == |t.order|
    ensures forall i :: 0 <= i < |r| ==> r[i] == t.rows[t.order[i]]
  {
    seq(|t.order|, i requires 0 <= i < |t.order| => t.rows[t.order[i]])
  }

  /** Every stored row appears in the listing. */
  lemma StoredIsListed<T>(t: Table<T>, k: int)
    requires WellFormed(t) && k in t.rows
    ensures t.rows[k] in Listing(t)
  {
    var i :| 0 <= i < |t.order| && t.order[i] == k;
    assert Listing(t)[i] == t.rows[k];
  }

  /** PageRequest.of(page, size) applied to a result list: the slice
      [page*size, min((page+1)*size, n)) of it. */
  function Page<T>(s: seq<T>, page: nat, size: nat): (r: seq<T>)
    requires size >= 1
    ensures |r| <= size
    ensures r == [] <==> |s| <= page * size
    ensures page * size < |s| ==> |r| == Min(size, |s| - page * size)
    ensures forall i :: 0 <= i < |r| ==> page * size + i < |s| && r[i] == s[page * size + i]
  {
    var lo := Min(page * size, |s|);
    s[lo .. Min(lo + size, |s|)]
  }

  /** The first k pages, one after the other. */
  function Pages<T>(s: seq<T>, k: nat, size: nat): seq<T>
    requires size >= 1
  {
    if k == 0 then [] else Pages(s, k - 1, size) + Page(s, k - 1, size)
  }

  /** Reading pages 0, 1, ..., k-1 in turn yields the first k*size rows in
      store order: paging neither skips nor repeats a row. */
  lemma {:induction false} PagesArePrefix<T>(s: seq<T>, k: nat, size: nat)
    requires size >= 1
    ensures Pages(s, k, size) == s[..Min(k * size, |s|)]
  {
    if k > 0 {
      PagesArePrefix(s, k - 1, size);
      var lo, hi := (k - 1) * size, k * size;
      assert hi == lo + size;
      var p := Page(s, k - 1, size);
      assert Pages(s, k, size) == s[..Min(lo, |s|)] + p;
      if lo < |s| {
        var m := Min(hi, |s|);
        assert p == s[lo..m];
        assert s[..m] == s[..lo] + s[lo..m];
      } else {
        assert p == [] && Min(hi, |s|) == |s| == Min(lo, |s|);
      }
    }
  }

  /** Row i sits at position i % size of page i / size. */
  lemma RowOnItsPage<T>(s: seq<T>, i: nat, size: nat)
    requires size >= 1 && i < |s|
    ensures i % size < |Page(s, i / size, size)|
    ensures Page(s, i / size, size)[i % size] == s[i]
  {
    var q, m := i / size, i % size;
    assert q * size + m == i;
    assert q * size <= i;
  }

  /** The rows of s that satisfy keep; FilterAppend and FilterSingle pin down
      that they keep their original order. */
  function Filter<T>(s: seq<T>, keep: T -> bool): (r: seq<T>)
    ensures |r| <= |s|
    ensures forall i :: 0 <= i < |r| ==> r[i] in s && keep(r[i])
  {
    if |s| == 0 then []
    else
      assert s == [s[0]] + s[1..];
      (if keep(s[0]) then [s[0]] else []) + Filter(s[1..], keep)
  }

  /** Every row of s that satisfies keep is in the filtered list. */
  lemma {:induction false} FilterComplete<T>(s: seq<T>, keep: T -> bool)
    ensures forall i :: 0 <= i < |s| && keep(s[i]) ==> s[i] in Filter(s, keep)
  {
    if |s| > 0 {
      FilterComplete(s[1..], keep);
      assert forall i :: 1 <= i < |s| ==> s[i] == s[1..][i - 1];
    }
  }

  /** Filtering a concatenation filters each part in turn: the kept rows keep
      the order they have in s. */
  lemma {:induction false} FilterAppend<T>(a: seq<T>, b: seq<T>, keep: T -> bool)
    ensures Filter(a + b, keep) == Filter(a, keep) + Filter(b, keep)
  {
    if |a| > 0 {
      assert (a + b)[1..] == a[1..] + b;
      assert (a + b)[0] == a[0];
      FilterAppend(a[1..], b, keep);
    } else {
      assert a + b == b;
    }
  }

  /** A single row is kept exactly when it satisfies keep. */
  lemma FilterSingle<T>(x: T, keep: T -> bool)
    ensures Filter([x], keep) == if keep(x) then [x] else []
  {
    assert [x][1..] == [];
  }

  /** Filtering a list without repeats yields a list without repeats. */
  lemma {:induction false} FilterDistinct<T>(s: seq<T>, keep: T -> bool)
    requires Distinct(s)
    ensures Distinct(Filter(s, keep))
  {
    if |s| > 0 {
      FilterDistinct(s[1..], keep);
      var r, rest := Filter(s, keep), Filter(s[1..], keep);
      assert Distinct(rest);
      if keep(s[0]) {
        assert r == [s[0]] + rest;
        forall i, j | 0 <= i < j < |r| ensures r[i] != r[j] {
          if i == 0 {
            assert r[j] == rest[j - 1] && rest[j - 1] in s[1..];
            assert s[0] !in s[1..] by {
              forall m | 0 <= m < |s| - 1 ensures s[1..][m] != s[0] {
                assert s[1..][m] == s[m + 1];
              }
            }
          } else {
            assert r[i] == rest[i - 1] && r[j] == rest[j - 1];
          }
        }
      } else {
        assert r == rest;
      }
    }
  }

  /** The first element of s that satisfies p. */
  function FindFirst<T>(s: seq<T>, p: T -> bool): (r: Option<T>)
    ensures r.Some? <==> exists i :: 0 <= i < |s| && p(s[i])
    ensures r.Some? ==> r.value in s && p(r.value)
  {
    if |s| == 0 then None
    else if p(s[0]) then Some(s[0])
    else
      var r := FindFirst(s[1..], p);
      assert forall i :: 1 <= i < |s| ==> s[i] == s[1..][i - 1];
      r
  }

  /** What FindFirst finds is the first match: no earlier element satisfies p. */
  lemma {:induction false} FindFirstIsFirst<T>(s: seq<T>, p: T -> bool)
    requires FindFirst(s, p).Some?
    ensures exists i :: 0 <= i < |s| && s[i] == FindFirst(s, p).value && forall j :: 0 <= j < i ==> !p(s[j])
  {
    if !p(s[0]) {
      FindFirstIsFirst(s[1..], p);
      var i :| 0 <= i < |s[1..]| && s[1..][i] == FindFirst(s, p).value && forall j :: 0 <= j < i ==> !p(s[1..][j]);
      assert s[i + 1] == FindFirst(s, p).value;
      forall j | 0 <= j < i + 1 ensures !p(s[j]) {
        if j > 0 {
          assert s[j] == s[1..][j - 1];
        }
      }
    }
  }

  /** The id a save writes to. Spring Data saves an entity without an id by
      persisting it under a newly generated id; an entity with an id is merged:
      it replaces the stored row with that id, and if no row has that id it is
      inserted under a newly generated id. */
  function SlotFor<T>(t: Table<T>, id: Option<int>): (k: int)
    requires WellFormed(t)
    ensures k in t.rows <==> id.Some? && id.value in t.rows
    ensures k in t.rows ==> id == Some(k)
    ensures k !in t.rows ==> k == t.nextId
  {
    if id.Some? && id.value in t.rows then id.value else t.nextId
  }

  /** Writes v at id k: in place when k is stored, otherwise as a new row at the
      end of the store order, with the generated-id counter moved past k. */
  function Put<T>(t: Table<T>, k: int, v: T): (r: Table<T>)
    ensures r.rows.Keys == t.rows.Keys + {k} && r.rows[k] == v
    ensures forall j :: j in t.rows && j != k ==> r.rows[j] == t.rows[j]
    ensures k in t.rows ==> r.order == t.order && r.nextId == t.nextId
    ensures k !in t.rows ==> r.order == t.order + [k] && k < r.nextId
  {
    if k in t.rows then t.(rows := t.rows[k := v])
    else Table(t.rows[k := v], t.order + [k], if k < t.nextId then t.nextId else k + 1)
  }

  /** The table without the row at id k. */
  function Delete<T>(t: Table<T>, k: int): (r: Table<T>)
    ensures r.rows.Keys == t.rows.Keys - {k}
    ensures forall j :: j in r.rows ==> r.rows[j] == t.rows[j]
    ensures k !in r.order && |r.order| <= |t.order|
    ensures forall i :: 0 <= i < |t.order| && t.order[i] != k ==> t.order[i] in r.order
    ensures r.nextId == t.nextId
  {
    FilterComplete(t.order, x => x != k);
    Table(t.rows - {k}, Filter(t.order, x => x != k), t.nextId)
  }

  /** Put keeps the table well formed and lists v at k, in place or at the end. */
  lemma PutWellFormed<T>(t: Table<T>, k: int, v: T)
    requires WellFormed(t)
    ensures WellFormed(Put(t, k, v))
    ensures Put(t, k, v).rows == t.rows[k := v]
    ensures k in t.rows ==> Put(t, k, v).order == t.order
    ensures k !in t.rows ==> Put(t, k, v).order == t.order + [k]
  {
  }

  /** A row written under an id not yet stored is listed last. */
  lemma ListingAfterInsert<T>(t: Table<T>, k: int, v: T)
    requires WellFormed(t) && k !in t.rows
    ensures WellFormed(Put(t, k, v))
    ensures Listing(Put(t, k, v)) == Listing(t) + [v]
  {
    PutWellFormed(t, k, v);
    var after := Listing(Put(t, k, v));
    forall i | 0 <= i < |t.order|
      ensures after[i] == Listing(t)[i]
    {
      assert t.order[i] in t.rows && t.order[i] != k;
    }
  }

  /** Delete keeps the table well formed and unlists exactly k. */
  lemma DeleteWellFormed<T>(t: Table<T>, k: int)
    requires WellFormed(t)
    ensures WellFormed(Delete(t, k))
    ensures Delete(t, k).rows.Keys == t.rows.Keys - {k}
    ensures k !in Delete(t, k).order
  {
    FilterDistinct(t.order, x => x != k);
  }

  /** Filtering a list every element of which is kept gives the list back. */
  lemma {:induction false} FilterKeepsAll<T>(s: seq<T>, keep: T -> bool)
    requires forall i :: 0 <= i < |s| ==> keep(s[i])
    ensures Filter(s, keep) == s
  {
    if |s| > 0 {
      assert forall i :: 0 <= i < |s[1..]| ==> s[1..][i] == s[i + 1];
      FilterKeepsAll(s[1..], keep);
    }
  }

  /** Filtering out the one element a list must drop leaves the rest as it was. */
  lemma FilterDropsOne<T>(before: seq<T>, x: T, after: seq<T>, keep: T -> bool)
    requires forall i :: 0 <= i < |before| ==> keep(before[i])
    requires forall i :: 0 <= i < |after| ==> keep(after[i])
    requires !keep(x)
    ensures Filter(before + [x] + after, keep) == before + after
  {
    FilterKeepsAll(before, keep);
    FilterSingle(x, keep);
    FilterAppend(before, [x], keep);
    assert Filter(before + [x], keep) == before;
    FilterKeepsAll(after, keep);
    FilterAppend(before + [x], after, keep);
  }

  /** Deleting a stored id takes it out of the store order and leaves the
      other ids in the order they had. */
  lemma DeleteKeepsOrder<T>(t: Table<T>, k: int)
    requires WellFormed(t) && k in t.rows
    ensures exists p :: 0 <= p < |t.order| && t.order[p] == k
              && Delete(t, k).order == t.order[..p] + t.order[p + 1..]
  {
    var p :| 0 <= p < |t.order| && t.order[p] == k;
    var before, after := t.order[..p], t.order[p + 1..];
    assert t.order == before + [k] + after;
    forall i | 0 <= i < |before| ensures before[i] != k {
      assert before[i] == t.order[i];
    }
    forall i | 0 <= i < |after| ensures after[i] != k {
      assert after[i] == t.order[p + 1 + i];
    }
    FilterDropsOne(before, k, after, x => x != k);
  }
}
