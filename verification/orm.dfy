/**
 The few pieces of the web framework and of the object-relational mapper that
 the handlers lean on, reduced to values:
 - a request is a page load (GET) or a submission of the page's form (POST);
 - a table is a sequence of rows in primary-key (rowid) order, and
   `query.filter_by(...).first()` is the first row, in that order, that matches;
 - deleting a row removes it and keeps the others in order;
 - a new integer primary key is one more than the largest key in the table,
   or 1 when the table is empty.
 */
module Orm {

  datatype Option<+T> = None | Some(value: T)

  /** What reaches a handler: a page load, or a POST carrying a form. */
  datatype Request<+F> = Get | Post(form: F)

  /** Index of the first row satisfying `p`: the mapper's `.first()`. */
  function First<T>(rows: seq<T>, p: T -> bool): (r: Option<nat>)
    ensures r.Some? ==> r.value < |rows| && p(rows[r.value])
    ensures r.Some? ==> forall j :: 0 <= j < r.value ==> !p(rows[j])
    ensures r.None? <==> forall j :: 0 <= j < |rows| ==> !p(rows[j])
  {
    if |rows| == 0 then None
    else if p(rows[0]) then Some(0)
    else match First(rows[1..], p)
      case None => None
      case Some(k) => Some(k + 1)
  }

  /** The table once row `i` has been deleted. */
  function Delete<T>(rows: seq<T>, i: nat): (r: seq<T>)
    requires i < |rows|
    ensures |r| == |rows| - 1
    ensures forall j :: 0 <= j < i ==> r[j] == rows[j]
    ensures forall j :: i <= j < |r| ==> r[j] == rows[j + 1]
    ensures multiset(r) + multiset{rows[i]} == multiset(rows)
  {
    assert rows == rows[..i] + [rows[i]] + rows[i + 1..];
    rows[..i] + rows[i + 1..]
  }

  /** The largest key of a non-empty table. */
  function MaxOf(ids: seq<int>): (m: int)
    requires |ids| > 0
    ensures m in ids
    ensures forall k :: k in ids ==> k <= m
  {
    if |ids| == 1 then ids[0]
    else
      var rest := MaxOf(ids[1..]);
      assert ids == [ids[0]] + ids[1..];
      if ids[0] < rest then rest else ids[0]
  }

  /** The key given to a row inserted without one. */
  function NextId(ids: seq<int>): (id: int)
    ensures forall k :: k in ids ==> k < id
    ensures |ids| == 0 ==> id == 1
    ensures |ids| > 0 ==> id - 1 in ids
  {
    if |ids| == 0 then 1 else MaxOf(ids) + 1
  }

  /** The key a row inserted into `rows` without one receives, `key` reading a row's key. */
  function NextKey<R>(rows: seq<R>, key: R -> int): (k: int)
    ensures forall i :: 0 <= i < |rows| ==> key(rows[i]) < k
    ensures |rows| == 0 ==> k == 1
    ensures |rows| > 0 ==> exists i :: 0 <= i < |rows| && key(rows[i]) == k - 1
  {
    var ids := seq(|rows|, i requires 0 <= i < |rows| => key(rows[i]));
    assert forall i :: 0 <= i < |rows| ==> key(rows[i]) == ids[i] && ids[i] in ids;
    NextId(ids)
  }

  /** When every key is below `k` and `k - 1` is a key (or the table is empty and `k` is 1), `k` is the next key. */
  lemma NextKeyIs<R>(rows: seq<R>, key: R -> int, k: int)
    requires forall i :: 0 <= i < |rows| ==> key(rows[i]) < k
    requires |rows| == 0 ==> k == 1
    requires |rows| > 0 ==> exists i :: 0 <= i < |rows| && key(rows[i]) == k - 1
    ensures NextKey(rows, key) == k
  {
    if |rows| > 0 {
      var i :| 0 <= i < |rows| && key(rows[i]) == k - 1;
      assert k - 1 < NextKey(rows, key);
    }
  }
}
