/**
 An enrollment table: rows that each link one user to one course. Both
 variants of the application keep one (`CourseMember` in pgmles, `Classes` in
 flaskblog); their rows differ, so everything here is stated over any row type
 together with the function that reads the (user, course) pair off a row.
 The store puts no uniqueness constraint on the pair: at most one row per pair
 is an invariant that only the course page's handler maintains.
 */
module Enrollment {
  import opened Orm

  /** The (user id, course id) pair a row stands for. */
  datatype Pair = Pair(user: int, course: int)

  /** Some row of the table stands for `p`. */
  predicate Enrolled<R>(rows: seq<R>, key: R -> Pair, p: Pair) {
    exists i :: 0 <= i < |rows| && key(rows[i]) == p
  }

  /** No two rows stand for the same pair. */
  predicate AtMostOncePerPair<R>(rows: seq<R>, key: R -> Pair) {
    forall i, j :: 0 <= i < j < |rows| ==> key(rows[i]) != key(rows[j])
  }

  /** `filter_by(user_id=…, course_id=…).first()`: the first row for `p`. */
  function Lookup<R>(rows: seq<R>, key: R -> Pair, p: Pair): (r: Option<nat>)
    ensures r.None? <==> !Enrolled(rows, key, p)
    ensures r.Some? ==> r.value < |rows| && key(rows[r.value]) == p
    ensures r.Some? ==> forall j :: 0 <= j < r.value ==> key(rows[j]) != p
  {
    First(rows, (x: R) => key(x) == p)
  }

  /**
   The single command the course page's two forms amount to: insert `row`
   when the pair has no row, otherwise delete the first row for it.
   */
  function Toggle<R>(rows: seq<R>, key: R -> Pair, row: R): (r: seq<R>)
    ensures Enrolled(rows, key, key(row)) <==> |r| + 1 == |rows|
    ensures !Enrolled(rows, key, key(row)) <==> r == rows + [row]
    ensures Enrolled(rows, key, key(row)) ==>
      exists i :: 0 <= i < |rows|
        && key(rows[i]) == key(row)
        && (forall j :: 0 <= j < i ==> key(rows[j]) != key(row))
        && r == rows[..i] + rows[i + 1..]
  {
    match Lookup(rows, key, key(row))
    case None => rows + [row]
    case Some(i) => Delete(rows, i)
  }

  /** Inserting a row for a pair that has none keeps the invariant and enrolls the pair. */
  lemma InsertKeepsAtMostOnce<R>(rows: seq<R>, key: R -> Pair, row: R)
    requires AtMostOncePerPair(rows, key)
    requires !Enrolled(rows, key, key(row))
    ensures AtMostOncePerPair(rows + [row], key)
    ensures Enrolled(rows + [row], key, key(row))
  {
    var r := rows + [row];
    assert key(r[|rows|]) == key(row);
    forall i, j | 0 <= i < j < |r|
      ensures key(r[i]) != key(r[j])
    {
      if j == |rows| {
        assert key(rows[i]) != key(row);
      } else {
        assert r[i] == rows[i] && r[j] == rows[j];
      }
    }
  }

  /**
   Deleting a row keeps the invariant; under the invariant the deleted row's
   pair is no longer enrolled, and every other pair keeps its enrollment.
   */
  lemma DeleteKeepsAtMostOnce<R>(rows: seq<R>, key: R -> Pair, i: nat)
    requires AtMostOncePerPair(rows, key)
    requires i < |rows|
    ensures AtMostOncePerPair(Delete(rows, i), key)
    ensures !Enrolled(Delete(rows, i), key, key(rows[i]))
    ensures forall q :: q != key(rows[i]) ==> (Enrolled(Delete(rows, i), key, q) <==> Enrolled(rows, key, q))
  {
    var r := Delete(rows, i);
    forall a, b | 0 <= a < b < |r|
      ensures key(r[a]) != key(r[b])
    {
      var a' := if a < i then a else a + 1;
      var b' := if b < i then b else b + 1;
      assert r[a] == rows[a'] && r[b] == rows[b'];
    }
    forall k | 0 <= k < |r|
      ensures key(r[k]) != key(rows[i])
    {
      var k' := if k < i then k else k + 1;
      assert r[k] == rows[k'];
    }
    forall q | q != key(rows[i])
      ensures Enrolled(r, key, q) <==> Enrolled(rows, key, q)
    {
      if Enrolled(rows, key, q) {
        var k :| 0 <= k < |rows| && key(rows[k]) == q;
        var k' := if k < i then k else k - 1;
        assert r[k'] == rows[k];
      }
      if Enrolled(r, key, q) {
        var k :| 0 <= k < |r| && key(r[k]) == q;
        var k' := if k < i then k else k + 1;
        assert r[k] == rows[k'];
      }
    }
  }

  /** The toggle keeps at most one row per pair, and flips the toggled pair's enrollment. */
  lemma ToggleKeepsAtMostOnce<R>(rows: seq<R>, key: R -> Pair, row: R)
    requires AtMostOncePerPair(rows, key)
    ensures AtMostOncePerPair(Toggle(rows, key, row), key)
    ensures Enrolled(Toggle(rows, key, row), key, key(row)) <==> !Enrolled(rows, key, key(row))
  {
    match Lookup(rows, key, key(row))
    case None => InsertKeepsAtMostOnce(rows, key, row);
    case Some(i) => DeleteKeepsAtMostOnce(rows, key, i);
  }

  /** Toggling a pair that has no row twice gives back the very same table. */
  lemma ToggleTwiceRestores<R>(rows: seq<R>, key: R -> Pair, row: R)
    requires !Enrolled(rows, key, key(row))
    ensures Toggle(Toggle(rows, key, row), key, row) == rows
  {
    var once := rows + [row];
    assert Toggle(rows, key, row) == once;
    assert key(once[|rows|]) == key(row);
    assert forall j :: 0 <= j < |rows| ==> once[j] == rows[j];
    assert Lookup(once, key, key(row)) == Some(|rows|);
    assert Delete(once, |rows|) == rows;
  }

  /** Toggling a pair that has a row twice gives back a table with the same rows. */
  lemma ToggleTwiceSameRows<R>(rows: seq<R>, key: R -> Pair, row: R)
    requires AtMostOncePerPair(rows, key)
    requires Enrolled(rows, key, key(row))
    requires forall j :: 0 <= j < |rows| && key(rows[j]) == key(row) ==> rows[j] == row
    ensures multiset(Toggle(Toggle(rows, key, row), key, row)) == multiset(rows)
  {
    var i := Lookup(rows, key, key(row)).value;
    DeleteKeepsAtMostOnce(rows, key, i);
    var once := Delete(rows, i);
    assert Toggle(once, key, row) == once + [row];
  }

  /** The course of each row held by `user`, in table order. */
  function CoursesOf<R>(rows: seq<R>, key: R -> Pair, user: int): (cs: seq<int>)
    ensures |cs| <= |rows|
    ensures forall c :: c in cs <==> Enrolled(rows, key, Pair(user, c))
  {
    if |rows| == 0 then []
    else
      var rest := CoursesOf(rows[1..], key, user);
      assert forall c :: Enrolled(rows[1..], key, Pair(user, c)) ==> Enrolled(rows, key, Pair(user, c)) by {
        forall c | Enrolled(rows[1..], key, Pair(user, c))
          ensures Enrolled(rows, key, Pair(user, c))
        {
          var k :| 0 <= k < |rows[1..]| && key(rows[1..][k]) == Pair(user, c);
          assert key(rows[k + 1]) == Pair(user, c);
        }
      }
      assert forall c :: Enrolled(rows, key, Pair(user, c)) && key(rows[0]) != Pair(user, c) ==> Enrolled(rows[1..], key, Pair(user, c)) by {
        forall c | Enrolled(rows, key, Pair(user, c)) && key(rows[0]) != Pair(user, c)
          ensures Enrolled(rows[1..], key, Pair(user, c))
        {
          var k :| 0 <= k < |rows| && key(rows[k]) == Pair(user, c);
          assert k > 0 && rows[1..][k - 1] == rows[k];
        }
      }
      if key(rows[0]).user == user then [key(rows[0]).course] + rest else rest
  }

  /** No value occurs twice. */
  predicate Distinct(cs: seq<int>) {
    forall i, j :: 0 <= i < j < |cs| ==> cs[i] != cs[j]
  }

  /** Under the invariant the list of a user's courses names no course twice. */
  lemma {:induction false} CoursesOfDistinct<R>(rows: seq<R>, key: R -> Pair, user: int)
    requires AtMostOncePerPair(rows, key)
    ensures Distinct(CoursesOf(rows, key, user))
  {
    if |rows| > 0 {
      var tail := rows[1..];
      assert AtMostOncePerPair(tail, key) by {
        forall i, j | 0 <= i < j < |tail|
          ensures key(tail[i]) != key(tail[j])
        {
          assert tail[i] == rows[i + 1] && tail[j] == rows[j + 1];
        }
      }
      CoursesOfDistinct(tail, key, user);
      var rest := CoursesOf(tail, key, user);
      assert Distinct(rest);
      if key(rows[0]).user == user {
        var c := key(rows[0]).course;
        forall k | 0 <= k < |tail|
          ensures key(tail[k]) != Pair(user, c)
        {
          assert tail[k] == rows[k + 1];
        }
        assert c !in rest;
        var cs := [c] + rest;
        forall i, j | 0 <= i < j < |cs|
          ensures cs[i] != cs[j]
        {
          if i == 0 {
            assert cs[j] == rest[j - 1] && rest[j - 1] in rest;
          } else {
            assert cs[i] == rest[i - 1] && cs[j] == rest[j - 1];
          }
        }
        assert CoursesOf(rows, key, user) == cs;
      }
    }
  }
}
