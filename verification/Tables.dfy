/** Database tables as sequences of rows, and weighted sums over them. */
module Tables {

  /** SELECT SUM(w) over a table. */
  function Total<R>(rows: seq<R>, w: R -> nat): nat {
    if |rows| == 0 then 0 else w(rows[0]) + Total(rows[1..], w)
  }

  /** DELETE of the rows that fail `p`. */
  function Keep<R>(rows: seq<R>, p: R -> bool): seq<R> {
    if |rows| == 0 then []
    else if p(rows[0]) then [rows[0]] + Keep(rows[1..], p)
    else Keep(rows[1..], p)
  }

  /** UPDATE of every row. */
  function Update<R>(rows: seq<R>, g: R -> R): (r: seq<R>)
    ensures |r| == |rows|
  {
    seq(|rows|, i requires 0 <= i < |rows| => g(rows[i]))
  }

  lemma {:induction false} TotalAppend<R>(rows: seq<R>, x: R, w: R -> nat)
    ensures Total(rows + [x], w) == Total(rows, w) + w(x)
  {
    if |rows| == 0 {
      assert rows + [x] == [x];
      assert Total([x], w) == w(x) + Total([x][1..], w);
    } else {
      assert (rows + [x])[1..] == rows[1..] + [x];
      TotalAppend(rows[1..], x, w);
    }
  }

  /** Pointwise smaller weights sum to less. */
  lemma {:induction false} TotalMono<R>(rows: seq<R>, w: R -> nat, w': R -> nat)
    requires forall i :: 0 <= i < |rows| ==> w(rows[i]) <= w'(rows[i])
    ensures Total(rows, w) <= Total(rows, w')
  {
    if |rows| > 0 {
      assert forall i :: 0 <= i < |rows[1..]| ==> rows[1..][i] == rows[i + 1];
      TotalMono(rows[1..], w, w');
    }
  }

  lemma {:induction false} TotalKeep<R>(rows: seq<R>, p: R -> bool, w: R -> nat)
    ensures Total(Keep(rows, p), w) <= Total(rows, w)
  {
    if |rows| > 0 {
      TotalKeep(rows[1..], p, w);
      var rest := Keep(rows[1..], p);
      assert ([rows[0]] + rest)[1..] == rest;
    }
  }

  lemma {:induction false} TotalUpdate<R>(rows: seq<R>, g: R -> R, w: R -> nat)
    requires forall i :: 0 <= i < |rows| ==> w(g(rows[i])) <= w(rows[i])
    ensures Total(Update(rows, g), w) <= Total(rows, w)
  {
    if |rows| > 0 {
      assert Update(rows, g)[1..] == Update(rows[1..], g);
      assert forall i :: 0 <= i < |rows[1..]| ==> rows[1..][i] == rows[i + 1];
      TotalUpdate(rows[1..], g, w);
    }
  }

  lemma {:induction false} KeepIn<R>(rows: seq<R>, p: R -> bool, x: R)
    ensures x in Keep(rows, p) <==> x in rows && p(x)
  {
    if |rows| > 0 {
      KeepIn(rows[1..], p, x);
      assert x in rows <==> x == rows[0] || x in rows[1..];
    }
  }

  /** A deletion takes every copy of a row or none. */
  lemma {:induction false} KeepCount<R>(rows: seq<R>, p: R -> bool, x: R)
    ensures multiset(Keep(rows, p))[x] == if p(x) then multiset(rows)[x] else 0
  {
    if |rows| > 0 {
      KeepCount(rows[1..], p, x);
      assert rows == [rows[0]] + rows[1..];
    }
  }

  lemma UpdateIn<R>(rows: seq<R>, g: R -> R, x: R)
    ensures x in Update(rows, g) <==> exists y :: y in rows && x == g(y)
  {
    if x in Update(rows, g) {
      var i :| 0 <= i < |rows| && Update(rows, g)[i] == x;
      assert rows[i] in rows;
    }
    if y :| y in rows && x == g(y) {
      var i :| 0 <= i < |rows| && rows[i] == y;
      assert Update(rows, g)[i] == x;
    }
  }

  /** What deleting at least one row takes away. */
  lemma {:induction false} TotalDrop<R>(rows: seq<R>, p: R -> bool, w: R -> nat, x: R)
    requires x in rows && !p(x)
    ensures Total(Keep(rows, p), w) + w(x) <= Total(rows, w)
  {
    var rest := Keep(rows[1..], p);
    assert ([rows[0]] + rest)[1..] == rest;
    if rows[0] == x {
      TotalKeep(rows[1..], p, w);
    } else {
      TotalDrop(rows[1..], p, w, x);
    }
  }
}
