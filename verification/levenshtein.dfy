/** Unit-cost edit distance (spell_checker/utils.py, `levenshtein`). */
module EditDistance {

  function Min3(x: nat, y: nat, z: nat): (m: nat)
    ensures m <= x && m <= y && m <= z
    ensures m == x || m == y || m == z
  {
    if x <= y && x <= z then x else if y <= z then y else z
  }

  /** The reference definition: the least number of single-character
      insertions, deletions and substitutions turning `a` into `b`, by
      recursion on the last characters. It lies between the difference of
      the lengths and the longer length. */
  function Dist(a: string, b: string): (d: nat)
    ensures d <= if |a| >= |b| then |a| else |b|
    ensures d >= if |a| >= |b| then |a| - |b| else |b| - |a|
    decreases |a| + |b|
  {
    if |a| == 0 then |b|
    else if |b| == 0 then |a|
    else
      var a', b' := a[..|a| - 1], b[..|b| - 1];
      Min3(Dist(a', b) + 1, Dist(a, b') + 1,
           Dist(a', b') + (if a[|a| - 1] == b[|b| - 1] then 0 else 1))
  }

  /** `levenshtein(a, b)`: the early exits, then the two-row dynamic
      programme, which fills row `i` from row `i - 1` left to right. */
  method Levenshtein(a: string, b: string) returns (d: nat)
    ensures d == Dist(a, b)
  {
    if a == b {
      DistSelf(a);
      return 0;
    }
    if |a| == 0 {
      return |b|;
    }
    if |b| == 0 {
      return |a|;
    }
    var prev: seq<nat> := seq(|b| + 1, j requires 0 <= j <= |b| => j);
    FirstRow(a, b);
    var i := 0;
    while i < |a|
      invariant 0 <= i <= |a|
      invariant IsRow(a, b, i, prev)
    {
      prev := NextRow(a, b, i, prev);
      i := i + 1;
    }
    assert a[..|a|] == a && b[..|b|] == b;
    d := prev[|b|];
  }

  /** `row` holds the distances from the first `i` characters of `a` to
      every prefix of `b`. */
  ghost predicate IsRow(a: string, b: string, i: nat, row: seq<nat>)
    requires i <= |a|
  {
    |row| == |b| + 1 && forall j :: 0 <= j <= |b| ==> row[j] == Dist(a[..i], b[..j])
  }

  lemma {:induction false} FirstRow(a: string, b: string)
    ensures IsRow(a, b, 0, seq(|b| + 1, j requires 0 <= j <= |b| => j))
  {
  }

  /** The inner loop: `curr_row` built from `prev_row` and character `a[i]`. */
  method NextRow(a: string, b: string, i: nat, prev: seq<nat>) returns (curr: seq<nat>)
    requires i < |a| && IsRow(a, b, i, prev)
    ensures IsRow(a, b, i + 1, curr)
  {
    var c1 := a[i];
    curr := [i + 1];
    var j := 0;
    while j < |b|
      invariant 0 <= j <= |b|
      invariant |curr| == j + 1
      invariant forall jj :: 0 <= jj <= j ==> curr[jj] == Dist(a[..i + 1], b[..jj])
    {
      var c2 := b[j];
      var insert := prev[j + 1] + 1;
      var delete := curr[j] + 1;
      var replace := prev[j] + (if c1 != c2 then 1 else 0);
      var cell := Min3(insert, delete, replace);
      CellValue(a, b, i, j, prev[j + 1], curr[j], prev[j]);
      RowExtend(a, b, i, j, curr, cell);
      curr := curr + [cell];
      j := j + 1;
    }
  }

  /** Appending the distance to the next prefix of `b` extends a partial
      row by one cell. */
  lemma {:induction false} RowExtend(a: string, b: string, i: nat, j: nat, row: seq<nat>, cell: nat)
    requires i < |a| && j < |b| && |row| == j + 1
    requires forall jj :: 0 <= jj <= j ==> row[jj] == Dist(a[..i + 1], b[..jj])
    requires cell == Dist(a[..i + 1], b[..j + 1])
    ensures forall jj :: 0 <= jj <= j + 1 ==> (row + [cell])[jj] == Dist(a[..i + 1], b[..jj])
  {
    forall jj | 0 <= jj <= j + 1
      ensures (row + [cell])[jj] == Dist(a[..i + 1], b[..jj])
    {
      if jj <= j {
        assert (row + [cell])[jj] == row[jj];
      }
    }
  }

  /** The recurrence applied to the three neighbouring cells' values. */
  lemma CellValue(a: string, b: string, i: nat, j: nat, up: nat, left: nat, diag: nat)
    requires i < |a| && j < |b|
    requires up == Dist(a[..i], b[..j + 1]) && left == Dist(a[..i + 1], b[..j]) && diag == Dist(a[..i], b[..j])
    ensures Min3(up + 1, left + 1, diag + (if a[i] != b[j] then 1 else 0)) == Dist(a[..i + 1], b[..j + 1])
  {
    DistCell(a, b, i, j);
  }

  /** One cell of the table: the recurrence restated on prefixes. */
  lemma {:induction false} DistCell(a: string, b: string, i: nat, j: nat)
    requires i < |a| && j < |b|
    ensures Dist(a[..i + 1], b[..j + 1]) ==
            Min3(Dist(a[..i], b[..j + 1]) + 1, Dist(a[..i + 1], b[..j]) + 1,
                 Dist(a[..i], b[..j]) + (if a[i] != b[j] then 1 else 0))
  {
    assert a[..i + 1][..i] == a[..i];
    assert b[..j + 1][..j] == b[..j];
  }

  /** `levenshtein(a, a) == 0`. */
  lemma {:induction false} DistSelf(a: string)
    ensures Dist(a, a) == 0
  {
    if |a| > 0 {
      DistSelf(a[..|a| - 1]);
    }
  }

  /** Distance to or from the empty string is the other string's length. */
  lemma {:induction false} DistEmpty(a: string)
    ensures Dist("", a) == |a| && Dist(a, "") == |a|
  {
  }

  /** The distance does not depend on the argument order. */
  lemma {:induction false} DistSymmetric(a: string, b: string)
    ensures Dist(a, b) == Dist(b, a)
    decreases |a| + |b|
  {
    if |a| > 0 && |b| > 0 {
      var a', b' := a[..|a| - 1], b[..|b| - 1];
      DistSymmetric(a', b);
      DistSymmetric(a, b');
      DistSymmetric(a', b');
    }
  }

  /** The distance is zero exactly for equal strings. */
  lemma {:induction false} DistZeroIff(a: string, b: string)
    ensures Dist(a, b) == 0 <==> a == b
  {
    if a == b {
      DistSelf(a);
    } else if Dist(a, b) == 0 {
      DistZeroEqual(a, b);
    }
  }

  lemma {:induction false} DistZeroEqual(a: string, b: string)
    requires Dist(a, b) == 0
    ensures a == b
    decreases |a| + |b|
  {
    if |a| > 0 && |b| > 0 {
      var a', b' := a[..|a| - 1], b[..|b| - 1];
      DistZeroEqual(a', b');
      assert a == a' + [a[|a| - 1]] && b == b' + [b[|b| - 1]];
    }
  }

  /** The triangle inequality: going through `b` is never shorter. */
  lemma {:induction false} DistTriangle(a: string, b: string, c: string)
    ensures Dist(a, c) <= Dist(a, b) + Dist(b, c)
    decreases |a| + |b| + |c|
  {
    if |a| > 0 && |b| > 0 && |c| > 0 {
      var a', b', c' := a[..|a| - 1], b[..|b| - 1], c[..|c| - 1];
      var x, y, z := a[|a| - 1], b[|b| - 1], c[|c| - 1];
      var dab, dbc := Dist(a, b), Dist(b, c);
      if dab == Dist(a', b) + 1 {
        DistTriangle(a', b, c);
      } else if dbc == Dist(b, c') + 1 {
        DistTriangle(a, b, c');
      } else if dab == Dist(a, b') + 1 {
        if dbc == Dist(b', c) + 1 {
          DistTriangle(a, b', c);
        } else {
          DistTriangle(a, b', c');
        }
      } else {
        if dbc == Dist(b', c) + 1 {
          DistTriangle(a', b', c);
        } else {
          DistTriangle(a', b', c');
        }
      }
    }
  }
}
