/** The cleanup job's bounded loop of batch deletes, over a table listed in order of id. */
module CleanupJob {
  import opened Numbers

  datatype Row = Row(id: int, expiresAt: int)

  const MAX_ITERATIONS: nat := 1000

  predicate IsExpired(r: Row, cutoff: int) {
    r.expiresAt < cutoff
  }

  /** The table after deleting the `n` expired rows of lowest id, or all if there are fewer. */
  function Remaining(rows: seq<Row>, cutoff: int, n: nat): seq<Row> {
    if rows == [] then []
    else if IsExpired(rows[0], cutoff) && n > 0 then Remaining(rows[1..], cutoff, n - 1)
    else [rows[0]] + Remaining(rows[1..], cutoff, n)
  }

  function CountExpired(rows: seq<Row>, cutoff: int): nat {
    if rows == [] then 0
    else (if rows[0].expiresAt < cutoff then 1 else 0) + CountExpired(rows[1..], cutoff)
  }

  // ---------- What a batch delete removes ----------

  lemma {:induction false} RemainingCounts(rows: seq<Row>, cutoff: int, n: nat)
    ensures |Remaining(rows, cutoff, n)| == |rows| - Min(n, CountExpired(rows, cutoff))
    ensures CountExpired(Remaining(rows, cutoff, n), cutoff)
        == CountExpired(rows, cutoff) - Min(n, CountExpired(rows, cutoff))
  {
    if rows != [] {
      if IsExpired(rows[0], cutoff) && n > 0 {
        RemainingCounts(rows[1..], cutoff, n - 1);
      } else {
        RemainingCounts(rows[1..], cutoff, n);
        assert Remaining(rows, cutoff, n)[1..] == Remaining(rows[1..], cutoff, n);
      }
    }
  }

  /** Two batches in a row delete what one batch of their sizes together would. */
  lemma {:induction false} BatchesCompose(rows: seq<Row>, cutoff: int, a: nat, b: nat)
    ensures Remaining(Remaining(rows, cutoff, a), cutoff, b) == Remaining(rows, cutoff, a + b)
  {
    if rows != [] {
      if IsExpired(rows[0], cutoff) && a > 0 {
        BatchesCompose(rows[1..], cutoff, a - 1, b);
      } else {
        var kept := Remaining(rows, cutoff, a);
        assert kept[0] == rows[0] && kept[1..] == Remaining(rows[1..], cutoff, a);
        if IsExpired(rows[0], cutoff) && b > 0 {
          assert a == 0;
          BatchesCompose(rows[1..], cutoff, 0, b - 1);
        } else {
          BatchesCompose(rows[1..], cutoff, a, b);
        }
      }
    }
  }

  lemma {:induction false} AllGone(rows: seq<Row>, cutoff: int, n: nat, m: nat)
    requires CountExpired(rows, cutoff) <= n && CountExpired(rows, cutoff) <= m
    ensures Remaining(rows, cutoff, n) == Remaining(rows, cutoff, m)
  {
    if rows != [] {
      if IsExpired(rows[0], cutoff) {
        AllGone(rows[1..], cutoff, n - 1, m - 1);
      } else {
        AllGone(rows[1..], cutoff, n, m);
      }
    }
  }

  ghost predicate ById(rows: seq<Row>) {
    forall i, j :: 0 <= i < j < |rows| ==> rows[i].id < rows[j].id
  }

  /** Row by row: a row stays if and only if it is not expired or at least `n` expired rows of
      lower id come before it. */
  lemma {:induction false} RemainingExact(rows: seq<Row>, cutoff: int, n: nat, k: nat)
    requires ById(rows) && k < |rows|
    ensures rows[k] in Remaining(rows, cutoff, n)
            <==> rows[k].expiresAt >= cutoff || CountExpired(rows[..k], cutoff) >= n
  {
    var rest := rows[1..];
    var m := if IsExpired(rows[0], cutoff) && n > 0 then n - 1 else n;
    if k == 0 {
      RemainingIn(rest, cutoff, m);
      assert rows[0] !in rest;
    } else {
      RemainingExact(rest, cutoff, m, k - 1);
      assert rest[k - 1] == rows[k] && rows[k] != rows[0];
      assert rows[..k][1..] == rest[..k - 1];
    }
  }

  lemma {:induction false} RemainingIn(rows: seq<Row>, cutoff: int, n: nat)
    ensures forall r :: r in Remaining(rows, cutoff, n) ==> r in rows
  {
    if rows != [] {
      RemainingIn(rows[1..], cutoff, if IsExpired(rows[0], cutoff) && n > 0 then n - 1 else n);
    }
  }

  // ---------- The loop ----------

  class Table {
    var rows: seq<Row>

    constructor (rows: seq<Row>)
      ensures this.rows == rows
    {
      this.rows := rows;
    }

    /** `DELETE … WHERE id IN (SELECT id … WHERE expired ORDER BY id LIMIT n)`. */
    method RunOneBatch(cutoff: int, n: nat) returns (deleted: nat)
      modifies this
      ensures rows == Remaining(old(rows), cutoff, n)
      ensures deleted == Min(n, CountExpired(old(rows), cutoff))
    {
      RemainingCounts(rows, cutoff, n);
      var kept := Remaining(rows, cutoff, n);
      deleted := |rows| - |kept|;
      rows := kept;
    }

    /** The loop deletes exactly min(E, 1000 * B) of E expired rows, lowest ids first, reports
        that number, and leaves an expired row only if it ran into its iteration limit. */
    method PurgeBatched(cutoff: int, batchSize: nat) returns (total: nat)
      modifies this
      ensures rows == Remaining(old(rows), cutoff, 1000 * batchSize)
      ensures total == Min(CountExpired(old(rows), cutoff), 1000 * batchSize)
      ensures |rows| == |old(rows)| - total
      ensures CountExpired(rows, cutoff) == 0 <==> CountExpired(old(rows), cutoff) <= 1000 * batchSize
    {
      ghost var was, expired := rows, CountExpired(rows, cutoff);
      RemainingCounts(was, cutoff, MAX_ITERATIONS * batchSize);
      RemainingNone(was, cutoff);
      total := 0;
      for i := 0 to MAX_ITERATIONS
        invariant rows == Remaining(was, cutoff, i * batchSize)
        invariant total == i * batchSize <= expired
      {
        RemainingCounts(was, cutoff, i * batchSize);
        BatchesCompose(was, cutoff, i * batchSize, batchSize);
        assert (i + 1) * batchSize == i * batchSize + batchSize;
        var deleted := RunOneBatch(cutoff, batchSize);
        total := total + deleted;
        if deleted < batchSize {
          Scale(i + 1, MAX_ITERATIONS, batchSize);
          AllGone(was, cutoff, (i + 1) * batchSize, MAX_ITERATIONS * batchSize);
          return;
        }
      }
    }
  }

  lemma {:induction false} RemainingNone(rows: seq<Row>, cutoff: int)
    ensures Remaining(rows, cutoff, 0) == rows
  {
    if rows != [] { RemainingNone(rows[1..], cutoff); }
  }
}
