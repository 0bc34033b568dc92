/**
 * The pure parts of the row transfer: how the source rows are cut into the
 * batches handed to `executemany`, and the parameterised `INSERT` statement
 * the batches are bound to.
 */
module Transfer {
  import opened Text

  /** `BULK_ROWS`: the size of every batch flushed inside the loop. */
  const BulkRows: nat := 100

  /** A column value as fetched from the source cursor. */
  datatype Value = Null | Number(n: int) | Chars(s: string)

  /** A fetched row: one value per selected column. */
  type Row = seq<Value>

  // ---------------------------------------------------------------------------
  // Batching

  /**
   * The batches the transfer loop hands to `executemany`, in call order:
   * full batches of `BulkRows` rows, then the remainder if it is not empty.
   * (A remainder that is empty produces no call.)
   */
  function Batches(rows: seq<Row>): (bs: seq<seq<Row>>)
    ensures bs == [] <==> rows == []
    decreases |rows|
  {
    if rows == [] then []
    else if |rows| <= BulkRows then [rows]
    else [rows[..BulkRows]] + Batches(rows[BulkRows..])
  }

  /** The batches put back together. */
  function Flatten(bs: seq<seq<Row>>): seq<Row>
    decreases |bs|
  {
    if bs == [] then [] else bs[0] + Flatten(bs[1..])
  }

  /**
   * `bs` cuts `rows` into consecutive non-empty pieces of at most `BulkRows`
   * rows, every piece but the last holding exactly `BulkRows`.
   */
  ghost predicate IsChunking(bs: seq<seq<Row>>, rows: seq<Row>)
  {
    && Flatten(bs) == rows
    && (forall i :: 0 <= i < |bs| ==> 0 < |bs[i]| <= BulkRows)
    && (forall i :: 0 <= i < |bs| - 1 ==> |bs[i]| == BulkRows)
  }

  lemma {:induction false} FlattenAppend(a: seq<seq<Row>>, b: seq<seq<Row>>)
    ensures Flatten(a + b) == Flatten(a) + Flatten(b)
    decreases |a|
  {
    if a != [] {
      assert (a + b)[1..] == a[1..] + b;
      FlattenAppend(a[1..], b);
    } else {
      assert a + b == b;
    }
  }

  /** The batches are a chunking of the rows: nothing lost, nothing repeated, order kept. */
  lemma {:induction false} BatchesChunk(rows: seq<Row>)
    ensures IsChunking(Batches(rows), rows)
    decreases |rows|
  {
    var bs := Batches(rows);
    if rows == [] {
    } else if |rows| <= BulkRows {
      assert Flatten(bs) == rows + Flatten([]);
    } else {
      BatchesChunk(rows[BulkRows..]);
      var rest := Batches(rows[BulkRows..]);
      assert bs[1..] == rest;
      assert rows[..BulkRows] + rows[BulkRows..] == rows;
      forall i | 0 <= i < |bs| ensures 0 < |bs[i]| <= BulkRows {
        if i > 0 { assert bs[i] == rest[i - 1]; }
      }
      forall i | 0 <= i < |bs| - 1 ensures |bs[i]| == BulkRows {
        if i > 0 { assert bs[i] == rest[i - 1]; }
      }
    }
  }

  /** The chunking is unique: any chunking of the rows is exactly the loop's batches. */
  lemma {:induction false} ChunkingUnique(bs: seq<seq<Row>>, rows: seq<Row>)
    requires IsChunking(bs, rows)
    ensures bs == Batches(rows)
    decreases |bs|
  {
    if bs == [] {
    } else {
      var rest := bs[1..];
      assert Flatten(bs) == bs[0] + Flatten(rest);
      if |bs| == 1 {
        assert rows == bs[0];
      } else {
        assert |bs[0]| == BulkRows;
        assert rows[..BulkRows] == bs[0];
        assert rows[BulkRows..] == Flatten(rest);
        forall i | 0 <= i < |rest| ensures 0 < |rest[i]| <= BulkRows {
          assert rest[i] == bs[i + 1];
        }
        forall i | 0 <= i < |rest| - 1 ensures |rest[i]| == BulkRows {
          assert rest[i] == bs[i + 1];
        }
        ChunkingUnique(rest, rows[BulkRows..]);
        assert |Flatten(rest)| > 0 by {
          assert Flatten(rest) == rest[0] + Flatten(rest[1..]);
        }
        assert |rows| > BulkRows;
      }
    }
  }

  /** `executemany` is called ceil(N / BulkRows) times for N rows. */
  lemma {:induction false} BatchesCount(rows: seq<Row>)
    ensures |Batches(rows)| == (|rows| + BulkRows - 1) / BulkRows
    decreases |rows|
  {
    if |rows| > BulkRows {
      BatchesCount(rows[BulkRows..]);
    }
  }

  /** The last flush carries the N mod BulkRows remaining rows (a full batch when that is 0). */
  lemma {:induction false} BatchesLast(rows: seq<Row>)
    requires rows != []
    ensures var r := if |rows| % BulkRows == 0 then BulkRows else |rows| % BulkRows;
            Batches(rows)[|Batches(rows)| - 1] == rows[|rows| - r..]
    decreases |rows|
  {
    if |rows| <= BulkRows {
      LastSizeSmall(|rows|);
      assert rows[|rows| - |rows|..] == rows;
    } else {
      var tail := rows[BulkRows..];
      BatchesLast(tail);
      var bs := Batches(tail);
      assert Batches(rows) == [rows[..BulkRows]] + bs;
      LastSizeShift(|tail|);
      var r := if |tail| % BulkRows == 0 then BulkRows else |tail| % BulkRows;
      SliceOfTail(rows, BulkRows, r);
    }
  }

  /** A single batch of `n` rows is the whole remainder. */
  lemma LastSizeSmall(n: nat)
    requires 0 < n <= BulkRows
    ensures (if n % BulkRows == 0 then BulkRows else n % BulkRows) == n
  {
  }

  /** One more full batch in front leaves the size of the last batch as it was, at most the rows there are. */
  lemma LastSizeShift(n: nat)
    requires n > 0
    ensures var r := if n % BulkRows == 0 then BulkRows else n % BulkRows;
            && (if (n + BulkRows) % BulkRows == 0 then BulkRows else (n + BulkRows) % BulkRows) == r
            && 0 < r <= n
  {
  }

  /** The last `r` elements of `s` are the last `r` of any suffix holding them. */
  lemma SliceOfTail<T>(s: seq<T>, k: nat, r: nat)
    requires k <= |s| && r <= |s| - k
    ensures s[|s| - r..] == s[k..][|s| - k - r..]
  {
  }

  /** The first batch is the first `BulkRows` rows, or all of them when fewer. */
  lemma BatchesFirst(rows: seq<Row>)
    requires rows != []
    ensures Batches(rows)[0] == if |rows| <= BulkRows then rows else rows[..BulkRows]
  {
  }

  /**
   * Flushing one more piece after a whole number of full batches extends the
   * batch list by that piece: the step the transfer loop takes.
   */
  lemma {:induction false} BatchesSnoc(s: seq<Row>, c: seq<Row>)
    requires |s| % BulkRows == 0 && 0 < |c| <= BulkRows
    ensures Batches(s + c) == Batches(s) + [c]
    decreases |s|
  {
    if s == [] {
      assert s + c == c;
    } else {
      var t := s + c;
      assert |s| >= BulkRows;
      assert t[..BulkRows] == s[..BulkRows];
      assert t[BulkRows..] == s[BulkRows..] + c;
      BatchesSnoc(s[BulkRows..], c);
      if |s| == BulkRows {
        assert s[BulkRows..] == [];
        assert s[..BulkRows] == s;
      }
    }
  }

  /** Rows after a whole number of full batches are cut independently of those before them. */
  lemma {:induction false} BatchesAppend(s: seq<Row>, t: seq<Row>)
    requires |s| % BulkRows == 0
    ensures Batches(s + t) == Batches(s) + Batches(t)
    decreases |s|
  {
    if s == [] {
      assert s + t == t;
    } else {
      var u := s + t;
      assert |s| >= BulkRows;
      assert u[..BulkRows] == s[..BulkRows];
      assert u[BulkRows..] == s[BulkRows..] + t;
      if |s| == BulkRows {
        assert s[..BulkRows] == s;
        if t != [] {
          assert Batches(u) == [s] + Batches(t);
        } else {
          assert u == s;
        }
      } else {
        BatchesAppend(s[BulkRows..], t);
        assert Batches(u) == [s[..BulkRows]] + Batches(s[BulkRows..] + t);
      }
    }
  }

  /** 250 rows go out as batches of 100, 100 and 50. */
  lemma BatchesOf250(rows: seq<Row>)
    requires |rows| == 250
    ensures |Batches(rows)| == 3
    ensures |Batches(rows)[0]| == 100 && |Batches(rows)[1]| == 100 && |Batches(rows)[2]| == 50
  {
    var bs := Batches(rows);
    assert bs == [rows[..100]] + Batches(rows[100..]);
    assert Batches(rows[100..]) == [rows[100..][..100]] + Batches(rows[100..][100..]);
    assert Batches(rows[100..][100..]) == [rows[100..][100..]];
  }

  // ---------------------------------------------------------------------------
  // The INSERT statement

  /** `':{!s}'.format(j)`: the bind placeholder of column `j`. */
  function Placeholder(j: nat): (r: string)
    ensures |r| >= 2 && r[0] == ':' && IsDigits(r[1..])
    ensures ParseDecimal(r[1..]) == j
  {
    DecimalRoundTrip(j);
    assert (":" + Decimal(j))[1..] == Decimal(j);
    ":" + Decimal(j)
  }

  /** `', '.join(':{!s}'.format(x) for x in range(n))`. */
  function Placeholders(n: nat): string
  {
    Join(", ", seq(n, j requires 0 <= j => Placeholder(j)))
  }

  /** The placeholder list grows by one `, :n` per extra column. */
  lemma PlaceholdersSnoc(n: nat)
    ensures Placeholders(n + 1) == if n == 0 then ":0" else Placeholders(n) + ", " + Placeholder(n)
  {
    var parts := seq(n + 1, j requires 0 <= j => Placeholder(j));
    assert parts[..n] == seq(n, j requires 0 <= j => Placeholder(j));
    if n == 0 {
      assert Placeholder(0) == ":0";
    }
  }

  /** There is exactly one placeholder (one `:`) per selected column. */
  lemma {:induction false} PlaceholdersCount(n: nat)
    ensures Count(':', Placeholders(n)) == n
    decreases n
  {
    if n > 0 {
      var m := n - 1;
      PlaceholdersSnoc(m);
      var p := Placeholder(m);
      assert p == ":" + p[1..];
      CountAbsent(':', p[1..]);
      CountAppend(':', ":", p[1..]);
      if m > 0 {
        PlaceholdersCount(m);
        CountAppend(':', Placeholders(m), ", ");
        CountAppend(':', Placeholders(m) + ", ", p);
      }
    }
  }

  /** The last placeholder of `n` comes after the other `n - 1`. */
  lemma PlaceholderLast(n: nat) returns (pre: string)
    requires n > 0
    ensures Placeholders(n) == pre + Placeholder(n - 1) && Count(':', pre) == n - 1
  {
    PlaceholdersSnoc(n - 1);
    if n == 1 {
      pre := "";
    } else {
      pre := Placeholders(n - 1) + ", ";
      PlaceholdersCount(n - 1);
      CountAppend(':', Placeholders(n - 1), ", ");
    }
  }

  /** Adding a placeholder keeps everything before it in place. */
  lemma PlaceholderKept(n: nat, front: string, back: string)
    requires n > 0 && Placeholders(n) == front + back
    ensures Placeholders(n + 1) == front + (back + ", " + Placeholder(n))
  {
    PlaceholdersSnoc(n);
    AppendAssoc(Placeholders(n), ", ", Placeholder(n));
    AppendAssoc(front, back, ", " + Placeholder(n));
    AppendAssoc(back, ", ", Placeholder(n));
  }

  /** Where placeholder `j` sits in the list of `n`: after exactly `j` others. */
  lemma {:induction false} PlaceholderAt(n: nat, j: nat) returns (pre: string, post: string)
    requires j < n
    ensures Placeholders(n) == pre + Placeholder(j) + post && Count(':', pre) == j
    decreases n
  {
    if j == n - 1 {
      pre := PlaceholderLast(n);
      post := "";
    } else {
      var post';
      pre, post' := PlaceholderAt(n - 1, j);
      post := post' + ", " + Placeholder(n - 1);
      PlaceholderKept(n - 1, pre + Placeholder(j), post');
    }
  }

  /** The placeholders are `:0`, `:1`, ... in ascending order. */
  lemma PlaceholdersOrder(n: nat, j: nat)
    requires j < n
    ensures exists pre, post :: Placeholders(n) == pre + Placeholder(j) + post && Count(':', pre) == j
  {
    var pre, post := PlaceholderAt(n, j);
    assert Placeholders(n) == pre + Placeholder(j) + post && Count(':', pre) == j;
  }

  /** `'INSERT INTO {}.{} VALUES({})'.format(owner, name, placeholders)`. */
  function InsertStatement(owner: string, name: string, columns: nat): string
  {
    "INSERT INTO " + owner + "." + name + " VALUES(" + Placeholders(columns) + ")"
  }

  /** An insert for `n` columns binds exactly `n` values, given identifiers without colons. */
  lemma InsertBindsEveryColumn(owner: string, name: string, columns: nat)
    requires ':' !in owner && ':' !in name
    ensures Count(':', InsertStatement(owner, name, columns)) == columns
  {
    var head := "INSERT INTO " + owner + "." + name + " VALUES(";
    CountAbsent(':', head);
    PlaceholdersCount(columns);
    CountAppend(':', head, Placeholders(columns));
    CountAppend(':', head + Placeholders(columns), ")");
  }
}
