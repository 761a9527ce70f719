/** The two lookup tables `csv2model` reads before any reaction: rate-law
    templates by id and parameter values by name. Each comes from a CSV file
    whose first row is a header; every later row maps its first cell to its
    second. */
module Tables {
  import opened Errors

  /** The table built from the data rows: a later row with the same key
      replaces an earlier one, and a row with fewer than two cells raises an
      IndexError that stops the build. */
  function TableOf(rows: seq<seq<string>>): (r: Result<map<string, string>>)
    ensures r.Ok? <==> forall i :: 0 <= i < |rows| ==> |rows[i]| >= 2
    ensures r.Err? ==> exists i :: 0 <= i < |rows| && |rows[i]| < 2 && r.error == ShortRow(|rows[i]|)
                        && forall j :: 0 <= j < i ==> |rows[j]| >= 2
    decreases |rows|
  {
    if rows == [] then Ok(map[])
    else
      var front := rows[..|rows| - 1];
      var row := rows[|rows| - 1];
      assert forall k :: 0 <= k < |front| ==> front[k] == rows[k];
      match TableOf(front)
      case Err(e) => Err(e)
      case Ok(t) => if |row| < 2 then Err(ShortRow(|row|)) else Ok(t[row[0] := row[1]])
  }

  /** A whole table file: the header row is skipped (`next` on an empty
      file raises StopIteration). */
  function ReadTable(file: seq<seq<string>>): Result<map<string, string>> {
    if file == [] then Err(MissingHeader) else TableOf(file[1..])
  }

  lemma TableOfSnoc(rows: seq<seq<string>>, row: seq<string>)
    ensures TableOf(rows + [row]) ==
      match TableOf(rows)
      case Err(e) => Err(e)
      case Ok(t) => if |row| < 2 then Err(ShortRow(|row|)) else Ok(t[row[0] := row[1]])
  {
    assert (rows + [row])[..|rows|] == rows;
  }

  /** The keys of a table are exactly the first cells of its rows. */
  lemma {:induction false} TableOfKeys(rows: seq<seq<string>>)
    requires TableOf(rows).Ok?
    ensures forall key :: key in TableOf(rows).value <==> exists i :: 0 <= i < |rows| && rows[i][0] == key
    decreases |rows|
  {
    if rows != [] {
      var front := rows[..|rows| - 1];
      var row := rows[|rows| - 1];
      assert rows == front + [row];
      TableOfSnoc(front, row);
      TableOfKeys(front);
      var t := TableOf(front).value;
      assert TableOf(rows).value == t[row[0] := row[1]];
      forall key ensures key in TableOf(rows).value <==> exists i :: 0 <= i < |rows| && rows[i][0] == key {
        if key in t {
          var i :| 0 <= i < |front| && front[i][0] == key;
          assert rows[i][0] == key;
        }
        if exists i :: 0 <= i < |rows| && rows[i][0] == key {
          var i :| 0 <= i < |rows| && rows[i][0] == key;
          if i < |front| {
            assert front[i][0] == key;
          }
        }
      }
    }
  }

  /** A row that no later row overrides leaves its second cell under its
      key: the last write wins. */
  lemma {:induction false} TableOfLastWins(rows: seq<seq<string>>, i: int)
    requires TableOf(rows).Ok? && 0 <= i < |rows|
    requires forall j :: i < j < |rows| ==> rows[j][0] != rows[i][0]
    ensures rows[i][0] in TableOf(rows).value && TableOf(rows).value[rows[i][0]] == rows[i][1]
    decreases |rows|
  {
    var front := rows[..|rows| - 1];
    var row := rows[|rows| - 1];
    assert rows == front + [row];
    TableOfSnoc(front, row);
    var t := TableOf(front).value;
    assert TableOf(rows).value == t[row[0] := row[1]];
    if i < |front| {
      assert front[i] == rows[i];
      forall j | i < j < |front| ensures front[j][0] != front[i][0] {
        assert front[j] == rows[j];
      }
      TableOfLastWins(front, i);
      assert row[0] != rows[i][0];
    }
  }

  /** The keys of a table are the first cells of its rows, and each key
      holds the second cell of the last row that names it. */
  lemma TableOfContents(rows: seq<seq<string>>)
    requires TableOf(rows).Ok?
    ensures forall key :: key in TableOf(rows).value <==> exists i :: 0 <= i < |rows| && rows[i][0] == key
    ensures forall i :: 0 <= i < |rows| && (forall j :: i < j < |rows| ==> rows[j][0] != rows[i][0])
                        ==> TableOf(rows).value[rows[i][0]] == rows[i][1]
  {
    TableOfKeys(rows);
    forall i | 0 <= i < |rows| && (forall j :: i < j < |rows| ==> rows[j][0] != rows[i][0])
      ensures TableOf(rows).value[rows[i][0]] == rows[i][1]
    {
      TableOfLastWins(rows, i);
    }
  }

  /** Once a row fails, the rows after it do not matter. */
  lemma {:induction false} TableOfSticky(rows: seq<seq<string>>, all: seq<seq<string>>)
    requires rows <= all && TableOf(rows).Err?
    ensures TableOf(all) == TableOf(rows)
    decreases |all|
  {
    if |all| > |rows| {
      var front := all[..|all| - 1];
      assert rows <= front;
      TableOfSticky(rows, front);
    } else {
      assert rows == all;
    }
  }

  /** The table-building loops of csv2model.py:9-27. */
  method BuildTable(file: seq<seq<string>>) returns (r: Result<map<string, string>>)
    ensures r == ReadTable(file)
  {
    if file == [] {
      return Err(MissingHeader);
    }
    var rows := file[1..];
    var table := map[];
    for k := 0 to |rows|
      invariant TableOf(rows[..k]) == Ok(table)
    {
      var line := rows[k];
      assert rows[..k + 1] == rows[..k] + [line];
      TableOfSnoc(rows[..k], line);
      if |line| < 2 {
        r := Err(ShortRow(|line|));
        TableOfSticky(rows[..k + 1], rows);
        return;
      }
      table := table[line[0] := line[1]];
    }
    assert rows[..|rows|] == rows;
    r := Ok(table);
  }
}
