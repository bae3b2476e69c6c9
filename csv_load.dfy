/** The duplicate-key check that both CSV loaders run after reading the
    records (internal/csvutil/csv.go LoadCSV and its twin in
    internal/utils/csv.go): the first column of every data row after the
    header must be unique. */
module CsvLoad {
  import opened Wrappers

  /** Why loading stopped. `Duplicate` carries the key and the two row
      numbers the message prints; `NoRows` stands for the slice panic on a
      file without any record. */
  datatype LoadError = Duplicate(key: string, row: int, seenRow: int) | NoRows

  /** A row the check looks at: one with at least one column. */
  predicate HasKey(row: seq<string>) {
    |row| >= 1
  }

  /** A data row that carries a key and an original text. */
  predicate Wide(row: seq<string>) {
    |row| >= 2
  }

  /** Rows `j < i` with a key never share it. */
  predicate DistinctKeys(data: seq<seq<string>>) {
    forall j, i :: 0 <= j < i < |data| && HasKey(data[j]) && HasKey(data[i]) ==> data[j][0] != data[i][0]
  }

  /** `i` is the first data row whose key repeats that of row `j`. */
  predicate FirstClash(data: seq<seq<string>>, j: int, i: int) {
    0 <= j < i < |data| && HasKey(data[j]) && HasKey(data[i]) && data[j][0] == data[i][0]
    && DistinctKeys(data[..i])
  }

  /** The validation loop: `seen` maps each key met so far to its data
      index plus one, and the first repeated key stops the load. */
  method ValidateRows(rows: seq<seq<string>>) returns (r: Result<seq<seq<string>>, LoadError>)
    ensures rows == [] <==> r == Err(NoRows)
    ensures r.Ok? <==> rows != [] && DistinctKeys(rows[1..])
    ensures r.Ok? ==> r.value == rows
    ensures r.Err? && rows != [] ==>
      exists j, i :: FirstClash(rows[1..], j, i) && r.error == Duplicate(rows[1..][i][0], i + 2, j + 3)
  {
    if rows == [] {
      return Err(NoRows);
    }
    var data := rows[1..];
    var seen: map<string, int> := map[];
    for i := 0 to |data|
      invariant DistinctKeys(data[..i])
      invariant forall k :: k in seen ==> 1 <= seen[k] <= i && HasKey(data[seen[k] - 1]) && data[seen[k] - 1][0] == k
      invariant forall j :: 0 <= j < i && HasKey(data[j]) ==> data[j][0] in seen
    {
      var row := data[i];
      if |row| < 1 {
        assert data[..i + 1] == data[..i] + [row];
        continue;
      }
      var key := row[0];
      if key in seen {
        var prevLine := seen[key];
        assert FirstClash(data, prevLine - 1, i);
        return Err(Duplicate(key, i + 2, prevLine + 2));
      }
      assert data[..i + 1] == data[..i] + [row];
      seen := seen[key := i + 1];
    }
    assert data[..|data|] == data;
    return Ok(rows);
  }

  /** The message's "already seen" number is one past the first
      occurrence's CSV line (the header is line 1, data row i is line
      i + 2): two adjacent equal keys are reported at the same line. */
  method AdjacentDuplicateReport() returns (r: Result<seq<seq<string>>, LoadError>)
    ensures r == Err(Duplicate("a", 3, 3))
  {
    var rows := [["Language"], ["a"], ["a"]];
    r := ValidateRows(rows);
    var data := rows[1..];
    assert FirstClash(data, 0, 1);
    var j, i :| FirstClash(data, j, i) && r.error == Duplicate(data[i][0], i + 2, j + 3);
    assert j == 0 && i == 1;
  }
}
