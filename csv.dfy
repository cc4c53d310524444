/**
 * `parseCSV` (app.js:18-33): header-first, comma-separated text with no
 * quoting. Each data line becomes a record keyed by the trimmed header names.
 */
module Csv {
  import opened Text

  /** A parsed fixture row: header name to field text (a JavaScript plain object). */
  type Row = map<string, string>

  /** The lines of the feed: the whole text trimmed, then cut at every '\n'. */
  function Lines(text: string): (r: seq<string>)
    ensures |r| == Count(Trim(text), '\n') + 1
  {
    Split(Trim(text), '\n')
  }

  /** A field as `parseCSV` leaves it: no comma inside, no whitespace at either end. */
  predicate IsField(f: string)
  {
    ',' !in f && (f == [] || (!IsWhitespace(f[0]) && !IsWhitespace(f[|f| - 1])))
  }

  /** The trimmed, comma-separated fields of one line. */
  function Fields(line: string): (r: seq<string>)
    ensures |r| == Count(line, ',') + 1
    ensures forall k :: 0 <= k < |r| ==> IsField(r[k])
  {
    var parts := Split(line, ',');
    seq(|parts|, k requires 0 <= k < |parts| => Trim(parts[k]))
  }

  /** The header names: the fields of the first line, of which there is always at least one. */
  function Headers(text: string): (h: seq<string>)
    ensures |h| == Count(Lines(text)[0], ',') + 1
    ensures forall k :: 0 <= k < |h| ==> IsField(h[k])
  {
    Fields(Lines(text)[0])
  }

  /** `values[index] || ''`: a missing field reads as the empty string. */
  function ValueAt(values: seq<string>, k: nat): string
  {
    if k < |values| then values[k] else ""
  }

  /** No later header carries the same name as `headers[k]`, so its assignment is the one that stays. */
  predicate IsLastName(headers: seq<string>, k: nat)
    requires k < |headers|
  {
    forall j :: k < j < |headers| ==> headers[j] != headers[k]
  }

  /**
   * `row` is what assigning `row[headers[k]] = ValueAt(values, k)` for k = 0, 1, ...
   * leaves: exactly the header names as keys, each holding the field under its
   * last occurrence among the headers.
   */
  ghost predicate RowFor(row: Row, headers: seq<string>, values: seq<string>)
  {
    && row.Keys == (set k | 0 <= k < |headers| :: headers[k])
    && forall k :: 0 <= k < |headers| && IsLastName(headers, k) ==> row[headers[k]] == ValueAt(values, k)
  }

  /** The `headers.forEach` at app.js:25-28 that fills one record. */
  method BuildRow(headers: seq<string>, values: seq<string>) returns (row: Row)
    ensures RowFor(row, headers, values)
  {
    row := map[];
    for n := 0 to |headers|
      invariant row.Keys == (set k | 0 <= k < n :: headers[k])
      invariant forall k :: 0 <= k < n && (forall j :: k < j < n ==> headers[j] != headers[k])
                  ==> row[headers[k]] == ValueAt(values, k)
    {
      row := row[headers[n] := ValueAt(values, n)];
    }
  }

  /** `parseCSV`: one record per line after the header, blank lines included. */
  method ParseCsv(text: string) returns (data: seq<Row>)
    ensures |data| == |Lines(text)| - 1 == Count(Trim(text), '\n')
    ensures forall i :: 0 <= i < |data| ==> RowFor(data[i], Headers(text), Fields(Lines(text)[i + 1]))
  {
    var lines := Lines(text);
    var headers := Fields(lines[0]);
    data := [];
    for i := 1 to |lines|
      invariant |data| == i - 1
      invariant forall j :: 0 <= j < |data| ==> RowFor(data[j], headers, Fields(lines[j + 1]))
    {
      var row := BuildRow(headers, Fields(lines[i]));
      data := data + [row];
    }
  }

  /** Every header name has a last occurrence. */
  lemma {:induction false} LastOccurrence(headers: seq<string>, h: string) returns (k: nat)
    requires h in headers
    ensures k < |headers| && headers[k] == h && IsLastName(headers, k)
    decreases |headers|
  {
    var n := |headers| - 1;
    if headers[n] == h {
      k := n;
    } else {
      assert h in headers[..n];
      k := LastOccurrence(headers[..n], h);
    }
  }

  /** Every key of a record holds the field under some header carrying that name. */
  lemma RowValue(row: Row, headers: seq<string>, values: seq<string>, h: string) returns (k: nat)
    requires RowFor(row, headers, values) && h in row
    ensures k < |headers| && headers[k] == h && row[h] == ValueAt(values, k)
  {
    assert h in headers;
    k := LastOccurrence(headers, h);
  }

  /** RowFor pins the record down completely. */
  lemma RowForUnique(r1: Row, r2: Row, headers: seq<string>, values: seq<string>)
    requires RowFor(r1, headers, values) && RowFor(r2, headers, values)
    ensures r1 == r2
  {
    forall h | h in r1
      ensures r1[h] == r2[h]
    {
      var k := RowValue(r1, headers, values, h);
      var k' := LastOccurrence(headers, h);
    }
  }

  /** A blank line has exactly one field, and it is empty. */
  lemma BlankLineFields()
    ensures Fields("") == [""]
  {
    assert Split("", ',') == [""];
    assert TrimStart("") == "";
  }

  /** A blank data line is kept, as a record whose every field is empty. */
  lemma BlankLineRow(row: Row, headers: seq<string>, values: seq<string>)
    requires values == Fields("") && RowFor(row, headers, values)
    ensures forall h :: h in row ==> row[h] == ""
  {
    BlankLineFields();
    forall h | h in row
      ensures row[h] == ""
    {
      var k := RowValue(row, headers, values, h);
      assert |values| == 1 && values[0] == "";
      if k < |values| {
        assert k == 0;
      }
    }
  }
}
