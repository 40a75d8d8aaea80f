/** The CSV row scanner against the encoding of section 2 of RFC 4180. */
module Csv {
  // ---- the scanner ----

  /** Fields of `rest` when `current` holds what has been read of the first one. */
  function Scan(rest: string, current: string, inQuotes: bool): seq<string>
    decreases |rest|
  {
    if rest == "" then [current]
    else if rest[0] == '"' then
      if inQuotes && |rest| > 1 && rest[1] == '"' then Scan(rest[2..], current + "\"", inQuotes)
      else Scan(rest[1..], current, !inQuotes)
    else if rest[0] == ',' && !inQuotes then [current] + Scan(rest[1..], "", inQuotes)
    else Scan(rest[1..], current + [rest[0]], inQuotes)
  }

  method ParseCsvRow(line: string) returns (result: seq<string>)
    ensures result == Scan(line, "", false)
  {
    result := [];
    var current := "";
    var inQuotes := false;
    var i := 0;
    while i < |line|
      invariant i <= |line|
      invariant result + Scan(line[i..], current, inQuotes) == Scan(line, "", false)
    {
      var c := line[i];
      assert line[i..][1..] == line[i + 1..];
      if c == '"' {
        if inQuotes && i + 1 < |line| && line[i + 1] == '"' {
          assert line[i..][2..] == line[i + 2..];
          current := current + "\"";
          i := i + 1;
        } else {
          inQuotes := !inQuotes;
        }
      } else if c == ',' && !inQuotes {
        result := result + [current];
        current := "";
      } else {
        current := current + [c];
      }
      i := i + 1;
    }
    result := result + [current];
  }

  // ---- the encoding ----

  function DoubleQuotes(f: string): string {
    if f == "" then "" else (if f[0] == '"' then "\"\"" else [f[0]]) + DoubleQuotes(f[1..])
  }

  /** Fields with quotes, commas or line breaks must be quoted; any other field may be. */
  predicate MustQuote(f: string) {
    '"' in f || ',' in f || '\r' in f || '\n' in f
  }

  function EncodeField(f: string, quote: bool): string {
    if quote || MustQuote(f) then "\"" + DoubleQuotes(f) + "\"" else f
  }

  function EncodeRow(fields: seq<string>, quote: seq<bool>): string
    requires 0 < |fields| == |quote|
  {
    if |fields| == 1 then EncodeField(fields[0], quote[0])
    else EncodeField(fields[0], quote[0]) + "," + EncodeRow(fields[1..], quote[1..])
  }

  lemma {:induction false} ScanPlain(f: string, current: string, tail: string)
    requires '"' !in f && ',' !in f
    ensures Scan(f + tail, current, false) == Scan(tail, current + f, false)
    decreases |f|
  {
    if f == "" {
      assert f + tail == tail && current + f == current;
    } else {
      assert (f + tail)[0] == f[0] && (f + tail)[1..] == f[1..] + tail && f[0] in f;
      ScanPlain(f[1..], current + [f[0]], tail);
      assert current + [f[0]] + f[1..] == current + f;
    }
  }

  lemma {:induction false} ScanQuoted(f: string, current: string, tail: string)
    requires tail == "" || tail[0] != '"'
    ensures Scan(DoubleQuotes(f) + "\"" + tail, current, true) == Scan(tail, current + f, false)
    decreases |f|
  {
    var s := DoubleQuotes(f) + "\"" + tail;
    if f == "" {
      assert s[0] == '"' && s[1..] == tail && current + f == current;
    } else {
      var rest := DoubleQuotes(f[1..]) + "\"" + tail;
      ScanQuoted(f[1..], current + [f[0]], tail);
      assert current + [f[0]] + f[1..] == current + f;
      if f[0] == '"' {
        assert s == "\"\"" + rest;
        assert s[0] == '"' && s[1] == '"' && s[2..] == rest;
      } else {
        assert s == [f[0]] + rest;
        assert s[1..] == rest;
      }
    }
  }

  lemma OpenQuote(body: string)
    ensures Scan("\"" + body, "", false) == Scan(body, "", true)
  {
  }

  lemma ScanField(f: string, quote: bool, tail: string)
    requires tail == "" || tail[0] == ','
    ensures Scan(EncodeField(f, quote) + tail, "", false) == Scan(tail, f, false)
  {
    assert "" + f == f;
    if quote || MustQuote(f) {
      var body := DoubleQuotes(f) + "\"" + tail;
      assert EncodeField(f, quote) + tail == "\"" + body;
      OpenQuote(body);
      ScanQuoted(f, "", tail);
    } else {
      ScanPlain(f, "", tail);
    }
  }

  /** Scanning the encoding of any non-empty list of fields, with any optional quoting, gives the list back. */
  lemma {:induction false} RowRoundTrip(fields: seq<string>, quote: seq<bool>)
    requires 0 < |fields| == |quote|
    ensures Scan(EncodeRow(fields, quote), "", false) == fields
    decreases |fields|
  {
    var first := EncodeField(fields[0], quote[0]);
    if |fields| == 1 {
      ScanField(fields[0], quote[0], "");
      assert first + "" == first;
    } else {
      var tail := "," + EncodeRow(fields[1..], quote[1..]);
      ScanField(fields[0], quote[0], tail);
      RowRoundTrip(fields[1..], quote[1..]);
      assert first + "," + EncodeRow(fields[1..], quote[1..]) == first + tail;
      assert tail[1..] == EncodeRow(fields[1..], quote[1..]);
    }
  }
}
