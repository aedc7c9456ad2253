/**
 * The one-line CSV parser of the member-record gate (`FileService.parseCsvLine`):
 * commas outside double quotes separate fields, a double quote toggles quoting
 * and is not kept, and inside quotes a doubled quote stands for one literal quote.
 */
module Csv {

  /**
   * Number of commas that fall outside quotes when every double quote simply
   * toggles the quoting state. A doubled quote inside quotes toggles twice and
   * so leaves the state as the parser's escape does.
   */
  function OutsideCommas(s: string, inQuotes: bool): nat
    decreases |s|
  {
    if s == [] then 0
    else if s[0] == '"' then OutsideCommas(s[1..], !inQuotes)
    else (if s[0] == ',' && !inQuotes then 1 else 0) + OutsideCommas(s[1..], inQuotes)
  }

  /**
   * The parser's state machine run over the rest of the line: `out` holds the
   * finished fields, `cur` the field being built, `inQuotes` the quoting state.
   * The result is every field of the line.
   */
  function Scan(rest: string, out: seq<string>, cur: string, inQuotes: bool): (fields: seq<string>)
    ensures |fields| == |out| + 1 + OutsideCommas(rest, inQuotes)
    ensures fields[..|out|] == out
    decreases |rest|
  {
    if rest == [] then out + [cur]
    else if rest[0] == '"' then
      if inQuotes && |rest| > 1 && rest[1] == '"' then
        assert rest[1..][1..] == rest[2..];
        Scan(rest[2..], out, cur + ['"'], true)
      else
        Scan(rest[1..], out, cur, !inQuotes)
    else if rest[0] == ',' && !inQuotes then
      Scan(rest[1..], out + [cur], "", false)
    else
      Scan(rest[1..], out, cur + [rest[0]], inQuotes)
  }

  /** The fields of one line; there is always one more field than commas outside quotes. */
  function ParseCsv(line: string): (fields: seq<string>)
    ensures |fields| == 1 + OutsideCommas(line, false)
  {
    Scan(line, [], "", false)
  }

  /** `parseCsvLine`: the Java loop over the characters of the line, with its in-loop skip. */
  method ParseCsvLine(line: string) returns (out: seq<string>)
    ensures out == ParseCsv(line)
  {
    out := [];
    var cur := "";
    var inQuotes := false;
    var i := 0;
    while i < |line|
      invariant 0 <= i <= |line|
      invariant Scan(line[i..], out, cur, inQuotes) == ParseCsv(line)
    {
      var c := line[i];
      assert line[i..][0] == c && line[i..][1..] == line[i + 1..];
      if c == '"' {
        if inQuotes && i + 1 < |line| && line[i + 1] == '"' {
          assert line[i..][1] == '"' && line[i..][2..] == line[i + 2..];
          cur := cur + ['"'];
          i := i + 1;
        } else {
          inQuotes := !inQuotes;
        }
      } else if c == ',' && !inQuotes {
        out := out + [cur];
        cur := "";
      } else {
        cur := cur + [c];
      }
      i := i + 1;
    }
    assert line[i..] == [];
    out := out + [cur];
  }

  /** Splitting on every comma with empty fields kept: the reference for lines without quotes. */
  function SplitCommas(s: string): (parts: seq<string>)
    ensures |parts| >= 1
    ensures forall k :: 0 <= k < |parts| ==> ',' !in parts[k]
    decreases |s|
  {
    if s == [] then [""]
    else if s[0] == ',' then [""] + SplitCommas(s[1..])
    else
      var t := SplitCommas(s[1..]);
      [[s[0]] + t[0]] + t[1..]
  }

  /** Joins fields with commas in between. */
  function JoinCommas(parts: seq<string>): string
    requires |parts| >= 1
  {
    if |parts| == 1 then parts[0] else parts[0] + [','] + JoinCommas(parts[1..])
  }

  /** Splitting on commas and joining again gives back the line. */
  lemma {:induction false} SplitCommasJoin(s: string)
    ensures JoinCommas(SplitCommas(s)) == s
    decreases |s|
  {
    if s == [] {
    } else if s[0] == ',' {
      var t := SplitCommas(s[1..]);
      SplitCommasJoin(s[1..]);
      assert SplitCommas(s)[1..] == t;
    } else {
      var t := SplitCommas(s[1..]);
      SplitCommasJoin(s[1..]);
      var p := SplitCommas(s);
      assert p[0] == [s[0]] + t[0];
      if |t| == 1 {
        assert s == [s[0]] + s[1..];
      } else {
        assert p[1..] == t[1..];
        assert JoinCommas(t) == t[0] + [','] + JoinCommas(t[1..]);
        assert s == [s[0]] + s[1..];
      }
    }
  }

  lemma {:induction false} ScanWithoutQuotes(rest: string, out: seq<string>, cur: string)
    requires '"' !in rest
    ensures Scan(rest, out, cur, false) == out + [cur + SplitCommas(rest)[0]] + SplitCommas(rest)[1..]
    decreases |rest|, 1
  {
    if rest == [] {
      assert cur + "" == cur;
    } else if rest[0] == ',' {
      ScanPastComma(rest, out, cur);
    } else {
      ScanPastChar(rest, out, cur);
    }
  }

  /** The comma step of `ScanWithoutQuotes`: the current field is closed and a new one starts. */
  lemma {:induction false} ScanPastComma(rest: string, out: seq<string>, cur: string)
    requires '"' !in rest && rest != [] && rest[0] == ','
    ensures Scan(rest, out, cur, false) == out + [cur + SplitCommas(rest)[0]] + SplitCommas(rest)[1..]
    decreases |rest|, 0
  {
    NoQuoteInTail(rest);
    ScanCommaStep(rest, out, cur);
    ScanWithoutQuotes(rest[1..], out + [cur], "");
    CommaSplitShape(rest, out, cur);
  }

  lemma NoQuoteInTail(rest: string)
    requires '"' !in rest && rest != []
    ensures '"' !in rest[1..]
  {
    forall c | c in rest[1..] ensures c != '"' { assert c in rest; }
  }

  lemma ScanCommaStep(rest: string, out: seq<string>, cur: string)
    requires rest != [] && rest[0] == ','
    ensures Scan(rest, out, cur, false) == Scan(rest[1..], out + [cur], "", false)
  {
  }

  /** At a comma, the split starts with an empty part followed by the split of the rest. */
  lemma CommaSplitShape(rest: string, out: seq<string>, cur: string)
    requires rest != [] && rest[0] == ','
    ensures out + [cur] + ["" + SplitCommas(rest[1..])[0]] + SplitCommas(rest[1..])[1..]
            == out + [cur + SplitCommas(rest)[0]] + SplitCommas(rest)[1..]
  {
    var t := SplitCommas(rest[1..]);
    var T := SplitCommas(rest);
    assert T == [""] + t;
    assert T[0] == "" && T[1..] == t && cur + "" == cur && "" + t[0] == t[0];
    assert [t[0]] + t[1..] == t;
  }

  /** The ordinary-character step of `ScanWithoutQuotes`: the character joins the current field. */
  lemma {:induction false} ScanPastChar(rest: string, out: seq<string>, cur: string)
    requires '"' !in rest && rest != [] && rest[0] != ','
    ensures Scan(rest, out, cur, false) == out + [cur + SplitCommas(rest)[0]] + SplitCommas(rest)[1..]
    decreases |rest|, 0
  {
    var t := SplitCommas(rest[1..]);
    assert '"' !in rest[1..] by {
      forall c | c in rest[1..] ensures c != '"' { assert c in rest; }
    }
    assert Scan(rest, out, cur, false) == Scan(rest[1..], out, cur + [rest[0]], false);
    ScanWithoutQuotes(rest[1..], out, cur + [rest[0]]);
    assert SplitCommas(rest) == [[rest[0]] + t[0]] + t[1..];
    assert cur + [rest[0]] + t[0] == cur + ([rest[0]] + t[0]);
  }

  /** A line without any double quote parses exactly as a plain split on every comma. */
  lemma ParseWithoutQuotes(line: string)
    requires '"' !in line
    ensures ParseCsv(line) == SplitCommas(line)
  {
    ScanWithoutQuotes(line, [], "");
    var t := SplitCommas(line);
    assert "" + t[0] == t[0];
    assert [t[0]] + t[1..] == t;
  }

  /** Doubles each double quote of a field, as a CSV writer escapes it. */
  function Escape(f: string): string
    decreases |f|
  {
    if f == [] then [] else (if f[0] == '"' then ['"', '"'] else [f[0]]) + Escape(f[1..])
  }

  /** A field written as a quoted CSV field. */
  function Quote(f: string): string {
    ['"'] + Escape(f) + ['"']
  }

  /** A record written as a line of quoted fields separated by commas. */
  function EncodeRow(fields: seq<string>): string
    requires |fields| >= 1
  {
    if |fields| == 1 then Quote(fields[0]) else Quote(fields[0]) + [','] + EncodeRow(fields[1..])
  }

  /**
   * Inside quotes, the parser reads an escaped field up to its closing quote:
   * each doubled quote adds exactly one quote and keeps the section open, a
   * comma is kept as a character, and the lone closing quote ends quoting
   * without being emitted.
   */
  lemma {:induction false} ScanQuotedField(f: string, rest: string, out: seq<string>, cur: string)
    requires rest == [] || rest[0] != '"'
    ensures Scan(Escape(f) + ['"'] + rest, out, cur, true) == Scan(rest, out, cur + f, false)
    decreases |f|
  {
    var s := Escape(f) + ['"'] + rest;
    if f == [] {
      assert s == ['"'] + rest;
      assert s[1..] == rest;
      assert cur + f == cur;
    } else if f[0] == '"' {
      assert s == ['"', '"'] + (Escape(f[1..]) + ['"'] + rest);
      assert s[2..] == Escape(f[1..]) + ['"'] + rest;
      ScanQuotedField(f[1..], rest, out, cur + ['"']);
      assert cur + ['"'] + f[1..] == cur + f;
    } else {
      assert s == [f[0]] + (Escape(f[1..]) + ['"'] + rest);
      assert s[1..] == Escape(f[1..]) + ['"'] + rest;
      ScanQuotedField(f[1..], rest, out, cur + [f[0]]);
      assert cur + [f[0]] + f[1..] == cur + f;
    }
  }

  lemma {:induction false} ScanEncodeRow(fields: seq<string>, out: seq<string>)
    requires |fields| >= 1
    ensures Scan(EncodeRow(fields), out, "", false) == out + fields
    decreases |fields|
  {
    var tail := if |fields| == 1 then [] else [','] + EncodeRow(fields[1..]);
    var s := EncodeRow(fields);
    assert s == ['"'] + (Escape(fields[0]) + ['"'] + tail);
    assert s[1..] == Escape(fields[0]) + ['"'] + tail;
    ScanQuotedField(fields[0], tail, out, "");
    assert "" + fields[0] == fields[0];
    if |fields| == 1 {
      assert out + [fields[0]] == out + fields;
    } else {
      assert tail[1..] == EncodeRow(fields[1..]);
      ScanEncodeRow(fields[1..], out + [fields[0]]);
      assert out + [fields[0]] + fields[1..] == out + fields;
    }
  }

  /** Any fields, quoted, escaped and joined with commas, parse back to exactly those fields. */
  lemma ParseEncodeRow(fields: seq<string>)
    requires |fields| >= 1
    ensures ParseCsv(EncodeRow(fields)) == fields
  {
    ScanEncodeRow(fields, []);
  }
}
