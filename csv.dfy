/**
 * `parseCsvLine` of main.js: one roster line split into fields. A field may be
 * quoted; inside quotes a comma does not split and a doubled quote stands for
 * one quote character, close to rules 6 and 7 of section 2 of RFC 4180. Each
 * field is trimmed; a line never spans more than one record.
 */
module Csv {

  // ---------------------------------------------------------------------------
  // String.prototype.trim
  // ---------------------------------------------------------------------------

  /** The white space and line terminators that `String.prototype.trim` removes. */
  predicate IsTrimmable(c: char)
  {
    var u := c as int;
    (0x09 <= u <= 0x0D) || u == 0x20 || u == 0xA0 || u == 0x1680 || (0x2000 <= u <= 0x200A)
    || u == 0x2028 || u == 0x2029 || u == 0x202F || u == 0x205F || u == 0x3000 || u == 0xFEFF
  }

  /** Where a trimmed string starts: the length of the leading run of white space. */
  function TrimStart(s: string): (n: nat)
    ensures n <= |s|
    ensures forall k :: 0 <= k < n ==> IsTrimmable(s[k])
    ensures n < |s| ==> !IsTrimmable(s[n])
  {
    if s == [] || !IsTrimmable(s[0]) then 0 else 1 + TrimStart(s[1..])
  }

  /** Where a trimmed string ends: the start of the trailing run of white space after `lo`. */
  function TrimEnd(s: string, lo: nat): (n: nat)
    requires lo <= |s|
    ensures lo <= n <= |s|
    ensures forall k :: n <= k < |s| ==> IsTrimmable(s[k])
    ensures n > lo ==> !IsTrimmable(s[n - 1])
    decreases |s|
  {
    if |s| == lo || !IsTrimmable(s[|s| - 1]) then |s| else TrimEnd(s[..|s| - 1], lo)
  }

  /** `s.trim()`: the string without its leading and trailing white space. */
  function Trim(s: string): (r: string)
    ensures r == [] || (!IsTrimmable(r[0]) && !IsTrimmable(r[|r| - 1]))
    ensures (s == [] || (!IsTrimmable(s[0]) && !IsTrimmable(s[|s| - 1]))) ==> r == s
    ensures exists i, j :: 0 <= i <= j <= |s| && r == s[i..j]
              && (forall k :: 0 <= k < i ==> IsTrimmable(s[k]))
              && (forall k :: j <= k < |s| ==> IsTrimmable(s[k]))
  {
    s[TrimStart(s)..TrimEnd(s, TrimStart(s))]
  }

  /** A string that `trim` leaves alone. */
  predicate Trimmed(s: string)
  {
    s == [] || (!IsTrimmable(s[0]) && !IsTrimmable(s[|s| - 1]))
  }

  // ---------------------------------------------------------------------------
  // The scanner
  // ---------------------------------------------------------------------------

  /**
   * The state machine of `parseCsvLine` on the rest `s` of the line: `quoted`
   * is `inQuotes`, `cur` the field read so far and `acc` the fields pushed.
   */
  function Scan(s: string, quoted: bool, cur: string, acc: seq<string>): seq<string>
    decreases |s|
  {
    if s == [] then acc + [Trim(cur)]
    else if quoted then
      if s[0] == '"' then
        if |s| > 1 && s[1] == '"' then Scan(s[2..], true, cur + "\"", acc)
        else Scan(s[1..], false, cur, acc)
      else Scan(s[1..], true, cur + [s[0]], acc)
    else if s[0] == '"' then Scan(s[1..], true, cur, acc)
    else if s[0] == ',' then Scan(s[1..], false, "", acc + [Trim(cur)])
    else Scan(s[1..], false, cur + [s[0]], acc)
  }

  /** The fields of one line. */
  function ParseFields(line: string): seq<string>
  {
    Scan(line, false, "", [])
  }

  /** `parseCsvLine(line)`. */
  method ParseCsvLine(line: string) returns (fields: seq<string>)
    ensures fields == ParseFields(line)
  {
    fields := [];
    var current := "";
    var inQuotes := false;
    var i := 0;
    while i < |line|
      invariant 0 <= i <= |line|
      invariant Scan(line[i..], inQuotes, current, fields) == ParseFields(line)
      decreases |line| - i
    {
      var c := line[i];
      if inQuotes {
        if c == '"' {
          if i + 1 < |line| && line[i + 1] == '"' {
            current := current + "\"";
            assert line[i..][2..] == line[i + 2..];
            i := i + 1;
          } else {
            inQuotes := false;
          }
        } else {
          current := current + [c];
        }
      } else if c == '"' {
        inQuotes := true;
      } else if c == ',' {
        fields := fields + [Trim(current)];
        current := "";
      } else {
        current := current + [c];
      }
      assert line[i..][1..] == line[i + 1..];
      i := i + 1;
    }
    fields := fields + [Trim(current)];
  }

  // ---------------------------------------------------------------------------
  // What the parser promises
  // ---------------------------------------------------------------------------

  /** The commas that split: those the scanner meets outside quotes. */
  function CommasOutside(s: string, quoted: bool): nat
    decreases |s|
  {
    if s == [] then 0
    else if quoted then
      if s[0] == '"' then
        if |s| > 1 && s[1] == '"' then CommasOutside(s[2..], true) else CommasOutside(s[1..], false)
      else CommasOutside(s[1..], true)
    else if s[0] == '"' then CommasOutside(s[1..], true)
    else (if s[0] == ',' then 1 else 0) + CommasOutside(s[1..], false)
  }

  lemma {:induction false} ScanCount(s: string, quoted: bool, cur: string, acc: seq<string>)
    ensures |Scan(s, quoted, cur, acc)| == |acc| + 1 + CommasOutside(s, quoted)
    decreases |s|
  {
    if s != [] {
      if quoted {
        if s[0] == '"' {
          if |s| > 1 && s[1] == '"' {
            ScanCount(s[2..], true, cur + "\"", acc);
          } else {
            ScanCount(s[1..], false, cur, acc);
          }
        } else {
          ScanCount(s[1..], true, cur + [s[0]], acc);
        }
      } else if s[0] == '"' {
        ScanCount(s[1..], true, cur, acc);
      } else if s[0] == ',' {
        ScanCount(s[1..], false, "", acc + [Trim(cur)]);
      } else {
        ScanCount(s[1..], false, cur + [s[0]], acc);
      }
    }
  }

  /** A line has one field more than it has commas outside quotes. */
  lemma FieldCount(line: string)
    ensures |ParseFields(line)| == 1 + CommasOutside(line, false)
  {
    ScanCount(line, false, "", []);
  }

  lemma {:induction false} ScanTrimmed(s: string, quoted: bool, cur: string, acc: seq<string>)
    requires forall k :: 0 <= k < |acc| ==> Trimmed(acc[k])
    ensures forall k :: 0 <= k < |Scan(s, quoted, cur, acc)| ==> Trimmed(Scan(s, quoted, cur, acc)[k])
    decreases |s|
  {
    if s != [] {
      if quoted {
        if s[0] == '"' {
          if |s| > 1 && s[1] == '"' {
            ScanTrimmed(s[2..], true, cur + "\"", acc);
          } else {
            ScanTrimmed(s[1..], false, cur, acc);
          }
        } else {
          ScanTrimmed(s[1..], true, cur + [s[0]], acc);
        }
      } else if s[0] == '"' {
        ScanTrimmed(s[1..], true, cur, acc);
      } else if s[0] == ',' {
        ScanTrimmed(s[1..], false, "", acc + [Trim(cur)]);
      } else {
        ScanTrimmed(s[1..], false, cur + [s[0]], acc);
      }
    }
  }

  /** Every field comes out trimmed. */
  lemma FieldsTrimmed(line: string)
    ensures forall k :: 0 <= k < |ParseFields(line)| ==> Trimmed(ParseFields(line)[k])
  {
    ScanTrimmed(line, false, "", []);
  }

  /** A plain split at every comma, the reference for lines without quotes. */
  function SplitCommas(s: string): (r: seq<string>)
    ensures |r| >= 1
  {
    if s == [] then [""]
    else if s[0] == ',' then [""] + SplitCommas(s[1..])
    else Glue([s[0]], SplitCommas(s[1..]))
  }

  /** `parts` with `cur` put in front of its first piece. */
  function Glue(cur: string, parts: seq<string>): (r: seq<string>)
    requires parts != []
    ensures |r| == |parts| && r[0] == cur + parts[0] && r[1..] == parts[1..]
  {
    [cur + parts[0]] + parts[1..]
  }

  lemma GlueEmpty(parts: seq<string>)
    requires parts != []
    ensures Glue("", parts) == parts
  {
    assert "" + parts[0] == parts[0];
    assert [parts[0]] + parts[1..] == parts;
  }

  function TrimAll(fs: seq<string>): (r: seq<string>)
    ensures |r| == |fs|
    ensures forall k :: 0 <= k < |fs| ==> r[k] == Trim(fs[k])
  {
    if fs == [] then [] else [Trim(fs[0])] + TrimAll(fs[1..])
  }

  lemma {:induction false} ScanUnquoted(s: string, cur: string, acc: seq<string>)
    requires forall k :: 0 <= k < |s| ==> s[k] != '"'
    ensures Scan(s, false, cur, acc) == acc + TrimAll(Glue(cur, SplitCommas(s)))
    decreases |s|
  {
    if s == [] {
      assert cur + "" == cur;
      assert Glue(cur, [""]) == [cur];
    } else if s[0] == ',' {
      ScanUnquoted(s[1..], "", acc + [Trim(cur)]);
      GlueEmpty(SplitCommas(s[1..]));
      UnquotedComma(cur, SplitCommas(s[1..]), acc);
    } else {
      ScanUnquoted(s[1..], cur + [s[0]], acc);
      UnquotedChar(s, cur, acc);
    }
  }

  /** The step of `ScanUnquoted` at a comma: the field read so far is closed. */
  lemma UnquotedComma(cur: string, rest: seq<string>, acc: seq<string>)
    requires rest != []
    ensures acc + [Trim(cur)] + TrimAll(rest) == acc + TrimAll(Glue(cur, [""] + rest))
  {
    assert cur + "" == cur;
    assert Glue(cur, [""] + rest) == [cur] + rest;
    assert TrimAll([cur] + rest) == [Trim(cur)] + TrimAll(rest);
  }

  /** The step of `ScanUnquoted` at any character other than a comma or a quote. */
  lemma UnquotedChar(s: string, cur: string, acc: seq<string>)
    requires s != [] && s[0] != ',' && s[0] != '"'
    requires Scan(s[1..], false, cur + [s[0]], acc) == acc + TrimAll(Glue(cur + [s[0]], SplitCommas(s[1..])))
    ensures Scan(s, false, cur, acc) == acc + TrimAll(Glue(cur, SplitCommas(s)))
  {
    var rest := SplitCommas(s[1..]);
    ConcatAssoc(cur, [s[0]], rest[0]);
    assert Glue(cur, Glue([s[0]], rest)) == Glue(cur + [s[0]], rest);
  }

  lemma ConcatAssoc(a: string, b: string, c: string)
    ensures a + (b + c) == (a + b) + c
  {
  }

  /** Without quotes, a line is split at every comma and each piece trimmed. */
  lemma UnquotedLine(line: string)
    requires forall k :: 0 <= k < |line| ==> line[k] != '"'
    ensures ParseFields(line) == TrimAll(SplitCommas(line))
  {
    var parts := SplitCommas(line);
    ScanUnquoted(line, "", []);
    GlueEmpty(parts);
    assert [] + TrimAll(parts) == TrimAll(parts);
  }

  /** A field's text with each quote doubled. */
  function Escape(f: string): string
  {
    if f == [] then [] else EscapeChar(f[0]) + Escape(f[1..])
  }

  function EscapeChar(c: char): string
  {
    if c == '"' then ['"', '"'] else [c]
  }

  lemma EscapeFirst(f: string, rest: string)
    requires f != []
    ensures Escape(f) + ['"'] + rest == EscapeChar(f[0]) + (Escape(f[1..]) + ['"'] + rest)
  {
    var a, b := EscapeChar(f[0]), Escape(f[1..]);
    assert Escape(f) == a + b;
    assert (a + b) + ['"'] + rest == a + (b + ['"'] + rest);
  }

  /**
   * A line of fields, each written in quotes with its quotes doubled and
   * separated by commas.
   */
  function Encode(fs: seq<string>): string
    requires fs != []
  {
    ['"'] + (Escape(fs[0]) + ['"'] + (if |fs| == 1 then [] else [','] + Encode(fs[1..])))
  }

  /** Inside quotes, an escaped text up to its closing quote is read back as the text. */
  lemma {:induction false} ScanEscaped(f: string, rest: string, cur: string, acc: seq<string>)
    requires rest == [] || rest[0] == ','
    ensures Scan(Escape(f) + ['"'] + rest, true, cur, acc) == Scan(rest, false, cur + f, acc)
    decreases |f|
  {
    if f == [] {
      assert Escape(f) + ['"'] + rest == ['"'] + rest;
      ScanClosingQuote(rest, cur, acc);
      assert cur + f == cur;
    } else {
      var tail := Escape(f[1..]) + ['"'] + rest;
      ScanEscaped(f[1..], rest, cur + [f[0]], acc);
      ConcatAssoc(cur, [f[0]], f[1..]);
      assert [f[0]] + f[1..] == f;
      EscapeFirst(f, rest);
      if f[0] == '"' {
        ScanDoubledQuote(tail, cur, acc);
      } else {
        ScanQuotedChar(f[0], tail, cur, acc);
      }
    }
  }

  /** Inside quotes, a quote followed by the end of the line or a comma closes the field. */
  lemma ScanClosingQuote(rest: string, cur: string, acc: seq<string>)
    requires rest == [] || rest[0] == ','
    ensures Scan(['"'] + rest, true, cur, acc) == Scan(rest, false, cur, acc)
  {
    assert (['"'] + rest)[1..] == rest;
  }

  /** Inside quotes, a doubled quote stands for one quote. */
  lemma ScanDoubledQuote(tail: string, cur: string, acc: seq<string>)
    ensures Scan(['"', '"'] + tail, true, cur, acc) == Scan(tail, true, cur + ['"'], acc)
  {
    assert (['"', '"'] + tail)[2..] == tail;
  }

  /** Inside quotes, any other character is part of the field. */
  lemma ScanQuotedChar(c: char, tail: string, cur: string, acc: seq<string>)
    requires c != '"'
    ensures Scan([c] + tail, true, cur, acc) == Scan(tail, true, cur + [c], acc)
  {
    assert ([c] + tail)[1..] == tail;
  }

  lemma {:induction false} ScanEncoded(fs: seq<string>, acc: seq<string>)
    requires fs != []
    ensures Scan(Encode(fs), false, "", acc) == acc + TrimAll(fs)
    decreases |fs|
  {
    var f := fs[0];
    var rest := if |fs| == 1 then "" else [','] + Encode(fs[1..]);
    ScanOpeningQuote(Escape(f) + ['"'] + rest, "", acc);
    ScanEscaped(f, rest, "", acc);
    assert "" + f == f;
    if |fs| == 1 {
      assert TrimAll(fs) == [Trim(f)];
    } else {
      ScanComma(Encode(fs[1..]), f, acc);
      ScanEncoded(fs[1..], acc + [Trim(f)]);
      TrimAllFirst(fs, acc);
    }
  }

  /** Outside quotes, a quote opens a quoted stretch. */
  lemma ScanOpeningQuote(tail: string, cur: string, acc: seq<string>)
    ensures Scan(['"'] + tail, false, cur, acc) == Scan(tail, true, cur, acc)
  {
    assert (['"'] + tail)[1..] == tail;
  }

  /** Outside quotes, a comma closes the field. */
  lemma ScanComma(tail: string, cur: string, acc: seq<string>)
    ensures Scan([','] + tail, false, cur, acc) == Scan(tail, false, "", acc + [Trim(cur)])
  {
    assert ([','] + tail)[1..] == tail;
  }

  lemma TrimAllFirst(fs: seq<string>, acc: seq<string>)
    requires fs != []
    ensures acc + [Trim(fs[0])] + TrimAll(fs[1..]) == acc + TrimAll(fs)
  {
    assert TrimAll(fs) == [Trim(fs[0])] + TrimAll(fs[1..]);
  }

  /**
   * Quoted fields with doubled quotes are read back as the trimmed fields:
   * commas inside quotes do not split, and `""` inside quotes is one quote.
   */
  lemma EncodedRoundTrip(fs: seq<string>)
    requires fs != []
    ensures ParseFields(Encode(fs)) == TrimAll(fs)
  {
    ScanEncoded(fs, []);
  }
}
