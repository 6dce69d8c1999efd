/**
 * The field splitter of the CSV parser (splitCSVLine): a left-to-right scan of
 * one physical line that keeps an "inside quotes" flag and an accumulator,
 * followed by a per-field clean-up (trim, then strip one wrapping pair of
 * double quotes). It follows the quoting rules of items 5 to 7 of section 2 of
 * RFC 4180 loosely and has no multi-line fields.
 */
module CsvLine {
  import opened JsBuiltins

  /**
   * The fields the scan produces from the rest `s` of a line, given the current
   * quote state and the text accumulated so far for the current field.
   * A `"` toggles the quote state, except that inside quotes a doubled `""`
   * puts one literal `"` into the field; a `,` outside quotes ends the field;
   * every other character is kept.
   */
  function RawFields(s: string, inQuotes: bool, current: string): (r: seq<string>)
    ensures |r| >= 1
    decreases |s|
  {
    if s == [] then [current]
    else if s[0] == '"' then
      if inQuotes && |s| > 1 && s[1] == '"' then RawFields(s[2..], inQuotes, current + "\"")
      else RawFields(s[1..], !inQuotes, current)
    else if s[0] == ',' && !inQuotes then [current] + RawFields(s[1..], false, "")
    else RawFields(s[1..], inQuotes, current + [s[0]])
  }

  /** The number of commas the scan meets while it is outside quotes. */
  function UnquotedCommas(s: string, inQuotes: bool): nat
    decreases |s|
  {
    if s == [] then 0
    else if s[0] == '"' then
      if inQuotes && |s| > 1 && s[1] == '"' then UnquotedCommas(s[2..], inQuotes)
      else UnquotedCommas(s[1..], !inQuotes)
    else if s[0] == ',' && !inQuotes then 1 + UnquotedCommas(s[1..], false)
    else UnquotedCommas(s[1..], inQuotes)
  }

  /** One pair of wrapping double quotes, as startsWith('"') && endsWith('"') tests it. */
  predicate IsWrapped(t: string) {
    |t| >= 1 && t[0] == '"' && t[|t| - 1] == '"'
  }

  /** The clean-up of one raw field: trim, then slice(1, -1) when wrapped in quotes. */
  function Clean(field: string): (r: string)
    ensures |r| <= |field|
  {
    var t := Trim(field);
    if IsWrapped(t) then (if |t| >= 2 then t[1..|t| - 1] else "") else t
  }

  /** What splitCSVLine returns for a line. */
  function SplitLine(line: string): (r: seq<string>)
    ensures |r| == 1 + UnquotedCommas(line, false)
  {
    var raw := RawFields(line, false, "");
    FieldCount(line, false, "");
    seq(|raw|, k requires 0 <= k < |raw| => Clean(raw[k]))
  }

  /** There is one field more than there are commas outside quotes. */
  lemma {:induction false} FieldCount(s: string, inQuotes: bool, current: string)
    ensures |RawFields(s, inQuotes, current)| == 1 + UnquotedCommas(s, inQuotes)
    decreases |s|
  {
    if s == [] {
    } else if s[0] == '"' {
      if inQuotes && |s| > 1 && s[1] == '"' {
        FieldCount(s[2..], inQuotes, current + "\"");
      } else {
        FieldCount(s[1..], !inQuotes, current);
      }
    } else if s[0] == ',' && !inQuotes {
      FieldCount(s[1..], false, "");
    } else {
      FieldCount(s[1..], inQuotes, current + [s[0]]);
    }
  }

  /**
   * splitCSVLine: the index loop over the characters of the line, then the
   * per-field clean-up.
   */
  method SplitCSVLine(line: string) returns (result: seq<string>)
    ensures result == SplitLine(line)
    ensures |result| >= 1
    ensures forall k :: 0 <= k < |result| ==> result[k] == Clean(RawFields(line, false, "")[k])
  {
    var fields: seq<string> := [];
    var current := "";
    var inQuotes := false;
    var i := 0;
    while i < |line|
      invariant 0 <= i <= |line|
      invariant fields + RawFields(line[i..], inQuotes, current) == RawFields(line, false, "")
    {
      var c := line[i];
      assert line[i..][0] == c && line[i..][1..] == line[i + 1..];
      if c == '"' {
        if inQuotes && i + 1 < |line| && line[i + 1] == '"' {
          assert line[i..][2..] == line[i + 2..];
          current := current + "\"";
          i := i + 1;  // skip the second quote of the pair
        } else {
          inQuotes := !inQuotes;
        }
      } else if c == ',' && !inQuotes {
        fields := fields + [current];
        current := "";
      } else {
        current := current + [c];
      }
      i := i + 1;
    }
    fields := fields + [current];
    result := seq(|fields|, k requires 0 <= k < |fields| => Clean(fields[k]));
  }

  // ---------------------------------------------------------------------
  // Lines without any double quote: the scan is a plain split on commas.

  /** Prefixes `c` to the first of the pieces. */
  function PrependFirst(c: string, pieces: seq<string>): seq<string>
    requires |pieces| >= 1
  {
    [c + pieces[0]] + pieces[1..]
  }

  lemma {:induction false} PrependEmpty(pieces: seq<string>)
    requires |pieces| >= 1
    ensures PrependFirst("", pieces) == pieces
  {
    assert "" + pieces[0] == pieces[0];
  }

  lemma {:induction false} RawFieldsWithoutQuotes(s: string, current: string)
    requires '"' !in s
    ensures RawFields(s, false, current) == PrependFirst(current, SplitOn(s, ','))
    decreases |s|
  {
    if s != [] {
      assert '"' !in s[1..] by {
        forall j | 0 <= j < |s[1..]| ensures s[1..][j] != '"' {
          assert s[1..][j] == s[j + 1];
        }
      }
      if s[0] == ',' {
        RawFieldsWithoutQuotes(s[1..], "");
        ScanCommaWithoutQuotes(s, current);
      } else {
        RawFieldsWithoutQuotes(s[1..], current + [s[0]]);
        ScanCharWithoutQuotes(s, current);
      }
    } else {
      assert SplitOn(s, ',') == [""];
      assert current + "" == current;
    }
  }

  /** The step of RawFieldsWithoutQuotes at a comma. */
  lemma {:induction false} ScanCommaWithoutQuotes(s: string, current: string)
    requires s != [] && s[0] == ','
    requires RawFields(s[1..], false, "") == PrependFirst("", SplitOn(s[1..], ','))
    ensures RawFields(s, false, current) == PrependFirst(current, SplitOn(s, ','))
  {
    var rest := SplitOn(s[1..], ',');
    PrependEmpty(rest);
    assert RawFields(s, false, current) == [current] + RawFields(s[1..], false, "");
    var pieces := [""] + rest;
    assert SplitOn(s, ',') == pieces;
    assert pieces[0] == "" && pieces[1..] == rest;
    assert current + "" == current;
    assert PrependFirst(current, pieces) == [current] + rest;
  }

  /** The step of RawFieldsWithoutQuotes at a character other than a comma or a quote. */
  lemma {:induction false} ScanCharWithoutQuotes(s: string, current: string)
    requires s != [] && s[0] != ',' && s[0] != '"'
    requires RawFields(s[1..], false, current + [s[0]]) == PrependFirst(current + [s[0]], SplitOn(s[1..], ','))
    ensures RawFields(s, false, current) == PrependFirst(current, SplitOn(s, ','))
  {
    var rest := SplitOn(s[1..], ',');
    assert RawFields(s, false, current) == RawFields(s[1..], false, current + [s[0]]);
    var pieces := [[s[0]] + rest[0]] + rest[1..];
    assert SplitOn(s, ',') == pieces;
    assert pieces[1..] == rest[1..];
    assert current + [s[0]] + rest[0] == current + ([s[0]] + rest[0]);
    assert PrependFirst(current, pieces) == [current + ([s[0]] + rest[0])] + rest[1..];
  }

  /** Without quotes, trimming is all the clean-up does. */
  lemma {:induction false} CleanWithoutQuotes(field: string)
    requires '"' !in field
    ensures Clean(field) == Trim(field)
  {
    var t := Trim(field);
    if |t| >= 1 {
      assert t[0] == field[TrimOffset(field)];
    }
  }

  /**
   * A line without double quotes splits exactly as field.split(',') with every
   * piece trimmed; an empty piece gives an empty field.
   */
  lemma {:induction false} SplitLineWithoutQuotes(line: string)
    requires '"' !in line
    ensures |SplitLine(line)| == |SplitOn(line, ',')|
    ensures forall k :: 0 <= k < |SplitLine(line)| ==> SplitLine(line)[k] == Trim(SplitOn(line, ',')[k])
  {
    var pieces := SplitOn(line, ',');
    RawFieldsWithoutQuotes(line, "");
    PrependEmpty(pieces);
    forall k | 0 <= k < |pieces| ensures Clean(pieces[k]) == Trim(pieces[k]) {
      SplitOnPiecesFrom(line, ',', k);
      CleanWithoutQuotes(pieces[k]);
    }
  }

  /** A field that needs no quoting and no trimming: no quote, no comma, no whitespace at either end. */
  predicate PlainField(w: string) {
    '"' !in w && ',' !in w && Trim(w) == w
  }

  /** Plain fields joined with commas split back into themselves. */
  lemma {:induction false} SplitLineOfPlainFields(ws: seq<string>)
    requires |ws| >= 1
    requires forall k :: 0 <= k < |ws| ==> PlainField(ws[k])
    ensures SplitLine(Join(ws, ',')) == ws
  {
    var line := Join(ws, ',');
    JoinAvoids(ws, ',', '"');
    SplitOnJoin(ws, ',');
    SplitLineWithoutQuotes(line);
  }

  /** Without double quotes, joining the raw fields with commas gives back the line. */
  lemma {:induction false} RawFieldsJoinWithoutQuotes(line: string)
    requires '"' !in line
    ensures Join(RawFields(line, false, ""), ',') == line
  {
    RawFieldsWithoutQuotes(line, "");
    var pieces := SplitOn(line, ',');
    PrependEmpty(pieces);
    JoinSplitOn(line, ',');
  }

  // ---------------------------------------------------------------------
  // Quoted fields: quoting any text the RFC 4180 way is read back exactly.

  /** Doubles every double quote. */
  function Escape(w: string): (r: string)
    ensures |r| >= |w|
  {
    if w == [] then []
    else (if w[0] == '"' then "\"\"" else [w[0]]) + Escape(w[1..])
  }

  /** A field written in quotes, with its inner quotes doubled. */
  function Quote(w: string): string {
    "\"" + Escape(w) + "\""
  }

  /** Inside quotes, escaped text up to the closing quote is read into the field verbatim, commas included. */
  lemma {:induction false} ReadEscaped(w: string, rest: string, current: string)
    requires rest == [] || rest[0] != '"'
    ensures RawFields(Escape(w) + "\"" + rest, true, current) == RawFields(rest, false, current + w)
    decreases |w|
  {
    var s := Escape(w) + "\"" + rest;
    if w == [] {
      assert s == "\"" + rest;
      assert s[1..] == rest;
      assert current + w == current;
    } else {
      var tail := Escape(w[1..]) + "\"" + rest;
      ReadEscaped(w[1..], rest, current + [w[0]]);
      assert current + [w[0]] + w[1..] == current + w;
      if w[0] == '"' {
        assert s == "\"\"" + tail;
        assert s[2..] == tail;
        assert current + "\"" == current + [w[0]];
      } else {
        assert s == [w[0]] + tail;
        assert s[1..] == tail;
      }
    }
  }

  /** A quoted field followed by a comma or the end of the line contributes exactly its text. */
  lemma {:induction false} ReadQuoted(w: string, rest: string, current: string)
    requires rest == [] || rest[0] != '"'
    ensures RawFields(Quote(w) + rest, false, current) == RawFields(rest, false, current + w)
  {
    var s := Quote(w) + rest;
    assert s[1..] == Escape(w) + "\"" + rest;
    ReadEscaped(w, rest, current);
  }

  /** A line of fields, each written in quotes, separated by commas. */
  function EncodeLine(ws: seq<string>): string
    requires |ws| >= 1
  {
    if |ws| == 1 then Quote(ws[0]) else Quote(ws[0]) + "," + EncodeLine(ws[1..])
  }

  /** The scan reads back every list of quoted fields: quoting is the inverse of the scan. */
  lemma {:induction false} RawFieldsOfEncodeLine(ws: seq<string>)
    requires |ws| >= 1
    ensures RawFields(EncodeLine(ws), false, "") == ws
  {
    if |ws| == 1 {
      ReadQuoted(ws[0], "", "");
      assert Quote(ws[0]) + "" == Quote(ws[0]);
      assert "" + ws[0] == ws[0];
      assert ws == [ws[0]];
    } else {
      var rest := EncodeLine(ws[1..]);
      assert EncodeLine(ws) == Quote(ws[0]) + ("," + rest);
      ReadQuoted(ws[0], "," + rest, "");
      assert ("," + rest)[1..] == rest;
      RawFieldsOfEncodeLine(ws[1..]);
      assert "" + ws[0] == ws[0];
      assert [ws[0]] + ws[1..] == ws;
    }
  }

  /** splitCSVLine of a line of quoted fields gives the cleaned-up fields, in order. */
  lemma {:induction false} SplitLineOfEncodeLine(ws: seq<string>)
    requires |ws| >= 1
    ensures |SplitLine(EncodeLine(ws))| == |ws|
    ensures forall k :: 0 <= k < |ws| ==> SplitLine(EncodeLine(ws))[k] == Clean(ws[k])
  {
    RawFieldsOfEncodeLine(ws);
  }

  /** A field that is already trimmed and not wrapped in quotes survives the clean-up unchanged. */
  lemma {:induction false} CleanOfCleanField(w: string)
    requires Trim(w) == w && !IsWrapped(w)
    ensures Clean(w) == w
  {
  }

  /**
   * The clean-up either gives a trimmed field, or removes exactly one quote at
   * each end of the trimmed field (a lone `"` becomes the empty field).
   */
  lemma {:induction false} CleanTrimsOrUnwraps(f: string)
    ensures !IsWrapped(Trim(f)) ==> Trim(Clean(f)) == Clean(f)
    ensures IsWrapped(Trim(f)) && |Trim(f)| >= 2 ==> Trim(f) == "\"" + Clean(f) + "\""
    ensures IsWrapped(Trim(f)) && |Trim(f)| < 2 ==> Trim(f) == "\"" && Clean(f) == ""
  {
    var t := Trim(f);
    if !IsWrapped(t) {
      TrimIdempotent(f);
    } else if |t| >= 2 {
      Rewrap(t);
    } else {
      assert t == [t[0]];
    }
  }

  /** A string wrapped in quotes is its inside between two quotes. */
  lemma {:induction false} Rewrap(t: string)
    requires IsWrapped(t) && |t| >= 2
    ensures t == "\"" + t[1..|t| - 1] + "\""
  {
    assert t == [t[0]] + t[1..|t| - 1] + [t[|t| - 1]];
  }

  /**
   * The clean-up strips one wrapping pair and nothing more: it gives the inside
   * of a quoted field verbatim, so an inside that starts with whitespace stays
   * untrimmed. The line `""" a """` scans to the field `" a "` (see
   * SplitTripleQuoted), which becomes ` a `.
   */
  lemma {:induction false} CleanMayLeaveWhitespace(w: string)
    ensures Clean("\"" + w + "\"") == w
    ensures w != [] && IsWhitespace(w[0]) ==> Trim(Clean("\"" + w + "\"")) != Clean("\"" + w + "\"")
  {
    var f := "\"" + w + "\"";
    assert f[0] == '"' && f[|f| - 1] == '"';
    TrimOfTrimmed(f);
    assert f[1..|f| - 1] == w;
  }

  // ---------------------------------------------------------------------
  // Two concrete lines, read piece by piece.

  /** Outside quotes, text without quotes or commas goes into the current field. */
  lemma {:induction false} ReadPlain(w: string, rest: string, current: string)
    requires '"' !in w && ',' !in w
    ensures RawFields(w + rest, false, current) == RawFields(rest, false, current + w)
    decreases |w|
  {
    if w == [] {
      assert w + rest == rest;
      assert current + w == current;
    } else {
      assert (w + rest)[0] == w[0];
      assert (w + rest)[1..] == w[1..] + rest;
      assert w[1..] == w[1..] && '"' !in w[1..] && ',' !in w[1..] by {
        forall j | 0 <= j < |w[1..]| ensures w[1..][j] == w[j + 1] {}
      }
      ReadPlain(w[1..], rest, current + [w[0]]);
      assert current + [w[0]] + w[1..] == current + w;
    }
  }

  /** Outside quotes, a comma ends the current field. */
  lemma {:induction false} ReadComma(rest: string, current: string)
    ensures RawFields("," + rest, false, current) == [current] + RawFields(rest, false, "")
  {
    assert ("," + rest)[1..] == rest;
  }

  /** Text without quotes needs no escaping. */
  lemma {:induction false} EscapeWithoutQuotes(w: string)
    requires '"' !in w
    ensures Escape(w) == w
  {
    if w != [] {
      assert '"' !in w[1..] by {
        forall j | 0 <= j < |w[1..]| ensures w[1..][j] == w[j + 1] {}
      }
      EscapeWithoutQuotes(w[1..]);
      assert [w[0]] + w[1..] == w;
    }
  }

  /** A string that neither starts nor ends with whitespace is its own trim. */
  lemma {:induction false} TrimOfTrimmed(s: string)
    requires s == [] || (!IsWhitespace(s[0]) && !IsWhitespace(s[|s| - 1]))
    ensures Trim(s) == s
  {
    assert TrimStart(s) == s;
  }

  /** A field that does not start with a quote and has no whitespace at either end is kept as it is. */
  lemma {:induction false} CleanOfPlain(f: string)
    requires f != [] && f[0] != '"' && !IsWhitespace(f[0]) && !IsWhitespace(f[|f| - 1])
    ensures Clean(f) == f
  {
    TrimOfTrimmed(f);
  }

  /** A plain field, a quoted field and a plain field, separated by commas, scan back to the three texts. */
  lemma {:induction false} RawQuotedMiddle(a: string, m: string, d: string)
    requires '"' !in a && ',' !in a && '"' !in d && ',' !in d
    ensures RawFields(a + ("," + (Quote(m) + ("," + d))), false, "") == [a, m, d]
  {
    var tail := Quote(m) + ("," + d);
    ReadPlain(a, "," + tail, "");
    assert "" + a == a;
    ReadComma(tail, a);
    ReadQuoted(m, "," + d, "");
    assert "" + m == m;
    ReadComma(d, m);
    ReadPlain(d, "", "");
    assert d + "" == d && "" + d == d;
  }

  lemma {:induction false} RawEmbeddedComma(line: string)
    requires line == "a,\"b,c\",d"
    ensures RawFields(line, false, "") == ["a", "b,c", "d"]
  {
    var a, m, d := "a", "b,c", "d";
    EscapeWithoutQuotes(m);
    var q := Quote(m);
    assert q == "\"b,c\"";
    assert ",\"b,c\",d" == "," + (q + ("," + d));
    assert line == a + ("," + (q + ("," + d)));
    RawQuotedMiddle(a, m, d);
  }

  /** A comma inside quotes does not split the field. */
  lemma {:induction false} SplitEmbeddedComma(line: string)
    requires line == "a,\"b,c\",d"
    ensures SplitLine(line) == ["a", "b,c", "d"]
  {
    RawEmbeddedComma(line);
    var raw := RawFields(line, false, "");
    forall k | 0 <= k < |raw| ensures Clean(raw[k]) == raw[k] {
      CleanOfPlain(raw[k]);
    }
  }

  /** Inside quotes, text without quotes goes into the current field, commas included. */
  lemma {:induction false} ReadInside(w: string, rest: string, current: string)
    requires '"' !in w
    ensures RawFields(w + rest, true, current) == RawFields(rest, true, current + w)
    decreases |w|
  {
    if w == [] {
      assert w + rest == rest;
      assert current + w == current;
    } else {
      assert (w + rest)[0] == w[0];
      assert (w + rest)[1..] == w[1..] + rest;
      assert '"' !in w[1..] by {
        forall j | 0 <= j < |w[1..]| ensures w[1..][j] == w[j + 1] {}
      }
      ReadInside(w[1..], rest, current + [w[0]]);
      assert current + [w[0]] + w[1..] == current + w;
    }
  }

  /** Inside quotes, a doubled quote adds one quote to the field. */
  lemma {:induction false} ReadDoubled(rest: string, current: string)
    ensures RawFields("\"\"" + rest, true, current) == RawFields(rest, true, current + "\"")
  {
    assert ("\"\"" + rest)[2..] == rest;
  }

  /** Inside quotes, a quote not followed by another closes the quoted section. */
  lemma {:induction false} ReadClosing(rest: string, current: string)
    requires rest == [] || rest[0] != '"'
    ensures RawFields("\"" + rest, true, current) == RawFields(rest, false, current)
  {
    assert ("\"" + rest)[1..] == rest;
  }

  /**
   * A line made of a quote-free text between three quotes on each side is one
   * field: the text itself, with its whitespace, since only the outer quotes
   * toggle and the doubled ones leave a quote pair that the clean-up strips.
   */
  lemma {:induction false} SplitTripleQuoted(w: string)
    requires '"' !in w
    ensures SplitLine("\"\"\"" + w + "\"\"\"") == [w]
  {
    var r3 := "\"\"" + "\"";
    var r2 := w + r3;
    var r1 := "\"\"" + r2;
    var line := "\"\"\"" + w + "\"\"\"";
    assert line == "\"" + r1;
    assert line[1..] == r1;
    ReadDoubled(r2, "");
    assert "" + "\"" == "\"";
    ReadInside(w, r3, "\"");
    ReadDoubled("\"", "\"" + w);
    assert "\"" == "\"" + [];
    ReadClosing([], "\"" + w + "\"");
    var raw := RawFields(line, false, "");
    assert raw == ["\"" + w + "\""];
    CleanMayLeaveWhitespace(w);
  }

  /** A quoted field with two doubled quotes, then a plain field, scan back to the two texts. */
  lemma {:induction false} RawDoubledQuotes(a: string, b: string, d: string)
    requires '"' !in a && '"' !in b && '"' !in d && ',' !in d
    ensures RawFields("\"" + (a + ("\"\"" + (b + ("\"\"" + ("\"" + ("," + d)))))), false, "")
            == [a + "\"" + b + "\"", d]
  {
    var r4 := "\"" + ("," + d);
    var r3 := "\"\"" + r4;
    var r2 := b + r3;
    var r1 := "\"\"" + r2;
    var x := a + r1;
    assert ("\"" + x)[1..] == x;
    ReadInside(a, r1, "");
    assert "" + a == a;
    ReadDoubled(r2, a);
    ReadInside(b, r3, a + "\"");
    ReadDoubled(r4, a + "\"" + b);
    ReadClosing("," + d, a + "\"" + b + "\"");
    ReadComma(d, a + "\"" + b + "\"");
    ReadPlain(d, "", "");
    assert d + "" == d && "" + d == d;
  }

  /** A doubled quote inside quotes is one literal quote. */
  lemma {:induction false} SplitEscapedQuote(line: string)
    requires line == "\"He said \"\"hi\"\"\",2"
    ensures SplitLine(line) == ["He said \"hi\"", "2"]
  {
    var a, b, d := "He said ", "hi", "2";
    assert line == "\"" + (a + ("\"\"" + (b + ("\"\"" + ("\"" + ("," + d))))));
    RawDoubledQuotes(a, b, d);
    assert a + "\"" + b + "\"" == "He said \"hi\"";
    var raw := RawFields(line, false, "");
    assert raw == ["He said \"hi\"", "2"];
    forall k | 0 <= k < |raw| ensures Clean(raw[k]) == raw[k] {
      CleanOfPlain(raw[k]);
    }
  }
}
