/** Writing a row as a line of comma-separated values, and parsing it back. */
module CsvLine {
  import opened Seqs

  const COMMA: char := ','
  const QUOTE: char := '"'
  const LF: char := '\n'
  const CR: char := '\r'
  const FF: char := '\U{000C}'

  // ----- writing -----

  predicate SpecialChar(c: char) { c == QUOTE || c == COMMA || c == LF || c == CR || c == FF }

  predicate Special(f: string) { exists i :: 0 <= i < |f| && SpecialChar(f[i]) }

  function Doubled(c: char): (s: string) { if c == QUOTE then [QUOTE, QUOTE] else [c] }

  /** The field with its quotes doubled. */
  function Double(f: string): (s: string) {
    if f == [] then [] else Doubled(f[0]) + Double(f[1..])
  }

  function Field(f: string): (s: string) {
    if Special(f) then [QUOTE] + Double(f) + [QUOTE] else f
  }

  /** The fields, each followed by a comma. */
  function Commas(row: seq<string>): (s: string)
    ensures row == [] <==> s == []
  {
    if row == [] then [] else Commas(row[..|row| - 1]) + Field(row[|row| - 1]) + [COMMA]
  }

  function Line(row: seq<string>): (s: string) {
    if row == [] then [] else Commas(row)[..|Commas(row)| - 1]
  }

  lemma {:induction false} DoubleConcat(a: string, b: string)
    ensures Double(a + b) == Double(a) + Double(b)
  {
    if a == [] {
      assert a + b == b;
    } else {
      assert (a + b)[1..] == a[1..] + b;
      DoubleConcat(a[1..], b);
    }
  }

  lemma {:induction false} PlainDouble(f: string)
    requires !Special(f)
    ensures Double(f) == f
  {
    if f != [] {
      assert SpecialChar(f[0]) ==> Special(f);
      assert forall i :: 0 <= i < |f[1..]| ==> f[1..][i] == f[i + 1];
      PlainDouble(f[1..]);
    }
  }

  method WriteField(field: string) returns (result: string)
    ensures result == Field(field)
    ensures result == field <==> forall c :: c in field ==> c !in [QUOTE, COMMA, LF, CR, FF]
  {
    result := [];
    var splChars := false;
    for i := 0 to |field|
      invariant result == Double(field[..i])
      invariant splChars <==> exists k :: 0 <= k < i && SpecialChar(field[k])
    {
      var ch := field[i];
      assert field[..i + 1] == field[..i] + [ch];
      DoubleConcat(field[..i], [ch]);
      assert Double([ch]) == Doubled(ch) + Double([ch][1..]);
      if ch == QUOTE {
        result := result + [QUOTE];
      }
      result := result + [ch];
      splChars := splChars || SpecialChar(ch);
    }
    assert field[..|field|] == field;
    if splChars {
      ghost var k :| 0 <= k < |field| && SpecialChar(field[k]);
      assert field[k] in field;
      DoubleGrows(field);
      result := [QUOTE] + result + [QUOTE];
    } else {
      PlainDouble(field);
    }
  }

  lemma {:induction false} DoubleGrows(f: string)
    ensures |f| <= |Double(f)|
  {
    if f != [] {
      DoubleGrows(f[1..]);
    }
  }

  method WriteLine(row: seq<string>) returns (result: string)
    ensures result == Line(row)
  {
    result := [];
    for i := 0 to |row|
      invariant result == Commas(row[..i])
    {
      assert row[..i + 1][..i] == row[..i];
      var field := WriteField(row[i]);
      result := result + field + [COMMA];
    }
    assert row[..|row|] == row;
    if result != [] {
      result := result[..|result| - 1];
    }
  }

  // ----- parsing -----

  /** Incomplete: the line ends inside a quoted field. */
  datatype Parsed = Row(fields: seq<string>) | Incomplete | Invalid

  function ParseFrom(line: string, idx: nat, inside: bool, acc: string, result: seq<string>): (r: Parsed)
    decreases |line| - idx
  {
    if idx >= |line| then
      if inside then Incomplete else Row(result + [acc])
    else if !inside && line[idx] == COMMA then ParseFrom(line, idx + 1, false, [], result + [acc])
    else if !inside && line[idx] == QUOTE && (idx == 0 || line[idx - 1] == COMMA) then
      ParseFrom(line, idx + 1, true, acc, result)
    else if inside && line[idx] == QUOTE then
      if idx + 1 < |line| && line[idx + 1] != COMMA && line[idx + 1] != QUOTE then Invalid
      else if idx + 1 < |line| && line[idx + 1] == QUOTE then ParseFrom(line, idx + 2, true, acc + [QUOTE], result)
      else ParseFrom(line, idx + 1, false, acc, result)
    else ParseFrom(line, idx + 1, inside, acc + [line[idx]], result)
  }

  function Parse(line: string): (r: Parsed) { ParseFrom(line, 0, false, [], []) }

  method ParseLine(line: string) returns (r: Parsed)
    ensures r == Parse(line)
  {
    var result: seq<string>, insideStr, acc: string, idx := [], false, [], 0;
    while idx < |line|
      invariant 0 <= idx && Parse(line) == ParseFrom(line, idx, insideStr, acc, result)
    {
      if !insideStr && line[idx] == COMMA {
        result, acc := result + [acc], [];
      } else if !insideStr && line[idx] == QUOTE && (idx == 0 || line[idx - 1] == COMMA) {
        insideStr := true;
      } else if insideStr && line[idx] == QUOTE {
        if idx + 1 < |line| && line[idx + 1] != COMMA && line[idx + 1] != QUOTE {
          return Invalid;
        } else if idx + 1 < |line| && line[idx + 1] == QUOTE {
          acc, idx := acc + [QUOTE], idx + 1;
        } else {
          insideStr := false;
        }
      } else {
        acc := acc + [line[idx]];
      }
      idx := idx + 1;
    }
    result := result + [acc];
    r := if insideStr then Incomplete else Row(result);
  }

  // ----- parsing what was written -----

  /** The text stands in the line at this position. */
  predicate At(line: string, idx: nat, s: string) {
    idx + |s| <= |line| && line[idx..idx + |s|] == s
  }

  lemma AtParts(line: string, idx: nat, a: string, b: string)
    requires At(line, idx, a + b)
    ensures At(line, idx, a) && At(line, idx + |a|, b)
  {
    SubSlice(line, idx, |a + b|, 0, |a|);
    SubSlice(line, idx, |a + b|, |a|, |a + b|);
    assert (a + b)[0..|a|] == a && (a + b)[|a|..|a + b|] == b;
  }

  lemma AtChar(line: string, idx: nat, c: char)
    requires At(line, idx, [c])
    ensures idx < |line| && line[idx] == c
  {
    assert line[idx..idx + 1][0] == c;
  }

  lemma {:induction false} ReadsPlain(line: string, idx: nat, f: string, acc: string, result: seq<string>)
    requires At(line, idx, f) && COMMA !in f && (f != [] && f[0] == QUOTE ==> !FieldStarts(line, idx))
    ensures ParseFrom(line, idx, false, acc, result) == ParseFrom(line, idx + |f|, false, acc + f, result)
    decreases |f|
  {
    if f == [] {
      assert acc + f == acc;
    } else {
      assert f == [f[0]] + f[1..];
      AtParts(line, idx, [f[0]], f[1..]);
      AtChar(line, idx, f[0]);
      ReadsPlain(line, idx + 1, f[1..], acc + [f[0]], result);
      assert acc + [f[0]] + f[1..] == acc + f;
    }
  }

  /** Inside quotes, doubled text is read as it was; no part of it ends the field. */
  lemma {:induction false} ReadsQuoted(line: string, idx: nat, f: string, acc: string, result: seq<string>)
    requires At(line, idx, Double(f))
    ensures ParseFrom(line, idx, true, acc, result) == ParseFrom(line, idx + |Double(f)|, true, acc + f, result)
    decreases |f|
  {
    hide ParseFrom;
    hide At;
    if f == [] {
      assert acc + f == acc;
    } else {
      var c := f[0];
      DoubleCons(f);
      hide Double;
      hide Doubled;
      AtParts(line, idx, Doubled(c), Double(f[1..]));
      AtDoubled(line, idx, c);
      ReadsQuotedChar(line, idx, c, acc, result);
      ReadsQuoted(line, idx + |Doubled(c)|, f[1..], acc + [c], result);
      assert acc + [c] + f[1..] == acc + f;
    }
  }

  lemma DoubleCons(f: string)
    requires f != []
    ensures Double(f) == Doubled(f[0]) + Double(f[1..])
  {
  }

  lemma AtDoubled(line: string, idx: nat, c: char)
    requires At(line, idx, Doubled(c))
    ensures idx < |line| && line[idx] == c && (c == QUOTE ==> idx + 1 < |line| && line[idx + 1] == QUOTE)
  {
    assert line[idx] == line[idx..idx + |Doubled(c)|][0];
    if c == QUOTE {
      assert line[idx + 1] == line[idx..idx + 2][1];
    }
  }

  lemma ReadsQuotedChar(line: string, idx: nat, c: char, acc: string, result: seq<string>)
    requires idx < |line| && line[idx] == c && (c == QUOTE ==> idx + 1 < |line| && line[idx + 1] == QUOTE)
    ensures ParseFrom(line, idx, true, acc, result) == ParseFrom(line, idx + |Doubled(c)|, true, acc + [c], result)
  {
  }

  predicate FieldStarts(line: string, idx: nat) {
    idx <= |line| && (idx == 0 || line[idx - 1] == COMMA)
  }

  predicate FieldEnds(line: string, idx: nat) {
    idx == |line| || (idx < |line| && line[idx] == COMMA)
  }

  lemma OpensQuote(line: string, idx: nat, result: seq<string>)
    requires FieldStarts(line, idx) && idx < |line| && line[idx] == QUOTE
    ensures ParseFrom(line, idx, false, [], result) == ParseFrom(line, idx + 1, true, [], result)
  {
  }

  lemma ClosesQuote(line: string, idx: nat, f: string, result: seq<string>)
    requires idx < |line| && line[idx] == QUOTE && FieldEnds(line, idx + 1)
    ensures ParseFrom(line, idx, true, f, result) == ParseFrom(line, idx + 1, false, f, result)
  {
  }

  lemma ReadsComma(line: string, idx: nat, f: string, result: seq<string>)
    requires idx < |line| && line[idx] == COMMA
    ensures ParseFrom(line, idx, false, f, result) == ParseFrom(line, idx + 1, false, [], result + [f])
  {
  }

  // ----- the grammar of lines -----

  /** A field as it may stand in a line: in quotes, or bare. */
  datatype Text = Quoted(f: string) | Bare(f: string)

  function Spell(t: Text): (s: string) {
    if t.Quoted? then [QUOTE] + (Double(t.f) + [QUOTE]) else t.f
  }

  /** A bare field has no comma and does not start with a quote; it may have quotes further on. */
  predicate IsText(t: Text) {
    t.Bare? ==> COMMA !in t.f && (t.f == [] || t.f[0] != QUOTE)
  }

  predicate AllTexts(ts: seq<Text>) { forall i :: 0 <= i < |ts| ==> IsText(ts[i]) }

  function Values(ts: seq<Text>): (fs: seq<string>)
    ensures |fs| == |ts|
  {
    if ts == [] then [] else [ts[0].f] + Values(ts[1..])
  }

  /** The texts, each followed by a comma. */
  function Ended(ts: seq<Text>): (s: string) {
    if ts == [] then [] else Spell(ts[0]) + ([COMMA] + Ended(ts[1..]))
  }

  /** What comes after the terminated fields: a last field, a quoted field that is not closed, or one
      whose closing quote is followed by something else. */
  datatype Tail =
    | LastField(t: Text)
    | Unclosed(f: string)
    | Trailing(f: string, c: char, rest: string)

  predicate IsTail(t: Tail) {
    match t
    case LastField(x) => IsText(x)
    case Unclosed(_) => true
    case Trailing(_, c, _) => c != COMMA && c != QUOTE
  }

  function TailText(t: Tail): (s: string) {
    match t
    case LastField(x) => Spell(x)
    case Unclosed(f) => [QUOTE] + Double(f)
    case Trailing(f, c, rest) => [QUOTE] + (Double(f) + ([QUOTE, c] + rest))
  }

  /** What a line stands for, with these fields before its tail. */
  function Outcome(fs: seq<string>, t: Tail): (r: Parsed) {
    match t
    case LastField(x) => Row(fs + [x.f])
    case Unclosed(_) => Incomplete
    case Trailing(_, _, _) => Invalid
  }

  predicate IsShape(line: string, ts: seq<Text>, t: Tail) {
    AllTexts(ts) && IsTail(t) && line == Ended(ts) + TailText(t)
  }

  lemma ReadsText(line: string, idx: nat, t: Text, result: seq<string>)
    requires IsText(t) && At(line, idx, Spell(t)) && FieldStarts(line, idx) && FieldEnds(line, idx + |Spell(t)|)
    ensures ParseFrom(line, idx, false, [], result) == ParseFrom(line, idx + |Spell(t)|, false, t.f, result)
  {
    hide ParseFrom;
    hide Double;
    hide At;
    hide FieldStarts;
    hide FieldEnds;
    if t.Bare? {
      ReadsPlainText(line, idx, t.f, result);
    } else {
      ReadsQuotedText(line, idx, t.f, result);
    }
  }

  lemma ReadsQuotedText(line: string, idx: nat, f: string, result: seq<string>)
    requires At(line, idx, [QUOTE] + (Double(f) + [QUOTE])) && FieldStarts(line, idx) && FieldEnds(line, idx + |Double(f)| + 2)
    ensures ParseFrom(line, idx, false, [], result) == ParseFrom(line, idx + |Double(f)| + 2, false, f, result)
  {
    hide ParseFrom;
    hide Double;
    hide FieldStarts;
    hide FieldEnds;
    QuotedParts(line, idx, Double(f), [QUOTE]);
    AtChar(line, idx + 1 + |Double(f)|, QUOTE);
    hide At;
    ReadsOpened(line, idx, f, result);
    ClosesQuote(line, idx + 1 + |Double(f)|, f, result);
  }

  lemma QuotedParts(line: string, idx: nat, d: string, more: string)
    requires At(line, idx, [QUOTE] + (d + more))
    ensures idx < |line| && line[idx] == QUOTE && At(line, idx + 1, d) && At(line, idx + 1 + |d|, more)
  {
    AtParts(line, idx, [QUOTE], d + more);
    AtParts(line, idx + 1, d, more);
    AtChar(line, idx, QUOTE);
  }

  /** An opening quote and the doubled text after it. */
  lemma ReadsOpened(line: string, idx: nat, f: string, result: seq<string>)
    requires FieldStarts(line, idx) && idx < |line| && line[idx] == QUOTE && At(line, idx + 1, Double(f))
    ensures ParseFrom(line, idx, false, [], result) == ParseFrom(line, idx + 1 + |Double(f)|, true, f, result)
  {
    hide ParseFrom;
    hide Double;
    hide At;
    OpensQuote(line, idx, result);
    ReadsQuoted(line, idx + 1, f, [], result);
    assert [] + f == f;
  }

  lemma ReadsPlainText(line: string, idx: nat, f: string, result: seq<string>)
    requires At(line, idx, f) && COMMA !in f && (f == [] || f[0] != QUOTE)
    ensures ParseFrom(line, idx, false, [], result) == ParseFrom(line, idx + |f|, false, f, result)
  {
    hide ParseFrom;
    hide At;
    assert [] + f == f;
    ReadsPlain(line, idx, f, [], result);
  }

  /** Terminated fields, one after the other. */
  lemma {:induction false} ReadsEnded(line: string, idx: nat, ts: seq<Text>, result: seq<string>)
    requires AllTexts(ts) && At(line, idx, Ended(ts)) && FieldStarts(line, idx)
    ensures FieldStarts(line, idx + |Ended(ts)|)
    ensures ParseFrom(line, idx, false, [], result) == ParseFrom(line, idx + |Ended(ts)|, false, [], result + Values(ts))
    decreases |ts|
  {
    hide ParseFrom;
    hide Spell;
    if ts == [] {
      assert result + Values(ts) == result;
    } else {
      var t, n := ts[0], |Spell(ts[0])|;
      EndedParts(line, idx, Spell(t), Ended(ts[1..]));
      hide At;
      hide FieldStarts;
      hide FieldEnds;
      ReadsText(line, idx, t, result);
      ReadsComma(line, idx + n, t.f, result);
      ReadsEnded(line, idx + n + 1, ts[1..], result + [t.f]);
      Assoc(result, [t.f], Values(ts[1..]));
    }
  }

  lemma EndedParts(line: string, idx: nat, s: string, rest: string)
    requires At(line, idx, s + ([COMMA] + rest))
    ensures At(line, idx, s) && FieldEnds(line, idx + |s|) && idx + |s| < |line| && line[idx + |s|] == COMMA
    ensures FieldStarts(line, idx + |s| + 1) && At(line, idx + |s| + 1, rest)
  {
    AtParts(line, idx, s, [COMMA] + rest);
    AtParts(line, idx + |s|, [COMMA], rest);
    AtChar(line, idx + |s|, COMMA);
  }

  lemma ReadsTail(line: string, idx: nat, t: Tail, result: seq<string>)
    requires IsTail(t) && At(line, idx, TailText(t)) && FieldStarts(line, idx) && idx + |TailText(t)| == |line|
    ensures ParseFrom(line, idx, false, [], result) == Outcome(result, t)
  {
    hide ParseFrom;
    hide Double;
    hide At;
    match t
    case LastField(x) =>
      ReadsText(line, idx, x, result);
      EndsRow(line, x.f, result);
    case Unclosed(f) => ReadsUnclosed(line, idx, f, result);
    case Trailing(f, c, rest) => ReadsTrailing(line, idx, f, c, rest, result);
  }

  lemma ReadsUnclosed(line: string, idx: nat, f: string, result: seq<string>)
    requires At(line, idx, [QUOTE] + Double(f)) && FieldStarts(line, idx) && idx + 1 + |Double(f)| == |line|
    ensures ParseFrom(line, idx, false, [], result) == Incomplete
  {
    hide ParseFrom;
    hide Double;
    AtParts(line, idx, [QUOTE], Double(f));
    AtChar(line, idx, QUOTE);
    hide At;
    hide FieldStarts;
    ReadsOpened(line, idx, f, result);
    EndsInside(line, f, result);
  }

  lemma ReadsTrailing(line: string, idx: nat, f: string, c: char, rest: string, result: seq<string>)
    requires c != COMMA && c != QUOTE && FieldStarts(line, idx) && At(line, idx, [QUOTE] + (Double(f) + ([QUOTE, c] + rest)))
    ensures ParseFrom(line, idx, false, [], result) == Invalid
  {
    hide ParseFrom;
    hide Double;
    hide FieldStarts;
    QuotedParts(line, idx, Double(f), [QUOTE, c] + rest);
    AtTwo(line, idx + 1 + |Double(f)|, QUOTE, c, rest);
    hide At;
    ReadsOpened(line, idx, f, result);
    BreaksOff(line, idx + 1 + |Double(f)|, f, result);
  }

  lemma AtTwo(line: string, idx: nat, a: char, b: char, rest: string)
    requires At(line, idx, [a, b] + rest)
    ensures idx + 1 < |line| && line[idx] == a && line[idx + 1] == b
  {
    var s := [a, b] + rest;
    assert line[idx] == line[idx..idx + |s|][0] && line[idx + 1] == line[idx..idx + |s|][1];
  }

  lemma BreaksOff(line: string, idx: nat, acc: string, result: seq<string>)
    requires idx + 1 < |line| && line[idx] == QUOTE && line[idx + 1] != COMMA && line[idx + 1] != QUOTE
    ensures ParseFrom(line, idx, true, acc, result) == Invalid
  {
  }

  /** A line of a shape is parsed as what the shape stands for. */
  lemma ShapeParses(line: string, ts: seq<Text>, t: Tail)
    requires IsShape(line, ts, t)
    ensures Parse(line) == Outcome(Values(ts), t)
  {
    hide ParseFrom;
    hide Ended;
    hide TailText;
    WholeSlice(line);
    AtParts(line, 0, Ended(ts), TailText(t));
    hide At;
    ReadsEnded(line, 0, ts, []);
    assert [] + Values(ts) == Values(ts);
    ReadsTail(line, |Ended(ts)|, t, Values(ts));
  }

  // ----- every line has a shape -----

  /** Doubled text, up to the first quote that is not doubled. */
  lemma {:induction false} QuotedPart(u: string) returns (f: string, more: string)
    ensures u == Double(f) + more && (more == [] || (more[0] == QUOTE && (|more| == 1 || more[1] != QUOTE)))
    decreases |u|
  {
    if u == [] {
      f, more := [], [];
    } else if u[0] != QUOTE {
      f, more := QuotedPart(u[1..]);
      DoubleFront(u[0], f);
      f := [u[0]] + f;
      assert u == [u[0]] + u[1..];
    } else if |u| > 1 && u[1] == QUOTE {
      f, more := QuotedPart(u[2..]);
      DoubleFront(QUOTE, f);
      f := [QUOTE] + f;
      assert u == [QUOTE, QUOTE] + u[2..];
    } else {
      f, more := [], u;
    }
  }

  lemma DoubleFront(c: char, f: string)
    ensures Double([c] + f) == Doubled(c) + Double(f)
  {
    assert ([c] + f)[1..] == f;
  }

  /** Text up to the first comma. */
  lemma {:induction false} BarePart(s: string) returns (f: string, more: string)
    ensures s == f + more && COMMA !in f && (more == [] || more[0] == COMMA)
    decreases |s|
  {
    if s == [] || s[0] == COMMA {
      f, more := [], s;
    } else {
      f, more := BarePart(s[1..]);
      f := [s[0]] + f;
      assert s == [s[0]] + s[1..];
    }
  }

  lemma {:induction false} EveryLineHasAShape(line: string) returns (ts: seq<Text>, t: Tail)
    ensures IsShape(line, ts, t)
    decreases |line|
  {
    var x, more := FirstField(line);
    if more == [] || more[0] != COMMA {
      ts, t := [], x;
      assert Ended([]) + TailText(t) == TailText(t);
    } else {
      ts, t := EveryLineHasAShape(more[1..]);
      hide Spell;
      hide TailText;
      PrependText(x.t, ts, t);
      ts := [x.t] + ts;
    }
  }

  lemma PrependText(x: Text, ts: seq<Text>, t: Tail)
    ensures Ended([x] + ts) + TailText(t) == Spell(x) + ([COMMA] + (Ended(ts) + TailText(t)))
  {
    hide Spell;
    hide TailText;
    assert ([x] + ts)[1..] == ts;
  }

  /** The first field with what follows it, or a whole tail. */
  lemma FirstField(line: string) returns (x: Tail, more: string)
    ensures IsTail(x) && (more == [] || (more[0] == COMMA && x.LastField?))
    ensures line == TailText(x) + more
    ensures more != [] ==> line == Spell(x.t) + ([COMMA] + more[1..]) && |more| <= |line|
  {
    if line != [] && line[0] == QUOTE {
      var f, after := QuotedPart(line[1..]);
      hide Double;
      assert line == [QUOTE] + line[1..];
      if after == [] {
        x, more := Unclosed(f), [];
      } else if |after| == 1 || after[1] == COMMA {
        x, more := LastField(Quoted(f)), after[1..];
        assert after == [QUOTE] + more;
      } else {
        x, more := Trailing(f, after[1], after[2..]), [];
        assert after == [QUOTE, after[1]] + after[2..];
      }
    } else {
      var f, after := BarePart(line);
      x, more := LastField(Bare(f)), after;
      assert f != [] ==> f[0] == line[0];
    }
    if more != [] {
      assert more == [COMMA] + more[1..];
    }
  }

  /** The outcome of parsing, for every line: fields exactly for comma-separated texts, incomplete
      exactly with a quoted field left open, invalid exactly with something after a closing quote. */
  lemma ParseIff(line: string, fs: seq<string>)
    ensures Parse(line) == Row(fs) <==>
              exists ts, x :: IsShape(line, ts, LastField(x)) && fs == Values(ts) + [x.f]
    ensures Parse(line) == Incomplete <==> exists ts, f :: IsShape(line, ts, Unclosed(f))
    ensures Parse(line) == Invalid <==> exists ts, f, c, rest :: IsShape(line, ts, Trailing(f, c, rest))
  {
    hide Parse;
    hide IsShape;
    var ts0, t0 := EveryLineHasAShape(line);
    forall ts, t | IsShape(line, ts, t) ensures Parse(line) == Outcome(Values(ts), t) {
      ShapeParses(line, ts, t);
    }
    assert t0.LastField? ==> t0 == LastField(t0.t) && Outcome(Values(ts0), t0) == Row(Values(ts0) + [t0.t.f]);
  }

  // ----- parsing what was written -----

  /** The texts of which a written row consists. */
  function TextsOf(row: seq<string>): (ts: seq<Text>)
    ensures |ts| == |row|
  {
    if row == [] then []
    else TextsOf(row[..|row| - 1]) + [TextOf(row[|row| - 1])]
  }

  function TextOf(f: string): (t: Text) { if Special(f) then Quoted(f) else Bare(f) }

  lemma TextOfField(f: string)
    ensures IsText(TextOf(f)) && Spell(TextOf(f)) == Field(f)
  {
    hide Double;
    if !Special(f) {
      assert forall i :: 0 <= i < |f| ==> !SpecialChar(f[i]);
    } else {
      Assoc([QUOTE], Double(f), [QUOTE]);
    }
  }

  lemma {:induction false} EndedSnoc(ts: seq<Text>, t: Text)
    ensures Ended(ts + [t]) == Ended(ts) + (Spell(t) + [COMMA]) && Values(ts + [t]) == Values(ts) + [t.f]
    decreases |ts|
  {
    hide Spell;
    if ts == [] {
      assert ts + [t] == [t];
    } else {
      EndedSnoc(ts[1..], t);
      assert (ts + [t])[1..] == ts[1..] + [t];
      var s, e := Spell(ts[0]), Ended(ts[1..]);
      assert s + ([COMMA] + (e + (Spell(t) + [COMMA]))) == (s + ([COMMA] + e)) + (Spell(t) + [COMMA]);
    }
  }

  lemma {:induction false} WrittenTexts(row: seq<string>)
    ensures AllTexts(TextsOf(row)) && Commas(row) == Ended(TextsOf(row)) && Values(TextsOf(row)) == row
    decreases |row|
  {
    if row != [] {
      var n := |row| - 1;
      WrittenTexts(row[..n]);
      TextOfField(row[n]);
      EndedSnoc(TextsOf(row[..n]), TextOf(row[n]));
      hide Ended;
      hide Values;
      Assoc(Commas(row[..n]), Field(row[n]), [COMMA]);
      InitAndLast(row);
    }
  }

  lemma CommasSnoc(row: seq<string>, k: nat)
    requires k < |row|
    ensures Commas(row[..k + 1]) == Commas(row[..k]) + (Field(row[k]) + [COMMA])
  {
    assert row[..k + 1][..k] == row[..k];
  }

  lemma LineParts(row: seq<string>)
    requires row != []
    ensures var n := |row| - 1; Line(row) == Commas(row[..n]) + Field(row[n])
  {
  }

  /** Parsing undoes writing, for every row with at least one field. */
  lemma ParseUndoesWrite(row: seq<string>)
    requires row != []
    ensures Parse(Line(row)) == Row(row)
  {
    var n := |row| - 1;
    LineParts(row);
    hide Line;
    WrittenTexts(row[..n]);
    TextOfField(row[n]);
    hide Parse;
    ShapeParses(Line(row), TextsOf(row[..n]), LastField(TextOf(row[n])));
    InitAndLast(row);
  }

  // ----- lines cut at an embedded newline -----

  lemma {:induction false} NewlineInDouble(f: string, i: nat) returns (m: nat)
    requires i < |Double(f)| && Double(f)[i] == LF
    ensures m < |f| && f[m] == LF && i == |Double(f[..m])|
    decreases |f|
  {
    var w := |Doubled(f[0])|;
    if i < w {
      m := 0;
    } else {
      var m' := NewlineInDouble(f[1..], i - w);
      m := m' + 1;
      assert f[..m] == [f[0]] + f[1..][..m'];
      assert f[..m][1..] == f[1..][..m'];
    }
  }

  /** A newline in a written field is inside its quotes. */
  lemma NewlineInField(f: string, i: nat) returns (m: nat)
    requires i < |Field(f)| && Field(f)[i] == LF
    ensures Special(f) && m <= |f| && i == 1 + |Double(f[..m])|
  {
    if !Special(f) {
      assert SpecialChar(f[i]);
      assert false;
    }
    assert 1 <= i <= |Double(f)|;
    m := NewlineInDouble(f, i - 1);
  }

  /** Where a newline in a written row lies: in the quoted text of some field. */
  lemma {:induction false} NewlineInRow(row: seq<string>, k: nat, i: nat) returns (j: nat, m: nat)
    requires k <= |row| && i < |Commas(row[..k])| && Commas(row[..k])[i] == LF
    ensures j < k && Special(row[j]) && m <= |row[j]| && i == |Commas(row[..j])| + 1 + |Double(row[j][..m])|
    decreases k
  {
    hide Commas;
    hide Field;
    hide Double;
    hide Special;
    if k > 0 {
      CommasSnoc(row, k - 1);
      var c := |Commas(row[..k - 1])|;
      if i < c {
        j, m := NewlineInRow(row, k - 1, i);
      } else {
        j := k - 1;
        m := NewlineInField(row[j], i - c);
      }
    }
  }

  lemma {:induction false} CommasPrefix(row: seq<string>, j: nat, k: nat)
    requires j <= k <= |row|
    ensures |Commas(row[..j])| <= |Commas(row[..k])| && Commas(row[..k])[..|Commas(row[..j])|] == Commas(row[..j])
    decreases k
  {
    hide Commas;
    hide Field;
    if j < k {
      CommasPrefix(row, j, k - 1);
      CommasSnoc(row, k - 1);
      var c := Commas(row[..k - 1]);
      assert Commas(row[..k])[..|c|] == c;
    }
  }

  lemma DoublePrefix(f: string, m: nat)
    requires m <= |f|
    ensures |Double(f[..m])| <= |Double(f)| && Double(f)[..|Double(f[..m])|] == Double(f[..m])
  {
    assert f == f[..m] + f[m..];
    DoubleConcat(f[..m], f[m..]);
  }

  /** The text up to the newline: whole fields, an opening quote, and part of a quoted text. */
  lemma CutText(row: seq<string>, j: nat, m: nat)
    requires j < |row| && Special(row[j]) && m <= |row[j]|
    ensures var cut := Commas(row[..j]) + ([QUOTE] + Double(row[j][..m]));
            && |cut| <= |Line(row)|
            && Line(row)[..|cut|] == cut
  {
    var n := |row| - 1;
    var c, d := Commas(row[..j]), Double(row[j]);
    var p := Double(row[j][..m]);
    DoublePrefix(row[j], m);
    CommasSnoc(row, j);
    CommasPrefix(row, j + 1, |row|);
    assert row[..|row|] == row;
    var all := Commas(row);
    assert Field(row[j]) == [QUOTE] + d + [QUOTE];
    CutPrefix(all, c, d, p);
  }

  lemma CutPrefix(all: string, c: string, d: string, p: string)
    requires |p| <= |d| && d[..|p|] == p
    requires var full := c + ([QUOTE] + d + [QUOTE] + [COMMA]); |full| <= |all| && all[..|full|] == full
    ensures var cut := c + ([QUOTE] + p); |cut| <= |all| - 1 && all[..|all| - 1][..|cut|] == cut
  {
    var full, cut := c + ([QUOTE] + d + [QUOTE] + [COMMA]), c + ([QUOTE] + p);
    assert d == p + d[|p|..];
    assert full == cut + (d[|p|..] + [QUOTE] + [COMMA]);
    assert all[..|cut|] == all[..|full|][..|cut|] == cut;
  }

  lemma LineIsCommas(row: seq<string>, i: nat)
    requires i < |Line(row)|
    ensures i < |Commas(row)| && Commas(row)[i] == Line(row)[i]
  {
  }

  /** Every cut of a written row at an embedded newline is incomplete, never a row and never invalid. */
  lemma CutIsIncomplete(row: seq<string>, i: nat)
    requires i < |Line(row)| && Line(row)[i] == LF
    ensures Parse(Line(row)[..i]) == Incomplete
  {
    assert row[..|row|] == row;
    hide Parse;
    LineIsCommas(row, i);
    hide Commas;
    hide Field;
    hide Line;
    hide Double;
    var j, m := NewlineInRow(row, |row|, i);
    CutText(row, j, m);
    CutParses(row, j, m);
    var cut := Commas(row[..j]) + ([QUOTE] + Double(row[j][..m]));
    assert |cut| == i;
  }

  lemma CutParses(row: seq<string>, j: nat, m: nat)
    requires j < |row| && m <= |row[j]|
    ensures Parse(Commas(row[..j]) + ([QUOTE] + Double(row[j][..m]))) == Incomplete
  {
    hide Parse;
    hide Double;
    var line := Commas(row[..j]) + ([QUOTE] + Double(row[j][..m]));
    WrittenTexts(row[..j]);
    ShapeParses(line, TextsOf(row[..j]), Unclosed(row[j][..m]));
  }

  lemma EndsRow(line: string, acc: string, result: seq<string>)
    ensures ParseFrom(line, |line|, false, acc, result) == Row(result + [acc])
  {
  }

  lemma EndsInside(line: string, acc: string, result: seq<string>)
    ensures ParseFrom(line, |line|, true, acc, result) == Incomplete
  {
  }
}
