/** The streaming reader: physical lines are joined until they parse as a row. */
module CsvReader {
  import opened Wrappers
  import opened CsvLine

  // ----- lines of a stream -----

  function FirstLf(s: string): (i: nat)
    ensures i <= |s| && (forall k :: 0 <= k < i ==> s[k] != LF) && (i < |s| ==> s[i] == LF)
  {
    if s == [] || s[0] == LF then 0 else 1 + FirstLf(s[1..])
  }

  /** A carriage return at the end of a physical line is dropped. */
  function Strip(l: string): (r: string) {
    if l != [] && l[|l| - 1] == CR then l[..|l| - 1] else l
  }

  datatype Got = Got(line: string, rest: string)

  /** One physical line, if the stream has any characters left. */
  function SafeGetline(s: string): (r: Got)
    requires s != []
    ensures |r.rest| < |s|
  {
    var i := FirstLf(s);
    Got(Strip(s[..i]), if i < |s| then s[i + 1..] else [])
  }

  // ----- one row -----

  datatype Next = End | Bad | Read(line: string, row: seq<string>, rest: string)

  /** Reading on, with the part of the row joined so far. */
  function NextFrom(s: string, cols: nat, line: string): (r: Next)
    ensures r.Read? ==> |r.rest| < |s|
    decreases |s|
  {
    if s == [] then End
    else
      var got := SafeGetline(s);
      var l := line + got.line;
      match Parse(l)
      case Invalid => Bad
      case Incomplete => NextFrom(got.rest, cols, l + [LF])
      case Row(row) => if cols > 0 && |row| != cols then Bad else Read(l, row, got.rest)
  }

  /** The physical lines of a text. */
  function Physical(s: string): (ls: seq<string>)
    decreases |s|
  {
    if s == [] then [] else [SafeGetline(s).line] + Physical(SafeGetline(s).rest)
  }

  /** Lines with their newlines put back between them. */
  function Glued(ls: seq<string>): (s: string) {
    if ls == [] then [] else if |ls| == 1 then ls[0] else ls[0] + [LF] + Glued(ls[1..])
  }

  /** The first k lines do not make up a row, nor do fewer of them. */
  ghost predicate Unfinished(line: string, ls: seq<string>, k: nat)
    requires k <= |ls|
  {
    forall j :: 1 <= j <= k ==> Parse(line + Glued(ls[..j])) == Incomplete
  }

  /** What reading a row of any text comes to: the shortest run of physical lines that is not an
      incomplete row decides, and if there is none the text has no further row. */
  lemma {:induction false} NextDecided(s: string, cols: nat, line: string) returns (k: nat)
    ensures var ls := Physical(s); k <= |ls| && Unfinished(line, ls, k)
    ensures k == |Physical(s)| ==> NextFrom(s, cols, line) == End
    ensures k < |Physical(s)| ==> Decides(NextFrom(s, cols, line), line + Glued(Physical(s)[..k + 1]), cols, Physical(s)[k + 1..])
    decreases |s|
  {
    if s == [] {
      k := 0;
    } else {
      var got, ls := SafeGetline(s), Physical(s);
      var l := line + got.line;
      FirstLine(s, cols, line);
      hide Parse;
      hide SafeGetline;
      hide Decides;
      hide Physical;
      hide NextFrom;
      if Parse(l) == Incomplete {
        var m := NextDecided(got.rest, cols, l + [LF]);
        k := m + 1;
        GluedOn(line, ls, k);
        assert k < |ls| ==> ls[k + 1..] == ls[1..][m + 1..];
      } else {
        k := 0;
      }
    }
  }

  /** The line l, with more lines after it, decides what is read. */
  ghost predicate Decides(n: Next, l: string, cols: nat, more: seq<string>) {
    && Parse(l) != Incomplete
    && (n == Bad <==> Parse(l).Invalid? || (cols > 0 && |Parse(l).fields| != cols))
    && (n != Bad ==> n.Read? && n.line == l && n.row == Parse(l).fields && Physical(n.rest) == more)
  }

  lemma FirstLine(s: string, cols: nat, line: string)
    requires s != []
    ensures var got, ls := SafeGetline(s), Physical(s);
            var l := line + got.line;
            && ls != [] && ls[0] == got.line && ls[1..] == Physical(got.rest) && Glued(ls[..1]) == ls[0]
            && if Parse(l) == Incomplete then NextFrom(s, cols, line) == NextFrom(got.rest, cols, l + [LF])
               else Decides(NextFrom(s, cols, line), l, cols, ls[1..])
  {
    hide Parse;
    hide SafeGetline;
    assert Physical(s)[..1] == [SafeGetline(s).line];
  }

  /** Gluing on from a line already read. */
  lemma GluedOn(line: string, ls: seq<string>, k: nat)
    requires 1 <= k <= |ls| && Parse(line + ls[0]) == Incomplete
    requires Unfinished(line + ls[0] + [LF], ls[1..], k - 1)
    ensures Unfinished(line, ls, k)
    ensures k < |ls| ==> line + Glued(ls[..k + 1]) == line + ls[0] + [LF] + Glued(ls[1..][..k])
  {
    hide Parse;
    forall j | 2 <= j <= |ls| ensures line + Glued(ls[..j]) == line + ls[0] + [LF] + Glued(ls[1..][..j - 1]) {
      GluedCons(line, ls, j);
    }
    assert Glued(ls[..1]) == ls[0];
    forall j | 1 <= j <= k ensures Parse(line + Glued(ls[..j])) == Incomplete {
      if j > 1 {
        assert Parse(line + ls[0] + [LF] + Glued(ls[1..][..j - 1])) == Incomplete;
      }
    }
  }

  lemma GluedCons(line: string, ls: seq<string>, j: nat)
    requires 2 <= j <= |ls|
    ensures line + Glued(ls[..j]) == line + ls[0] + [LF] + Glued(ls[1..][..j - 1])
  {
    assert ls[..j][1..] == ls[1..][..j - 1];
    var g := Glued(ls[1..][..j - 1]);
    assert line + (ls[0] + [LF] + g) == line + ls[0] + [LF] + g;
  }

  /** All rows; an empty line ends the reading. */
  function ReadFrom(s: string, cols: nat): (r: Option<seq<seq<string>>>)
    decreases |s|
  {
    match NextFrom(s, cols, [])
    case End => Some([])
    case Bad => None
    case Read(line, row, rest) =>
      if line == [] then Some([])
      else
        match ReadFrom(rest, |row|)
        case None => None
        case Some(rows) => Some([row] + rows)
  }

  /** The reader object: what is left of the stream, the column count, and the current record. */
  class CSVReader {
    var csvStream: string
    var cols: nat
    var serialized: string
    var records: seq<string>

    constructor (content: string, columns: nat)
      ensures csvStream == content && cols == columns
    {
      csvStream, cols, serialized, records := content, columns, [], [];
    }

    /** The reader after one step; without a row the record is empty and the width as before. */
    ghost predicate Advanced(n: Next, width: nat, more: Option<bool>)
      reads this
    {
      match n
      case End => more == Some(false) && csvStream == [] && cols == width && serialized == [] && records == []
      case Bad => more == None && cols == width && serialized == [] && records == []
      case Read(l, row, rest) =>
        more == Some(l != []) && csvStream == rest && cols == |row| && serialized == l && records == row
    }

    /** Advances to the next row; false at the end or at an empty line, an error if it is no row. */
    method NextCSVLine() returns (r: Option<bool>)
      modifies this
      ensures Advanced(NextFrom(old(csvStream), old(cols), []), old(cols), r)
    {
      var line: string := [];
      serialized, records := [], [];
      while csvStream != []
        invariant NextFrom(old(csvStream), old(cols), []) == NextFrom(csvStream, cols, line)
        invariant serialized == [] && records == [] && cols == old(cols)
        decreases |csvStream|
      {
        var got := SafeGetline(csvStream);
        csvStream, line := got.rest, line + got.line;
        var row := ParseLine(line);
        match row
        case Invalid =>
          return None;
        case Incomplete =>
          line := line + [LF];
        case Row(fields) =>
          if cols > 0 && |fields| != cols {
            return None;
          }
          serialized, records, cols := line, fields, |fields|;
          return Some(serialized != []);
      }
      r := Some(false);
    }

    /** The loop over a reader. */
    method ReadAll() returns (r: Option<seq<seq<string>>>)
      modifies this
      ensures r == ReadFrom(old(csvStream), old(cols))
    {
      var rows: seq<seq<string>> := [];
      ghost var s, c := csvStream, cols;
      AfterNone(ReadFrom(s, c));
      var more := NextCSVLine();
      while more == Some(true)
        invariant ReadFrom(old(csvStream), old(cols)) == After(rows, ReadFrom(s, c))
        invariant Advanced(NextFrom(s, c, []), c, more)
        decreases |s|
      {
        ReadUnfolds(s, c);
        hide NextFrom;
        hide ReadFrom;
        AfterMore(rows, records, ReadFrom(csvStream, cols));
        rows := rows + [records];
        s, c := csvStream, cols;
        more := NextCSVLine();
      }
      ReadEnds(s, c);
      assert rows + [] == rows;
      hide NextFrom;
      hide ReadFrom;
      return if more.None? then None else Some(rows);
    }
  }

  /** The first row of a stream, and the rest. */
  lemma ReadUnfolds(s: string, cols: nat)
    ensures var n := NextFrom(s, cols, []);
            n.Read? && n.line != [] ==> |n.rest| < |s| && ReadFrom(s, cols) == After([n.row], ReadFrom(n.rest, |n.row|))
  {
  }

  lemma ReadEnds(s: string, cols: nat)
    ensures var n := NextFrom(s, cols, []);
            && (n.Bad? ==> ReadFrom(s, cols) == None)
            && (n.End? || (n.Read? && n.line == []) ==> ReadFrom(s, cols) == Some([]))
  {
  }

  function After(rows: seq<seq<string>>, r: Option<seq<seq<string>>>): (q: Option<seq<seq<string>>>) {
    match r
    case None => None
    case Some(more) => Some(rows + more)
  }

  lemma AfterNone(r: Option<seq<seq<string>>>)
    ensures After([], r) == r
  {
    if r.Some? {
      assert [] + r.value == r.value;
    }
  }

  lemma AfterMore(rows: seq<seq<string>>, row: seq<string>, r: Option<seq<seq<string>>>)
    ensures After(rows, After([row], r)) == After(rows + [row], r)
  {
    if r.Some? {
      assert rows + ([row] + r.value) == rows + [row] + r.value;
    }
  }

  // ----- what is lost -----

  /** A string without the carriage returns that stand directly before a newline. */
  function Norm(s: string): (r: string)
    ensures |r| <= |s|
  {
    if s == [] then []
    else if s[0] == CR && |s| > 1 && s[1] == LF then Norm(s[1..])
    else [s[0]] + Norm(s[1..])
  }

  function NormRow(row: seq<string>): (r: seq<string>)
    ensures |r| == |row| && forall i :: 0 <= i < |row| ==> r[i] == Norm(row[i])
  {
    seq(|row|, i requires 0 <= i < |row| => Norm(row[i]))
  }

  predicate EndsCr(s: string) { s != [] && s[|s| - 1] == CR }

  lemma {:induction false} NormConcat(a: string, b: string)
    requires EndsCr(a) ==> b == [] || b[0] != LF
    ensures Norm(a + b) == Norm(a) + Norm(b)
  {
    if a == [] {
      assert a + b == b;
    } else {
      assert (a + b)[1..] == a[1..] + b;
      NormConcat(a[1..], b);
    }
  }

  /** The part up to the first newline without its last carriage return, and the rest normalised. */
  function ByLines(s: string): (r: string) {
    var i := FirstLf(s);
    if i < |s| then Strip(s[..i]) + [LF] + Norm(s[i + 1..]) else s
  }

  lemma {:induction false} NormLine(s: string)
    ensures Norm(s) == ByLines(s)
  {
    if s != [] && s[0] != LF {
      NormLine(s[1..]);
      ByLinesCons(s);
    }
  }

  lemma ByLinesCons(s: string)
    requires s != [] && s[0] != LF && Norm(s[1..]) == ByLines(s[1..])
    ensures Norm(s) == ByLines(s)
  {
    assert s[1..][..0] == [] && Strip([]) == [];
    hide Norm;
    hide FirstLf;
    hide Strip;
    var i := FirstLf(s);
    NormCons(s);
    NextLf(s);
    if i < |s| {
      LineTail(s, i);
      StripCons(s[..i]);
      Prepend(s[0], Strip(s[1..][..i - 1]), Norm(s[i + 1..]));
    }
  }

  lemma LineTail(s: string, i: nat)
    requires 0 < i < |s|
    ensures s[1..][i..] == s[i + 1..] && s[..i][1..] == s[1..][..i - 1] && (s[..i] == [CR] <==> i == 1 && s[0] == CR)
  {
  }

  lemma Prepend(c: char, x: string, z: string)
    ensures [c] + (x + [LF] + z) == ([c] + x) + [LF] + z
  {
  }

  lemma NormCons(s: string)
    requires s != []
    ensures Norm(s) == if s[0] == CR && |s| > 1 && s[1] == LF then Norm(s[1..]) else [s[0]] + Norm(s[1..])
  {
  }

  lemma NextLf(s: string)
    requires s != [] && s[0] != LF
    ensures FirstLf(s) == FirstLf(s[1..]) + 1
  {
  }

  lemma StripCons(l: string)
    requires l != []
    ensures Strip(l) == if l == [CR] then [] else [l[0]] + Strip(l[1..])
  {
    if |l| > 1 {
      assert l[1..][|l| - 2] == l[|l| - 1];
    }
  }

  /** The cuts of a logical line at its newlines are incomplete, and the whole is a row. */
  ghost predicate Logical(v: string, row: seq<string>) {
    Parse(v) == Row(row) && forall k :: 0 <= k < |v| && v[k] == LF ==> Parse(v[..k]) == Incomplete
  }

  lemma {:induction false} ReadsLogical(v: string, row: seq<string>, line: string, y: string, t: string, cols: nat)
    requires Logical(v, row) && line + Norm(y) == v && !EndsCr(y)
    ensures NextFrom(y + [LF] + t, cols, line) == if cols > 0 && |row| != cols then Bad else Read(v, row, t)
    decreases |y|
  {
    hide NextFrom;
    hide Norm;
    hide Parse;
    hide Strip;
    hide FirstLf;
    hide Logical;
    if FirstLf(y) < |y| {
      ReadsPhysical(v, row, line, y, t, cols);
      var i := FirstLf(y);
      ReadsLogical(v, row, line + Strip(y[..i]) + [LF], y[i + 1..], t, cols);
    } else {
      ReadsLast(v, row, line, y, t, cols);
    }
  }

  /** A physical line that is not the last of its row. */
  lemma ReadsPhysical(v: string, row: seq<string>, line: string, y: string, t: string, cols: nat)
    requires Logical(v, row) && line + Norm(y) == v && !EndsCr(y) && FirstLf(y) < |y|
    ensures var i := FirstLf(y);
            var l := line + Strip(y[..i]) + [LF];
            && l + Norm(y[i + 1..]) == v
            && !EndsCr(y[i + 1..])
            && NextFrom(y + [LF] + t, cols, line) == NextFrom(y[i + 1..] + [LF] + t, cols, l)
  {
    hide FirstLf;
    hide Norm;
    hide Parse;
    hide Strip;
    hide NextFrom;
    var s, i := y + [LF] + t, FirstLf(y);
    var l := line + Strip(y[..i]);
    NormLine(y);
    FirstLfAt(y, t);
    NextUnfolds(s, cols, line);
    assert s[i + 1..] == y[i + 1..] + [LF] + t;
    Cut(v, line, Strip(y[..i]), Norm(y[i + 1..]));
    assert Parse(v[..|l|]) == Incomplete;
  }

  lemma Cut(v: string, line: string, x: string, z: string)
    requires line + (x + [LF] + z) == v
    ensures line + x + [LF] + z == v && |line + x| < |v| && v[|line + x|] == LF && v[..|line + x|] == line + x
  {
    assert v == (line + x) + ([LF] + z);
  }

  lemma ReadsLast(v: string, row: seq<string>, line: string, y: string, t: string, cols: nat)
    requires Logical(v, row) && line + Norm(y) == v && !EndsCr(y) && FirstLf(y) == |y|
    ensures NextFrom(y + [LF] + t, cols, line) == if cols > 0 && |row| != cols then Bad else Read(v, row, t)
  {
    hide FirstLf;
    hide Norm;
    hide Parse;
    hide NextFrom;
    var s := y + [LF] + t;
    NormLine(y);
    FirstLfAt(y, t);
    NextUnfolds(s, cols, line);
    assert s[|y| + 1..] == t && s[..|y|] == y;
    StripNothing(y);
  }

  lemma NextUnfolds(s: string, cols: nat, line: string)
    requires s != []
    ensures var i := FirstLf(s);
            var rest := if i < |s| then s[i + 1..] else [];
            var l := line + Strip(s[..i]);
            NextFrom(s, cols, line) == (match Parse(l)
                                        case Invalid => Bad
                                        case Incomplete => NextFrom(rest, cols, l + [LF])
                                        case Row(row) => if cols > 0 && |row| != cols then Bad else Read(l, row, rest))
  {
  }

  lemma StripNothing(y: string)
    requires !EndsCr(y)
    ensures Strip(y) == y
  {
  }

  lemma FirstLfAt(y: string, t: string)
    ensures var s := y + [LF] + t; FirstLf(s) == FirstLf(y) && s[..FirstLf(y)] == y[..FirstLf(y)]
  {
    var s, i, j := y + [LF] + t, FirstLf(y), FirstLf(y + [LF] + t);
    assert s[i] == LF;
    assert j <= i;
    assert j < |y| ==> y[j] == s[j];
  }

  // ----- normalising a written row -----

  lemma {:induction false} NormDouble(f: string)
    ensures Norm(Double(f)) == Double(Norm(f))
  {
    if f != [] {
      NormDouble(f[1..]);
      NormDoubleStep(f[0], f[1..]);
      assert [f[0]] + f[1..] == f;
    }
  }

  lemma NormDoubleStep(c: char, g: string)
    requires Norm(Double(g)) == Double(Norm(g))
    ensures Norm(Double([c] + g)) == Double(Norm([c] + g))
  {
    DoubleHead(g);
    hide Double;
    hide Norm;
    DoublePrepend(c, g);
    NormPrepend(c, g);
    DoublePrepend(c, Norm(g));
    NormPrepend(c, Double(g));
    if c == QUOTE {
      NormPrepend(QUOTE, [QUOTE] + Double(g));
      TwoQuotes(Double(g));
      TwoQuotes(Norm(Double(g)));
    }
  }

  lemma TwoQuotes(s: string)
    ensures [QUOTE, QUOTE] + s == [QUOTE] + ([QUOTE] + s)
  {
  }

  lemma NormPrepend(c: char, s: string)
    ensures Norm([c] + s) == if c == CR && s != [] && s[0] == LF then Norm(s) else [c] + Norm(s)
  {
    assert ([c] + s)[1..] == s;
    NormCons([c] + s);
  }

  lemma DoublePrepend(c: char, s: string)
    ensures Double([c] + s) == Doubled(c) + Double(s)
  {
    assert ([c] + s)[1..] == s;
  }

  lemma DoubleHead(f: string)
    ensures f == [] <==> Double(f) == []
    ensures f != [] ==> Double(f)[0] == f[0]
  {
  }

  lemma {:induction false} NormSpecial(f: string)
    ensures Special(Norm(f)) <==> Special(f)
    ensures !Special(f) ==> Norm(f) == f
  {
    if f != [] {
      NormSpecial(f[1..]);
      SpecialCons(f);
      if f[0] == CR && |f| > 1 && f[1] == LF {
        SpecialCons(f[1..]);
      } else {
        SpecialCons([f[0]] + Norm(f[1..]));
        assert ([f[0]] + Norm(f[1..]))[1..] == Norm(f[1..]);
      }
    }
  }

  lemma SpecialCons(f: string)
    requires f != []
    ensures Special(f) <==> SpecialChar(f[0]) || Special(f[1..])
  {
    if Special(f[1..]) {
      var i :| 0 <= i < |f[1..]| && SpecialChar(f[1..][i]);
      assert f[i + 1] == f[1..][i];
    }
    if Special(f) && !SpecialChar(f[0]) {
      var i :| 0 <= i < |f| && SpecialChar(f[i]);
      assert f[1..][i - 1] == f[i];
    }
  }

  lemma NormField(f: string)
    ensures Norm(Field(f)) == Field(Norm(f)) && !EndsCr(Field(f))
  {
    NormSpecial(f);
    if Special(f) {
      NormDouble(f);
      NormConcat([QUOTE], Double(f));
      NormConcat([QUOTE] + Double(f), [QUOTE]);
      assert Norm([QUOTE]) == [QUOTE] + Norm([]);
    } else if EndsCr(f) {
      assert SpecialChar(f[|f| - 1]);
    }
  }

  lemma {:induction false} NormCommas(row: seq<string>, k: nat)
    requires k <= |row|
    ensures Norm(Commas(row[..k])) == Commas(NormRow(row)[..k]) && !EndsCr(Commas(row[..k]))
    decreases k
  {
    hide Norm;
    hide Commas;
    hide NormRow;
    hide EndsCr;
    if k == 0 {
      NormNothing(row);
    } else {
      NormCommas(row, k - 1);
      NormCommasStep(row, k - 1);
    }
  }

  lemma NormNothing(row: seq<string>)
    ensures Norm(Commas(row[..0])) == Commas(NormRow(row)[..0]) && !EndsCr(Commas(row[..0]))
  {
    assert row[..0] == [] == NormRow(row)[..0];
  }

  lemma NormCommasStep(row: seq<string>, k: nat)
    requires k < |row| && Norm(Commas(row[..k])) == Commas(NormRow(row)[..k]) && !EndsCr(Commas(row[..k]))
    ensures Norm(Commas(row[..k + 1])) == Commas(NormRow(row)[..k + 1]) && !EndsCr(Commas(row[..k + 1]))
  {
    hide Field;
    hide Norm;
    hide Commas;
    CommasSnoc(row, k);
    CommasSnoc(NormRow(row), k);
    NormTerminated(row[k]);
    NormConcat(Commas(row[..k]), Field(row[k]) + [COMMA]);
  }

  lemma NormTerminated(f: string)
    ensures Norm(Field(f) + [COMMA]) == Field(Norm(f)) + [COMMA]
  {
    NormField(f);
    NormConcat(Field(f), [COMMA]);
    assert Norm([COMMA]) == [COMMA] + Norm([]);
  }

  /** Normalising the written row is writing the normalised row. */
  lemma NormWritten(row: seq<string>)
    ensures Norm(Line(row)) == Line(NormRow(row)) && !EndsCr(Line(row))
  {
    if row != [] {
      var n := |row| - 1;
      LineParts(row);
      LineParts(NormRow(row));
      NormCommas(row, n);
      NormField(row[n]);
      NormConcat(Commas(row[..n]), Field(row[n]));
    }
  }

  // ----- reading what was written -----

  /** Rows written line by line. */
  function Written(rows: seq<seq<string>>): (s: string) {
    if rows == [] then [] else Line(rows[0]) + [LF] + Written(rows[1..])
  }

  /** What the reader sees of a row: a row without fields looks like one empty field. */
  function Seen(row: seq<string>): (r: seq<string>) {
    if row == [] then [""] else NormRow(row)
  }

  predicate Blank(row: seq<string>) { row == [] || row == [""] }

  lemma BlankLine(row: seq<string>)
    ensures Line(row) == [] <==> Blank(row)
  {
    if row != [] {
      LineParts(row);
      hide Line;
      hide Commas;
      var n := |row| - 1;
      assert Commas(row[..n]) == [] <==> n == 0;
      assert Field(row[n]) == [] <==> row[n] == [];
      hide Field;
      assert n == 0 ==> row == [row[n]];
    }
  }

  lemma SeenIsLogical(row: seq<string>)
    ensures Logical(Line(NormRow(row)), Seen(row))
  {
    var v := Line(NormRow(row));
    if row != [] {
      ParseUndoesWrite(NormRow(row));
    } else {
      assert v == [] && Parse(v) == Row([] + [[]]);
    }
    forall k | 0 <= k < |v| && v[k] == LF ensures Parse(v[..k]) == Incomplete {
      CutIsIncomplete(NormRow(row), k);
    }
  }

  /** What reading gives, row by row: a row of another width is an error, a blank one ends it. */
  function Recovered(cols: nat, rows: seq<seq<string>>): (r: Option<seq<seq<string>>>)
    decreases |rows|
  {
    if rows == [] then Some([])
    else
      var row := Seen(rows[0]);
      if cols > 0 && |row| != cols then None
      else if Blank(row) then Some([])
      else
        match Recovered(|row|, rows[1..])
        case None => None
        case Some(more) => Some([row] + more)
  }

  /** The reader on written rows, for all rows and any expected width. */
  lemma {:induction false} ReadsWritten(cols: nat, rows: seq<seq<string>>)
    ensures ReadFrom(Written(rows), cols) == Recovered(cols, rows)
    decreases |rows|
  {
    if rows != [] {
      var row, rest := rows[0], Written(rows[1..]);
      var v := Line(NormRow(row));
      NormWritten(row);
      SeenIsLogical(row);
      assert [] + Norm(Line(row)) == v;
      ReadsLogical(v, Seen(row), [], Line(row), rest, cols);
      BlankLine(NormRow(row));
      hide NextFrom;
      ReadsWritten(|Seen(row)|, rows[1..]);
    }
  }

  // ----- when the rows come back -----

  predicate HasCrLf(f: string) { exists i :: 0 <= i < |f| - 1 && f[i] == CR && f[i + 1] == LF }

  lemma {:induction false} NormFixed(f: string)
    ensures Norm(f) == f <==> !HasCrLf(f)
  {
    if f != [] {
      NormFixed(f[1..]);
      if HasCrLf(f[1..]) {
        var i :| 0 <= i < |f[1..]| - 1 && f[1..][i] == CR && f[1..][i + 1] == LF;
        assert f[i + 1] == CR && f[i + 2] == LF;
      }
      if HasCrLf(f) {
        var i :| 0 <= i < |f| - 1 && f[i] == CR && f[i + 1] == LF;
        if i > 0 {
          assert f[1..][i - 1] == CR && f[1..][i] == LF;
        }
      }
      if !(f[0] == CR && |f| > 1 && f[1] == LF) {
        assert ([f[0]] + Norm(f[1..]))[1..] == Norm(f[1..]);
        assert f == [f[0]] + f[1..];
      }
    }
  }

  /** A row that survives: not blank, and no carriage return before a newline. */
  predicate Survives(row: seq<string>) {
    !Blank(row) && forall i :: 0 <= i < |row| ==> !HasCrLf(row[i])
  }

  lemma SurvivesIff(row: seq<string>)
    ensures Survives(row) <==> Seen(row) == row && !Blank(row)
  {
    if row != [] {
      forall i | 0 <= i < |row| ensures NormRow(row)[i] == row[i] <==> !HasCrLf(row[i]) {
        NormFixed(row[i]);
      }
    }
  }

  predicate AllSurvive(cols: nat, rows: seq<seq<string>>) {
    forall i :: 0 <= i < |rows| ==> Survives(rows[i]) && |rows[i]| == if cols > 0 then cols else |rows[0]|
  }

  lemma {:induction false} RecoveredIff(cols: nat, rows: seq<seq<string>>)
    ensures Recovered(cols, rows) == Some(rows) <==> AllSurvive(cols, rows)
    decreases |rows|
  {
    if rows != [] {
      var row, rest := rows[0], rows[1..];
      assert rows == [row] + rest;
      SurvivesIff(row);
      RecoveredIff(|Seen(row)|, rest);
      var more := Recovered(|Seen(row)|, rest);
      if more.Some? {
        assert ([Seen(row)] + more.value)[1..] == more.value;
      }
      assert AllSurvive(cols, rows) <==> Survives(row) && (cols > 0 ==> |row| == cols) && AllSurvive(|row|, rest) by {
        AllSurviveCons(cols, rows);
      }
    }
  }

  lemma AllSurviveCons(cols: nat, rows: seq<seq<string>>)
    requires rows != []
    ensures AllSurvive(cols, rows) <==> Survives(rows[0]) && (cols > 0 ==> |rows[0]| == cols) && AllSurvive(|rows[0]|, rows[1..])
  {
    assert Survives(rows[0]) ==> |rows[0]| > 0;
    hide Survives;
    if Survives(rows[0]) && (cols > 0 ==> |rows[0]| == cols) && AllSurvive(|rows[0]|, rows[1..]) {
      forall i | 0 <= i < |rows| ensures Survives(rows[i]) && |rows[i]| == if cols > 0 then cols else |rows[0]| {
        if i > 0 {
          assert rows[i] == rows[1..][i - 1];
        }
      }
    }
  }

  /** Rows written line by line are recovered exactly when they have one width, none is blank, and no
      field has a carriage return directly before a newline. */
  lemma RoundTripIff(rows: seq<seq<string>>)
    ensures ReadFrom(Written(rows), 0) == Some(rows) <==> AllSurvive(0, rows)
  {
    ReadsWritten(0, rows);
    RecoveredIff(0, rows);
  }
}
