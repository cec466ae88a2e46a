/** The index of a git pack: fan-out table, binary search and forward scan for an abbreviated hash. */
module GitPackIndex {
  import opened Wrappers
  import opened Lexicographic

  /** Names are 40 hex digits; `after` is what the 20 bytes past the last entry read as. */
  datatype Index = Index(fan: seq<nat>, shas: seq<string>, after: string)

  /** NotHex: the parser throws; Undefined: a negative number, which reads before the fan-out table. */
  datatype Error = TooShort | NotHex | Undefined

  // ----- hex digits -----

  function Digit(c: char): (d: int)
    ensures d < 16
  {
    if '0' <= c <= '9' then c as int - '0' as int
    else if 'a' <= c <= 'f' then c as int - 'a' as int + 10
    else if 'A' <= c <= 'F' then c as int - 'A' as int + 10
    else -1
  }

  predicate LowerHex(c: char) { '0' <= c <= '9' || 'a' <= c <= 'f' }

  predicate IsName(s: string) { |s| == 40 && forall i :: 0 <= i < |s| ==> LowerHex(s[i]) }

  function FirstByte(s: string): (b: int)
    requires |s| >= 2
  {
    16 * Digit(s[0]) + Digit(s[1])
  }

  predicate IsSpace(c: char) {
    c == ' ' || c == '\t' || c == '\n' || c == '\r' || c == '\U{000B}' || c == '\U{000C}'
  }

  /** `stoi` in base 16 on two characters: leading space and sign are skipped, and what follows the first
      digit is ignored unless it is one. */
  function Stoi(a: char, b: char): (r: Option<int>)
    ensures r.Some? ==> -16 < r.value < 256
  {
    if Digit(a) >= 0 then Some(if Digit(b) >= 0 then 16 * Digit(a) + Digit(b) else Digit(a))
    else if (IsSpace(a) || a == '+') && Digit(b) >= 0 then Some(Digit(b))
    else if a == '-' && Digit(b) >= 0 then Some(-Digit(b))
    else None
  }

  const LOWER := "0123456789abcdef"
  const UPPER := "0123456789ABCDEF"
  const BLANKS := [' ', '\t', '\n', '\r', '\U{000B}', '\U{000C}']

  /** The character is the hex digit of value v, in either case. */
  predicate StandsFor(c: char, v: int) { 0 <= v < 16 && (c == LOWER[v] || c == UPPER[v]) }

  lemma DigitIff(c: char, v: int)
    ensures 0 <= v ==> (Digit(c) == v <==> StandsFor(c, v))
    ensures LowerHex(c) <==> c in LOWER
    ensures Digit(c) >= 0 <==> c in LOWER || c in UPPER
  {
    if 0 <= v < 16 {
      assert LOWER[v] as int == (if v < 10 then '0' as int + v else 'a' as int + v - 10);
      assert UPPER[v] as int == (if v < 10 then '0' as int + v else 'A' as int + v - 10);
    }
    var d := Digit(c);
    if d >= 0 {
      assert c == LOWER[d] || c == UPPER[d];
    }
    if LowerHex(c) {
      assert c == LOWER[d];
    }
  }

  /** What `stoi` reads, as a grammar: one or two digits, or a blank or a sign and a digit. */
  lemma StoiIff(a: char, b: char, v: int)
    ensures Stoi(a, b) == Some(v) <==>
              || (exists x, y :: StandsFor(a, x) && StandsFor(b, y) && v == 16 * x + y)
              || (StandsFor(a, v) && !exists y :: StandsFor(b, y))
              || ((a in BLANKS || a == '+') && StandsFor(b, v))
              || (a == '-' && StandsFor(b, -v))
  {
    forall c, x | 0 <= x ensures Digit(c) == x <==> StandsFor(c, x) {
      DigitIff(c, x);
    }
    assert IsSpace(a) <==> a in BLANKS;
    assert forall c, x :: StandsFor(c, x) ==> 0 <= x < 16;
    assert Digit(a) >= 0 ==> StandsFor(a, Digit(a));
    assert Digit(b) >= 0 ==> StandsFor(b, Digit(b));
    hide StandsFor;
  }

  // ----- prefixes in the order of names -----

  function Prefix(s: string, k: nat): (r: string) {
    if k <= |s| then s[..k] else s
  }

  /** The comparison of the search: the name's prefix is not below the part. */
  predicate AtLeast(name: string, part: string) { Le(part, Prefix(name, |part|)) }

  predicate StartsWith(name: string, part: string) {
    |part| <= |name| && name[..|part|] == part
  }

  lemma PrefixTail(s: string, k: nat)
    requires s != [] && k > 0
    ensures Prefix(s, k) != [] && Prefix(s, k)[0] == s[0] && Prefix(s, k)[1..] == Prefix(s[1..], k - 1)
  {
  }

  lemma {:induction false} AtLeastUp(a: string, b: string, part: string)
    requires Le(a, b) && AtLeast(a, part)
    ensures AtLeast(b, part)
  {
    if part != [] {
      PrefixTail(a, |part|);
      PrefixTail(b, |part|);
      if part[0] == a[0] == b[0] {
        AtLeastUp(a[1..], b[1..], part[1..]);
      }
    }
  }

  lemma StartsAtLeast(a: string, part: string)
    requires StartsWith(a, part)
    ensures AtLeast(a, part)
  {
    LeSelf(part);
  }

  /** The names with a given prefix are contiguous. */
  lemma {:induction false} StartsConvex(a: string, b: string, part: string)
    requires Le(a, b) && AtLeast(a, part) && StartsWith(b, part)
    ensures StartsWith(a, part)
  {
    if part != [] {
      PrefixTail(a, |part|);
      assert b[0] == b[..|part|][0] == part[0] && b[1..][..|part| - 1] == b[..|part|][1..];
      StartsConvex(a[1..], b[1..], part[1..]);
      assert a[..|part|] == [a[0]] + a[1..][..|part| - 1];
    }
  }

  // ----- what a well-formed index is -----

  ghost predicate Sorted(shas: seq<string>) {
    forall i, j :: 0 <= i < j < |shas| ==> Le(shas[i], shas[j])
  }

  /** Entry b of the fan-out counts the names whose first byte is at most b. */
  ghost predicate FanCounts(idx: Index) {
    && |idx.fan| == 256
    && (forall b :: 0 <= b < 256 ==> idx.fan[b] <= |idx.shas|)
    && (forall b, i :: 0 <= b < 256 && 0 <= i < |idx.shas| && |idx.shas[i]| >= 2 ==> (i < idx.fan[b] <==> FirstByte(idx.shas[i]) <= b))
  }

  ghost predicate WellFormed(idx: Index) {
    Sorted(idx.shas) && FanCounts(idx) && IsName(idx.after) && forall i :: 0 <= i < |idx.shas| ==> IsName(idx.shas[i])
  }

  function At(idx: Index, i: nat): (s: string) {
    if i < |idx.shas| then idx.shas[i] else idx.after
  }

  function Low(idx: Index, b: nat): (n: nat)
    requires b < 256 == |idx.fan|
  {
    if b > 0 then idx.fan[b - 1] else 0
  }

  /** All names of a bucket, and only they, have its first byte. */
  lemma BucketBounds(idx: Index, b: nat, i: nat)
    requires WellFormed(idx) && b < 256 && i < |idx.shas|
    ensures Low(idx, b) <= idx.fan[b] <= |idx.shas|
    ensures Low(idx, b) <= i < idx.fan[b] <==> FirstByte(idx.shas[i]) == b
  {
    var j := idx.fan[b];
    if b > 0 && j < |idx.shas| {
      assert IsName(idx.shas[j]) && FirstByte(idx.shas[j]) > b && j >= idx.fan[b - 1];
    }
    assert IsName(idx.shas[i]) && FirstByte(idx.shas[i]) >= 0;
  }

  // ----- the reference: a linear filter -----

  /** Matching names among the first n, with their positions, in order. */
  function Filter(shas: seq<string>, part: string, n: nat): (r: seq<(string, nat)>)
    requires n <= |shas|
  {
    if n == 0 then []
    else Filter(shas, part, n - 1) + (if StartsWith(shas[n - 1], part) then [(shas[n - 1], n - 1)] else [])
  }

  lemma {:induction false} FilterSkips(shas: seq<string>, part: string, a: nat, b: nat)
    requires a <= b <= |shas| && forall i :: a <= i < b ==> !StartsWith(shas[i], part)
    ensures Filter(shas, part, a) == Filter(shas, part, b)
    decreases b
  {
    if a < b {
      FilterSkips(shas, part, a, b - 1);
    }
  }

  // ----- the search -----

  /** The position is the first of the range that is not below the part, if there is one. */
  ghost predicate FirstAtLeast(idx: Index, part: string, lo: nat, hi: nat, s: nat) {
    && lo <= s <= hi + 1
    && (forall i :: lo <= i < s ==> !AtLeast(At(idx, i), part))
    && (s <= hi ==> AtLeast(At(idx, s), part))
  }

  /** The range includes `hi`, which may be the entry past the last: whatever is there, the search
      stays in bounds and never steps below the range. */
  method GetPackIdxOffsetStart(idx: Index, lo: nat, hi: nat, part: string) returns (start: nat)
    requires WellFormed(idx) && lo <= hi <= |idx.shas|
    ensures FirstAtLeast(idx, part, lo, hi, start)
  {
    start := lo;
    var end := hi;
    while start <= end
      invariant lo <= start <= end + 1 && end <= hi
      invariant forall i :: lo <= i < start ==> !AtLeast(At(idx, i), part)
      invariant end < hi ==> AtLeast(At(idx, end + 1), part)
      decreases end + 1 - start
    {
      var mid := start + (end - start) / 2;
      if AtLeast(At(idx, mid), part) {
        if start == mid {
          break;
        }
        end := mid - 1;
      } else {
        forall i | lo <= i < mid + 1 ensures !AtLeast(At(idx, i), part) {
          if start <= i < mid && AtLeast(At(idx, i), part) {
            AtLeastUp(idx.shas[i], idx.shas[mid], part);
          }
        }
        start := mid + 1;
      }
    }
  }

  /** The entry past the last is reported as a match: the bucket is non-empty and ends the table, what
      follows the table happens to match, and no name in between ends the scan. */
  ghost predicate Overruns(idx: Index, part: string, b: nat)
    requires WellFormed(idx) && b < 256
  {
    && Low(idx, b) < idx.fan[b] == |idx.shas|
    && StartsWith(idx.after, part)
    && (AtLeast(idx.shas[|idx.shas| - 1], part) ==> StartsWith(idx.shas[|idx.shas| - 1], part))
  }

  /** All names that start with the part lie in the bucket. */
  ghost predicate InBucket(part: string, b: nat) {
    forall name :: IsName(name) && StartsWith(name, part) ==> FirstByte(name) == b
  }

  /** The number parsed from the part is the bucket of every name that starts with it; if the part does
      not begin with two digits, there is no such name. */
  lemma ParsedIsBucket(part: string)
    requires |part| >= 2 && Stoi(part[0], part[1]).Some? && Stoi(part[0], part[1]).value >= 0
    ensures InBucket(part, Stoi(part[0], part[1]).value)
  {
    forall name | IsName(name) && StartsWith(name, part) ensures FirstByte(name) == Stoi(part[0], part[1]).value {
      SameFirstByte(name, part);
      assert LowerHex(name[0]) && LowerHex(name[1]);
    }
  }

  /** A pack with one object, whose checksum table happens to begin with the same byte. */
  lemma OverrunHappens() returns (idx: Index, part: string)
    ensures WellFormed(idx) && part == "ab" && Stoi('a', 'b') == Some(171) && Overruns(idx, part, 171)
    ensures |Filter(idx.shas, part, |idx.shas|)| == 1
  {
    var name := seq(40, i requires 0 <= i < 40 => if i == 0 then 'a' else 'b');
    idx := Index(seq(256, i requires 0 <= i < 256 => if i < 171 then 0 else 1), [name], name);
    part := "ab";
    assert FirstByte(name) == 171;
    assert IsName(name);
    assert name[..2] == part;
    assert Filter(idx.shas, part, 1) == Filter(idx.shas, part, 0) + [(name, 0)];
  }

  /** No name outside the bucket matches. */
  lemma OutsideBucket(idx: Index, part: string, b: nat, i: nat)
    requires WellFormed(idx) && |part| >= 2 && b < 256 && InBucket(part, b) && i < |idx.shas|
    requires i < Low(idx, b) || i >= idx.fan[b]
    ensures !StartsWith(idx.shas[i], part)
  {
    BucketBounds(idx, b, i);
    assert IsName(idx.shas[i]);
  }

  lemma SameFirstByte(name: string, part: string)
    requires StartsWith(name, part) && |part| >= 2
    ensures name[0] == part[0] && name[1] == part[1]
  {
    assert name[0] == name[..|part|][0] && name[1] == name[..|part|][1];
  }

  /** Once a name is past the part without matching it, no later one matches. */
  lemma PastIsPast(idx: Index, part: string, i: nat, j: nat)
    requires WellFormed(idx) && i <= j < |idx.shas|
    requires AtLeast(idx.shas[i], part) && !StartsWith(idx.shas[i], part)
    ensures !StartsWith(idx.shas[j], part)
  {
    if i < j && StartsWith(idx.shas[j], part) {
      StartsConvex(idx.shas[i], idx.shas[j], part);
    }
  }

  /** The hashes that start with the part, with their positions. */
  method GetHashMatchFromIndex(idx: Index, part: string) returns (r: Result<seq<(string, nat)>, Error>)
    requires WellFormed(idx)
    ensures r == Err(TooShort) <==> |part| < 2
    ensures r == Err(NotHex) <==> |part| >= 2 && Stoi(part[0], part[1]).None?
    ensures r == Err(Undefined) <==> |part| >= 2 && Stoi(part[0], part[1]).Some? && Stoi(part[0], part[1]).value < 0
    ensures r.Ok? ==> r.value == Filter(idx.shas, part, |idx.shas|) + Extra(idx, part, Stoi(part[0], part[1]).value)
  {
    if |part| < 2 {
      return Err(TooShort);
    }
    var parsed := Stoi(part[0], part[1]);
    if parsed.None? {
      return Err(NotHex);
    }
    if parsed.value < 0 {
      return Err(Undefined);
    }
    var hexInt := parsed.value;
    ParsedIsBucket(part);
    hide InBucket;
    var curr, prev := idx.fan[hexInt], 0;
    if hexInt > 0 {
      prev := idx.fan[hexInt - 1];
    }
    var matches := [];
    if curr > prev {
      matches := ScanMatches(idx, part, hexInt);
    } else {
      forall i | 0 <= i < |idx.shas| ensures !StartsWith(idx.shas[i], part) {
        OutsideBucket(idx, part, hexInt, i);
      }
      FilterSkips(idx.shas, part, 0, |idx.shas|);
    }
    r := Ok(matches);
  }

  /** What an overrun adds to the matches. */
  ghost function Extra(idx: Index, part: string, b: nat): (r: seq<(string, nat)>)
    requires WellFormed(idx) && b < 256
  {
    if Overruns(idx, part, b) then [(idx.after, |idx.shas|)] else []
  }

  /** The scan of a non-empty bucket. */
  method ScanMatches(idx: Index, part: string, b: nat) returns (matches: seq<(string, nat)>)
    requires WellFormed(idx) && |part| >= 2 && b < 256 && InBucket(part, b) && Low(idx, b) < idx.fan[b]
    ensures matches == Filter(idx.shas, part, |idx.shas|) + Extra(idx, part, b)
  {
    var prev, curr, total := Low(idx, b), idx.fan[b], |idx.shas|;
    var startOffset := GetPackIdxOffsetStart(idx, prev, curr, part);
    ghost var first := startOffset;
    FilterBefore(idx, part, b, startOffset);
    hide InBucket;
    hide WellFormed;
    hide StartsWith;
    matches := [];
    assert Scanned(idx, part, first, first, matches);
    while startOffset <= curr
      invariant first <= startOffset <= curr + 1 && Scanned(idx, part, first, startOffset, matches)
    {
      hide Scanned;
      var sha := At(idx, startOffset);
      if !StartsWith(sha, part) {
        break;
      }
      ScanStep(idx, part, first, startOffset, matches);
      matches := matches + [(sha, startOffset)];
      startOffset := startOffset + 1;
    }
    ScanEnds(idx, part, b, first, startOffset);
  }

  /** The scan from first to k matched everything, and its matches are those of the filter so far. */
  ghost predicate Scanned(idx: Index, part: string, first: nat, k: nat, matches: seq<(string, nat)>) {
    && (k <= |idx.shas| ==> matches == Filter(idx.shas, part, k))
    && (first <= |idx.shas| < k ==> k == |idx.shas| + 1 && matches == Filter(idx.shas, part, |idx.shas|) + [(idx.after, |idx.shas|)])
    && (first > |idx.shas| ==> k == first && matches == [])
    && (forall i :: first <= i < k ==> StartsWith(At(idx, i), part))
  }

  lemma ScanStep(idx: Index, part: string, first: nat, k: nat, matches: seq<(string, nat)>)
    requires Scanned(idx, part, first, k, matches) && first <= k <= |idx.shas| && StartsWith(At(idx, k), part)
    ensures Scanned(idx, part, first, k + 1, matches + [(At(idx, k), k)])
  {
    hide StartsWith;
  }

  lemma FilterBefore(idx: Index, part: string, b: nat, s: nat)
    requires WellFormed(idx) && |part| >= 2 && b < 256 && InBucket(part, b) && Low(idx, b) < idx.fan[b]
    requires FirstAtLeast(idx, part, Low(idx, b), idx.fan[b], s)
    ensures s <= |idx.shas| ==> Filter(idx.shas, part, s) == []
    ensures s > |idx.shas| ==> Filter(idx.shas, part, |idx.shas|) == []
  {
    var n := if s <= |idx.shas| then s else |idx.shas|;
    forall i | 0 <= i < n ensures !StartsWith(idx.shas[i], part) {
      if i < Low(idx, b) {
        OutsideBucket(idx, part, b, i);
      } else {
        assert At(idx, i) == idx.shas[i];
        if StartsWith(idx.shas[i], part) {
          StartsAtLeast(idx.shas[i], part);
        }
      }
    }
    FilterSkips(idx.shas, part, 0, n);
  }

  /** Where the scan stops, nothing further matches; it runs past the table exactly on an overrun. */
  lemma ScanEnds(idx: Index, part: string, b: nat, first: nat, e: nat)
    requires WellFormed(idx) && |part| >= 2 && b < 256 && InBucket(part, b) && Low(idx, b) < idx.fan[b]
    requires FirstAtLeast(idx, part, Low(idx, b), idx.fan[b], first) && first <= e <= idx.fan[b] + 1
    requires forall i :: first <= i < e ==> StartsWith(At(idx, i), part)
    requires e <= idx.fan[b] ==> !StartsWith(At(idx, e), part)
    ensures e <= |idx.shas| ==> Filter(idx.shas, part, e) == Filter(idx.shas, part, |idx.shas|)
    ensures Overruns(idx, part, b) <==> (e > |idx.shas| && first <= |idx.shas|)
  {
    if e < |idx.shas| {
      StopsForGood(idx, part, b, first, e);
      FilterSkips(idx.shas, part, e, |idx.shas|);
    }
    if Overruns(idx, part, b) {
      OverrunScansAll(idx, part, b, first, e);
    }
    if e > |idx.shas| && first <= |idx.shas| {
      ScanningAllOverruns(idx, part, b, first, e);
    }
  }

  lemma ScanningAllOverruns(idx: Index, part: string, b: nat, first: nat, e: nat)
    requires WellFormed(idx) && |part| >= 2 && b < 256 && InBucket(part, b) && Low(idx, b) < idx.fan[b]
    requires FirstAtLeast(idx, part, Low(idx, b), idx.fan[b], first) && first <= |idx.shas| < e <= idx.fan[b] + 1
    requires forall i :: first <= i < e ==> StartsWith(At(idx, i), part)
    ensures Overruns(idx, part, b)
  {
    hide AtLeast;
    hide StartsWith;
    var last := |idx.shas| - 1;
    assert At(idx, last + 1) == idx.after && At(idx, last) == idx.shas[last];
    if first <= last {
      assert StartsWith(At(idx, last), part);
    }
  }

  lemma OverrunScansAll(idx: Index, part: string, b: nat, first: nat, e: nat)
    requires WellFormed(idx) && |part| >= 2 && b < 256 && InBucket(part, b) && Low(idx, b) < idx.fan[b]
    requires FirstAtLeast(idx, part, Low(idx, b), idx.fan[b], first) && first <= e <= idx.fan[b] + 1
    requires e <= idx.fan[b] ==> !StartsWith(At(idx, e), part)
    requires Overruns(idx, part, b)
    ensures e > |idx.shas| && first <= |idx.shas|
  {
    hide Le;
    hide IsName;
    var total := |idx.shas|;
    StartsAtLeast(idx.after, part);
    hide AtLeast;
    hide StartsWith;
    assert At(idx, total) == idx.after;
    if e < total {
      assert At(idx, first) == idx.shas[first];
      AtLeastOnwards(idx, part, first, total - 1);
      StopsForGood(idx, part, b, first, e);
      assert false;
    }
  }

  lemma AtLeastOnwards(idx: Index, part: string, i: nat, j: nat)
    requires WellFormed(idx) && i <= j < |idx.shas| && AtLeast(idx.shas[i], part)
    ensures AtLeast(idx.shas[j], part)
  {
    if i < j {
      AtLeastUp(idx.shas[i], idx.shas[j], part);
    }
  }

  lemma StopsForGood(idx: Index, part: string, b: nat, first: nat, e: nat)
    requires WellFormed(idx) && |part| >= 2 && b < 256 && InBucket(part, b)
    requires FirstAtLeast(idx, part, Low(idx, b), idx.fan[b], first) && first <= e <= idx.fan[b] + 1 && e < |idx.shas|
    requires e <= idx.fan[b] ==> !StartsWith(At(idx, e), part)
    ensures forall j :: e <= j < |idx.shas| ==> !StartsWith(idx.shas[j], part)
  {
    forall j | e <= j < |idx.shas| ensures !StartsWith(idx.shas[j], part) {
      if e <= idx.fan[b] {
        AtLeastOnwards(idx, part, first, e);
        PastIsPast(idx, part, e, j);
      } else {
        OutsideBucket(idx, part, b, j);
      }
    }
  }
}
