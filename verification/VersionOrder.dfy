/** The order on component versions. A C string appears here as the sequence of its characters. */
module VersionOrder {

  const ULLONG_MAX := 0xFFFF_FFFF_FFFF_FFFF
  const MAX_DIGITS := 18
  const MAX_SUFFIX := 7

  datatype Segment = Segment(num: nat, suffix: string)

  const ZERO_SEGMENT := Segment(0, "")

  predicate IsDigit(c: char) {
    '0' <= c <= '9'
  }

  predicate IsAlpha(c: char) {
    'a' <= c <= 'z' || 'A' <= c <= 'Z'
  }

  predicate IsSeparator(c: char) {
    c == '.' || c == '-'
  }

  function LowerChar(c: char): char {
    if 'A' <= c <= 'Z' then c - 'A' + 'a' else c
  }

  // ----- the meaning of a version: its segments -----

  /** The length of the longest prefix whose characters all satisfy `p`. */
  function Run(s: string, p: char -> bool): (n: nat)
    ensures n <= |s|
    ensures forall i :: 0 <= i < n ==> p(s[i])
    ensures n < |s| ==> !p(s[n])
  {
    if s == [] || !p(s[0]) then 0 else 1 + Run(s[1..], p)
  }

  lemma {:induction false} RunIs(s: string, p: char -> bool, n: nat)
    requires n <= |s| && (forall i :: 0 <= i < n ==> p(s[i])) && (n < |s| ==> !p(s[n]))
    ensures Run(s, p) == n
  {
    if n == 0 {
    } else {
      RunIs(s[1..], p, n - 1);
    }
  }

  function Decimal(digits: string): nat
    requires forall i :: 0 <= i < |digits| ==> IsDigit(digits[i])
  {
    if digits == [] then 0
    else
      var n := |digits| - 1;
      assert IsDigit(digits[n]);
      Decimal(digits[..n]) * 10 + (digits[n] - '0') as nat
  }

  /** The number of a segment: its value, or the largest 64-bit number when it has too many digits. */
  function Number(digits: string): nat
    requires forall i :: 0 <= i < |digits| ==> IsDigit(digits[i])
  {
    if |digits| <= MAX_DIGITS then Decimal(digits) else ULLONG_MAX
  }

  function Lower(s: string): (r: string)
    ensures |r| == |s|
  {
    seq(|s|, i requires 0 <= i < |s| => LowerChar(s[i]))
  }

  function Min(a: nat, b: nat): nat {
    if a < b then a else b
  }

  /** A piece between separators: leading digits, then up to seven letters; the rest is ignored. */
  function SegmentOf(piece: string): Segment {
    var d := Run(piece, IsDigit);
    var letters := piece[d..];
    Segment(Number(piece[..d]), Lower(letters[..Min(Run(letters, IsAlpha), MAX_SUFFIX)]))
  }

  function NotSeparator(): char -> bool {
    (c: char) => !IsSeparator(c)
  }

  /** The segments of a version; a trailing separator starts no segment. */
  function Segments(s: string): seq<Segment>
    decreases |s|
  {
    if s == [] then []
    else
      var n := Run(s, NotSeparator());
      [SegmentOf(s[..n])] + Segments(if n < |s| then s[n + 1..] else [])
  }

  function StrCmp(a: string, b: string): int {
    if a == [] then (if b == [] then 0 else -1)
    else if b == [] then 1
    else if a[0] != b[0] then (if a[0] < b[0] then -1 else 1)
    else StrCmp(a[1..], b[1..])
  }

  function CompareSegments(x: Segment, y: Segment): int {
    if x.num != y.num then (if x.num < y.num then -1 else 1) else StrCmp(x.suffix, y.suffix)
  }

  function Head(x: seq<Segment>): Segment {
    if x == [] then ZERO_SEGMENT else x[0]
  }

  function Tail(x: seq<Segment>): seq<Segment> {
    if x == [] then [] else x[1..]
  }

  /** Segment by segment, the shorter list padded with zero segments. */
  function CompareLists(x: seq<Segment>, y: seq<Segment>): int
    decreases |x| + |y|
  {
    if x == [] && y == [] then 0
    else
      var c := CompareSegments(Head(x), Head(y));
      if c != 0 then c else CompareLists(Tail(x), Tail(y))
  }

  function Compare(a: string, b: string): int {
    CompareLists(Segments(a), Segments(b))
  }

  // ----- writing a version -----

  /** Pieces with separators between them. */
  function Joined(pieces: seq<string>, separators: string): string
    requires |pieces| == |separators| + 1
  {
    if separators == "" then pieces[0] else pieces[0] + ([separators[0]] + Joined(pieces[1..], separators[1..]))
  }

  /** No dot and no hyphen in any of them. */
  ghost predicate ArePieces(pieces: seq<string>) {
    forall i, k :: 0 <= i < |pieces| && 0 <= k < |pieces[i]| ==> pieces[i][k] !in {'.', '-'}
  }

  ghost predicate AreSeparators(separators: string) {
    forall i :: 0 <= i < |separators| ==> separators[i] in {'.', '-'}
  }

  function SegmentsOf(pieces: seq<string>): seq<Segment> {
    if pieces == [] then [] else [SegmentOf(pieces[0])] + SegmentsOf(pieces[1..])
  }

  lemma SegmentsIs(s: string, n: nat)
    requires s != "" && n <= |s| && (forall i :: 0 <= i < n ==> !IsSeparator(s[i])) && (n < |s| ==> IsSeparator(s[n]))
    ensures Segments(s) == [SegmentOf(s[..n])] + Segments(if n < |s| then s[n + 1..] else [])
  {
    hide SegmentOf, IsSeparator;
    RunIs(s, NotSeparator(), n);
  }

  lemma NoSegments()
    ensures Segments("") == []
  {
  }

  /** A version is its pieces, one segment each, empty ones included; only an empty piece at the very end is none. */
  lemma {:induction false} SegmentsRoundTrip(pieces: seq<string>, separators: string)
    requires |pieces| == |separators| + 1 && ArePieces(pieces) && AreSeparators(separators)
    ensures var last := pieces[|pieces| - 1];
            Segments(Joined(pieces, separators)) == SegmentsOf(if last == "" then pieces[..|pieces| - 1] else pieces)
    decreases |separators|
  {
    hide SegmentOf, Segments;
    NoSegments();
    var s, n := Joined(pieces, separators), |pieces[0]|;
    if separators == "" {
      if s != "" {
        SegmentsIs(s, n);
        assert s[..n] == s;
      }
      assert pieces[1..] == [] && pieces[..0] == [];
      assert SegmentsOf([]) == [];
    } else {
      var rest := Joined(pieces[1..], separators[1..]);
      SegmentsRoundTrip(pieces[1..], separators[1..]);
      assert s[..n] == pieces[0] && s[n] == separators[0] && s[n + 1..] == rest;
      SegmentsIs(s, n);
      assert pieces[..|pieces| - 1][1..] == pieces[1..][..|pieces| - 2];
    }
  }

  /** Every version is pieces with separators between them. */
  lemma {:induction false} VersionIsPieces(s: string) returns (pieces: seq<string>, separators: string)
    ensures |pieces| == |separators| + 1 && ArePieces(pieces) && AreSeparators(separators)
    ensures s == Joined(pieces, separators)
    decreases |s|
  {
    var n := Run(s, NotSeparator());
    if n == |s| {
      pieces, separators := [s], "";
    } else {
      var more, rest := VersionIsPieces(s[n + 1..]);
      pieces, separators := [s[..n]] + more, [s[n]] + rest;
      assert pieces[1..] == more && separators[1..] == rest;
      assert s == s[..n] + ([s[n]] + s[n + 1..]);
    }
  }

  // ----- what a piece says -----

  /** The digits are those of the number, the last one for its remainder by ten; zeros may come first. */
  ghost predicate IsNumeral(digits: string, n: nat) {
    if digits == "" then n == 0
    else
      var k := |digits| - 1;
      digits[k] == "0123456789"[n % 10] && IsNumeral(digits[..k], n / 10)
  }

  ghost predicate AreDigits(s: string) {
    forall i :: 0 <= i < |s| ==> s[i] in "0123456789"
  }

  /** Letters, with what they are in lower case. */
  ghost predicate AreLetters(s: string, low: string) {
    |s| == |low| && forall i :: 0 <= i < |s| ==> IsLetter(s[i], low[i])
  }

  ghost predicate IsLetter(c: char, low: char) {
    (97 <= low as int <= 122) && (c == low || c as int + 32 == low as int)
  }

  /** A number of up to 18 digits or the largest of 64 bits, up to seven letters, and what belongs to neither. */
  ghost predicate IsSaidBy(piece: string, seg: Segment, digits: string, letters: string, junk: string) {
    && piece == digits + letters + junk
    && (if |digits| <= 18 then IsNumeral(digits, seg.num) else AreDigits(digits) && seg.num == 0xFFFF_FFFF_FFFF_FFFF)
    && AreLetters(letters, seg.suffix) && |letters| <= 7
    && (junk != "" && letters == "" ==> junk[0] !in "0123456789")
    && (junk != "" && |letters| < 7 ==> !(65 <= junk[0] as int <= 90) && !(97 <= junk[0] as int <= 122))
  }

  lemma DigitsAre(s: string)
    ensures AreDigits(s) <==> forall i :: 0 <= i < |s| ==> IsDigit(s[i])
  {
    forall i | 0 <= i < |s| ensures s[i] in "0123456789" <==> IsDigit(s[i]) {
      DigitIs(s[i]);
    }
  }

  lemma DigitIs(c: char)
    ensures c in "0123456789" <==> IsDigit(c)
    ensures IsDigit(c) ==> c == "0123456789"[(c - '0') as int]
  {
    if IsDigit(c) {
      var n := (c - '0') as int;
      assert "0123456789"[n] == c;
    }
  }

  lemma {:induction false} NumeralIs(digits: string, n: nat)
    ensures IsNumeral(digits, n) <==> AreDigits(digits) && (DigitsAre(digits); Decimal(digits) == n)
  {
    DigitsAre(digits);
    if digits == "" {
    } else {
      var k := |digits| - 1;
      DigitsAre(digits[..k]);
      NumeralIs(digits[..k], n / 10);
      DigitIs(digits[k]);
      LastDigit(digits[k], n);
      assert digits == digits[..k] + [digits[k]];
    }
  }

  lemma LastDigit(c: char, n: nat)
    ensures c == "0123456789"[n % 10] <==> IsDigit(c) && (c - '0') as int == n % 10
  {
    DigitIs("0123456789"[n % 10]);
    DigitIs(c);
  }

  lemma LettersAre(s: string, low: string)
    ensures AreLetters(s, low) <==> (forall i :: 0 <= i < |s| ==> IsAlpha(s[i])) && low == Lower(s)
  {
    forall i | 0 <= i < |s| && i < |low|
      ensures IsLetter(s[i], low[i]) <==> IsAlpha(s[i]) && low[i] == LowerChar(s[i]) {
      LetterIs(s[i], low[i]);
    }
    if AreLetters(s, low) {
      forall i | 0 <= i < |s| ensures low[i] == Lower(s)[i] && IsAlpha(s[i]) {
        assert IsLetter(s[i], low[i]);
      }
    }
  }

  lemma LetterIs(c: char, low: char)
    ensures IsLetter(c, low) <==> IsAlpha(c) && low == LowerChar(c)
  {
  }

  /** The segment of a piece is exactly what the piece says. */
  lemma SegmentIff(piece: string, seg: Segment)
    ensures SegmentOf(piece) == seg <==> exists digits, letters, junk :: IsSaidBy(piece, seg, digits, letters, junk)
  {
    hide *;
    if SegmentOf(piece) == seg {
      var digits, letters, junk := SegmentIsSaid(piece);
    }
    if exists digits, letters, junk :: IsSaidBy(piece, seg, digits, letters, junk) {
      var digits, letters, junk :| IsSaidBy(piece, seg, digits, letters, junk);
      SaidIsSegment(piece, seg, digits, letters, junk);
    }
  }

  lemma SaidIsSegment(piece: string, seg: Segment, digits: string, letters: string, junk: string)
    requires IsSaidBy(piece, seg, digits, letters, junk)
    ensures SegmentOf(piece) == seg
  {
    hide SegmentOf, Lower, Decimal, IsNumeral, AreDigits, AreLetters;
    DigitsAre(digits);
    NumeralIs(digits, seg.num);
    LettersAre(letters, seg.suffix);
    if junk != "" {
      DigitIs(junk[0]);
    }
    PieceRoundTrip(digits, letters, junk);
  }

  /** Where the digits and the kept letters of a piece end. */
  ghost predicate ArePartsOf(piece: string, d: nat, e: nat) {
    && d <= e <= |piece| && e - d <= 7
    && (forall i :: 0 <= i < d ==> IsDigit(piece[i])) && (forall i :: d <= i < e ==> IsAlpha(piece[i]))
    && (d < |piece| ==> !IsDigit(piece[d])) && (e < |piece| && e - d < 7 ==> !IsAlpha(piece[e]))
  }

  lemma FindParts(piece: string) returns (d: nat, e: nat)
    ensures ArePartsOf(piece, d, e)
  {
    hide IsDigit, IsAlpha;
    d := Run(piece, IsDigit);
    var more := piece[d..];
    var n := Run(more, IsAlpha);
    e := d + if n < 7 then n else 7;
    forall i | d <= i < e ensures IsAlpha(piece[i]) {
      assert more[i - d] == piece[i];
    }
    assert e < |piece| ==> more[e - d] == piece[e];
  }

  lemma SegmentIsSaid(piece: string) returns (digits: string, letters: string, junk: string)
    ensures IsSaidBy(piece, SegmentOf(piece), digits, letters, junk)
  {
    hide *;
    var d, e := FindParts(piece);
    digits, letters, junk := PartsAreSaid(piece, d, e);
  }

  lemma PartsAreSaid(piece: string, d: nat, e: nat) returns (digits: string, letters: string, junk: string)
    requires ArePartsOf(piece, d, e)
    ensures IsSaidBy(piece, SegmentOf(piece), digits, letters, junk)
  {
    hide Run, SegmentOf, Lower, Decimal, IsNumeral, AreDigits, AreLetters;
    PieceParts(piece, d, e);
    digits, letters, junk := piece[..d], piece[d..e], piece[e..];
    assert piece == digits + letters + junk;
    DigitsAre(digits);
    LettersAre(letters, Lower(letters));
    NumeralIs(digits, SegmentOf(piece).num);
    if junk != "" {
      DigitIs(junk[0]);
    }
  }

  // ----- what the comparison says -----

  /** `a` ends inside `b` after the first `k` characters, or is smaller than `b` in the one after them. */
  ghost predicate DiffersBelow(a: string, b: string, k: nat) {
    k <= |a| && k < |b| && a[..k] == b[..k] && (k == |a| || a[k] < b[k])
  }

  /** The smaller number comes first, and with equal numbers the suffix that a dictionary has first. */
  ghost predicate SegmentBefore(x: Segment, y: Segment) {
    x.num < y.num || (x.num == y.num && exists k: nat :: DiffersBelow(x.suffix, y.suffix, k))
  }

  /** The lists, with zero segments behind them, are equal up to segment `k`, and there `x` comes first. */
  ghost predicate DecidedAt(x: seq<Segment>, y: seq<Segment>, k: nat) {
    (forall i: nat :: i < k ==> Padded(x, i) == Padded(y, i)) && SegmentBefore(Padded(x, k), Padded(y, k))
  }

  lemma {:induction false} StrCmpIs(a: string, b: string)
    ensures StrCmp(a, b) < 0 <==> exists k: nat :: DiffersBelow(a, b, k)
  {
    hide DiffersBelow;
    if a != [] && b != [] && a[0] == b[0] {
      StrCmpIs(a[1..], b[1..]);
      if StrCmp(a, b) < 0 {
        var k: nat :| DiffersBelow(a[1..], b[1..], k);
        DiffersLater(a, b, k);
      }
      if k: nat :| DiffersBelow(a, b, k) {
        NotAtOnce(a, b, k);
        DiffersLater(a, b, k - 1);
      }
    } else {
      FirstDecides(a, b);
    }
  }

  lemma NotAtOnce(a: string, b: string, k: nat)
    requires a != [] && b != [] && a[0] == b[0] && DiffersBelow(a, b, k)
    ensures k > 0
  {
  }

  lemma DiffersLater(a: string, b: string, k: nat)
    requires a != [] && b != [] && a[0] == b[0]
    ensures DiffersBelow(a, b, k + 1) <==> DiffersBelow(a[1..], b[1..], k)
  {
    if k < |a| && k < |b| {
      assert a[..k + 1] == [a[0]] + a[1..][..k] && b[..k + 1] == [b[0]] + b[1..][..k];
      assert a[..k + 1][1..] == a[1..][..k] && b[..k + 1][1..] == b[1..][..k];
    }
  }

  lemma StartTheSame(a: string, b: string, k: nat)
    requires DiffersBelow(a, b, k) && k > 0
    ensures a != [] && b != [] && a[0] == b[0]
  {
    assert a[..k][0] == b[..k][0];
  }

  lemma FirstDecides(a: string, b: string)
    requires a == [] || b == [] || a[0] != b[0]
    ensures StrCmp(a, b) < 0 <==> b != [] && (a == [] || a[0] < b[0])
    ensures (exists k: nat :: DiffersBelow(a, b, k)) <==> b != [] && (a == [] || a[0] < b[0])
  {
    if b != [] && (a == [] || a[0] < b[0]) {
      assert DiffersBelow(a, b, 0);
    }
    if k: nat :| DiffersBelow(a, b, k) {
      if k > 0 {
        StartTheSame(a, b, k);
      }
    }
  }

  lemma SegmentsCompare(x: Segment, y: Segment)
    ensures CompareSegments(x, y) < 0 <==> SegmentBefore(x, y)
  {
    hide StrCmp, DiffersBelow;
    StrCmpIs(x.suffix, y.suffix);
  }

  lemma {:induction false} ListsCompare(x: seq<Segment>, y: seq<Segment>)
    ensures CompareLists(x, y) < 0 <==> exists k: nat :: DecidedAt(x, y, k)
    decreases |x| + |y|
  {
    hide CompareLists, CompareSegments, SegmentBefore, DecidedAt;
    PadStep(x, y);
    SegmentsOrder(Head(x), Head(y));
    SegmentsCompare(Head(x), Head(y));
    if x == [] && y == [] {
      NothingDecides();
    } else if Head(x) == Head(y) {
      ListsCompare(Tail(x), Tail(y));
      if k: nat :| DecidedAt(Tail(x), Tail(y), k) {
        DecidedLater(x, y, k);
      }
      if k: nat :| DecidedAt(x, y, k) {
        NotDecidedAtOnce(x, y, k);
        DecidedLater(x, y, k - 1);
      }
    } else {
      DecidedAtOnce(x, y);
    }
  }

  lemma NothingDecides()
    ensures CompareLists([], []) == 0 && !exists k: nat :: DecidedAt([], [], k)
  {
    SegmentsCompare(Segment(0, ""), Segment(0, ""));
    SegmentsOrder(Segment(0, ""), Segment(0, ""));
  }

  lemma NotDecidedAtOnce(x: seq<Segment>, y: seq<Segment>, k: nat)
    requires Head(x) == Head(y) && DecidedAt(x, y, k)
    ensures k > 0
  {
    if k == 0 {
      SegmentsCompare(Head(x), Head(y));
      SegmentsOrder(Head(x), Head(y));
      assert false;
    }
  }

  lemma DecidedLater(x: seq<Segment>, y: seq<Segment>, k: nat)
    requires Head(x) == Head(y)
    ensures DecidedAt(x, y, k + 1) <==> DecidedAt(Tail(x), Tail(y), k)
  {
    hide SegmentBefore;
    forall i: nat ensures Padded(x, i + 1) == Padded(Tail(x), i) && Padded(y, i + 1) == Padded(Tail(y), i) {
    }
    if DecidedAt(x, y, k + 1) {
      forall i: nat | i < k ensures Padded(Tail(x), i) == Padded(Tail(y), i) {
        assert Padded(x, i + 1) == Padded(y, i + 1);
      }
    }
    if DecidedAt(Tail(x), Tail(y), k) {
      forall i: nat | i < k + 1 ensures Padded(x, i) == Padded(y, i) {
        if i > 0 {
          assert Padded(Tail(x), i - 1) == Padded(Tail(y), i - 1);
        }
      }
    }
  }

  lemma DecidedAtOnce(x: seq<Segment>, y: seq<Segment>)
    requires Head(x) != Head(y)
    ensures (exists k: nat :: DecidedAt(x, y, k)) <==> SegmentBefore(Head(x), Head(y))
  {
    hide SegmentBefore;
    assert Padded(x, 0) == Head(x) && Padded(y, 0) == Head(y);
    if SegmentBefore(Head(x), Head(y)) {
      assert DecidedAt(x, y, 0);
    }
    if k: nat :| DecidedAt(x, y, k) {
      if k > 0 {
        SameBeforeDecided(x, y, k);
      }
    }
  }

  lemma SameBeforeDecided(x: seq<Segment>, y: seq<Segment>, k: nat)
    requires DecidedAt(x, y, k) && k > 0
    ensures Head(x) == Head(y)
  {
    assert Padded(x, 0) == Padded(y, 0);
  }

  /**
   Two versions, written as pieces between dots and hyphens: the first is older exactly when, at the first segment that
   differs, its number is smaller, or its suffix comes first. What is missing counts as zero without a suffix.
   */
  lemma OlderIff(a: seq<string>, aSeparators: string, b: seq<string>, bSeparators: string, x: seq<Segment>,
                 y: seq<Segment>)
    requires |a| == |aSeparators| + 1 && ArePieces(a) && AreSeparators(aSeparators)
    requires |b| == |bSeparators| + 1 && ArePieces(b) && AreSeparators(bSeparators)
    requires |x| == |a| && forall i :: 0 <= i < |a| ==> Says(a[i], x[i])
    requires |y| == |b| && forall i :: 0 <= i < |b| ==> Says(b[i], y[i])
    ensures Compare(Joined(a, aSeparators), Joined(b, bSeparators)) < 0 <==> exists k: nat :: DecidedAt(x, y, k)
  {
    hide *;
    WrittenSegments(a, aSeparators, x);
    WrittenSegments(b, bSeparators, y);
    var x', y' := Segments(Joined(a, aSeparators)), Segments(Joined(b, bSeparators));
    ListsCompare(x', y');
    CompareIs(Joined(a, aSeparators), Joined(b, bSeparators));
    forall k: nat ensures DecidedAt(x, y, k) <==> DecidedAt(x', y', k) {
      PaddingDecides(x, x', y, y', k);
    }
  }

  ghost predicate PadAlike(x: seq<Segment>, y: seq<Segment>) {
    forall i: nat :: Padded(x, i) == Padded(y, i)
  }

  lemma PaddingDecides(x: seq<Segment>, x': seq<Segment>, y: seq<Segment>, y': seq<Segment>, k: nat)
    requires PadAlike(x, x') && PadAlike(y, y')
    ensures DecidedAt(x, y, k) <==> DecidedAt(x', y', k)
  {
    hide SegmentBefore, Padded;
  }

  ghost predicate Says(piece: string, seg: Segment) {
    exists digits, letters, junk :: IsSaidBy(piece, seg, digits, letters, junk)
  }

  lemma CompareIs(a: string, b: string)
    ensures Compare(a, b) == CompareLists(Segments(a), Segments(b))
  {
  }

  lemma WrittenSegments(pieces: seq<string>, separators: string, segs: seq<Segment>)
    requires |pieces| == |separators| + 1 && ArePieces(pieces) && AreSeparators(separators)
    requires |segs| == |pieces| && forall i :: 0 <= i < |pieces| ==> Says(pieces[i], segs[i])
    ensures PadAlike(segs, Segments(Joined(pieces, separators)))
  {
    hide Segments, Joined, SegmentOf, IsSaidBy;
    SegmentsRoundTrip(pieces, separators);
    var n := |pieces| - 1;
    if pieces[n] == "" {
      SegmentsAre(pieces[..n], segs[..n]);
      assert Says(pieces[n], segs[n]);
      SegmentIff(pieces[n], segs[n]);
      EmptyPiece();
    } else {
      SegmentsAre(pieces, segs);
    }
  }

  lemma {:induction false} SegmentsAre(pieces: seq<string>, segs: seq<Segment>)
    requires |segs| == |pieces| && forall i :: 0 <= i < |pieces| ==> Says(pieces[i], segs[i])
    ensures SegmentsOf(pieces) == segs
  {
    hide SegmentOf, IsSaidBy;
    if pieces == [] {
    } else {
      SegmentIff(pieces[0], segs[0]);
      assert Says(pieces[0], segs[0]);
      SegmentsAre(pieces[1..], segs[1..]);
      assert segs == [segs[0]] + segs[1..];
    }
  }

  /** A piece written as digits, up to seven letters, and anything that continues neither. */
  lemma PieceRoundTrip(digits: string, letters: string, junk: string)
    requires forall i :: 0 <= i < |digits| ==> IsDigit(digits[i])
    requires (forall i :: 0 <= i < |letters| ==> IsAlpha(letters[i])) && |letters| <= MAX_SUFFIX
    requires junk != "" ==> (letters == "" ==> !IsDigit(junk[0])) && (|letters| < MAX_SUFFIX ==> !IsAlpha(junk[0]))
    ensures SegmentOf(digits + letters + junk) == Segment(Number(digits), Lower(letters))
  {
    hide SegmentOf, Number, Lower;
    var piece, d := digits + letters + junk, |digits|;
    var e := d + |letters|;
    assert forall i :: 0 <= i < d ==> piece[i] == digits[i];
    assert forall i :: d <= i < e ==> piece[i] == letters[i - d];
    assert e < |piece| ==> piece[e] == junk[0];
    PieceParts(piece, d, e);
    assert piece[..d] == digits && piece[d..e] == letters;
  }

  // ----- the code: one pass over both strings -----

  /** The digits at `p`, added up while there are at most 18 of them. */
  method ReadDigits(s: string, p: nat) returns (q: nat, num: nat)
    requires p <= |s|
    ensures p <= q <= |s| && (forall i :: p <= i < q ==> IsDigit(s[i])) && (q < |s| ==> !IsDigit(s[q]))
    ensures num == Number(s[p..q])
  {
    num := 0;
    var digits := 0;
    q := p;
    while q < |s| && IsDigit(s[q])
      invariant p <= q <= |s|
      invariant forall i :: p <= i < q ==> IsDigit(s[i])
      invariant digits == Min(q - p, MAX_DIGITS)
      invariant num == Number(s[p..q])
    {
      assert s[p..q + 1][..q - p] == s[p..q];
      if digits < MAX_DIGITS {
        num := num * 10 + (s[q] - '0') as nat;
        digits := digits + 1;
      } else {
        num := ULLONG_MAX;
      }
      q := q + 1;
    }
  }

  /** The letters at `p`, as many as the suffix can hold. */
  method ReadSuffix(s: string, p: nat) returns (q: nat, suffix: string)
    requires p <= |s|
    ensures p <= q <= |s| && q - p <= MAX_SUFFIX && (forall i :: p <= i < q ==> IsAlpha(s[i]))
    ensures q < |s| && q - p < MAX_SUFFIX ==> !IsAlpha(s[q])
    ensures suffix == Lower(s[p..q])
  {
    q := p;
    suffix := "";
    while q < |s| && IsAlpha(s[q]) && |suffix| < MAX_SUFFIX
      invariant p <= q <= |s| && |suffix| == q - p <= MAX_SUFFIX
      invariant forall i :: p <= i < q ==> IsAlpha(s[i])
      invariant suffix == Lower(s[p..q])
    {
      suffix := suffix + [LowerChar(s[q])];
      q := q + 1;
    }
  }

  /** Parses the segment at `p`; `q` is where it stops, at a separator or the end. */
  method ParseSegment(s: string, p: nat) returns (q: nat, seg: Segment)
    requires p < |s|
    ensures q == p + Run(s[p..], NotSeparator()) && seg == SegmentOf(s[p..q])
  {
    hide SegmentOf, Lower, Run, Number;
    var d, num := ReadDigits(s, p);
    var e, suffix := ReadSuffix(s, d);
    q := e;
    while q < |s| && !IsSeparator(s[q])
      invariant e <= q <= |s|
      invariant forall i :: p <= i < q ==> !IsSeparator(s[i])
    {
      q := q + 1;
    }
    seg := Segment(num, suffix);
    RunIs(s[p..], NotSeparator(), q - p);
    var piece := s[p..q];
    SliceOfSlice(s, p, q, p, d);
    SliceOfSlice(s, p, q, d, e);
    PieceParts(piece, d - p, e - p);
  }

  lemma SliceOfSlice(s: string, p: nat, q: nat, d: nat, e: nat)
    requires p <= d <= e <= q <= |s|
    ensures s[p..q][d - p..e - p] == s[d..e]
  {
    var x, y := s[p..q][d - p..e - p], s[d..e];
    assert |x| == |y| && forall i :: 0 <= i < |x| ==> x[i] == y[i];
  }

  /** How many letters are kept. */
  lemma LettersKept(letters: string, k: nat)
    requires k <= |letters| && k <= MAX_SUFFIX
    requires forall i :: 0 <= i < k ==> IsAlpha(letters[i])
    requires k < |letters| && k < MAX_SUFFIX ==> !IsAlpha(letters[k])
    ensures Min(Run(letters, IsAlpha), MAX_SUFFIX) == k
  {
    hide IsAlpha;
    var n := Run(letters, IsAlpha);
    assert n >= k;
    if k < MAX_SUFFIX {
      RunIs(letters, IsAlpha, k);
    }
  }

  /** Where the digits and the letters kept of a piece end. */
  lemma PieceParts(piece: string, d: nat, e: nat)
    requires d <= e <= |piece| && e - d <= MAX_SUFFIX
    requires forall i :: 0 <= i < d ==> IsDigit(piece[i])
    requires forall i :: d <= i < e ==> IsAlpha(piece[i])
    requires d < |piece| ==> !IsDigit(piece[d])
    requires e < |piece| && e - d < MAX_SUFFIX ==> !IsAlpha(piece[e])
    ensures SegmentOf(piece) == Segment(Number(piece[..d]), Lower(piece[d..e]))
  {
    hide IsDigit, IsAlpha, Number, Lower, Min;
    RunIs(piece, IsDigit, d);
    var letters := piece[d..];
    forall i | 0 <= i < e - d ensures IsAlpha(letters[i]) {
      assert letters[i] == piece[d + i];
    }
    assert e < |piece| ==> letters[e - d] == piece[e];
    LettersKept(letters, e - d);
    hide Run;
    assert letters[..e - d] == piece[d..e];
  }

  method VersionCompare(a: string, b: string) returns (r: int)
    ensures r == Compare(a, b)
  {
    hide SegmentOf, Run, Segments, StrCmp;
    var i: nat, j: nat := 0, 0;
    assert a[0..] == a && b[0..] == b;
    while i < |a| || j < |b|
      invariant i <= |a| && j <= |b|
      invariant Compare(a, b) == CompareLists(Segments(a[i..]), Segments(b[j..]))
      decreases |a| - i + |b| - j
    {
      var sa, sb := ZERO_SEGMENT, ZERO_SEGMENT;
      ghost var i0, j0 := i, j;
      if i < |a| {
        i, sa := ParseSegment(a, i);
      }
      if j < |b| {
        j, sb := ParseSegment(b, j);
      }
      SegmentsStep(a, i0, i, sa);
      SegmentsStep(b, j0, j, sb);
      if sa.num != sb.num {
        return if sa.num < sb.num then -1 else 1;
      }
      var c := StrCmp(sa.suffix, sb.suffix);
      StrCmpOrders(sa.suffix, sb.suffix);
      if c != 0 {
        return if c < 0 then -1 else 1;
      }
      if i < |a| && IsSeparator(a[i]) {
        i := i + 1;
      }
      if j < |b| && IsSeparator(b[j]) {
        j := j + 1;
      }
    }
    SegmentsStep(a, i, i, ZERO_SEGMENT);
    SegmentsStep(b, j, j, ZERO_SEGMENT);
    return 0;
  }

  /** The first segment left at `p`, and what remains behind it and its separator. */
  lemma SegmentsStep(s: string, p: nat, q: nat, seg: Segment)
    requires p <= |s|
    requires if p == |s| then q == p && seg == ZERO_SEGMENT
             else q == p + Run(s[p..], NotSeparator()) && seg == SegmentOf(s[p..q])
    ensures Segments(s[p..]) == [] <==> p == |s|
    ensures p <= q && (q < |s| ==> IsSeparator(s[q]))
    ensures Head(Segments(s[p..])) == seg
    ensures Tail(Segments(s[p..])) == Segments(s[if q < |s| then q + 1 else q..])
  {
    var rest := s[p..];
    if p < |s| {
      assert rest[..q - p] == s[p..q];
      if q < |s| {
        assert rest[q - p + 1..] == s[q + 1..];
      }
    }
  }

  // ----- the order is a total preorder -----

  lemma {:induction false} StrCmpOrders(a: string, b: string)
    ensures StrCmp(a, b) in {-1, 0, 1}
    ensures StrCmp(a, b) == -StrCmp(b, a)
    ensures StrCmp(a, b) == 0 <==> a == b
  {
    if a != [] && b != [] && a[0] == b[0] {
      StrCmpOrders(a[1..], b[1..]);
      assert a == [a[0]] + a[1..] && b == [b[0]] + b[1..];
    }
  }

  lemma {:induction false} StrCmpTransitive(a: string, b: string, c: string)
    requires StrCmp(a, b) <= 0 && StrCmp(b, c) <= 0
    ensures StrCmp(a, c) <= 0
  {
    if a != [] && b != [] && c != [] && a[0] == b[0] == c[0] {
      StrCmpTransitive(a[1..], b[1..], c[1..]);
    }
  }

  lemma SegmentsOrder(x: Segment, y: Segment)
    ensures CompareSegments(x, y) in {-1, 0, 1}
    ensures CompareSegments(x, y) == -CompareSegments(y, x)
    ensures CompareSegments(x, y) == 0 <==> x == y
  {
    StrCmpOrders(x.suffix, y.suffix);
  }

  lemma SegmentsTransitive(x: Segment, y: Segment, z: Segment)
    requires CompareSegments(x, y) <= 0 && CompareSegments(y, z) <= 0
    ensures CompareSegments(x, z) <= 0
  {
    if x.num == y.num == z.num {
      StrCmpTransitive(x.suffix, y.suffix, z.suffix);
    }
  }

  lemma {:induction false} ListsOrder(x: seq<Segment>, y: seq<Segment>)
    ensures CompareLists(x, y) in {-1, 0, 1}
    ensures CompareLists(x, y) == -CompareLists(y, x)
    decreases |x| + |y|
  {
    hide CompareSegments;
    if x != [] || y != [] {
      SegmentsOrder(Head(x), Head(y));
      ListsOrder(Tail(x), Tail(y));
    }
  }

  lemma {:induction false} ListsTransitive(x: seq<Segment>, y: seq<Segment>, z: seq<Segment>)
    requires CompareLists(x, y) <= 0 && CompareLists(y, z) <= 0
    ensures CompareLists(x, z) <= 0
    decreases |x| + |y| + |z|
  {
    hide CompareSegments;
    if x != [] || y != [] || z != [] {
      PadStep(x, y);
      PadStep(y, z);
      PadStep(x, z);
      SegmentsOrder(Head(x), Head(y));
      SegmentsOrder(Head(y), Head(z));
      SegmentsOrder(Head(x), Head(z));
      SegmentsTransitive(Head(x), Head(y), Head(z));
      if Head(x) == Head(y) == Head(z) {
        ListsTransitive(Tail(x), Tail(y), Tail(z));
      }
    }
  }

  /** Padding both lists changes nothing, so every step can be read the same way. */
  lemma PadStep(x: seq<Segment>, y: seq<Segment>)
    ensures var c := CompareSegments(Head(x), Head(y));
            CompareLists(x, y) == if c != 0 then c else CompareLists(Tail(x), Tail(y))
  {
    SegmentsOrder(ZERO_SEGMENT, ZERO_SEGMENT);
  }

  /** Comparison is reflexive, flips sign with its arguments, and only returns -1, 0 or 1. */
  lemma CompareIsAntisymmetric(a: string, b: string)
    ensures Compare(a, a) == 0
    ensures Compare(a, b) == -Compare(b, a)
    ensures Compare(a, b) in {-1, 0, 1}
  {
    hide Segments;
    ListsOrder(Segments(a), Segments(a));
    ListsOrder(Segments(a), Segments(b));
  }

  lemma CompareIsTransitive(a: string, b: string, c: string)
    requires Compare(a, b) <= 0 && Compare(b, c) <= 0
    ensures Compare(a, c) <= 0
  {
    hide Segments;
    ListsTransitive(Segments(a), Segments(b), Segments(c));
  }

  /** A version without the zero segments at its end. */
  function Trim(x: seq<Segment>): seq<Segment> {
    if x != [] && x[|x| - 1] == ZERO_SEGMENT then Trim(x[..|x| - 1]) else x
  }

  function Padded(x: seq<Segment>, i: nat): Segment {
    if i < |x| then x[i] else Segment(0, "")
  }

  lemma {:induction false} EqualListsPad(x: seq<Segment>, y: seq<Segment>)
    ensures CompareLists(x, y) == 0 <==> forall i: nat :: Padded(x, i) == Padded(y, i)
    decreases |x| + |y|
  {
    hide CompareSegments;
    if x != [] || y != [] {
      PadStep(x, y);
      SegmentsOrder(Head(x), Head(y));
      EqualListsPad(Tail(x), Tail(y));
      assert Padded(x, 0) == Head(x) && Padded(y, 0) == Head(y);
      if CompareLists(x, y) == 0 {
        forall i: nat ensures Padded(x, i) == Padded(y, i) {
          if i > 0 {
            assert Padded(Tail(x), i - 1) == Padded(Tail(y), i - 1);
          }
        }
      }
      if forall i: nat :: Padded(x, i) == Padded(y, i) {
        forall i: nat ensures Padded(Tail(x), i) == Padded(Tail(y), i) {
          assert Padded(x, i + 1) == Padded(y, i + 1);
        }
      }
    }
  }

  lemma {:induction false} TrimPads(x: seq<Segment>)
    ensures |Trim(x)| <= |x|
    ensures forall i: nat :: Padded(Trim(x), i) == Padded(x, i)
    ensures Trim(x) != [] ==> Trim(x)[|Trim(x)| - 1] != ZERO_SEGMENT
  {
    if x != [] && x[|x| - 1] == ZERO_SEGMENT {
      TrimPads(x[..|x| - 1]);
    }
  }

  /** Two versions compare equal exactly when they have the same segments up to zero segments at the end. */
  lemma EquivalentVersions(a: string, b: string)
    ensures Compare(a, b) == 0 <==> Trim(Segments(a)) == Trim(Segments(b))
  {
    hide Segments, CompareLists, Trim;
    var x, y := Segments(a), Segments(b);
    var tx, ty := Trim(x), Trim(y);
    EqualListsPad(x, y);
    TrimPads(x);
    TrimPads(y);
    if Compare(a, b) == 0 {
      assert forall i: nat :: Padded(tx, i) == Padded(ty, i);
      assert |tx| > |ty| ==> Padded(tx, |tx| - 1) == Padded(ty, |tx| - 1);
      assert |ty| > |tx| ==> Padded(ty, |ty| - 1) == Padded(tx, |ty| - 1);
      forall i | 0 <= i < |tx| ensures tx[i] == ty[i] {
        assert Padded(tx, i) == Padded(ty, i);
      }
    }
  }

  // ----- numbers -----

  function Pow10(n: nat): nat {
    if n == 0 then 1 else 10 * Pow10(n - 1)
  }

  lemma {:induction false} DecimalBound(digits: string)
    requires forall i :: 0 <= i < |digits| ==> IsDigit(digits[i])
    ensures Decimal(digits) < Pow10(|digits|)
  {
    if digits == [] {
    } else {
      DecimalBound(digits[..|digits| - 1]);
    }
  }

  lemma {:induction false} Pow10Monotone(m: nat, n: nat)
    requires m <= n
    ensures Pow10(m) <= Pow10(n)
  {
    if m < n {
      Pow10Monotone(m, n - 1);
    }
  }

  /** A segment's number never wraps. It is the decimal value exactly when the digits number at most 18, leading
      zeros included, or the value happens to be the saturated one. */
  lemma NumberIsExact(digits: string)
    requires forall i :: 0 <= i < |digits| ==> IsDigit(digits[i])
    ensures Number(digits) <= ULLONG_MAX
    ensures |digits| <= MAX_DIGITS ==> Number(digits) < ULLONG_MAX
    ensures Number(digits) == Decimal(digits) <==> |digits| <= MAX_DIGITS || Decimal(digits) == ULLONG_MAX
  {
    DecimalBound(digits);
    if |digits| <= MAX_DIGITS {
      Pow10Monotone(|digits|, MAX_DIGITS);
      assert Pow10(6) == 1_000_000;
      assert Pow10(12) == 1_000_000_000_000;
      assert Pow10(18) == 1_000_000_000_000_000_000;
    }
  }

  /** A version that is all digits is one segment, its number. */
  lemma AllDigits(x: string)
    requires x != [] && forall i :: 0 <= i < |x| ==> IsDigit(x[i])
    ensures Segments(x) == [Segment(Number(x), "")]
  {
    hide Number;
    RunIs(x, NotSeparator(), |x|);
    assert x[..|x|] == x;
    PieceParts(x, |x|, |x|);
  }

  /** Leading zeros count towards the 18 digits, so a long way of writing 1 sorts above 2. */
  lemma LeadingZerosSaturate()
    ensures Compare("0000000000000000001", "2") == 1
  {
    hide Segments;
    AllDigits("0000000000000000001");
    AllDigits("2");
    assert "2"[..0] == [];
  }

  // ----- suffixes -----

  function Cut(letters: string): string {
    letters[..Min(|letters|, MAX_SUFFIX)]
  }

  /** A piece of digits and then letters is its number and the first seven of the letters. */
  lemma PieceKeepsSevenLetters(digits: string, letters: string)
    requires forall i :: 0 <= i < |digits| ==> IsDigit(digits[i])
    requires forall i :: 0 <= i < |letters| ==> IsAlpha(letters[i])
    ensures SegmentOf(digits + letters) == Segment(Number(digits), Cut(Lower(letters)))
  {
    hide SegmentOf, Number;
    var kept := Min(|letters|, MAX_SUFFIX);
    PieceRoundTrip(digits, letters[..kept], letters[kept..]);
    assert digits + letters[..kept] + letters[kept..] == digits + letters;
    assert Lower(letters[..kept]) == Cut(Lower(letters));
  }

  /** The suffix is read as it was written, but for case, exactly when it has at most seven letters. */
  lemma SuffixIsWholeIff(digits: string, letters: string)
    requires forall i :: 0 <= i < |digits| ==> IsDigit(digits[i])
    requires forall i :: 0 <= i < |letters| ==> IsAlpha(letters[i])
    ensures SegmentOf(digits + letters) == Segment(Number(digits), Lower(letters)) <==> |letters| <= MAX_SUFFIX
  {
    hide SegmentOf, Number, Lower;
    PieceKeepsSevenLetters(digits, letters);
  }

  lemma CutStep(a: string, n: nat)
    requires a != [] && n > 0
    ensures a[..Min(|a|, n)] == [a[0]] + a[1..][..Min(|a| - 1, n - 1)] && a == [a[0]] + a[1..]
  {
  }

  lemma SameFirst(c: char, x: string, y: string)
    ensures StrCmp([c] + x, [c] + y) == StrCmp(x, y) && ([c] + x == [c] + y <==> x == y)
  {
    assert ([c] + x)[1..] == x && ([c] + y)[1..] == y;
  }

  /** Cutting two strings keeps their order exactly when they differ before the cut, or not at all. */
  lemma {:induction false} CuttingKeepsOrderIff(a: string, b: string, n: nat)
    ensures var x, y := a[..Min(|a|, n)], b[..Min(|b|, n)];
            StrCmp(x, y) == StrCmp(a, b) <==> x != y || a == b
    decreases n
  {
    if a != [] && b != [] && n > 0 && a[0] == b[0] {
      hide *;
      CutStep(a, n);
      CutStep(b, n);
      SameFirst(a[0], a[1..], b[1..]);
      SameFirst(a[0], a[1..][..Min(|a| - 1, n - 1)], b[1..][..Min(|b| - 1, n - 1)]);
      CuttingKeepsOrderIff(a[1..], b[1..], n - 1);
    } else {
      StrCmpOrders(a[..Min(|a|, n)], b[..Min(|b|, n)]);
      StrCmpOrders(a, b);
    }
  }

  lemma EmptyPiece()
    ensures SegmentOf("") == ZERO_SEGMENT
  {
    PieceParts("", 0, 0);
    assert ""[..0] == "" && ""[0..0] == "";
    assert Decimal("") == 0;
  }

  /** A version without separators is one segment. */
  lemma OnePiece(digits: string, letters: string)
    requires forall i :: 0 <= i < |digits| ==> IsDigit(digits[i])
    requires forall i :: 0 <= i < |letters| ==> IsAlpha(letters[i])
    ensures var x := Segments(digits + letters);
            Head(x) == Segment(Number(digits), Cut(Lower(letters))) && Tail(x) == []
  {
    hide SegmentOf, Segments, Number, Lower;
    var piece := digits + letters;
    NoSegments();
    PieceKeepsSevenLetters(digits, letters);
    if piece == "" {
      EmptyPiece();
    } else {
      SegmentsIs(piece, |piece|);
      assert piece[..|piece|] == piece;
    }
  }

  /** Behind the same number, suffixes break the tie exactly when they differ in their first seven letters or, but for
      case, not at all. */
  lemma SuffixBreaksTiesIff(digits: string, a: string, b: string)
    requires forall i :: 0 <= i < |digits| ==> IsDigit(digits[i])
    requires forall i :: 0 <= i < |a| ==> IsAlpha(a[i])
    requires forall i :: 0 <= i < |b| ==> IsAlpha(b[i])
    ensures Compare(digits + a, digits + b) == StrCmp(Lower(a), Lower(b)) <==>
            Cut(Lower(a)) != Cut(Lower(b)) || Lower(a) == Lower(b)
  {
    hide Segments, Number, Lower;
    OnePiece(digits, a);
    OnePiece(digits, b);
    PadStep(Segments(digits + a), Segments(digits + b));
    CuttingKeepsOrderIff(Lower(a), Lower(b), MAX_SUFFIX);
  }

  /** From the eighth letter on a suffix no longer counts. */
  lemma LongSuffixesTie()
    ensures Compare("1aaaaaaab", "1aaaaaaac") == 0 && StrCmp("aaaaaaab", "aaaaaaac") == -1
  {
    hide Segments, Number, StrCmp;
    OnePiece("1", "aaaaaaab");
    OnePiece("1", "aaaaaaac");
    assert "1aaaaaaab" == "1" + "aaaaaaab" && "1aaaaaaac" == "1" + "aaaaaaac";
    PadStep(Segments("1aaaaaaab"), Segments("1aaaaaaac"));
    assert Cut(Lower("aaaaaaab")) == "aaaaaaa" == Cut(Lower("aaaaaaac"));
    StrCmpOrders("aaaaaaa", "aaaaaaa");
    LastLetterDiffers("aaaaaaa");
    assert "aaaaaaab" == "aaaaaaa" + "b" && "aaaaaaac" == "aaaaaaa" + "c";
  }

  lemma {:induction false} LastLetterDiffers(same: string)
    ensures StrCmp(same + "b", same + "c") == -1
  {
    if same == "" {
    } else {
      LastLetterDiffers(same[1..]);
      assert (same + "b")[1..] == same[1..] + "b" && (same + "c")[1..] == same[1..] + "c";
    }
  }

  function Sign(n: int): int {
    if n < 0 then -1 else if n == 0 then 0 else 1
  }

  /** When two numbers, as they are read, are in the order of their values: both are short enough to be exact; or one is
      too long and larger; or both are too long, and equal. */
  predicate ReadInOrder(a: string, b: string)
    requires forall i :: 0 <= i < |a| ==> IsDigit(a[i])
    requires forall i :: 0 <= i < |b| ==> IsDigit(b[i])
  {
    if |a| <= MAX_DIGITS then |b| <= MAX_DIGITS || Decimal(a) < Decimal(b)
    else if |b| <= MAX_DIGITS then Decimal(a) > Decimal(b)
    else Decimal(a) == Decimal(b)
  }

  /** Versions that are just numbers are ordered by value exactly then. */
  lemma NumbersOrderByValueIff(a: string, b: string)
    requires forall i :: 0 <= i < |a| ==> IsDigit(a[i])
    requires forall i :: 0 <= i < |b| ==> IsDigit(b[i])
    ensures Compare(a, b) == Sign(Decimal(a) - Decimal(b)) <==> ReadInOrder(a, b)
  {
    hide Segments, Number, Lower, Decimal;
    NumberIsExact(a);
    NumberIsExact(b);
    LongNumbersSaturate(a);
    LongNumbersSaturate(b);
    OnePiece(a, "");
    OnePiece(b, "");
    assert a + "" == a && b + "" == b && Cut(Lower("")) == "";
    PadStep(Segments(a), Segments(b));
    StrCmpOrders("", "");
  }

  lemma LongNumbersSaturate(digits: string)
    requires forall i :: 0 <= i < |digits| ==> IsDigit(digits[i])
    ensures |digits| > MAX_DIGITS ==> Number(digits) == ULLONG_MAX
  {
  }

  // ----- spaces before a version -----

  function Spaces(n: nat): (r: string)
    ensures |r| == n && forall i :: 0 <= i < n ==> r[i] == ' '
  {
    seq(n, _ => ' ')
  }

  lemma SpacedPiece(piece: string)
    requires piece != "" && piece[0] == ' '
    ensures SegmentOf(piece) == ZERO_SEGMENT
  {
    PieceParts(piece, 0, 0);
    assert piece[..0] == [] && piece[0..0] == [];
    assert Decimal("") == 0;
  }

  /** A leading space ends the first segment at once: it becomes the zero segment, and the rest stays. */
  lemma SpaceZeroesFirstSegment(spaces: nat, t: string)
    requires spaces > 0
    ensures Segments(Spaces(spaces) + t) == [ZERO_SEGMENT] + Tail(Segments(t))
  {
    hide SegmentOf, Run, Segments, Spaces;
    var s := Spaces(spaces) + t;
    var n := Run(t, NotSeparator());
    forall i | 0 <= i < n + spaces ensures !IsSeparator(s[i]) {
      assert if i < spaces then s[i] == ' ' else s[i] == t[i - spaces];
    }
    assert n < |t| ==> s[n + spaces] == t[n];
    SegmentsIs(s, n + spaces);
    SpacedPiece(s[..n + spaces]);
    NoSegments();
    if t != "" {
      SegmentsIs(t, n);
      assert n < |t| ==> s[n + spaces + 1..] == t[n + 1..];
    }
  }

  /** So a version keeps its place behind spaces exactly when its first segment is the zero segment. */
  lemma SpaceIsHarmless(spaces: nat, t: string)
    requires spaces > 0
    ensures Compare(Spaces(spaces) + t, t) == 0 <==> Head(Segments(t)) == ZERO_SEGMENT
  {
    hide Segments, Spaces;
    SpaceZeroesFirstSegment(spaces, t);
    var x, y := Segments(Spaces(spaces) + t), Segments(t);
    PadStep(x, y);
    SegmentsOrder(Head(x), Head(y));
    assert Tail(x) == Tail(y);
    ListsOrder(Tail(y), Tail(y));
  }

  /** Behind spaces, a version never sorts higher. */
  lemma SpaceSortsFirst(spaces: nat, t: string)
    requires spaces > 0
    ensures Compare(Spaces(spaces) + t, t) <= 0
  {
    hide Segments, Spaces;
    SpaceZeroesFirstSegment(spaces, t);
    var x, y := Segments(Spaces(spaces) + t), Segments(t);
    PadStep(x, y);
    assert Tail(x) == Tail(y);
    ListsOrder(Tail(y), Tail(y));
  }

  // ----- the ends of the order -----

  lemma {:induction false} NothingIsLeast(x: seq<Segment>)
    ensures CompareLists([], x) <= 0
  {
    if x == [] {
    } else {
      NothingIsLeast(x[1..]);
    }
  }

  /** The empty version is a least one, and the versions that tie with it have only zero segments. */
  lemma EmptyIsLeast(t: string)
    ensures Compare("", t) <= 0
    ensures Compare("", t) == 0 <==> Trim(Segments(t)) == []
  {
    hide Segments, CompareLists;
    NoSegments();
    NothingIsLeast(Segments(t));
    EquivalentVersions("", t);
  }

  lemma SegmentOne()
    ensures Segments("1") == [Segment(1, "")]
  {
    hide Segments;
    AllDigits("1");
    assert "1"[..0] == "";
    assert Decimal("") == 0;
  }

  /** There is no greatest version: one more segment always sorts higher. */
  lemma {:induction false} OneMoreSegment(t: string)
    ensures Compare(t + ".1", t) > 0
    decreases |t|
  {
    hide Segments, SegmentOf, Run, StrCmp, Number;
    NoSegments();
    var n := Run(t, NotSeparator());
    var s := t + ".1";
    assert forall i :: 0 <= i < |t| ==> s[i] == t[i];
    SegmentOne();
    SegmentsIs(s, n);
    var x, y := Segments(s), Segments(t);
    if n < |t| {
      SegmentsIs(t, n);
      assert s[..n] == t[..n] && s[n + 1..] == t[n + 1..] + ".1";
      OneMoreSegment(t[n + 1..]);
    } else {
      assert s[..n] == t && s[n + 1..] == "1";
      if t == "" {
        EmptyPiece();
      } else {
        SegmentsIs(t, n);
        assert t[..n] == t;
      }
      assert CompareLists([Segment(1, "")], []) == 1;
    }
    assert Tail(x) == Segments(s[n + 1..]) && Head(x) == Head(y);
    PadStep(x, y);
    SegmentsOrder(Head(x), Head(y));
  }
}
