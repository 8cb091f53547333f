/** Finding Dropbear's version: an isolated, version-shaped token next to one that mentions Dropbear. */
module DropbearScan {
  import opened Bytes

  const DOT: byte := 46

  predicate IsDigit(c: byte) {
    48 <= c <= 57
  }

  // ----- searching for text -----

  predicate OccursAt(haystack: bytes, needle: bytes, i: nat) {
    i + |needle| <= |haystack| && haystack[i..i + |needle|] == needle
  }

  ghost predicate Occurs(haystack: bytes, needle: bytes) {
    needle != [] && exists i :: 0 <= i <= |haystack| && OccursAt(haystack, needle, i)
  }

  /** The first occurrence. */
  method MemFind(haystack: bytes, needle: bytes) returns (r: Option<nat>)
    ensures r.Some? <==> Occurs(haystack, needle)
    ensures r.Some? ==> OccursAt(haystack, needle, r.value)
    ensures r.Some? ==> forall k :: 0 <= k < r.value ==> !OccursAt(haystack, needle, k)
  {
    if |needle| == 0 || |needle| > |haystack| {
      return None;
    }
    var i: nat := 0;
    while i + |needle| <= |haystack|
      invariant forall k :: 0 <= k < i ==> !OccursAt(haystack, needle, k)
    {
      if haystack[i..i + |needle|] == needle {
        assert OccursAt(haystack, needle, i);
        return Some(i);
      }
      i := i + 1;
    }
    return None;
  }

  const LOWER_NAME: bytes := Ascii("dropbear")
  const UPPER_NAME: bytes := Ascii("Dropbear")

  ghost predicate Mentions(tok: bytes) {
    Occurs(tok, LOWER_NAME) || Occurs(tok, UPPER_NAME)
  }

  method TokenMentionsDropbear(tok: bytes) returns (r: bool)
    ensures r <==> Mentions(tok)
  {
    var lower := MemFind(tok, LOWER_NAME);
    if lower.Some? {
      return true;
    }
    var upper := MemFind(tok, UPPER_NAME);
    return upper.Some?;
  }

  /** Four digits, a dot, and one to three digits. */
  predicate IsVersionShaped(tok: bytes) {
    && 6 <= |tok| <= 8 && tok[4] == DOT
    && forall i :: 0 <= i < |tok| && i != 4 ==> IsDigit(tok[i])
  }

  method LooksLikeDropbearVersion(tok: bytes) returns (r: bool)
    ensures r <==> IsVersionShaped(tok)
  {
    if |tok| < 6 || |tok| > 8 {
      return false;
    }
    for i := 0 to 4
      invariant forall k :: 0 <= k < i ==> IsDigit(tok[k])
    {
      if !IsDigit(tok[i]) {
        return false;
      }
    }
    if tok[4] != DOT {
      return false;
    }
    for i := 5 to |tok|
      invariant forall k :: 5 <= k < i ==> IsDigit(tok[k])
    {
      if !IsDigit(tok[i]) {
        return false;
      }
    }
    return true;
  }

  // ----- the same, written out -----

  /** Somewhere in the text is a "d" or "D" with "ropbear" behind it. */
  ghost predicate NamesDropbear(tok: bytes) {
    exists before, after, first: byte :: IsNaming(tok, before, first, after)
  }

  ghost predicate IsNaming(tok: bytes, before: bytes, first: byte, after: bytes) {
    first in {68, 100} && tok == before + [first, 114, 111, 112, 98, 101, 97, 114] + after
  }

  lemma NamesAre()
    ensures LOWER_NAME == [100, 114, 111, 112, 98, 101, 97, 114]
    ensures UPPER_NAME == [68, 114, 111, 112, 98, 101, 97, 114]
  {
    assert |"dropbear"| == 8 && |"Dropbear"| == 8;
  }

  lemma OccursIff(haystack: bytes, needle: bytes)
    requires needle != []
    ensures Occurs(haystack, needle) <==> exists before, after :: haystack == before + needle + after
  {
    if Occurs(haystack, needle) {
      var i :| 0 <= i <= |haystack| && OccursAt(haystack, needle, i);
      assert haystack == haystack[..i] + needle + haystack[i + |needle|..];
    }
    if before, after :| haystack == before + needle + after {
      assert haystack[|before|..|before| + |needle|] == needle;
      assert OccursAt(haystack, needle, |before|);
    }
  }

  /** The two searches together find exactly the two spellings. */
  lemma MentionsIff(tok: bytes)
    ensures Mentions(tok) <==> NamesDropbear(tok)
  {
    hide Occurs;
    NamesAre();
    OccursIff(tok, LOWER_NAME);
    OccursIff(tok, UPPER_NAME);
    if Mentions(tok) {
      if Occurs(tok, LOWER_NAME) {
        var before, after :| tok == before + LOWER_NAME + after;
        assert IsNaming(tok, before, 100, after);
      } else {
        var before, after :| tok == before + UPPER_NAME + after;
        assert IsNaming(tok, before, 68, after);
      }
    }
  }

  ghost predicate AreDigits(s: bytes) {
    forall i :: 0 <= i < |s| ==> s[i] in {48, 49, 50, 51, 52, 53, 54, 55, 56, 57}
  }

  /** A year of four digits, a dot, and one to three digits. */
  ghost predicate IsYearAndNumber(tok: bytes, year: bytes, number: bytes) {
    |year| == 4 && AreDigits(year) && 1 <= |number| <= 3 && AreDigits(number) && tok == year + [46] + number
  }

  lemma VersionShapedIff(tok: bytes)
    ensures IsVersionShaped(tok) <==> exists year, number :: IsYearAndNumber(tok, year, number)
  {
    if IsVersionShaped(tok) {
      var year, number := tok[..4], tok[5..];
      assert tok == year + [46] + number;
      forall i | 0 <= i < |number| ensures IsDigit(number[i]) {
        assert number[i] == tok[i + 5];
      }
      assert IsYearAndNumber(tok, year, number);
    }
    if year, number :| IsYearAndNumber(tok, year, number) {
      forall i | 0 <= i < |tok| && i != 4 ensures IsDigit(tok[i]) {
        assert tok[i] == if i < 4 then year[i] else number[i - 5];
      }
    }
  }

  // ----- tokens -----

  /** The pieces between NULs; never empty. */
  function Tokens(s: bytes): (r: seq<bytes>)
    ensures |r| >= 1
    decreases |s|
  {
    var n := FirstNul(s);
    [s[..n]] + (if n < |s| then Tokens(s[n + 1..]) else [])
  }

  /** Tokens with a NUL between each two. */
  function JoinTokens(ts: seq<bytes>): bytes
    requires |ts| >= 1
  {
    if |ts| == 1 then ts[0] else ts[0] + ([NUL] + JoinTokens(ts[1..]))
  }

  /** The tokens hold no NUL, and joining them gives the buffer back. */
  lemma {:induction false} TokensRoundTrip(s: bytes)
    ensures JoinTokens(Tokens(s)) == s
    ensures forall i :: 0 <= i < |Tokens(s)| ==> NUL !in Tokens(s)[i]
    decreases |s|
  {
    hide FirstNul;
    var n := FirstNul(s);
    if n < |s| {
      var rest := s[n + 1..];
      TokensRoundTrip(rest);
      assert Tokens(s)[1..] == Tokens(rest);
      assert s == s[..n] + ([NUL] + rest);
    } else {
      assert s[..n] == s;
    }
  }

  /** There is no other way to cut a buffer at its NULs. */
  lemma {:induction false} TokensUnique(ts: seq<bytes>)
    requires |ts| >= 1 && forall i :: 0 <= i < |ts| ==> NUL !in ts[i]
    ensures Tokens(JoinTokens(ts)) == ts
    decreases |ts|
  {
    hide FirstNul, Tokens;
    var s, n := JoinTokens(ts), |ts[0]|;
    assert forall i :: 0 <= i < n ==> s[i] == ts[0][i];
    FirstNulIs(s, n);
    TokensUnfold(s, n);
    assert s[..n] == ts[0];
    if |ts| > 1 {
      TokensUnique(ts[1..]);
      assert s[n + 1..] == JoinTokens(ts[1..]);
    }
  }

  lemma TokensUnfold(s: bytes, n: nat)
    requires FirstNul(s) == n
    ensures Tokens(s) == [s[..n]] + (if n < |s| then Tokens(s[n + 1..]) else [])
  {
    hide FirstNul;
  }

  lemma TokensStep(buf: bytes, start: nat, i: nat)
    requires start <= i <= |buf| && (forall k :: start <= k < i ==> buf[k] != NUL) && (i < |buf| ==> buf[i] == NUL)
    ensures Tokens(buf[start..]) == [buf[start..i]] + (if i < |buf| then Tokens(buf[i + 1..]) else [])
  {
    hide Tokens, FirstNul;
    var s := buf[start..];
    FirstNulIs(s, i - start);
    TokensUnfold(s, i - start);
    assert s[..i - start] == buf[start..i];
    if i < |buf| {
      assert s[i - start + 1..] == buf[i + 1..];
    }
  }

  /** Token `i` is a version, fits the caller's buffer, and has a neighbour that mentions Dropbear. */
  ghost predicate Qualifies(ts: seq<bytes>, i: nat, outSize: nat)
    requires i < |ts|
  {
    && IsVersionShaped(ts[i]) && |ts[i]| < outSize
    && ((i > 0 && Mentions(ts[i - 1])) || (i + 1 < |ts| && Mentions(ts[i + 1])))
  }

  /** What qualifies, written out: a year and a number that fits with its NUL, next to a token that names Dropbear. */
  lemma QualifiesIff(ts: seq<bytes>, i: nat, outSize: nat)
    requires i < |ts|
    ensures Qualifies(ts, i, outSize) <==>
            && (exists year, number :: IsYearAndNumber(ts[i], year, number)) && |ts[i]| + 1 <= outSize
            && exists j :: 0 <= j < |ts| && (j + 1 == i || j == i + 1) && NamesDropbear(ts[j])
  {
    hide Mentions, NamesDropbear, IsVersionShaped, IsYearAndNumber;
    VersionShapedIff(ts[i]);
    forall j | 0 <= j < |ts| ensures Mentions(ts[j]) <==> NamesDropbear(ts[j]) {
      MentionsIff(ts[j]);
    }
  }

  /** One pass over the buffer: a version is accepted on sight when the token before it mentions Dropbear, and one
      token late when the token after it does; the answer is still the leftmost qualifying token. */
  method FindIsolatedDropbearVersion(buf: bytes, outSize: nat) returns (r: Option<bytes>)
    ensures var ts := Tokens(buf);
            && (r.Some? <==> exists i :: 0 <= i < |ts| && Qualifies(ts, i, outSize))
            && (r.Some? ==> exists i :: 0 <= i < |ts| && Qualifies(ts, i, outSize) && r.value == ts[i]
                                        && forall k :: 0 <= k < i ==> !Qualifies(ts, k, outSize))
  {
    hide Tokens, Mentions, IsVersionShaped, FirstNul;
    ghost var ts := Tokens(buf);
    ghost var k: nat := 0;
    var start: nat := 0;
    var prev: Option<bytes> := None;
    var candidate: Option<bytes> := None;
    var i: nat := 0;
    assert buf[0..] == buf && ts[0..] == ts;
    while i <= |buf|
      invariant start <= i <= |buf| + 1
      invariant forall j :: start <= j < i && j < |buf| ==> buf[j] != NUL
      invariant k <= |ts|
      invariant if start <= |buf| then ts[k..] == Tokens(buf[start..]) else k == |ts|
      invariant i == |buf| + 1 <==> start == |buf| + 1
      invariant prev == if k == 0 then None else Some(ts[k - 1])
      invariant candidate == if k > 0 && IsVersionShaped(ts[k - 1]) then Some(ts[k - 1]) else None
      invariant forall j :: 0 <= j < k - 1 ==> !Qualifies(ts, j, outSize)
      invariant k > 0 && IsVersionShaped(ts[k - 1]) && |ts[k - 1]| < outSize ==> k == 1 || !Mentions(ts[k - 2])
      decreases |buf| + 1 - i
    {
      if i != |buf| && buf[i] != NUL {
        i := i + 1;
        continue;
      }
      var tok := buf[start..i];
      TokensStep(buf, start, i);
      assert tok == ts[k..][0] == ts[k];
      var mentions := TokenMentionsDropbear(tok);
      if candidate.Some? && mentions && |candidate.value| < outSize {
        assert Qualifies(ts, k - 1, outSize);
        return candidate;
      }
      assert k > 0 ==> !Qualifies(ts, k - 1, outSize);
      var shaped := LooksLikeDropbearVersion(tok);
      if shaped {
        if prev.Some? && |tok| < outSize {
          var before := TokenMentionsDropbear(prev.value);
          if before {
            assert Qualifies(ts, k, outSize);
            return Some(tok);
          }
        }
        candidate := Some(tok);
      } else {
        candidate := None;
      }
      prev := Some(tok);
      assert ts[k + 1..] == ts[k..][1..];
      k := k + 1;
      start := i + 1;
      i := i + 1;
    }
    assert k > 0 ==> !Qualifies(ts, k - 1, outSize);
    return None;
  }
}
