/** Which entry names are safe to join into a path, and what joining them builds. */
module Paths {
  import opened Bytes

  const DOT: byte := 46
  const SLASH: byte := 47
  const COLON: byte := 58
  const BACKSLASH: byte := 92

  /** Device names that Windows reserves whatever their extension or letter case. */
  const RESERVED_NAMES: seq<bytes> :=
    [Ascii("con"), Ascii("prn"), Ascii("aux"), Ascii("nul"),
     Ascii("com1"), Ascii("com2"), Ascii("com3"), Ascii("com4"), Ascii("com5"),
     Ascii("com6"), Ascii("com7"), Ascii("com8"), Ascii("com9"),
     Ascii("lpt1"), Ascii("lpt2"), Ascii("lpt3"), Ascii("lpt4"), Ascii("lpt5"),
     Ascii("lpt6"), Ascii("lpt7"), Ascii("lpt8"), Ascii("lpt9")]

  function LowerByte(c: byte): byte {
    if 65 <= c <= 90 then c + 32 else c
  }

  function Lower(s: bytes): (r: bytes)
    ensures |r| == |s|
  {
    seq(|s|, i requires 0 <= i < |s| => LowerByte(s[i]))
  }

  /** The part of a name before its first dot. */
  function BaseName(name: bytes): bytes {
    if name == [] || name[0] == DOT then [] else [name[0]] + BaseName(name[1..])
  }

  predicate IsReserved(name: bytes) {
    Lower(BaseName(name)) in RESERVED_NAMES
  }

  predicate IsSafe(name: bytes) {
    && name != [] && name != [DOT] && name != [DOT, DOT]
    && SLASH !in name && BACKSLASH !in name && COLON !in name && NUL !in name
    && !IsReserved(name)
  }

  lemma {:induction false} BaseNamePrefix(name: bytes, k: nat)
    requires k <= |name|
    requires forall i :: 0 <= i < k ==> name[i] != DOT
    requires k == |name| || name[k] == DOT
    ensures BaseName(name) == name[..k]
  {
    if k == 0 {
    } else {
      BaseNamePrefix(name[1..], k - 1);
      assert name[..k] == [name[0]] + name[1..][..k - 1];
    }
  }

  lemma ReservedLengths()
    ensures forall r :: r in RESERVED_NAMES ==> 3 <= |r| <= 4
  {
  }

  // ----- the same, letter by letter -----

  /** The word, each letter of it small or capital. */
  ghost predicate Spells(s: bytes, word: bytes) {
    |s| == |word| && forall i :: 0 <= i < |s| ==> s[i] == word[i] || (97 <= word[i] <= 122 && s[i] == word[i] - 32)
  }

  ghost predicate NoCapitals(word: bytes) {
    forall i :: 0 <= i < |word| ==> !(65 <= word[i] <= 90)
  }

  /** con, prn, aux or nul; or com or lpt with a digit from 1 to 9. */
  ghost predicate IsDevice(s: bytes) {
    || Spells(s, [99, 111, 110]) || Spells(s, [112, 114, 110]) || Spells(s, [97, 117, 120]) ||
      Spells(s, [110, 117, 108])
    || exists d: byte :: 49 <= d <= 57 && (Spells(s, [99, 111, 109, d]) || Spells(s, [108, 112, 116, d]))
  }

  /** The name is a device's up to its first dot, or as a whole if it has none. */
  ghost predicate IsDeviceName(name: bytes) {
    exists k: nat :: k <= |name| && 46 !in name[..k] && (k == |name| || name[k] == 46) && IsDevice(name[..k])
  }

  /** A name that stays inside its directory, is one component on any system, and is not a device's. */
  ghost predicate IsPlainName(name: bytes) {
    && name != [] && name != [46] && name != [46, 46]
    && (forall i :: 0 <= i < |name| ==> name[i] != 0 && name[i] != 47 && name[i] != 58 && name[i] != 92)
    && !IsDeviceName(name)
  }

  lemma LowerSpells(s: bytes, word: bytes)
    requires NoCapitals(word)
    ensures Lower(s) == word <==> Spells(s, word)
  {
    if Lower(s) == word {
      forall i | 0 <= i < |s| ensures s[i] == word[i] || (97 <= word[i] <= 122 && s[i] == word[i] - 32) {
        assert Lower(s)[i] == word[i];
      }
    }
    if Spells(s, word) {
      forall i | 0 <= i < |s| ensures Lower(s)[i] == word[i] {
        assert s[i] == word[i] || (97 <= word[i] <= 122 && s[i] == word[i] - 32);
      }
    }
  }

  lemma PlainDevices()
    ensures RESERVED_NAMES[0] == [99, 111, 110] && RESERVED_NAMES[1] == [112, 114, 110]
    ensures RESERVED_NAMES[2] == [97, 117, 120] && RESERVED_NAMES[3] == [110, 117, 108]
    ensures |RESERVED_NAMES| == 22
  {
  }

  lemma NumberedDevices(d: byte)
    requires 49 <= d <= 57
    ensures RESERVED_NAMES[4 + (d - 49)] == [99, 111, 109, d] && RESERVED_NAMES[13 + (d - 49)] == [108, 112, 116, d]
  {
  }

  lemma ReservedIffDevice(s: bytes)
    ensures Lower(s) in RESERVED_NAMES <==> IsDevice(s)
  {
    hide Spells, Lower, RESERVED_NAMES;
    PlainDevices();
    forall word: bytes | NoCapitals(word) ensures Lower(s) == word <==> Spells(s, word) {
      LowerSpells(s, word);
    }
    assert NoCapitals([99, 111, 110]) && NoCapitals([112, 114, 110]) && NoCapitals([97, 117, 120]) &&
      NoCapitals([110, 117, 108]);
    forall d: byte | 49 <= d <= 57
      ensures NoCapitals([99, 111, 109, d]) && NoCapitals([108, 112, 116, d])
      ensures [99, 111, 109, d] in RESERVED_NAMES && [108, 112, 116, d] in RESERVED_NAMES
    {
      NumberedDevices(d);
    }
    if Lower(s) in RESERVED_NAMES {
      var i :| 0 <= i < 22 && RESERVED_NAMES[i] == Lower(s);
      if 4 <= i < 13 {
        NumberedDevices(49 + (i - 4));
      } else if i >= 13 {
        NumberedDevices(49 + (i - 13));
      }
    }
  }

  lemma {:induction false} BaseNameEnds(name: bytes)
    ensures var k := |BaseName(name)|;
            k <= |name| && 46 !in name[..k] && (k == |name| || name[k] == 46) && BaseName(name) == name[..k]
  {
    if name == [] || name[0] == DOT {
    } else {
      BaseNameEnds(name[1..]);
      var k := |BaseName(name[1..])|;
      assert name[..k + 1] == [name[0]] + name[1..][..k];
    }
  }

  /** A name is reserved exactly when it is a device's, in any mixture of small and capital letters. */
  lemma ReservedIffDeviceName(name: bytes)
    ensures IsReserved(name) <==> IsDeviceName(name)
  {
    hide IsDevice, Lower, RESERVED_NAMES;
    BaseNameEnds(name);
    var base := BaseName(name);
    ReservedIffDevice(base);
    if IsDeviceName(name) {
      var k: nat :| k <= |name| && 46 !in name[..k] && (k == |name| || name[k] == 46) && IsDevice(name[..k]);
      forall i | 0 <= i < k ensures name[i] != DOT {
        assert name[i] == name[..k][i];
      }
      BaseNamePrefix(name, k);
    }
  }

  lemma SafeIffPlain(name: bytes)
    ensures IsSafe(name) <==> IsPlainName(name)
  {
    hide IsReserved, IsDeviceName;
    ReservedIffDeviceName(name);
  }

  /** Capitals and small letters make no difference: of two names that differ in nothing else, both are reserved or
      neither. */
  lemma CaseIsIrrelevant(a: bytes, b: bytes)
    requires |a| == |b|
    requires forall i :: 0 <= i < |a| ==>
               a[i] == b[i] || (65 <= a[i] <= 90 && b[i] == a[i] + 32) || (65 <= b[i] <= 90 && a[i] == b[i] + 32)
    ensures IsReserved(a) <==> IsReserved(b)
  {
    hide RESERVED_NAMES;
    BaseNameEnds(a);
    BaseNameEnds(b);
    var k := |BaseName(a)|;
    forall i | 0 <= i < k ensures b[i] != DOT {
      assert a[i] == a[..k][i];
    }
    BaseNamePrefix(b, k);
    assert Lower(BaseName(a)) == Lower(BaseName(b));
  }

  // ----- the code -----

  /** The first `|candidate|` letters of a name, compared without regard to case. */
  method MatchesLowered(name: bytes, candidate: bytes) returns (matches: bool)
    requires |candidate| <= |name|
    ensures matches <==> Lower(name[..|candidate|]) == candidate
  {
    for i := 0 to |candidate|
      invariant forall k :: 0 <= k < i ==> LowerByte(name[k]) == candidate[k]
    {
      if LowerByte(name[i]) != candidate[i] {
        assert Lower(name[..|candidate|])[i] != candidate[i];
        return false;
      }
    }
    return true;
  }

  method MatchesAny(name: bytes, baseLen: nat, candidates: seq<bytes>) returns (found: bool)
    requires baseLen <= |name|
    ensures found <==> Lower(name[..baseLen]) in candidates
    ensures (forall c :: c in candidates ==> NoCapitals(c)) ==>
              (found <==> exists c :: c in candidates && Spells(name[..baseLen], c))
  {
    hide Spells, Lower;
    forall c | c in candidates && NoCapitals(c) ensures Lower(name[..baseLen]) == c <==> Spells(name[..baseLen], c) {
      LowerSpells(name[..baseLen], c);
    }
    for r := 0 to |candidates|
      invariant Lower(name[..baseLen]) !in candidates[..r]
    {
      if |candidates[r]| == baseLen {
        var matches := MatchesLowered(name, candidates[r]);
        if matches {
          return true;
        }
      }
    }
    return false;
  }

  /** The search for a reserved name: the length of the base first, then letter by letter. */
  method IsWindowsReservedName(name: bytes) returns (reserved: bool)
    ensures reserved <==> IsReserved(name)
    ensures reserved <==> IsDeviceName(name)
  {
    hide IsDeviceName;
    ReservedIffDeviceName(name);
    var baseLen := 0;
    while baseLen < |name| && name[baseLen] != DOT
      invariant baseLen <= |name|
      invariant forall i :: 0 <= i < baseLen ==> name[i] != DOT
    {
      baseLen := baseLen + 1;
    }
    BaseNamePrefix(name, baseLen);
    if baseLen == 0 || baseLen > 4 {
      ReservedLengths();
      return false;
    }
    reserved := MatchesAny(name, baseLen, RESERVED_NAMES);
  }

  method PathComponentIsSafe(name: bytes) returns (safe: bool)
    ensures safe <==> IsSafe(name)
    ensures safe <==> IsPlainName(name)
  {
    hide IsPlainName, IsReserved;
    SafeIffPlain(name);
    if |name| == 0 {
      return false;
    }
    if |name| == 1 && name[0] == DOT {
      return false;
    }
    if |name| == 2 && name[0] == DOT && name[1] == DOT {
      return false;
    }
    for i := 0 to |name|
      invariant forall k :: 0 <= k < i ==> name[k] !in {SLASH, BACKSLASH, COLON, NUL}
    {
      var c := name[i];
      if c == SLASH || c == BACKSLASH || c == COLON || c == NUL {
        return false;
      }
    }
    var reserved := IsWindowsReservedName(name);
    return !reserved;
  }

  // ----- joining -----

  /** An entry's path: the root directory's path is empty. */
  function ChildPath(parent: bytes, name: bytes): bytes {
    if parent == [] then name else parent + [SLASH] + name
  }

  /** The pieces between slashes; never empty. */
  function Split(p: bytes): (r: seq<bytes>)
    ensures |r| >= 1
  {
    if p == [] then [[]]
    else
      var r := Split(p[1..]);
      if p[0] == SLASH then [[]] + r else [[p[0]] + r[0]] + r[1..]
  }

  /** The components of a path; the root directory has none. */
  function Components(p: bytes): seq<bytes> {
    if p == [] then [] else Split(p)
  }

  /** Every component of the path would be accepted as an entry name. */
  ghost predicate PathIsSafe(p: bytes) {
    forall c :: c in Components(p) ==> IsSafe(c)
  }

  function Join(parts: seq<bytes>): bytes
    requires |parts| >= 1
  {
    if |parts| == 1 then parts[0] else parts[0] + [SLASH] + Join(parts[1..])
  }

  lemma {:induction false} JoinSplit(p: bytes)
    ensures Join(Split(p)) == p
  {
    if p == [] {
    } else {
      JoinSplit(p[1..]);
      var r := Split(p[1..]);
      if p[0] == SLASH {
        assert ([[]] + r)[1..] == r;
      } else {
        var s := [[p[0]] + r[0]] + r[1..];
        assert s[1..] == r[1..];
        if |r| > 1 {
          assert Join(s) == [p[0]] + (r[0] + [SLASH] + Join(r[1..]));
        }
      }
    }
  }

  lemma {:induction false} SplitName(name: bytes)
    requires SLASH !in name
    ensures Split(name) == [name]
  {
    if name == [] {
    } else {
      SplitName(name[1..]);
      assert name == [name[0]] + name[1..];
    }
  }

  lemma {:induction false} SplitAppend(p: bytes, name: bytes)
    requires SLASH !in name
    ensures Split(p + [SLASH] + name) == Split(p) + [name]
  {
    if p == [] {
      SplitName(name);
      assert (p + [SLASH] + name)[1..] == name;
    } else {
      SplitAppend(p[1..], name);
      assert (p + [SLASH] + name)[1..] == p[1..] + [SLASH] + name;
    }
  }

  /** Joining a safe name adds exactly one component: no name climbs out of or skips a directory. */
  lemma ChildComponents(parent: bytes, name: bytes)
    requires IsSafe(name)
    ensures Components(ChildPath(parent, name)) == Components(parent) + [name]
  {
    if parent == [] {
      SplitName(name);
    } else {
      SplitAppend(parent, name);
    }
  }

  /** A path is determined by its components, so joining safe names is injective. */
  lemma ComponentsInjective(p: bytes, q: bytes)
    requires Components(p) == Components(q)
    ensures p == q
  {
    if p != [] && q != [] {
      JoinSplit(p);
      JoinSplit(q);
    }
  }
}
