/** Evaluating the `affected` field of a vulnerability entry: a list of version conditions. */
module AffectedRange {
  import opened Bytes
  import opened VersionOrder

  const MAX_TOKEN := 63

  datatype RangeOp = Lt | Le | Gt | Ge | Eq

  datatype Cond = Cond(op: RangeOp, token: string)

  function OpText(op: RangeOp): string {
    match op
    case Lt => "<"
    case Le => "<="
    case Gt => ">"
    case Ge => ">="
    case Eq => "=="
  }

  /** The operator that `s` starts with. */
  function ParseOp(s: string): Option<RangeOp> {
    if "<=" <= s then Some(Le)
    else if ">=" <= s then Some(Ge)
    else if "==" <= s then Some(Eq)
    else if "<" <= s then Some(Lt)
    else if ">" <= s then Some(Gt)
    else None
  }

  predicate OpHolds(op: RangeOp, cmp: int) {
    match op
    case Lt => cmp < 0
    case Le => cmp <= 0
    case Gt => cmp > 0
    case Ge => cmp >= 0
    case Eq => cmp == 0
  }

  predicate Holds(version: string, c: Cond) {
    OpHolds(c.op, Compare(version, c.token))
  }

  predicate AllHold(version: string, cs: seq<Cond>) {
    forall c :: c in cs ==> Holds(version, c)
  }

  /** The list is not empty, every condition of it is well formed, and all of them hold. */
  predicate Accepts(version: string, affected: string) {
    affected != "" && ParseConds(affected).Some? && AllHold(version, ParseConds(affected).value)
  }

  // ----- the grammar -----

  function IsSpace(): char -> bool {
    (c: char) => c == ' '
  }

  function NotComma(): char -> bool {
    (c: char) => c != ','
  }

  /** One condition at the start of `s`, and what follows it and its comma. */
  function ParseCond(s: string): (r: Option<(Cond, string)>)
    ensures r.Some? ==> |r.value.1| < |s|
  {
    var t := s[Run(s, IsSpace())..];
    var op :- ParseOp(t);
    var rest := t[|OpText(op)|..];
    var n := Run(rest, NotComma());
    if n == 0 || n > MAX_TOKEN then None
    else Some((Cond(op, rest[..n]), if n < |rest| then rest[n + 1..] else []))
  }

  /** The conditions of a list, or None when one of them is malformed. */
  function ParseConds(s: string): Option<seq<Cond>>
    decreases |s|
  {
    if s == [] then Some([])
    else
      var first :- ParseCond(s);
      var more :- ParseConds(first.1);
      Some([first.0] + more)
  }

  // ----- the code -----

  /** Reads the condition at `p`; `next` is behind it and its comma. */
  method ReadCond(s: string, p: nat) returns (c: Option<Cond>, next: nat)
    requires p < |s|
    ensures c.Some? <==> ParseCond(s[p..]).Some?
    ensures c.Some? ==> p < next <= |s| && ParseCond(s[p..]) == Some((c.value, s[next..]))
  {
    hide Run, ParseOp, OpText, ParseCond;
    next := p;
    var q := SkipSpaces(s, p);
    SuffixOfSuffix(s, p, q);
    var op := ParseOp(s[q..]);
    NoOperator(s[p..]);
    if op.None? {
      return None, next;
    }
    OpTextIsThere(s[q..]);
    OpStartsNoSpace(op.value);
    var start := q + |OpText(op.value)|;
    SuffixOfSuffix(s, q, start);
    var end := ReadToken(s, start);
    CondOf(s[p..], s[q..], op.value, s[start..]);
    if end == start || (end < |s| && s[end] != ',') {
      return None, next;
    }
    next := if end < |s| then end + 1 else end;
    PrefixOfSuffix(s, start, end);
    SuffixOfSuffix(s, start, next);
    NothingLeft(s);
    return Some(Cond(op.value, s[start..end])), next;
  }

  lemma NoOperator(s: string)
    ensures ParseOp(s[Run(s, IsSpace())..]).None? ==> ParseCond(s).None?
  {
    hide Run, ParseOp;
  }

  /** What a condition is, once its operator and what follows it are known. */
  lemma CondOf(s: string, t: string, op: RangeOp, rest: string)
    requires t == s[Run(s, IsSpace())..] && ParseOp(t) == Some(op)
    requires |OpText(op)| <= |t| && rest == t[|OpText(op)|..]
    ensures var n := Run(rest, NotComma());
            ParseCond(s) == if n == 0 || n > MAX_TOKEN then None
                            else Some((Cond(op, rest[..n]), if n < |rest| then rest[n + 1..] else []))
  {
    hide Run, ParseOp, OpText;
  }

  lemma NothingLeft(s: string)
    ensures s[|s|..] == []
  {
  }

  lemma PrefixOfSuffix(s: string, p: nat, q: nat)
    requires p <= q <= |s|
    ensures s[p..][..q - p] == s[p..q]
  {
    var x, y := s[p..][..q - p], s[p..q];
    assert |x| == |y| && forall i :: 0 <= i < |x| ==> x[i] == y[i];
  }

  lemma SuffixOfSuffix(s: string, p: nat, q: nat)
    requires p <= q <= |s|
    ensures s[p..][q - p..] == s[q..]
  {
    var x, y := s[p..][q - p..], s[q..];
    assert |x| == |y| && forall i :: 0 <= i < |x| ==> x[i] == y[i];
  }

  /** Evaluates the conditions as it parses them; the first false or malformed one settles the answer. */
  method VersionSatisfies(version: string, affected: string) returns (r: bool)
    ensures r <==> Accepts(version, affected)
  {
    hide Compare, ParseCond;
    if affected == "" {
      return false;
    }
    var p: nat := 0;
    ghost var done: seq<Cond> := [];
    assert affected[0..] == affected;
    PrependNothing(ParseConds(affected));
    while p < |affected|
      invariant p <= |affected|
      invariant ParseConds(affected) == Prepended(done, ParseConds(affected[p..]))
      invariant AllHold(version, done)
    {
      ghost var here := affected[p..];
      var c, next := ReadCond(affected, p);
      if c.None? {
        return false;
      }
      PrependAssoc(done, c.value, ParseConds(affected[next..]));
      p := next;
      var cmp := VersionCompare(version, c.value.token);
      if !OpHolds(c.value.op, cmp) {
        assert !Holds(version, c.value);
        assert (done + [c.value])[|done|] == c.value;
        return false;
      }
      done := done + [c.value];
    }
    assert affected[p..] == [];
    assert done + [] == done;
    return true;
  }

  method SkipSpaces(s: string, p: nat) returns (q: nat)
    requires p <= |s|
    ensures p <= q <= |s| && q - p == Run(s[p..], IsSpace())
  {
    q := p;
    while q < |s| && s[q] == ' '
      invariant p <= q <= |s|
      invariant forall i :: p <= i < q ==> s[i] == ' '
    {
      q := q + 1;
    }
    RunIs(s[p..], IsSpace(), q - p);
  }

  /** Copies a token of at most 63 characters; it stops early when the buffer is full. */
  method ReadToken(s: string, p: nat) returns (q: nat)
    requires p <= |s|
    ensures p <= q <= |s|
    ensures var n := Run(s[p..], NotComma());
            if n <= MAX_TOKEN then q - p == n else q - p == MAX_TOKEN && q < |s| && s[q] != ','
  {
    q := p;
    while q < |s| && s[q] != ',' && q - p < MAX_TOKEN
      invariant p <= q <= |s| && q - p <= MAX_TOKEN
      invariant forall i :: p <= i < q ==> s[i] != ','
    {
      q := q + 1;
    }
    var n := Run(s[p..], NotComma());
    if q == |s| || s[q] == ',' {
      RunIs(s[p..], NotComma(), q - p);
    } else {
      assert n <= q - p ==> s[p..][n] == ',' || n == |s| - p;
    }
  }

  lemma OpTextIsThere(s: string)
    ensures ParseOp(s).Some? ==> OpText(ParseOp(s).value) <= s
  {
  }

  // ----- what is well formed -----

  /** A condition as written: some spaces, an operator, a token. */
  datatype Item = Item(spaces: nat, cond: Cond) {
    /** The token is not empty, has no comma, and does not turn `<` or `>` into `<=` or `>=`. */
    predicate HasGrammar() {
      && cond.token != "" && ',' !in cond.token
      && (cond.op in {Lt, Gt} ==> cond.token[0] != '=')
    }

    /** The token also fits the buffer: 1 to 63 characters. */
    predicate WellFormed() {
      HasGrammar() && |cond.token| <= 63
    }

    /** The same condition with `n` spaces between the operator and the version. */
    function Spaced(n: nat): Item {
      Item(spaces, Cond(cond.op, Spaces(n) + cond.token))
    }

    function Text(): string {
      Spaces(spaces) + (OpText(cond.op) + cond.token)
    }
  }

  /** Conditions separated by commas, with or without one comma at the end. */
  function Text(items: seq<Item>, trailing: bool): string {
    if items == [] then ""
    else if |items| == 1 then items[0].Text() + (if trailing then "," else "")
    else items[0].Text() + ("," + Text(items[1..], trailing))
  }

  predicate AllWellFormed(items: seq<Item>) {
    forall i :: 0 <= i < |items| ==> items[i].WellFormed()
  }

  function Conds(items: seq<Item>): seq<Cond> {
    seq(|items|, i requires 0 <= i < |items| => items[i].cond)
  }

  lemma OpRoundTrip(c: Cond, more: string)
    requires c.token != "" && (c.op in {Lt, Gt} ==> c.token[0] != '=')
    ensures ParseOp(OpText(c.op) + (c.token + more)) == Some(c.op)
  {
    var s := OpText(c.op) + (c.token + more);
    assert s[|OpText(c.op)|] == c.token[0];
    assert s[0] == OpText(c.op)[0];
    match c.op
    case Lt => assert s[..1] == "<";
    case Gt => assert s[..1] == ">";
    case Le => assert s[1] == OpText(c.op)[1]; assert s[..2] == "<=";
    case Ge => assert s[1] == OpText(c.op)[1]; assert s[..2] == ">=";
    case Eq => assert s[1] == OpText(c.op)[1]; assert s[..2] == "==";
  }

  /** A condition followed by nothing, or by a comma and more, is read whole, unless its token is too long. */
  lemma CondReads(item: Item, more: string)
    requires item.HasGrammar() && (more == "" || more[0] == ',')
    ensures ParseCond(item.Text() + more) ==
            if |item.cond.token| > MAX_TOKEN then None else Some((item.cond, if more == "" then "" else more[1..]))
  {
    hide *;
    var c, spaces, op := item.cond, Spaces(item.spaces), OpText(item.cond.op);
    var body, rest := op + (c.token + more), c.token + more;
    ItemParts(item);
    TextParts(spaces, op, c.token, more, rest, body, spaces + body);
    OpStartsNoSpace(c.op);
    SpacesRun(item.spaces, body);
    Behind(spaces, body);
    Behind(op, rest);
    OpRoundTrip(c, more);
    TokenRun(c.token, more);
    CondOf(spaces + body, body, c.op, rest);
  }

  lemma ItemParts(item: Item)
    ensures item.Text() == Spaces(item.spaces) + (OpText(item.cond.op) + item.cond.token) &&
            |Spaces(item.spaces)| == item.spaces
    ensures item.HasGrammar() ==>
              && item.cond.token != "" && ',' !in item.cond.token
              && (item.cond.op in {Lt, Gt} ==> item.cond.token[0] != '=')
  {
    hide OpText, Spaces;
  }

  lemma Behind(a: string, b: string)
    ensures (a + b)[|a|..] == b
  {
  }

  /** A written condition parses back. */
  lemma CondRoundTrip(item: Item, more: string)
    requires item.WellFormed() && (more == "" || more[0] == ',')
    ensures ParseCond(item.Text() + more) == Some((item.cond, if more == "" then "" else more[1..]))
  {
    hide ParseCond;
    CondReads(item, more);
  }

  lemma SpacesRun(n: nat, body: string)
    requires body != "" && body[0] != ' '
    ensures Run(Spaces(n) + body, IsSpace()) == n
  {
    hide Run;
    RunIs(Spaces(n) + body, IsSpace(), n);
  }

  lemma TokenRun(token: string, more: string)
    requires ',' !in token && (more == "" || more[0] == ',')
    ensures var rest := token + more;
            Run(rest, NotComma()) == |token| && rest[..|token|] == token &&
              (more != "" ==> rest[|token| + 1..] == more[1..])
  {
    hide Run;
    var rest := token + more;
    assert forall i :: 0 <= i < |token| ==> rest[i] == token[i];
    RunIs(rest, NotComma(), |token|);
  }

  lemma OpStartsNoSpace(op: RangeOp)
    ensures OpText(op) != "" && OpText(op)[0] != ' '
  {
  }

  /** Whatever is written with the grammar parses back to its conditions. */
  lemma {:induction false} ListRoundTrip(items: seq<Item>, trailing: bool)
    requires items != [] && AllWellFormed(items)
    ensures Text(items, trailing) != "" && ParseConds(Text(items, trailing)) == Some(Conds(items))
    decreases |items|
  {
    hide ParseCond, Item.Text, Item.WellFormed;
    var s := Text(items, trailing);
    var more := if |items| > 1 then "," + Text(items[1..], trailing) else if trailing then "," else "";
    assert s == items[0].Text() + more;
    CondRoundTrip(items[0], more);
    TextIsNotEmpty(items[0]);
    assert more != "" ==> more[1..] == if |items| > 1 then Text(items[1..], trailing) else "";
    if |items| > 1 {
      ListRoundTrip(items[1..], trailing);
      assert Conds(items) == [items[0].cond] + Conds(items[1..]);
    } else {
      assert ParseConds("") == Some([]);
      assert Conds(items) == [items[0].cond] + [];
    }
  }

  lemma TextIsNotEmpty(item: Item)
    ensures item.Text() != ""
  {
  }

  lemma LeadingSpaces(s: string)
    ensures var k := Run(s, IsSpace()); s == Spaces(k) + s[k..]
  {
    var k := Run(s, IsSpace());
    forall i | 0 <= i < k ensures s[i] == ' ' {
      assert IsSpace()(s[i]);
    }
    hide Run;
    var x := Spaces(k) + s[k..];
    assert |x| == |s| && forall i :: 0 <= i < |x| ==> x[i] == s[i];
  }

  /** An operator that was read is there, and is the longest one that is. */
  lemma OpIsLongest(t: string)
    requires ParseOp(t).Some?
    ensures var op := ParseOp(t).value;
            && OpText(op) <= t && t == OpText(op) + t[|OpText(op)|..]
            && (op in {Lt, Gt} && t[|OpText(op)|..] != [] ==> t[|OpText(op)|..][0] != '=')
  {
    var op := ParseOp(t).value;
    assert |t| > 1 ==> t[..2] == [t[0], t[1]];
    assert t[..1] == [t[0]];
  }

  /** Whatever parses was written with the grammar. */
  lemma CondIsWritten(s: string) returns (item: Item, more: string)
    requires ParseCond(s).Some?
    ensures item.WellFormed() && item.cond == ParseCond(s).value.0
    ensures s == item.Text() + more && (more == "" || more[0] == ',')
    ensures ParseCond(s).value.1 == if more == "" then "" else more[1..]
  {
    hide Run, ParseOp, OpText, Spaces;
    var k := Run(s, IsSpace());
    var t := s[k..];
    var op := ParseOp(t).value;
    LeadingSpaces(s);
    OpIsLongest(t);
    var rest := t[|OpText(op)|..];
    var n := Run(rest, NotComma());
    item := Item(k, Cond(op, rest[..n]));
    more := rest[n..];
    assert ',' !in rest[..n];
    TextParts(Spaces(k), OpText(op), rest[..n], more, rest, t, s);
  }

  lemma TextParts(spaces: string, op: string, token: string, more: string, rest: string, t: string, s: string)
    requires s == spaces + t && t == op + rest && rest == token + more
    ensures s == spaces + (op + token) + more
  {
  }

  lemma {:induction false} ListIsWritten(s: string) returns (items: seq<Item>, trailing: bool)
    requires s != "" && ParseConds(s).Some?
    ensures items != [] && AllWellFormed(items) && s == Text(items, trailing) && Conds(items) == ParseConds(s).value
    decreases |s|
  {
    hide ParseCond, ParseConds, Item.Text, Item.WellFormed, Text, Conds;
    FirstCond(s);
    var first, more := CondIsWritten(s);
    var after := ParseCond(s).value.1;
    if after == "" {
      items, trailing := [first], more != "";
      assert more == if trailing then "," else "";
      OneItem(first, trailing);
    } else {
      var rest;
      rest, trailing := ListIsWritten(after);
      items := [first] + rest;
      assert more == "," + after;
      FirstItem(first, rest, trailing);
      FirstItemConds(first, rest);
    }
  }

  lemma FirstCond(s: string)
    requires s != "" && ParseConds(s).Some?
    ensures ParseCond(s).Some? && ParseConds(ParseCond(s).value.1).Some?
    ensures ParseConds(s).value == [ParseCond(s).value.0] + ParseConds(ParseCond(s).value.1).value
    ensures ParseConds("") == Some([])
  {
    hide ParseCond;
  }

  lemma OneItem(first: Item, trailing: bool)
    ensures Text([first], trailing) == first.Text() + (if trailing then "," else "") &&
            Conds([first]) == [first.cond] + []
  {
    hide Item.Text;
  }

  lemma FirstItem(first: Item, rest: seq<Item>, trailing: bool)
    requires rest != []
    ensures Text([first] + rest, trailing) == first.Text() + ("," + Text(rest, trailing))
  {
    hide Item.Text;
    var items := [first] + rest;
    assert items[1..] == rest && items[0] == first;
    assert |items| > 1;
  }

  lemma FirstItemConds(first: Item, rest: seq<Item>)
    ensures Conds([first] + rest) == [first.cond] + Conds(rest)
  {
    var a, b := Conds([first] + rest), [first.cond] + Conds(rest);
    assert |a| == |b|;
    forall k | 0 <= k < |a| ensures a[k] == b[k] {
      assert k > 0 ==> ([first] + rest)[k] == rest[k - 1];
    }
  }

  /** The evaluator accepts exactly the non-empty, well-formed lists all of whose conditions hold. */
  lemma SatisfiesIff(version: string, affected: string)
    ensures Accepts(version, affected) <==>
            exists items, trailing :: items != [] && AllWellFormed(items) && affected == Text(items, trailing)
                                      && AllHold(version, Conds(items))
  {
    hide ParseConds, Text, Holds, AllHold, Conds;
    if Accepts(version, affected) {
      var items, trailing := ListIsWritten(affected);
    }
    if exists items, trailing :: items != [] && AllWellFormed(items) && affected == Text(items, trailing)
                                 && AllHold(version, Conds(items)) {
      var items, trailing :| items != [] && AllWellFormed(items) && affected == Text(items, trailing)
                             && AllHold(version, Conds(items));
      ListRoundTrip(items, trailing);
    }
  }

  /** A condition in so many characters. */
  datatype Written = Written(spaces: nat, sign: string, bound: string) {
    function Text(): string {
      Spaces(spaces) + (sign + bound)
    }

    /** One of five signs, and a bound of 1 to 63 characters without a comma, which does not prolong the sign. */
    ghost predicate IsCondition() {
      && sign in {"<", "<=", ">", ">=", "=="}
      && 1 <= |bound| <= 63 && ',' !in bound && (sign in {"<", ">"} ==> bound[0] != '=')
    }

    ghost predicate IsMetBy(version: string) {
      var c := Compare(version, bound);
      if sign == "<" then c < 0
      else if sign == "<=" then c <= 0
      else if sign == ">" then c > 0
      else if sign == ">=" then c >= 0
      else c == 0
    }
  }

  /** The conditions with commas between them, and perhaps one more at the end. */
  function WrittenText(ws: seq<Written>, trailing: bool): string {
    if ws == [] then ""
    else if |ws| == 1 then ws[0].Text() + (if trailing then "," else "")
    else ws[0].Text() + ("," + WrittenText(ws[1..], trailing))
  }

  function AsWritten(items: seq<Item>): seq<Written> {
    seq(|items|, i requires 0 <= i < |items| =>
      Written(items[i].spaces, OpText(items[i].cond.op), items[i].cond.token))
  }

  function OpOf(sign: string): RangeOp {
    if sign == "<" then Lt
    else if sign == "<=" then Le
    else if sign == ">" then Gt
    else if sign == ">=" then Ge
    else Eq
  }

  function AsItems(ws: seq<Written>): seq<Item> {
    seq(|ws|, i requires 0 <= i < |ws| => Item(ws[i].spaces, Cond(OpOf(ws[i].sign), ws[i].bound)))
  }

  lemma {:induction false} SameText(items: seq<Item>, trailing: bool)
    ensures Text(items, trailing) == WrittenText(AsWritten(items), trailing)
    decreases |items|
  {
    hide OpText, Spaces;
    if items == [] {
    } else {
      SameText(items[1..], trailing);
      assert AsWritten(items)[1..] == AsWritten(items[1..]);
    }
  }

  lemma SignsAreWritten(ws: seq<Written>)
    requires forall i :: 0 <= i < |ws| ==> ws[i].IsCondition()
    ensures AsWritten(AsItems(ws)) == ws && AllWellFormed(AsItems(ws))
  {
    forall i | 0 <= i < |ws| ensures AsWritten(AsItems(ws))[i] == ws[i] && AsItems(ws)[i].WellFormed() {
      assert ws[i].IsCondition();
    }
  }

  lemma SameCondition(item: Item, version: string)
    ensures var w := Written(item.spaces, OpText(item.cond.op), item.cond.token);
            && (item.WellFormed() <==> w.IsCondition())
            && (Holds(version, item.cond) <==> w.IsMetBy(version))
  {
    hide Compare;
  }

  ghost predicate AreMet(ws: seq<Written>, version: string) {
    forall i :: 0 <= i < |ws| ==> ws[i].IsCondition() && ws[i].IsMetBy(version)
  }

  lemma SameConditions(items: seq<Item>, version: string)
    ensures AllWellFormed(items) && AllHold(version, Conds(items)) <==> AreMet(AsWritten(items), version)
  {
    hide Holds, Item.WellFormed, Written.IsCondition, Written.IsMetBy;
    forall i | 0 <= i < |items|
      ensures items[i].WellFormed() <==> AsWritten(items)[i].IsCondition()
      ensures Holds(version, items[i].cond) <==> AsWritten(items)[i].IsMetBy(version)
    {
      SameCondition(items[i], version);
    }
    if AllHold(version, Conds(items)) {
      forall i | 0 <= i < |items| ensures Holds(version, items[i].cond) {
        assert Conds(items)[i] in Conds(items);
      }
    }
    if AreMet(AsWritten(items), version) {
      forall c | c in Conds(items) ensures Holds(version, c) {
        var i :| 0 <= i < |items| && Conds(items)[i] == c;
        assert AsWritten(items)[i].IsMetBy(version);
      }
      forall i | 0 <= i < |items| ensures items[i].WellFormed() {
        assert AsWritten(items)[i].IsCondition();
      }
    }
  }

  /** A version satisfies exactly the texts that are conditions which it meets, between commas. */
  lemma SatisfiedTexts(version: string, affected: string)
    ensures Accepts(version, affected) <==>
            exists ws, trailing :: ws != [] && AreMet(ws, version) && affected == WrittenText(ws, trailing)
  {
    hide Accepts, Text, WrittenText, AllHold, Conds, AreMet, AllWellFormed, AsWritten, AsItems;
    SatisfiesIff(version, affected);
    if Accepts(version, affected) {
      var items, trailing :| items != [] && AllWellFormed(items) && affected == Text(items, trailing)
                             && AllHold(version, Conds(items));
      SameText(items, trailing);
      SameConditions(items, version);
      AsManyWritten(items);
      assert AsWritten(items) != [] && affected == WrittenText(AsWritten(items), trailing);
    }
    if exists ws, trailing :: ws != [] && AreMet(ws, version) && affected == WrittenText(ws, trailing) {
      var ws, trailing :| ws != [] && AreMet(ws, version) && affected == WrittenText(ws, trailing);
      var items := AsItems(ws);
      MetAreWritten(ws, version);
      SameText(items, trailing);
      SameConditions(items, version);
      assert items != [] && affected == Text(items, trailing);
    }
  }

  lemma AsManyWritten(items: seq<Item>)
    ensures |AsWritten(items)| == |items|
  {
  }

  lemma MetAreWritten(ws: seq<Written>, version: string)
    requires AreMet(ws, version)
    ensures |AsItems(ws)| == |ws| && AsWritten(AsItems(ws)) == ws
  {
    hide Written.IsMetBy;
    SignsAreWritten(ws);
  }

  // ----- the satisfying versions -----

  /** The versions that satisfy a list are convex: whatever lies between two of them satisfies it too. */
  lemma SatisfyingVersionsAreConvex(low: string, mid: string, high: string, cs: seq<Cond>)
    requires Compare(low, mid) <= 0 && Compare(mid, high) <= 0
    requires AllHold(low, cs) && AllHold(high, cs)
    ensures AllHold(mid, cs)
  {
    hide Compare;
    forall c | c in cs ensures Holds(mid, c) {
      assert Holds(low, c) && Holds(high, c);
      var t := c.token;
      CompareIsAntisymmetric(low, t);
      CompareIsAntisymmetric(mid, t);
      CompareIsAntisymmetric(high, t);
      CompareIsAntisymmetric(low, mid);
      CompareIsAntisymmetric(mid, high);
      if Compare(high, t) <= 0 {
        CompareIsTransitive(mid, high, t);
      }
      if Compare(t, low) <= 0 {
        CompareIsTransitive(t, low, mid);
      }
      if Compare(t, mid) <= 0 {
        CompareIsTransitive(t, mid, high);
      }
      if Compare(mid, t) <= 0 {
        CompareIsTransitive(low, mid, t);
      }
    }
  }

  /** Versions that compare equal satisfy the same lists. */
  lemma EquivalentVersionsSatisfyTheSame(a: string, b: string, cs: seq<Cond>)
    requires Compare(a, b) == 0
    ensures AllHold(a, cs) <==> AllHold(b, cs)
  {
    hide Compare, AllHold;
    CompareIsAntisymmetric(a, b);
    if AllHold(a, cs) {
      SatisfyingVersionsAreConvex(a, b, a, cs);
    }
    if AllHold(b, cs) {
      SatisfyingVersionsAreConvex(b, a, b, cs);
    }
  }

  /** Equivalent tokens make equivalent conditions. */
  lemma EquivalentTokens(version: string, op: RangeOp, t: string, u: string)
    requires Compare(t, u) == 0
    ensures Holds(version, Cond(op, t)) == Holds(version, Cond(op, u))
  {
    hide Compare;
    CompareIsAntisymmetric(t, u);
    CompareIsAntisymmetric(version, t);
    CompareIsAntisymmetric(version, u);
    if Compare(version, t) <= 0 {
      CompareIsTransitive(version, t, u);
    }
    if Compare(version, u) <= 0 {
      CompareIsTransitive(version, u, t);
    }
    if Compare(t, version) <= 0 {
      CompareIsTransitive(u, t, version);
    }
    if Compare(u, version) <= 0 {
      CompareIsTransitive(t, u, version);
    }
  }

  /** Spaces within the length limit leave a condition's meaning alone exactly when the version's first segment is
      the zero segment. */
  lemma SpacedConditionMeansTheSameIff(op: RangeOp, t: string, n: nat)
    requires n > 0
    ensures (forall v :: Holds(v, Cond(op, Spaces(n) + t)) == Holds(v, Cond(op, t))) <==>
            Head(Segments(t)) == ZERO_SEGMENT
  {
    hide Compare, Spaces;
    var spaced := Spaces(n) + t;
    SpaceIsHarmless(n, t);
    SpaceSortsFirst(n, t);
    CompareIsAntisymmetric(spaced, t);
    if Compare(spaced, t) == 0 {
      forall v ensures Holds(v, Cond(op, spaced)) == Holds(v, Cond(op, t)) {
        EquivalentTokens(v, op, spaced, t);
      }
    } else {
      CompareIsAntisymmetric(t, t);
      CompareIsAntisymmetric(spaced, spaced);
      assert Holds(t, Cond(op, spaced)) != Holds(t, Cond(op, t)) ||
             Holds(spaced, Cond(op, spaced)) != Holds(spaced, Cond(op, t));
    }
  }

  /** Only one kind of condition rules out every version: being older than nothing but zero segments. */
  lemma NoVersionSatisfiesIff(c: Cond)
    ensures (forall v :: !Holds(v, c)) <==> c.op.Lt? && Trim(Segments(c.token)) == []
  {
    hide Compare, Segments, Trim;
    CompareIsAntisymmetric(c.token, c.token);
    EmptyIsLeast(c.token);
    match c.op
    case Lt =>
      if Compare("", c.token) < 0 {
        assert Holds("", c);
      } else {
        forall v ensures !Holds(v, c) {
          CompareIsAntisymmetric("", c.token);
          CompareIsAntisymmetric(v, c.token);
          EmptyIsLeast(v);
          if Compare(v, c.token) < 0 {
            CompareIsTransitive(c.token, "", v);
          }
        }
      }
    case Gt =>
      OneMoreSegment(c.token);
      assert Holds(c.token + ".1", c);
    case _ =>
      assert Holds(c.token, c);
  }

  /** What a list of one condition accepts. */
  lemma OneCondition(item: Item, trailing: bool, v: string)
    requires item.HasGrammar()
    ensures Accepts(v, Text([item], trailing)) <==> |item.cond.token| <= MAX_TOKEN && Holds(v, item.cond)
  {
    hide ParseCond, ParseConds, Holds, Item.Text;
    var s := Text([item], trailing);
    if item.WellFormed() {
      ListRoundTrip([item], trailing);
      assert Conds([item]) == [item.cond];
    } else {
      CondReads(item, if trailing then "," else "");
      assert s == item.Text() + (if trailing then "," else "");
      assert s != "" ==> ParseConds(s) == None by {
        NoFirstCondition(s);
      }
    }
  }

  lemma NoFirstCondition(s: string)
    ensures s != "" && ParseCond(s) == None ==> ParseConds(s) == None
  {
    hide ParseCond;
  }

  /** The two lists accept the same versions. */
  ghost predicate SameAnswers(a: string, b: string) {
    forall v :: Accepts(v, a) == Accepts(v, b)
  }

  /** Spaces between operator and version, which the dataset format allows, change no answer exactly when the token
      still fits its buffer and the version's first segment is zero anyway; or it no longer fits, so that the list is
      rejected, and no version satisfied the condition in the first place. */
  lemma SpaceIsHarmlessIff(item: Item, n: nat, trailing: bool)
    requires item.WellFormed() && n > 0
    ensures SameAnswers(Text([item], trailing), Text([item.Spaced(n)], trailing)) <==>
            if n + |item.cond.token| <= 63 then Head(Segments(item.cond.token)) == ZERO_SEGMENT
            else item.cond.op.Lt? && Trim(Segments(item.cond.token)) == []
  {
    hide Accepts, Text, Holds, Segments, Trim, Spaces;
    var c, d := item.cond, item.Spaced(n).cond;
    var plain, spaced := Text([item], trailing), Text([item.Spaced(n)], trailing);
    var fits := n + |c.token| <= MAX_TOKEN;
    assert forall i :: 0 <= i < |Spaces(n)| ==> Spaces(n)[i] == ' ';
    forall v ensures Accepts(v, plain) == Holds(v, c) && Accepts(v, spaced) == (fits && Holds(v, d)) {
      OneCondition(item, trailing, v);
      OneCondition(item.Spaced(n), trailing, v);
    }
    if fits {
      SpacedConditionMeansTheSameIff(c.op, c.token, n);
    } else {
      NoVersionSatisfiesIff(c);
    }
    if SameAnswers(plain, spaced) {
      forall v ensures Holds(v, c) == (fits && Holds(v, d)) {
        assert Accepts(v, plain) == Accepts(v, spaced);
      }
    }
  }

  lemma CondsOfUpdate(items: seq<Item>, i: nat, item: Item)
    requires i < |items|
    ensures |Conds(items)| == |items| && Conds(items)[i] == items[i].cond
    ensures Conds(items[i := item]) == Conds(items)[i := item.cond]
  {
    var a, b := Conds(items[i := item]), Conds(items)[i := item.cond];
    assert |a| == |b| == |items|;
    forall k | 0 <= k < |items| ensures a[k] == b[k] {
      assert a[k] == items[i := item][k].cond;
    }
  }

  /** The versions about which two conditions with one operator disagree, when `low` is not the higher bound. */
  predicate InGap(op: RangeOp, v: string, low: string, high: string) {
    match op
    case Lt => Compare(low, v) <= 0 && Compare(v, high) < 0
    case Le => Compare(low, v) < 0 && Compare(v, high) <= 0
    case Gt => Compare(low, v) < 0 && Compare(v, high) <= 0
    case Ge => Compare(low, v) <= 0 && Compare(v, high) < 0
    case Eq => Compare(low, high) < 0 && (Compare(v, low) == 0 || Compare(v, high) == 0)
  }

  lemma BoundsDisagreeIff(op: RangeOp, v: string, low: string, high: string)
    requires Compare(low, high) <= 0
    ensures Holds(v, Cond(op, low)) != Holds(v, Cond(op, high)) <==> InGap(op, v, low, high)
  {
    hide Compare;
    CompareIsAntisymmetric(low, high);
    CompareIsAntisymmetric(low, v);
    CompareIsAntisymmetric(v, high);
    if Compare(v, low) <= 0 {
      CompareIsTransitive(v, low, high);
    }
    if Compare(high, v) <= 0 {
      CompareIsTransitive(low, high, v);
    }
    if Compare(low, high) == 0 {
      EquivalentTokens(v, op, low, high);
      if Compare(low, v) <= 0 {
        CompareIsTransitive(high, low, v);
      }
      if Compare(v, high) <= 0 {
        CompareIsTransitive(v, high, low);
      }
    } else if Compare(v, low) == 0 == Compare(v, high) {
      CompareIsTransitive(high, v, low);
    }
  }

  /** All conditions hold except perhaps number `i`. */
  predicate OthersHold(v: string, cs: seq<Cond>, i: nat) {
    forall k :: 0 <= k < |cs| && k != i ==> Holds(v, cs[k])
  }

  lemma OneAmongOthers(v: string, cs: seq<Cond>, i: nat)
    requires i < |cs|
    ensures AllHold(v, cs) <==> OthersHold(v, cs, i) && Holds(v, cs[i])
  {
    hide Holds;
    if OthersHold(v, cs, i) && Holds(v, cs[i]) {
      forall c | c in cs ensures Holds(v, c) {
        var k :| 0 <= k < |cs| && cs[k] == c;
      }
    }
  }

  /**
   In a list of any length, spaces in front of a version that fits behind them change no answer exactly when no version
   that satisfies the other conditions lies between the version with and without the spaces.
   */
  lemma HarmlessInEveryListIff(items: seq<Item>, i: nat, n: nat, trailing: bool)
    requires AllWellFormed(items) && i < |items| && n > 0 && n + |items[i].cond.token| <= MAX_TOKEN
    ensures var c := items[i].cond;
            SameAnswers(Text(items, trailing), Text(items[i := items[i].Spaced(n)], trailing)) <==>
            forall v :: OthersHold(v, Conds(items), i) ==> !InGap(c.op, v, Spaces(n) + c.token, c.token)
  {
    hide Text, ParseConds, AllHold, OthersHold, Holds, InGap, Compare, Spaces, Conds;
    var c, spaced := items[i].cond, items[i].Spaced(n);
    var others := items[i := spaced];
    var cs := Conds(items);
    var plainText, spacedText := Text(items, trailing), Text(others, trailing);
    forall v
      ensures Accepts(v, plainText) == Accepts(v, spacedText) <==>
              (OthersHold(v, cs, i) ==> !InGap(c.op, v, Spaces(n) + c.token, c.token))
    {
      AcceptsOneAmongOthers(items, i, n, trailing, v);
      SpaceSortsFirst(n, c.token);
      BoundsDisagreeIff(c.op, v, Spaces(n) + c.token, c.token);
    }
    if SameAnswers(plainText, spacedText) {
      forall v | OthersHold(v, cs, i) ensures !InGap(c.op, v, Spaces(n) + c.token, c.token) {
        assert Accepts(v, plainText) == Accepts(v, spacedText);
      }
    }
  }

  lemma AcceptsOneAmongOthers(items: seq<Item>, i: nat, n: nat, trailing: bool, v: string)
    requires AllWellFormed(items) && i < |items| && n > 0 && n + |items[i].cond.token| <= MAX_TOKEN
    ensures var c, others := items[i].cond, OthersHold(v, Conds(items), i);
            && (Accepts(v, Text(items, trailing)) <==> others && Holds(v, c))
            && (Accepts(v, Text(items[i := items[i].Spaced(n)], trailing)) <==>
                others && Holds(v, Cond(c.op, Spaces(n) + c.token)))
  {
    hide Text, ParseConds, AllHold, Holds, Spaces;
    var spaced := items[i].Spaced(n);
    assert forall k :: 0 <= k < |Spaces(n)| ==> Spaces(n)[k] == ' ';
    ListRoundTrip(items, trailing);
    ListRoundTrip(items[i := spaced], trailing);
    CondsOfUpdate(items, i, spaced);
    hide Conds;
    var cs := Conds(items);
    var ds := cs[i := spaced.cond];
    OneAmongOthers(v, cs, i);
    OneAmongOthers(v, ds, i);
    assert OthersHold(v, ds, i) == OthersHold(v, cs, i) by {
      assert forall k :: 0 <= k < |cs| && k != i ==> ds[k] == cs[k];
    }
  }

  /** In particular, they change nothing in front of a version that starts with zero. */
  lemma HarmlessInEveryList(items: seq<Item>, i: nat, n: nat, trailing: bool, v: string)
    requires AllWellFormed(items) && i < |items| && n > 0
    requires n + |items[i].cond.token| <= MAX_TOKEN && Head(Segments(items[i].cond.token)) == ZERO_SEGMENT
    ensures Accepts(v, Text(items, trailing)) == Accepts(v, Text(items[i := items[i].Spaced(n)], trailing))
  {
    hide Accepts, Text, Holds, Segments, Spaces, OthersHold, Conds;
    var c := items[i].cond;
    AcceptsOneAmongOthers(items, i, n, trailing, v);
    SpacedConditionMeansTheSameIff(c.op, c.token, n);
    assert Holds(v, Cond(c.op, Spaces(n) + c.token)) == Holds(v, c);
  }

  /** Where the spaces no longer fit, the whole list is rejected: that changes no answer exactly when no version
      satisfied the list as it was. */
  lemma OverflowInEveryList(items: seq<Item>, i: nat, n: nat, trailing: bool)
    requires AllWellFormed(items) && i < |items| && n + |items[i].cond.token| > MAX_TOKEN
    ensures SameAnswers(Text(items, trailing), Text(items[i := items[i].Spaced(n)], trailing)) <==>
            forall v :: !AllHold(v, Conds(items))
  {
    hide Text, ParseConds, Holds, AllHold, Spaces, Conds;
    var plain, spaced := Text(items, trailing), Text(items[i := items[i].Spaced(n)], trailing);
    ListRoundTrip(items, trailing);
    LongTokenRejects(items[i := items[i].Spaced(n)], i, trailing);
    assert forall v :: Accepts(v, plain) == AllHold(v, Conds(items)) && !Accepts(v, spaced);
    if SameAnswers(plain, spaced) {
      forall v ensures !AllHold(v, Conds(items)) {
        assert Accepts(v, plain) == Accepts(v, spaced);
      }
    }
  }

  /** A list is rejected as soon as one of its tokens is too long. */
  lemma {:induction false} LongTokenRejects(items: seq<Item>, i: nat, trailing: bool)
    requires i < |items| && items[i].HasGrammar() && |items[i].cond.token| > MAX_TOKEN
    requires forall k :: 0 <= k < |items| && k != i ==> items[k].WellFormed()
    ensures ParseConds(Text(items, trailing)) == None
    decreases i
  {
    hide ParseCond, ParseConds, Item.Text, Text;
    var first, rest := items[0], items[1..];
    assert items == [first] + rest;
    var more := if rest != [] then "," + Text(rest, trailing) else if trailing then "," else "";
    assert Text(items, trailing) == first.Text() + more by {
      if rest == [] {
        OneItem(first, trailing);
        assert items == [first];
      } else {
        FirstItem(first, rest, trailing);
      }
    }
    CondReads(first, more);
    TextIsNotEmpty(first);
    if i == 0 {
      NoFirstCondition(first.Text() + more);
    } else {
      LongTokenRejects(rest, i - 1, trailing);
      assert more[1..] == Text(rest, trailing);
      FailsLater(first.Text() + more);
    }
  }

  lemma FailsLater(s: string)
    ensures s != "" && ParseCond(s).Some? && ParseConds(ParseCond(s).value.1) == None ==> ParseConds(s) == None
  {
    hide ParseCond;
  }

  /** A space after an operator belongs to the version: `<= 1.2` compares with `0.2`. */
  lemma SpaceAfterOperatorCounts()
    ensures Accepts("1.0", "<=1.2") && !Accepts("1.0", "<= 1.2")
  {
    hide Segments, Accepts, Text, Item.Text;
    var item := Item(0, Cond(Le, "1.2"));
    OneCondition(item, false, "1.0");
    assert Spaces(1) == " ";
    assert Spaces(1) + "1.2" == " 1.2";
    OneCondition(item.Spaced(1), false, "1.0");
    PlainText(Cond(Le, "1.2"));
    PlainText(Cond(Le, " 1.2"));
    assert OpText(Le) + "1.2" == "<=1.2" && OpText(Le) + " 1.2" == "<= 1.2";
    SmallVersion("1.0", 1, 0);
    SmallVersion("1.2", 1, 2);
    SpaceZeroesFirstSegment(1, "1.2");
  }

  lemma PlainText(c: Cond)
    ensures Text([Item(0, c)], false) == OpText(c.op) + c.token
  {
    hide OpText;
    assert Spaces(0) == "";
  }

  /** A version of 63 characters does not fit behind a space, even where the space would not change its place. */
  lemma SpaceOverflowsTheToken(t: string)
    requires |t| == 63 && ',' !in t
    ensures Accepts(t, Text([Item(0, Cond(Le, t))], false)) &&
            !Accepts(t, Text([Item(0, Cond(Le, t)).Spaced(1)], false))
  {
    hide Accepts, Text, Compare, Spaces;
    assert forall i :: 0 <= i < |Spaces(1)| ==> Spaces(1)[i] == ' ';
    OneCondition(Item(0, Cond(Le, t)), false, t);
    OneCondition(Item(0, Cond(Le, t)).Spaced(1), false, t);
    CompareIsAntisymmetric(t, t);
  }

  lemma SmallVersion(s: string, major: nat, minor: nat)
    requires |s| == 3 && s[1] == '.' && IsDigit(s[0]) && IsDigit(s[2])
    requires major == (s[0] - '0') as nat && minor == (s[2] - '0') as nat
    ensures Segments(s) == [Segment(major, ""), Segment(minor, "")]
  {
    hide Segments, SegmentOf, Number;
    var head, tail := s[..1], s[2..];
    SegmentsIs(s, 1);
    OneDigit(head);
    OneDigit(tail);
    AllDigits(tail);
    DigitPiece(head);
  }

  lemma DigitPiece(head: string)
    requires |head| == 1 && IsDigit(head[0])
    ensures SegmentOf(head) == Segment(Number(head), "")
  {
    hide Number, SegmentOf;
    PieceParts(head, 1, 1);
    assert head[..1] == head && Lower(head[1..1]) == "";
  }

  lemma OneDigit(d: string)
    requires |d| == 1 && IsDigit(d[0])
    ensures Number(d) == (d[0] - '0') as nat
  {
    assert d[..|d| - 1] == "";
    assert Decimal("") == 0;
  }
}
