/** The code fixes for an enum member declaration (EnumMemberDeclarationCodeFixProvider):
    declare a composite value as an OR of member names, replace a duplicate value by
    the name of the member that already has it, and normalise a flag value to the
    `1 << k` or the decimal form. Semantic facts (symbols, constant values,
    obsolescence, the decomposition of a composite value) are inputs. */
module EnumMemberDeclarationCodeFix {
  import opened Syntax
  import opened Numerals

  /** EnumFieldSymbolInfo: the field's symbol, its name, its value as an unsigned
      number (a `ulong` in the source), and whether that value is a combination of other members. */
  datatype EnumFieldInfo = EnumFieldInfo(symbol: nat, name: string, value: nat, hasCompositeValue: bool)

  datatype EqualsValueClause = EqualsValueClause(equalsToken: Token, value: Node)

  datatype EnumMemberDeclaration = EnumMemberDeclaration(identifier: Token, equalsValue: Option<EqualsValueClause>)

  /** One member of the enclosing enum declaration with what the semantic model
      reports about its symbol: identity, obsolescence and constant value. */
  datatype EnumMemberFacts = EnumMemberFacts(declaration: EnumMemberDeclaration, symbol: nat, isObsolete: bool, value: Option<nat>)

  /** The member with its innermost value expression (below any parentheses) replaced. */
  function WithInnermostValue(member: EnumMemberDeclaration, replacement: Node): (r: EnumMemberDeclaration)
    requires member.equalsValue.Some?
    ensures r.identifier == member.identifier && r.equalsValue.Some?
    ensures r.equalsValue.value.equalsToken == member.equalsValue.value.equalsToken
    ensures r.equalsValue.value.value == ReplaceInnermost(member.equalsValue.value.value, replacement)
  {
    var clause := member.equalsValue.value;
    member.(equalsValue := Some(clause.(value := ReplaceInnermost(clause.value, replacement))))
  }

  /** EqualsValue.Value.WalkDownParentheses() of a member that has a value clause. */
  function InnermostValue(member: EnumMemberDeclaration): Node
    requires member.equalsValue.Some?
  {
    WalkDownParentheses(member.equalsValue.value.value)
  }

  // ----- Sorting the decomposed members -----

  /** ulong.CompareTo. */
  function CompareValues(a: nat, b: nat): int {
    if a < b then -1 else if a == b then 0 else 1
  }

  /** The comparison handed to List.Sort: composite values before atomic ones,
      each group by ascending value. */
  function Compare(f: EnumFieldInfo, g: EnumFieldInfo): int {
    if f.hasCompositeValue then
      if g.hasCompositeValue then CompareValues(f.value, g.value) else -1
    else if g.hasCompositeValue then 1
    else CompareValues(f.value, g.value)
  }

  /** What the comparison decides: a composite member before an atomic one, and
      within a group the order of the values, equal exactly when the values are. */
  lemma CompareMeaning(f: EnumFieldInfo, g: EnumFieldInfo)
    ensures f.hasCompositeValue && !g.hasCompositeValue ==> Compare(f, g) < 0
    ensures !f.hasCompositeValue && g.hasCompositeValue ==> Compare(f, g) > 0
    ensures f.hasCompositeValue == g.hasCompositeValue ==>
              (Compare(f, g) < 0 <==> f.value < g.value) && (Compare(f, g) == 0 <==> f.value == g.value)
  {
  }

  /** The comparison is a consistent total preorder, as List.Sort requires of it. */
  lemma CompareIsTotalPreorder(f: EnumFieldInfo, g: EnumFieldInfo, h: EnumFieldInfo)
    ensures Compare(f, g) == -Compare(g, f)
    ensures Compare(f, f) == 0
    ensures Compare(f, g) <= 0 && Compare(g, h) <= 0 ==> Compare(f, h) <= 0
    ensures Compare(f, g) < 0 && Compare(g, h) <= 0 ==> Compare(f, h) < 0
  {
  }

  predicate SortedByComparison(s: seq<EnumFieldInfo>) {
    forall i, j :: 0 <= i < j < |s| ==> Compare(s[i], s[j]) <= 0
  }

  /** What the sorted order means: no atomic member precedes a composite one, and
      within each group the values do not decrease. */
  lemma SortedOrder(s: seq<EnumFieldInfo>, i: int, j: int)
    requires SortedByComparison(s) && 0 <= i < j < |s|
    ensures s[i].hasCompositeValue || !s[j].hasCompositeValue
    ensures s[i].hasCompositeValue == s[j].hasCompositeValue ==> s[i].value <= s[j].value
  {
    assert Compare(s[i], s[j]) <= 0;
  }

  /** values.Sort(comparison), in place; List.Sort is not stable, so nothing is
      promised about the order of members that compare equal. */
  method SortFields(a: array<EnumFieldInfo>)
    modifies a
    ensures SortedByComparison(a[..])
    ensures multiset(a[..]) == multiset(old(a[..]))
  {
    if a.Length == 0 {
      return;
    }
    for i := 1 to a.Length
      invariant SortedBelow(a[..], i)
      invariant multiset(a[..]) == multiset(old(a[..]))
    {
      InsertIntoSorted(a, i);
    }
  }

  /** The first `n` elements are in order. */
  predicate SortedBelow(s: seq<EnumFieldInfo>, n: int) {
    n <= |s| && forall p, q :: 0 <= p < q < n ==> Compare(s[p], s[q]) <= 0
  }

  /** One step of the sort: a[i] moves down into the ordered prefix a[..i]. */
  method InsertIntoSorted(a: array<EnumFieldInfo>, i: int)
    requires 0 < i < a.Length && SortedBelow(a[..], i)
    modifies a
    ensures SortedBelow(a[..], i + 1)
    ensures multiset(a[..]) == multiset(old(a[..]))
  {
    var j := i;
    while j > 0 && Compare(a[j - 1], a[j]) > 0
      invariant Inserting(a[..], i, j)
      invariant multiset(a[..]) == multiset(old(a[..]))
    {
      SwapKeepsInserting(a[..], i, j);
      SwapAdjacent(a, j);
      j := j - 1;
    }
    InsertedSorted(a[..], i, j);
  }

  /** Exchanges a[j - 1] and a[j]. */
  method SwapAdjacent(a: array<EnumFieldInfo>, j: int)
    requires 0 < j < a.Length
    modifies a
    ensures a[..] == Swap(old(a[..]), j)
  {
    a[j - 1], a[j] := a[j], a[j - 1];
  }

  /** While the element first at `i` moves down to `j`: the others up to `i` are in
      order, and it is below every element after it. */
  predicate Inserting(s: seq<EnumFieldInfo>, i: int, j: int) {
    0 <= j <= i < |s|
    && (forall p, q :: 0 <= p < q <= i && p != j && q != j ==> Compare(s[p], s[q]) <= 0)
    && (forall q :: j < q <= i ==> Compare(s[j], s[q]) < 0)
  }

  /** `s` with the elements at `j - 1` and `j` exchanged. */
  function Swap(s: seq<EnumFieldInfo>, j: int): (r: seq<EnumFieldInfo>)
    requires 0 < j < |s|
    ensures multiset(r) == multiset(s)
  {
    s[j - 1 := s[j]][j := s[j - 1]]
  }

  /** Exchanging the moving element with a greater predecessor keeps the invariant one place lower. */
  lemma SwapKeepsInserting(s: seq<EnumFieldInfo>, i: int, j: int)
    requires Inserting(s, i, j) && 0 < j && Compare(s[j - 1], s[j]) > 0
    ensures Inserting(Swap(s, j), i, j - 1)
  {
    var t := Swap(s, j);
    CompareIsTotalPreorder(s[j - 1], s[j], s[j]);
    forall q | j - 1 < q <= i ensures Compare(t[j - 1], t[q]) < 0 {
    }
  }

  /** Once the inserted element sits after one that does not exceed it, the prefix is sorted. */
  lemma InsertedSorted(s: seq<EnumFieldInfo>, i: int, j: int)
    requires Inserting(s, i, j)
    requires j > 0 ==> Compare(s[j - 1], s[j]) <= 0
    ensures SortedBelow(s, i + 1)
  {
    forall p, q | 0 <= p < q <= i
      ensures Compare(s[p], s[q]) <= 0
    {
      if q == j && p < j - 1 {
        CompareIsTotalPreorder(s[p], s[j - 1], s[j]);
      }
    }
  }

  // ----- The OR chain -----

  function Names(s: seq<EnumFieldInfo>): (r: seq<string>)
    ensures |r| == |s| && forall i :: 0 <= i < |s| ==> r[i] == s[i].name
  {
    seq(|s|, i requires 0 <= i < |s| => s[i].name)
  }

  const Bar := NewToken(BarToken, "|")

  /** The member names an OR expression combines, left to right. */
  function Leaves(n: Node): seq<string> {
    match n
    case IdentifierName(t) => [t.text]
    case Binary(op, l, _, r) => if op == BitwiseOr then Leaves(l) + Leaves(r) else []
    case Parenthesized(_, e, _) => Leaves(e)
    case _ => []
  }

  /** `((a | b) | c) | ...`: every right operand is a name, the leftmost operand too. */
  predicate IsLeftChain(n: Node) {
    match n
    case IdentifierName(_) => true
    case Binary(op, l, _, r) => op == BitwiseOr && r.IdentifierName? && IsLeftChain(l)
    case _ => false
  }

  /** BitwiseOrExpression(...) folded over the names, left-associatively. */
  function OrChain(names: seq<string>): (r: Node)
    requires |names| >= 2
    ensures r.Binary?
    decreases |names|
  {
    if |names| == 2 then Binary(BitwiseOr, NewIdentifierName(names[0]), Bar, NewIdentifierName(names[1]))
    else Binary(BitwiseOr, OrChain(names[..|names| - 1]), Bar, NewIdentifierName(names[|names| - 1]))
  }

  /** The chain is left-nested, and its leaves are the names in order. */
  lemma {:induction false} OrChainShape(names: seq<string>)
    requires |names| >= 2
    ensures IsLeftChain(OrChain(names)) && Leaves(OrChain(names)) == names
    decreases |names|
  {
    var n := |names|;
    if n == 2 {
      assert Leaves(OrChain(names)) == [names[0]] + [names[1]];
    } else {
      var init := names[..n - 1];
      OrChainShape(init);
      assert Leaves(OrChain(names)) == init + [names[n - 1]];
    }
  }

  /** The loop of DeclareEnumValueAsCombinationOfNamesAsync that builds `newValue`. */
  method BuildOrExpression(values: seq<EnumFieldInfo>) returns (e: Node)
    requires |values| >= 2
    ensures e == OrChain(Names(values))
  {
    var names := Names(values);
    e := Binary(BitwiseOr, NewIdentifierName(values[0].name), Bar, NewIdentifierName(values[1].name));
    assert e == OrChain(names[..2]);
    for i := 2 to |values|
      invariant e == OrChain(names[..i])
    {
      assert names[..i + 1][..i] == names[..i];
      e := Binary(BitwiseOr, e, Bar, NewIdentifierName(values[i].name));
    }
    assert names[..|values|] == names;
  }

  /** The value of an expression over member names, in the enum's 64-bit representation. */
  function FlagsValue(n: Node, env: map<string, nat>): Option<nat> {
    match n
    case IdentifierName(t) => if t.text in env then Some(env[t.text]) else None
    case Binary(op, l, _, r) =>
      var a := FlagsValue(l, env);
      var b := FlagsValue(r, env);
      if op == BitwiseOr && a.Some? && b.Some? then Some(BitOr(a.value, b.value)) else None
    case Parenthesized(_, e, _) => FlagsValue(e, env)
    case _ => None
  }

  /** The bitwise OR of the members' values. */
  function OrAll(s: seq<EnumFieldInfo>): nat {
    if |s| == 0 then 0 else BitOr(OrAll(s[..|s| - 1]), s[|s| - 1].value)
  }

  /** `env` gives every listed member's name its value. */
  ghost predicate Describes(env: map<string, nat>, s: seq<EnumFieldInfo>) {
    forall i :: 0 <= i < |s| ==> s[i].name in env && env[s[i].name] == s[i].value
  }

  /** One step of the chain: the last name is the right operand of the outermost `|`. */
  lemma OrChainLast(names: seq<string>)
    requires |names| >= 2
    ensures OrChain(names) == Binary(BitwiseOr,
                                     if |names| == 2 then NewIdentifierName(names[0]) else OrChain(names[..|names| - 1]),
                                     Bar, NewIdentifierName(names[|names| - 1]))
  {
  }

  /** A described member's name evaluates to its value. */
  lemma NameValue(env: map<string, nat>, s: seq<EnumFieldInfo>, i: nat)
    requires i < |s| && Describes(env, s)
    ensures FlagsValue(NewIdentifierName(Names(s)[i]), env) == Some(s[i].value)
  {
  }

  /** Dropping the last member keeps the environment describing the rest, and its names. */
  lemma DescribesPrefix(env: map<string, nat>, s: seq<EnumFieldInfo>)
    requires |s| > 0 && Describes(env, s)
    ensures Describes(env, s[..|s| - 1])
    ensures Names(s)[..|s| - 1] == Names(s[..|s| - 1])
  {
  }

  /** The OR chain evaluates to the OR of the values it names. */
  lemma {:induction false} OrChainValue(s: seq<EnumFieldInfo>, env: map<string, nat>)
    requires |s| >= 2 && Describes(env, s)
    ensures FlagsValue(OrChain(Names(s)), env) == Some(OrAll(s))
    decreases |s|
  {
    var n := |s|;
    var prefix := s[..n - 1];
    var left: Node;
    if n == 2 {
      left := NewIdentifierName(Names(s)[0]);
      NameValue(env, s, 0);
      OrAllOne(prefix);
    } else {
      DescribesPrefix(env, s);
      OrChainValue(prefix, env);
      left := OrChain(Names(prefix));
    }
    OrChainLast(Names(s));
    NameValue(env, s, n - 1);
    OrChainStep(s, env, left);
  }

  lemma OrAllOne(s: seq<EnumFieldInfo>)
    requires |s| == 1
    ensures OrAll(s) == s[0].value
  {
    assert s[..0] == [];
  }

  lemma OrChainStep(s: seq<EnumFieldInfo>, env: map<string, nat>, left: Node)
    requires |s| >= 2
    requires OrChain(Names(s)) == Binary(BitwiseOr, left, Bar, NewIdentifierName(Names(s)[|s| - 1]))
    requires FlagsValue(left, env) == Some(OrAll(s[..|s| - 1]))
    requires FlagsValue(NewIdentifierName(Names(s)[|s| - 1]), env) == Some(s[|s| - 1].value)
    ensures FlagsValue(OrChain(Names(s)), env) == Some(OrAll(s))
  {
    FlagsValueOr(left, NewIdentifierName(Names(s)[|s| - 1]), env, OrAll(s[..|s| - 1]), s[|s| - 1].value);
  }

  lemma FlagsValueOr(l: Node, r: Node, env: map<string, nat>, a: nat, b: nat)
    requires FlagsValue(l, env) == Some(a) && FlagsValue(r, env) == Some(b)
    ensures FlagsValue(Binary(BitwiseOr, l, Bar, r), env) == Some(BitOr(a, b))
  {
  }

  /** Taking one member out of the OR and putting it back in front gives the same value. */
  /** OrAll on a sequence with a last element: the OR of the rest with that element. */
  lemma OrAllLast(t: seq<EnumFieldInfo>)
    requires |t| > 0
    ensures OrAll(t) == BitOr(OrAll(t[..|t| - 1]), t[|t| - 1].value)
  {
  }

  lemma {:induction false} OrAllRemove(t: seq<EnumFieldInfo>, k: int)
    requires 0 <= k < |t|
    ensures OrAll(t) == BitOr(OrAll(t[..k] + t[k + 1..]), t[k].value)
    decreases |t|
  {
    var rest := t[..k] + t[k + 1..];
    OrAllLast(t);
    if k < |t| - 1 {
      var init := t[..|t| - 1];
      var others := init[..k] + init[k + 1..];
      OrAllRemove(init, k);
      assert others == rest[..|rest| - 1] && rest[|rest| - 1] == t[|t| - 1];
      OrAllLast(rest);
      BitOrSwap(OrAll(others), t[k].value, t[|t| - 1].value);
    } else {
      assert rest == t[..|t| - 1];
    }
  }

  /** Taking the element at `k` out of `t`: the rest holds what `t` holds, less that element. */
  lemma MultisetWithout(s: seq<EnumFieldInfo>, t: seq<EnumFieldInfo>, k: int)
    requires |s| > 0 && multiset(s) == multiset(t) && 0 <= k < |t| && t[k] == s[|s| - 1]
    ensures multiset(s[..|s| - 1]) == multiset(t[..k] + t[k + 1..])
  {
    var x := s[|s| - 1];
    var init := s[..|s| - 1];
    var rest := t[..k] + t[k + 1..];
    assert s == init + [x];
    assert t == t[..k] + [x] + t[k + 1..];
    assert multiset(s) == multiset(init) + multiset{x};
    assert multiset(t) == multiset(t[..k]) + multiset{x} + multiset(t[k + 1..]);
    assert multiset(rest) == multiset(t[..k]) + multiset(t[k + 1..]);
    assert multiset(init) + multiset{x} == multiset(rest) + multiset{x};
    forall y ensures multiset(init)[y] == multiset(rest)[y] {
      assert (multiset(init) + multiset{x})[y] == (multiset(rest) + multiset{x})[y];
    }
  }

  /** The OR of the values does not depend on the order of the members. */
  lemma {:induction false} OrAllPermutation(s: seq<EnumFieldInfo>, t: seq<EnumFieldInfo>)
    requires multiset(s) == multiset(t)
    ensures OrAll(s) == OrAll(t)
    decreases |s|
  {
    if |s| == 0 {
      assert |t| == |multiset(t)| == 0;
    } else {
      var x := s[|s| - 1];
      assert x in multiset(t);
      var k :| 0 <= k < |t| && t[k] == x;
      MultisetWithout(s, t, k);
      OrAllPermutation(s[..|s| - 1], t[..k] + t[k + 1..]);
      OrAllLast(s);
      OrAllRemove(t, k);
    }
  }

  lemma DescribesPermutation(env: map<string, nat>, s: seq<EnumFieldInfo>, t: seq<EnumFieldInfo>)
    requires multiset(s) == multiset(t) && Describes(env, t)
    ensures Describes(env, s)
  {
    forall i | 0 <= i < |s| ensures s[i].name in env && env[s[i].name] == s[i].value {
      assert s[i] in multiset(t);
      var j :| 0 <= j < |t| && t[j] == s[i];
    }
  }

  lemma {:induction false} FlagsValueThroughParentheses(n: Node, replacement: Node, env: map<string, nat>)
    ensures FlagsValue(ReplaceInnermost(n, replacement), env) == FlagsValue(replacement, env)
  {
    if n.Parenthesized? {
      FlagsValueThroughParentheses(n.inner, replacement, env);
    }
  }

  /** DeclareEnumValueAsCombinationOfNamesAsync, given the decomposed members:
      sorts them, folds their names into an OR chain and puts it in place of the
      innermost value expression. The chain carries no trivia of the old value. */
  method DeclareEnumValueAsCombinationOfNames(member: EnumMemberDeclaration, values: seq<EnumFieldInfo>)
    returns (r: Result<EnumMemberDeclaration, Failure>, sorted: seq<EnumFieldInfo>)
    requires |values| >= 2
    ensures |sorted| == |values| && multiset(sorted) == multiset(values) && SortedByComparison(sorted)
    ensures r.Err? <==> member.equalsValue.None?
    ensures r.Err? ==> r.error == NullReference
    ensures r.Ok? ==> member.equalsValue.Some? && r.value == WithInnermostValue(member, OrChain(Names(sorted)))
    ensures r.Ok? ==> forall env :: Describes(env, values)
                        ==> FlagsValue(r.value.equalsValue.value.value, env) == Some(OrAll(values))
  {
    var a := new EnumFieldInfo[|values|](i requires 0 <= i < |values| => values[i]);
    assert a[..] == values;
    SortFields(a);
    sorted := a[..];
    if member.equalsValue.None? {
      r := Err(NullReference);
      return;
    }
    var newValue := BuildOrExpression(sorted);
    r := Ok(WithInnermostValue(member, newValue));
    forall env | Describes(env, values)
      ensures FlagsValue(r.value.equalsValue.value.value, env) == Some(OrAll(values))
    {
      DescribesPermutation(env, sorted, values);
      OrChainValue(sorted, env);
      OrAllPermutation(sorted, values);
      FlagsValueThroughParentheses(member.equalsValue.value.value, newValue, env);
    }
  }

  // ----- Duplicate values -----

  /** A sibling FindMemberByValue accepts: not obsolete, another symbol, and a value equal to the target's. */
  predicate IsDuplicateOf(m: EnumMemberFacts, target: EnumFieldInfo) {
    !m.isObsolete && m.symbol != target.symbol && m.value.Some? && m.value.value == target.value
  }

  /** The index of the first sibling, in declaration order, that duplicates the target's value. */
  function FirstDuplicate(members: seq<EnumMemberFacts>, target: EnumFieldInfo): (r: Option<nat>)
    ensures r.Some? ==> r.value < |members| && IsDuplicateOf(members[r.value], target)
    ensures r.Some? ==> forall j :: 0 <= j < r.value ==> !IsDuplicateOf(members[j], target)
    ensures r.None? ==> forall j :: 0 <= j < |members| ==> !IsDuplicateOf(members[j], target)
  {
    if |members| == 0 then None
    else if IsDuplicateOf(members[0], target) then Some(0)
    else match FirstDuplicate(members[1..], target)
      case Some(k) => Some(k + 1)
      case None => None
  }

  /** FindMemberByValue: the scan over the enum's members in declaration order. */
  method FindMemberByValue(members: seq<EnumMemberFacts>, target: EnumFieldInfo)
    returns (r: Result<EnumMemberDeclaration, Failure>)
    ensures r == match FirstDuplicate(members, target)
                 case Some(k) => Ok(members[k].declaration)
                 case None => Err(InvalidOperation)
  {
    for i := 0 to |members|
      invariant forall j :: 0 <= j < i ==> !IsDuplicateOf(members[j], target)
    {
      var m := members[i];
      if m.isObsolete {
        continue;
      }
      if m.symbol != target.symbol {
        if m.value.Some? && target.value == m.value.value {
          return Ok(m.declaration);
        }
      }
    }
    return Err(InvalidOperation);
  }

  const NewEqualsToken := NewToken(EqualsToken, "=")

  /** ChangeEnumValueAsync: the value becomes the identifier `valueText`, taking
      over the trivia of the whole old value (parentheses included); a member
      without a value gets a new `= valueText` clause. */
  function ChangeEnumValue(member: EnumMemberDeclaration, valueText: string): (r: EnumMemberDeclaration)
    ensures r.identifier == member.identifier && r.equalsValue.Some?
    ensures r.equalsValue.value.value.IdentifierName?
    ensures StripTrivia(r.equalsValue.value.value) == StripTrivia(NewIdentifierName(valueText))
    ensures member.equalsValue.Some? ==>
              r.equalsValue.value.equalsToken == member.equalsValue.value.equalsToken
              && LeadingTrivia(r.equalsValue.value.value) == LeadingTrivia(member.equalsValue.value.value)
              && TrailingTrivia(r.equalsValue.value.value) == TrailingTrivia(member.equalsValue.value.value)
    ensures member.equalsValue.None? ==>
              r.equalsValue.value == EqualsValueClause(NewEqualsToken, NewIdentifierName(valueText))
  {
    match member.equalsValue
    case Some(clause) =>
      var newValue := IdentifierName(Token(IdentifierToken, LeadingTrivia(clause.value), valueText, TrailingTrivia(clause.value)));
      member.(equalsValue := Some(clause.(value := newValue)))
    case None =>
      member.(equalsValue := Some(EqualsValueClause(NewEqualsToken, NewIdentifierName(valueText))))
  }

  /** Applying the change twice is the same as applying it once. */
  lemma ChangeEnumValueIdempotent(member: EnumMemberDeclaration, valueText: string)
    ensures ChangeEnumValue(ChangeEnumValue(member, valueText), valueText) == ChangeEnumValue(member, valueText)
  {
  }

  /** Replacing a duplicate value by the name FindMemberByValue found keeps the
      member's value: the name stands for the same number. */
  lemma DuplicateFixKeepsValue(member: EnumMemberDeclaration, members: seq<EnumMemberFacts>,
                               target: EnumFieldInfo, env: map<string, nat>)
    requires FirstDuplicate(members, target).Some?
    requires var d := members[FirstDuplicate(members, target).value];
             d.declaration.identifier.text in env && Some(env[d.declaration.identifier.text]) == d.value
    ensures var name := members[FirstDuplicate(members, target).value].declaration.identifier.text;
            FlagsValue(ChangeEnumValue(member, name).equalsValue.value.value, env) == Some(target.value)
  {
  }

  // ----- Normalising the format of a flag value -----

  /** NumericLiteralExpression(n): an int literal written in decimal. */
  function IntLiteral(n: nat): Node {
    NumericLiteral(NewToken(NumericLiteralToken, DecimalText(n)), n)
  }

  /** LeftShiftExpression(NumericLiteralExpression(1), NumericLiteralExpression(k)). */
  function ShiftExpression(k: nat): (r: Node)
    ensures r.Binary? && r.op == LeftShift && r.operatorToken.text == "<<"
    ensures r.left.NumericLiteral? && r.left.value == 1 && r.left.literal.text == "1"
    ensures r.right.NumericLiteral? && r.right.value == k && r.right.literal.text == DecimalText(k)
    ensures StripTrivia(r) == r
  {
    Binary(LeftShift, IntLiteral(1), NewToken(LessThanLessThanToken, "<<"), IntLiteral(k))
  }

  /** The value C# gives a constant expression of int literals, `<<` and parentheses. */
  function Int32Value(n: Node): Option<int> {
    match n
    case NumericLiteral(_, v) => if v < 0x8000_0000 then Some(v) else None
    case Binary(op, l, _, r) =>
      var a := Int32Value(l);
      var b := Int32Value(r);
      if op == LeftShift && a.Some? && b.Some? then Some(ShiftLeftInt32(a.value, b.value)) else None
    case Parenthesized(_, e, _) => Int32Value(e)
    case _ => None
  }

  lemma {:induction false} Int32ValueIgnoresTrivia(n: Node, m: Node)
    requires StripTrivia(n) == StripTrivia(m)
    ensures Int32Value(n) == Int32Value(m)
  {
    match n
    case Binary(_, l, _, r) =>
      Int32ValueIgnoresTrivia(l, m.left);
      Int32ValueIgnoresTrivia(r, m.right);
    case Parenthesized(_, e, _) =>
      Int32ValueIgnoresTrivia(e, m.inner);
    case _ =>
  }

  lemma {:induction false} Int32ValueThroughParentheses(n: Node, replacement: Node)
    ensures Int32Value(ReplaceInnermost(n, replacement)) == Int32Value(replacement)
  {
    if n.Parenthesized? {
      Int32ValueThroughParentheses(n.inner, replacement);
    }
  }

  /** UseBitShiftOperatorAsync, with the exponent computed exactly as the integer
      logarithm of the constant value; the value is not checked to be a power of two.
      A missing constant makes `Optional<object>.Value` throw; the outcome for a
      non-positive constant is not modelled (see README). */
  function UseBitShiftOperator(member: EnumMemberDeclaration, constantValue: Option<int>): (r: Result<EnumMemberDeclaration, Failure>)
    ensures member.equalsValue.None? ==> r == Err(NullReference)
    ensures member.equalsValue.Some? ==>
              (r.Ok? <==> constantValue.Some? && constantValue.value >= 1)
    ensures member.equalsValue.Some? && constantValue.None? ==> r == Err(InvalidOperation)
    ensures member.equalsValue.Some? && constantValue.Some? && constantValue.value < 1 ==> r == Err(NotModelled)
    ensures r.Ok? ==>
              member.equalsValue.Some? && r.value.equalsValue.Some? &&
              var before := InnermostValue(member);
              var after := InnermostValue(r.value);
              var k := FloorLog2(constantValue.value);
              r.value.identifier == member.identifier
              && r.value.equalsValue.value.equalsToken == member.equalsValue.value.equalsToken
              && Parentheses(r.value.equalsValue.value.value) == Parentheses(member.equalsValue.value.value)
              && after == Binary(LeftShift,
                                 NumericLiteral(Token(NumericLiteralToken, LeadingTrivia(before), "1", []), 1),
                                 NewToken(LessThanLessThanToken, "<<"),
                                 NumericLiteral(Token(NumericLiteralToken, [], DecimalText(k), TrailingTrivia(before)), k))
              && StripTrivia(after) == StripTrivia(ShiftExpression(k))
  {
    if member.equalsValue.None? then Err(NullReference)
    else if constantValue.None? then Err(InvalidOperation)
    else if constantValue.value < 1 then Err(NotModelled)
    else
      var power := FloorLog2(constantValue.value);
      Ok(WithInnermostValue(member, WithTriviaFrom(ShiftExpression(power), InnermostValue(member))))
  }

  /** The value the rewritten member has: that of its new `1 << k` expression. */
  function ShiftedValue(member: EnumMemberDeclaration, constantValue: Option<int>): Option<int>
    requires UseBitShiftOperator(member, constantValue).Ok?
  {
    Int32Value(UseBitShiftOperator(member, constantValue).value.equalsValue.value.value)
  }

  /** `1 << k` written with int literals; a count beyond the int range is no int literal. */
  lemma ShiftExpressionValue(k: nat)
    ensures Int32Value(ShiftExpression(k)) == if k < 0x8000_0000 then Some(ShiftLeftInt32(1, k)) else None
  {
  }

  lemma ShiftedValueIs(member: EnumMemberDeclaration, v: int)
    requires member.equalsValue.Some? && v >= 1
    ensures ShiftedValue(member, Some(v)) == Int32Value(ShiftExpression(FloorLog2(v)))
  {
    var shift := ShiftExpression(FloorLog2(v));
    var shifted := WithTriviaFrom(shift, InnermostValue(member));
    assert UseBitShiftOperator(member, Some(v)) == Ok(WithInnermostValue(member, shifted));
    Int32ValueThroughParentheses(member.equalsValue.value.value, shifted);
    Int32ValueIgnoresTrivia(shifted, shift);
  }

  /** For 2^k with k < 31, the shift form evaluates back to the value. */
  lemma {:induction false} ShiftRoundTrip(member: EnumMemberDeclaration, k: nat)
    requires member.equalsValue.Some? && k < 31
    ensures ShiftedValue(member, Some(Pow2(k))) == Some(Pow2(k))
  {
    ShiftedValueIs(member, Pow2(k));
    FloorLog2OfPow2(k);
    ShiftExpressionValue(k);
    ShiftOneBelow31(k);
  }

  /** As written, the rewrite changes the value of 2^k for every k >= 31: the
      literals are ints, so C# masks the shift count to five bits and wraps. */
  lemma {:induction false} ShiftWrapsFromBit31(member: EnumMemberDeclaration, k: nat)
    requires member.equalsValue.Some? && k >= 31
    ensures ShiftedValue(member, Some(Pow2(k))) != Some(Pow2(k))
  {
    ShiftedValueIs(member, Pow2(k));
    FloorLog2OfPow2(k);
    ShiftExpressionValue(k);
    Pow2At31And32();
    if k > 31 {
      Pow2Monotone(31, k);
    }
  }

  /** The concrete case: `A = 4294967296` becomes `A = 1 << 32`, which is 1. */
  lemma ShiftOfBit32IsOne(member: EnumMemberDeclaration)
    requires member.equalsValue.Some?
    ensures ShiftedValue(member, Some(0x1_0000_0000)) == Some(1)
  {
    Pow2At31And32();
    ShiftedValueIs(member, Pow2(32));
    FloorLog2OfPow2(32);
    ShiftExpressionValue(32);
    assert ShiftLeftInt32(1, 32) == Wrap32(Pow2(0));
  }

  /** The code does not check for a power of two: any other positive value is changed. */
  lemma {:induction false} ShiftChangesNonPowerOfTwo(member: EnumMemberDeclaration, v: int)
    requires member.equalsValue.Some? && v >= 1 && !IsPowerOfTwo(v)
    ensures ShiftedValue(member, Some(v)) != Some(v)
  {
    var k := FloorLog2(v);
    ShiftedValueIs(member, v);
    ShiftExpressionValue(k);
    Pow2At31And32();
    if k < 31 {
      ShiftOneBelow31(k);
    } else if k > 31 {
      Pow2Monotone(31, k);
    }
  }

  /** The rewrite as evidently intended: offered only when the constant is 2^k
      with k < 31, where `1 << k` denotes the same int; otherwise it declines. */
  function UseBitShiftOperatorChecked(member: EnumMemberDeclaration, constantValue: Option<int>): (r: Result<EnumMemberDeclaration, Failure>)
    ensures r.Ok? <==> (member.equalsValue.Some? && constantValue.Some? && constantValue.value >= 1
                        && IsPowerOfTwo(constantValue.value) && FloorLog2(constantValue.value) < 31)
    ensures r.Ok? ==> r == UseBitShiftOperator(member, constantValue)
    ensures r.Ok? ==> Int32Value(r.value.equalsValue.value.value) == constantValue
  {
    if member.equalsValue.Some? && constantValue.Some? && constantValue.value >= 1
       && IsPowerOfTwo(constantValue.value) && FloorLog2(constantValue.value) < 31
    then
      ShiftRoundTrip(member, FloorLog2(constantValue.value));
      UseBitShiftOperator(member, constantValue)
    else if member.equalsValue.None? then Err(NullReference)
    else Err(InvalidOperation)
  }

  /** The checked rewrite is offered for every power 2^0 to 2^30. */
  lemma UseBitShiftOperatorCheckedAcceptsPowers(member: EnumMemberDeclaration, k: nat)
    requires member.equalsValue.Some? && k < 31
    ensures UseBitShiftOperatorChecked(member, Some(Pow2(k))).Ok?
  {
    Pow2IsPowerOfTwo(k);
    FloorLog2OfPow2(k);
  }

  /** ParseExpression(value.ToString()): the decimal text of a number, read back as a literal. */
  function DecimalLiteral(n: nat): (r: Node)
    ensures r == NumericLiteral(NewToken(NumericLiteralToken, DecimalText(n)), n)
  {
    var text := DecimalText(n);
    ParseDecimalText(n);
    NumericLiteral(NewToken(NumericLiteralToken, text), ParseDecimal(text))
  }

  /** ConvertToDecimalNumberAsync: the decimal text of the field's value, parsed
      back as a literal, in place of the innermost value with its trivia. */
  function ConvertToDecimalNumber(member: EnumMemberDeclaration, fieldValue: nat): (r: Result<EnumMemberDeclaration, Failure>)
    ensures r.Err? <==> member.equalsValue.None?
    ensures r.Err? ==> r.error == NullReference
    ensures r.Ok? ==>
              member.equalsValue.Some? && r.value.equalsValue.Some? &&
              var before := InnermostValue(member);
              var after := InnermostValue(r.value);
              r.value.identifier == member.identifier
              && r.value.equalsValue.value.equalsToken == member.equalsValue.value.equalsToken
              && Parentheses(r.value.equalsValue.value.value) == Parentheses(member.equalsValue.value.value)
              && after == NumericLiteral(Token(NumericLiteralToken, LeadingTrivia(before), DecimalText(fieldValue),
                                             TrailingTrivia(before)), fieldValue)
  {
    if member.equalsValue.None? then Err(NullReference)
    else
      Ok(WithInnermostValue(member, WithTriviaFrom(DecimalLiteral(fieldValue), InnermostValue(member))))
  }

  /** A decimal 2^k with k < 31, rewritten to shift form, keeps its value; converting
      it back to decimal with that value gives the original member. */
  lemma DecimalShiftDecimal(member: EnumMemberDeclaration, k: nat, leading: Trivia, trailing: Trivia)
    requires member.equalsValue.Some? && k < 31
    requires InnermostValue(member) == NumericLiteral(Token(NumericLiteralToken, leading, DecimalText(Pow2(k)), trailing), Pow2(k))
    ensures UseBitShiftOperator(member, Some(Pow2(k))).Ok?
    ensures ShiftedValue(member, Some(Pow2(k))) == Some(Pow2(k))
    ensures ConvertToDecimalNumber(UseBitShiftOperator(member, Some(Pow2(k))).value, Pow2(k)) == Ok(member)
  {
    ShiftRoundTrip(member, k);
    var shifted := UseBitShiftOperator(member, Some(Pow2(k))).value;
    var value := member.equalsValue.value.value;
    var newShift := WithTriviaFrom(ShiftExpression(FloorLog2(Pow2(k))), InnermostValue(member));
    ReplaceInnermostTwice(value, newShift, InnermostValue(ConvertToDecimalNumber(shifted, Pow2(k)).value));
    ReplaceInnermostIdentity(value);
  }

  /** As written, `A = 4294967296` does not come back: its shift form `1 << 32` has the
      value 1, and converting with that value gives `A = 1`. */
  lemma DecimalShiftDecimalFailsAt32(member: EnumMemberDeclaration)
    requires member.equalsValue.Some?
    requires InnermostValue(member).NumericLiteral? && InnermostValue(member).value == 0x1_0000_0000
    ensures UseBitShiftOperator(member, Some(0x1_0000_0000)).Ok?
    ensures ShiftedValue(member, Some(0x1_0000_0000)) == Some(1)
    ensures ConvertToDecimalNumber(UseBitShiftOperator(member, Some(0x1_0000_0000)).value, 1) != Ok(member)
  {
    Pow2At31And32();
    ShiftOfBit32IsOne(member);
    var shifted := UseBitShiftOperator(member, Some(0x1_0000_0000)).value;
    var back := ConvertToDecimalNumber(shifted, 1).value;
    assert InnermostValue(back).value == 1;
    assert InnermostValue(back) != InnermostValue(member);
  }

  // ----- Registering the fixes -----

  datatype DiagnosticId =
    | DeclareEnumValueAsCombinationOfNamesId | DuplicateEnumValueId | NormalizeFormatOfEnumFlagValueId
    | OtherDiagnosticId

  /** The configured EnumFlagValueStyle; `OtherStyle` is any value the code does not name. */
  datatype EnumFlagValueStyle = ShiftOperator | DecimalNumber | OtherStyle(code: int)

  datatype FixKind = DeclareAsCombinationOfNames | ChangeEnumValueTo(valueText: string) | UseBitShift | ConvertToDecimal

  /** A registered code action: its title, the rewrite it applies, its equivalence key. */
  datatype CodeFix = CodeFix(title: string, kind: FixKind, equivalenceKey: string)

  /** The semantic and configuration inputs of RegisterCodeFixesAsync: the
      enclosing member's own field info, its siblings' facts, and the style. */
  datatype FixInputs = FixInputs(target: EnumFieldInfo, siblings: seq<EnumMemberFacts>, style: EnumFlagValueStyle)

  function ChangeValueTitle(valueText: string): string {
    "Change enum value to '" + valueText + "'"
  }

  /** The fix RegisterCodeFixesAsync registers for one diagnostic, or the exception it throws.
      `found` says whether an enum member declaration encloses the span; `key` is the
      diagnostic's equivalence key. */
  function FixesFor(found: bool, id: DiagnosticId, key: string, inputs: FixInputs): (r: Result<seq<CodeFix>, Failure>)
    ensures !found || id == OtherDiagnosticId ==> r == Ok([])
    ensures r.Err? <==> found && ((id == DuplicateEnumValueId && FirstDuplicate(inputs.siblings, inputs.target).None?)
                                  || (id == NormalizeFormatOfEnumFlagValueId && inputs.style.OtherStyle?))
    ensures r.Err? ==> r.error == InvalidOperation
    ensures r.Ok? ==> |r.value| <= 1 && forall f :: f in r.value ==> f.equivalenceKey == key
    ensures r.Ok? && found && id == DeclareEnumValueAsCombinationOfNamesId ==>
              r.value == [CodeFix("Declare value as combination of names", DeclareAsCombinationOfNames, key)]
    ensures r.Ok? && found && id == DuplicateEnumValueId ==>
              var d := DuplicateName(inputs, FirstDuplicate(inputs.siblings, inputs.target));
              |r.value| == 1 && r.value[0].kind == ChangeEnumValueTo(d)
              && r.value[0].title == ChangeValueTitle(d)
    ensures r.Ok? && found && id == NormalizeFormatOfEnumFlagValueId ==>
              |r.value| == 1
              && (inputs.style == ShiftOperator ==> r.value[0].kind == UseBitShift && r.value[0].title == "Use '<<' operator")
              && (inputs.style == DecimalNumber ==> r.value[0].kind == ConvertToDecimal && r.value[0].title == "Convert to decimal")
  {
    if !found then Ok([])
    else match id
      case DeclareEnumValueAsCombinationOfNamesId =>
        Ok([CodeFix("Declare value as combination of names", DeclareAsCombinationOfNames, key)])
      case DuplicateEnumValueId =>
        (match FirstDuplicate(inputs.siblings, inputs.target)
         case Some(k) =>
           var valueText := inputs.siblings[k].declaration.identifier.text;
           Ok([CodeFix(ChangeValueTitle(valueText), ChangeEnumValueTo(valueText), key)])
         case None => Err(InvalidOperation))
      case NormalizeFormatOfEnumFlagValueId =>
        (match inputs.style
         case ShiftOperator => Ok([CodeFix("Use '<<' operator", UseBitShift, key)])
         case DecimalNumber => Ok([CodeFix("Convert to decimal", ConvertToDecimal, key)])
         case OtherStyle(_) => Err(InvalidOperation))
      case OtherDiagnosticId => Ok([])
  }

  /** The name of the sibling at a found index ("" when none was found). */
  function DuplicateName(inputs: FixInputs, found: Option<nat>): string {
    match found
    case Some(k) => if k < |inputs.siblings| then inputs.siblings[k].declaration.identifier.text else ""
    case None => ""
  }

  /** The context's list of registered code fixes. */
  class CodeFixContext {
    var fixes: seq<CodeFix>

    constructor ()
      ensures fixes == []
    {
      fixes := [];
    }

    method RegisterCodeFix(fix: CodeFix)
      modifies this
      ensures fixes == old(fixes) + [fix]
    {
      fixes := fixes + [fix];
    }
  }

  /** RegisterCodeFixesAsync: registers on the context what FixesFor describes, or
      throws (returned as `thrown`) and registers nothing. */
  method RegisterCodeFixes(context: CodeFixContext, enclosing: Option<EnumMemberDeclaration>,
                           id: DiagnosticId, key: string, inputs: FixInputs)
    returns (thrown: Option<Failure>)
    modifies context
    ensures match FixesFor(enclosing.Some?, id, key, inputs)
            case Ok(fs) => thrown == None && context.fixes == old(context.fixes) + fs
            case Err(e) => thrown == Some(e) && context.fixes == old(context.fixes)
  {
    thrown := None;
    if enclosing.None? {
      return;
    }
    match id
    case DeclareEnumValueAsCombinationOfNamesId =>
      context.RegisterCodeFix(CodeFix("Declare value as combination of names", DeclareAsCombinationOfNames, key));
    case DuplicateEnumValueId =>
      var found := FindMemberByValue(inputs.siblings, inputs.target);
      match found {
        case Err(e) =>
          return Some(e);
        case Ok(declaration) =>
          var valueText := declaration.identifier.text;
          context.RegisterCodeFix(CodeFix(ChangeValueTitle(valueText), ChangeEnumValueTo(valueText), key));
      }
    case NormalizeFormatOfEnumFlagValueId =>
      if inputs.style == ShiftOperator {
        context.RegisterCodeFix(CodeFix("Use '<<' operator", UseBitShift, key));
      } else if inputs.style == DecimalNumber {
        context.RegisterCodeFix(CodeFix("Convert to decimal", ConvertToDecimal, key));
      } else {
        return Some(InvalidOperation);
      }
    case OtherDiagnosticId =>
  }
}
