/** Immutable syntax trees as the fixes see them: tokens carrying leading and
    trailing trivia, expression nodes, text spans, and persistent replacement of
    one node addressed by its path from the root. */
module Syntax {

  datatype Option<T> = None | Some(value: T)

  datatype Result<T, E> = Ok(value: T) | Err(error: E)

  /** Why an operation produced no result: the first four are the exceptions the
      modelled code can raise; `NotModelled` is not an exception but marks an input
      on which this model does not fix the code's behaviour. */
  datatype Failure =
    | NullReference      // a member of a null syntax node is dereferenced
    | InvalidOperation   // `throw new InvalidOperationException()`
    | InvalidCast        // a cast to a syntax type the node does not have
    | KeyNotFound        // a dictionary indexer with a missing key
    | NotModelled        // an input whose outcome this model leaves open

  /** A contiguous source range [start, start + length), as Roslyn's TextSpan. */
  datatype TextSpan = TextSpan(start: nat, length: nat) {
    function End(): nat { start + length }

    /** TextSpan.Contains(span): span lies within this span. */
    predicate Contains(span: TextSpan) {
      start <= span.start && span.End() <= End()
    }

    /** TextSpan.IntersectsWith(span): the two spans overlap or touch. */
    predicate IntersectsWith(span: TextSpan) {
      span.start <= End() && start <= span.End()
    }
  }

  datatype TriviaPiece = Whitespace(text: string) | EndOfLine(text: string) | Comment(text: string)

  /** Whitespace and comments attached to one side of a token. */
  type Trivia = seq<TriviaPiece>

  datatype TokenKind =
    | IdentifierToken | NumericLiteralToken | BarToken | LessThanLessThanToken
    | DotToken | EqualsToken | OpenParenToken | CloseParenToken | OtherToken

  datatype Token = Token(kind: TokenKind, leading: Trivia, text: string, trailing: Trivia) {
    /** The same token without any trivia. */
    function Bare(): Token { Token(kind, [], text, []) }
  }

  /** A token as SyntaxFactory creates it: no trivia of its own. */
  function NewToken(kind: TokenKind, text: string): Token {
    Token(kind, [], text, [])
  }

  datatype BinaryOperator = BitwiseOr | LeftShift

  /** Expression nodes, and `Construct` for any other node (a statement, a
      declaration) that encloses them between a first and a last token. */
  datatype Node =
    | IdentifierName(identifier: Token)
    | NumericLiteral(literal: Token, value: nat)
    | Binary(op: BinaryOperator, left: Node, operatorToken: Token, right: Node)
    | Parenthesized(openParen: Token, inner: Node, closeParen: Token)
    | MemberAccess(receiver: Node, dot: Token, name: Node)
    | Invocation(callee: Node, openParen: Token, arguments: seq<Node>, closeParen: Token)
    | Construct(first: Token, children: seq<Node>, last: Token)

  /** SyntaxFactory.IdentifierName(name). */
  function NewIdentifierName(name: string): Node {
    IdentifierName(NewToken(IdentifierToken, name))
  }

  /** GetLeadingTrivia(): the leading trivia of the node's first token. */
  function LeadingTrivia(n: Node): Trivia {
    match n
    case IdentifierName(t) => t.leading
    case NumericLiteral(t, _) => t.leading
    case Binary(_, l, _, _) => LeadingTrivia(l)
    case Parenthesized(o, _, _) => o.leading
    case MemberAccess(r, _, _) => LeadingTrivia(r)
    case Invocation(c, _, _, _) => LeadingTrivia(c)
    case Construct(f, _, _) => f.leading
  }

  /** GetTrailingTrivia(): the trailing trivia of the node's last token. */
  function TrailingTrivia(n: Node): Trivia {
    match n
    case IdentifierName(t) => t.trailing
    case NumericLiteral(t, _) => t.trailing
    case Binary(_, _, _, r) => TrailingTrivia(r)
    case Parenthesized(_, _, c) => c.trailing
    case MemberAccess(_, _, nm) => TrailingTrivia(nm)
    case Invocation(_, _, _, c) => c.trailing
    case Construct(_, _, l) => l.trailing
  }

  /** The node with every token's trivia removed: what is left when trivia is ignored. */
  function StripTrivia(n: Node): Node {
    match n
    case IdentifierName(t) => IdentifierName(t.Bare())
    case NumericLiteral(t, v) => NumericLiteral(t.Bare(), v)
    case Binary(op, l, t, r) => Binary(op, StripTrivia(l), t.Bare(), StripTrivia(r))
    case Parenthesized(o, e, c) => Parenthesized(o.Bare(), StripTrivia(e), c.Bare())
    case MemberAccess(r, d, nm) => MemberAccess(StripTrivia(r), d.Bare(), StripTrivia(nm))
    case Invocation(c, o, args, cl) =>
      Invocation(StripTrivia(c), o.Bare(), seq(|args|, i requires 0 <= i < |args| => StripTrivia(args[i])), cl.Bare())
    case Construct(f, cs, l) =>
      Construct(f.Bare(), seq(|cs|, i requires 0 <= i < |cs| => StripTrivia(cs[i])), l.Bare())
  }

  /** WithLeadingTrivia(t): replaces the first token's leading trivia and nothing else. */
  function WithLeadingTrivia(n: Node, t: Trivia): (r: Node)
    ensures LeadingTrivia(r) == t
    ensures TrailingTrivia(r) == TrailingTrivia(n)
    ensures StripTrivia(r) == StripTrivia(n)
  {
    match n
    case IdentifierName(k) => IdentifierName(k.(leading := t))
    case NumericLiteral(k, v) => NumericLiteral(k.(leading := t), v)
    case Binary(op, l, k, rt) => Binary(op, WithLeadingTrivia(l, t), k, rt)
    case Parenthesized(o, e, c) => Parenthesized(o.(leading := t), e, c)
    case MemberAccess(rc, d, nm) => MemberAccess(WithLeadingTrivia(rc, t), d, nm)
    case Invocation(c, o, args, cl) => Invocation(WithLeadingTrivia(c, t), o, args, cl)
    case Construct(f, cs, l) => Construct(f.(leading := t), cs, l)
  }

  /** WithTrailingTrivia(t): replaces the last token's trailing trivia and nothing else. */
  function WithTrailingTrivia(n: Node, t: Trivia): (r: Node)
    ensures TrailingTrivia(r) == t
    ensures LeadingTrivia(r) == LeadingTrivia(n)
    ensures StripTrivia(r) == StripTrivia(n)
  {
    match n
    case IdentifierName(k) => IdentifierName(k.(trailing := t))
    case NumericLiteral(k, v) => NumericLiteral(k.(trailing := t), v)
    case Binary(op, l, k, rt) => Binary(op, l, k, WithTrailingTrivia(rt, t))
    case Parenthesized(o, e, c) => Parenthesized(o, e, c.(trailing := t))
    case MemberAccess(rc, d, nm) => MemberAccess(rc, d, WithTrailingTrivia(nm, t))
    case Invocation(c, o, args, cl) => Invocation(c, o, args, cl.(trailing := t))
    case Construct(f, cs, l) => Construct(f, cs, l.(trailing := t))
  }

  /** WithTriviaFrom(from): takes over the leading and trailing trivia of `from`. */
  function WithTriviaFrom(n: Node, from: Node): (r: Node)
    ensures LeadingTrivia(r) == LeadingTrivia(from)
    ensures TrailingTrivia(r) == TrailingTrivia(from)
    ensures StripTrivia(r) == StripTrivia(n)
  {
    WithTrailingTrivia(WithLeadingTrivia(n, LeadingTrivia(from)), TrailingTrivia(from))
  }

  /** Giving a node back its own leading trivia yields the very same node. */
  lemma {:induction false} WithOwnLeadingTrivia(n: Node)
    ensures WithLeadingTrivia(n, LeadingTrivia(n)) == n
  {
    match n
    case Binary(_, l, _, _) => WithOwnLeadingTrivia(l);
    case MemberAccess(rc, _, _) => WithOwnLeadingTrivia(rc);
    case Invocation(c, _, _, _) => WithOwnLeadingTrivia(c);
    case _ =>
  }

  /** Giving a node back its own trailing trivia yields the very same node. */
  lemma {:induction false} WithOwnTrailingTrivia(n: Node)
    ensures WithTrailingTrivia(n, TrailingTrivia(n)) == n
  {
    match n
    case Binary(_, _, _, rt) => WithOwnTrailingTrivia(rt);
    case MemberAccess(_, _, nm) => WithOwnTrailingTrivia(nm);
    case _ =>
  }

  /** A second WithLeadingTrivia overrides the first. */
  lemma {:induction false} WithLeadingTriviaTwice(n: Node, a: Trivia, b: Trivia)
    ensures WithLeadingTrivia(WithLeadingTrivia(n, a), b) == WithLeadingTrivia(n, b)
  {
    match n
    case Binary(_, l, _, _) => WithLeadingTriviaTwice(l, a, b);
    case MemberAccess(rc, _, _) => WithLeadingTriviaTwice(rc, a, b);
    case Invocation(c, _, _, _) => WithLeadingTriviaTwice(c, a, b);
    case _ =>
  }

  /** A second WithTrailingTrivia overrides the first. */
  lemma {:induction false} WithTrailingTriviaTwice(n: Node, a: Trivia, b: Trivia)
    ensures WithTrailingTrivia(WithTrailingTrivia(n, a), b) == WithTrailingTrivia(n, b)
  {
    match n
    case Binary(_, _, _, rt) => WithTrailingTriviaTwice(rt, a, b);
    case MemberAccess(_, _, nm) => WithTrailingTriviaTwice(nm, a, b);
    case _ =>
  }

  /** Setting the leading and the trailing trivia are independent of each other. */
  lemma LeadingTrailingCommute(n: Node, a: Trivia, b: Trivia)
    ensures WithLeadingTrivia(WithTrailingTrivia(n, a), b) == WithTrailingTrivia(WithLeadingTrivia(n, b), a)
  {
  }

  /** WithTriviaFrom changes nothing but the outer trivia: handing the node's own
      trivia back to the result restores it exactly, inner tokens included. */
  lemma {:induction false} WithTriviaFromRestores(n: Node, from: Node)
    ensures WithTriviaFrom(WithTriviaFrom(n, from), n) == n
  {
    var y := WithLeadingTrivia(n, LeadingTrivia(from));
    LeadingTrailingCommute(y, TrailingTrivia(from), LeadingTrivia(n));
    WithLeadingTriviaTwice(n, LeadingTrivia(from), LeadingTrivia(n));
    WithOwnLeadingTrivia(n);
    WithTrailingTriviaTwice(n, TrailingTrivia(from), TrailingTrivia(n));
    WithOwnTrailingTrivia(n);
  }

  /** WalkDownParentheses(): the first node below all enclosing parentheses. */
  function WalkDownParentheses(n: Node): (r: Node)
    ensures !r.Parenthesized?
    ensures !n.Parenthesized? ==> r == n
  {
    if n.Parenthesized? then WalkDownParentheses(n.inner) else n
  }

  /** The parenthesis token pairs passed on the way from `n` down to WalkDownParentheses(n). */
  function Parentheses(n: Node): seq<(Token, Token)> {
    if n.Parenthesized? then [(n.openParen, n.closeParen)] + Parentheses(n.inner) else []
  }

  /** Replacing the node WalkDownParentheses(n) by `replacement` inside `n`:
      the enclosing parentheses stay exactly as they were. */
  function ReplaceInnermost(n: Node, replacement: Node): (r: Node)
    ensures Parentheses(r) == Parentheses(n) + Parentheses(replacement)
    ensures WalkDownParentheses(r) == WalkDownParentheses(replacement)
  {
    if n.Parenthesized? then
      Parenthesized(n.openParen, ReplaceInnermost(n.inner, replacement), n.closeParen)
    else replacement
  }

  /** A second replacement of the innermost node overrides the first. */
  lemma {:induction false} ReplaceInnermostTwice(n: Node, a: Node, b: Node)
    requires !a.Parenthesized?
    ensures ReplaceInnermost(ReplaceInnermost(n, a), b) == ReplaceInnermost(n, b)
  {
    if n.Parenthesized? {
      ReplaceInnermostTwice(n.inner, a, b);
    }
  }

  /** Putting back the innermost node that was there gives the original node. */
  lemma {:induction false} ReplaceInnermostIdentity(n: Node)
    ensures ReplaceInnermost(n, WalkDownParentheses(n)) == n
  {
    if n.Parenthesized? {
      ReplaceInnermostIdentity(n.inner);
    }
  }

  // ----- Addressing nodes by path and replacing one of them -----

  /** The child nodes of a node, in source order. */
  function Children(n: Node): seq<Node> {
    match n
    case IdentifierName(_) => []
    case NumericLiteral(_, _) => []
    case Binary(_, l, _, r) => [l, r]
    case Parenthesized(_, e, _) => [e]
    case MemberAccess(r, _, nm) => [r, nm]
    case Invocation(c, _, args, _) => [c] + args
    case Construct(_, cs, _) => cs
  }

  /** The tokens a node holds itself, outside its children, in source order. */
  function OwnTokens(n: Node): seq<Token> {
    match n
    case IdentifierName(t) => [t]
    case NumericLiteral(t, _) => [t]
    case Binary(_, _, t, _) => [t]
    case Parenthesized(o, _, c) => [o, c]
    case MemberAccess(_, d, _) => [d]
    case Invocation(_, o, _, c) => [o, c]
    case Construct(f, _, l) => [f, l]
  }

  /** The two nodes have the same constructor, and the same operator or literal value. */
  predicate SameShape(a: Node, b: Node) {
    match a
    case IdentifierName(_) => b.IdentifierName?
    case NumericLiteral(_, v) => b.NumericLiteral? && b.value == v
    case Binary(op, _, _, _) => b.Binary? && b.op == op
    case Parenthesized(_, _, _) => b.Parenthesized?
    case MemberAccess(_, _, _) => b.MemberAccess?
    case Invocation(_, _, args, _) => b.Invocation? && |b.arguments| == |args|
    case Construct(_, cs, _) => b.Construct? && |b.children| == |cs|
  }

  /** The node with its i-th child replaced; its own tokens and other children stay. */
  function WithChild(n: Node, i: nat, c: Node): (r: Node)
    requires i < |Children(n)|
    ensures Children(r) == Children(n)[i := c]
    ensures OwnTokens(r) == OwnTokens(n)
    ensures SameShape(r, n)
  {
    match n
    case Binary(op, l, t, rt) => if i == 0 then Binary(op, c, t, rt) else Binary(op, l, t, c)
    case Parenthesized(o, _, cl) => Parenthesized(o, c, cl)
    case MemberAccess(rc, d, nm) => if i == 0 then MemberAccess(c, d, nm) else MemberAccess(rc, d, c)
    case Invocation(cal, o, args, cl) =>
      if i == 0 then Invocation(c, o, args, cl) else Invocation(cal, o, args[i - 1 := c], cl)
    case Construct(f, cs, l) => Construct(f, cs[i := c], l)
  }

  /** `path` is a sequence of child indices that leads from `root` to a node. */
  predicate ValidPath(root: Node, path: seq<nat>)
    decreases |path|
  {
    |path| == 0 || (path[0] < |Children(root)| && ValidPath(Children(root)[path[0]], path[1..]))
  }

  function SubtreeAt(root: Node, path: seq<nat>): Node
    requires ValidPath(root, path)
    decreases |path|
  {
    if |path| == 0 then root else SubtreeAt(Children(root)[path[0]], path[1..])
  }

  /** SyntaxNode.ReplaceNode: a new root in which the node at `path` is `replacement`;
      only the ancestors on the path are rebuilt. */
  function ReplaceAt(root: Node, path: seq<nat>, replacement: Node): (r: Node)
    requires ValidPath(root, path)
    ensures ValidPath(r, path) && SubtreeAt(r, path) == replacement
    decreases |path|
  {
    if |path| == 0 then replacement
    else WithChild(root, path[0], ReplaceAt(Children(root)[path[0]], path[1..], replacement))
  }

  /** Putting the old child back gives the original node: a node is its own tokens
      and its children, and WithChild changes nothing but the one child. */
  lemma WithChildRestores(n: Node, i: nat, c: Node)
    requires i < |Children(n)|
    ensures WithChild(WithChild(n, i, c), i, Children(n)[i]) == n
  {
    if n.Invocation? && i > 0 {
      assert n.arguments[i - 1 := c][i - 1 := n.arguments[i - 1]] == n.arguments;
    } else if n.Construct? {
      assert n.children[i := c][i := n.children[i]] == n.children;
    }
  }

  /** ReplaceNode changes the tree only at the replaced node: replacing it again by
      the node that was there gives back the original root, so every ancestor's own
      tokens and every node off the path are as they were. */
  lemma {:induction false} ReplaceAtRestores(root: Node, path: seq<nat>, replacement: Node)
    requires ValidPath(root, path)
    ensures ReplaceAt(ReplaceAt(root, path, replacement), path, SubtreeAt(root, path)) == root
    decreases |path|
  {
    if |path| > 0 {
      var child := Children(root)[path[0]];
      var newChild := ReplaceAt(child, path[1..], replacement);
      ReplaceAtRestores(child, path[1..], replacement);
      WithChildRestores(root, path[0], newChild);
    }
  }

  /** Every ancestor of the replaced node keeps its own tokens, its constructor and its operator. */
  lemma {:induction false} ReplaceAtKeepsAncestorTokens(root: Node, path: seq<nat>, replacement: Node, j: nat)
    requires ValidPath(root, path) && j < |path|
    ensures ValidPath(root, path[..j]) && ValidPath(ReplaceAt(root, path, replacement), path[..j])
    ensures OwnTokens(SubtreeAt(ReplaceAt(root, path, replacement), path[..j])) == OwnTokens(SubtreeAt(root, path[..j]))
    ensures SameShape(SubtreeAt(ReplaceAt(root, path, replacement), path[..j]), SubtreeAt(root, path[..j]))
    decreases |path|
  {
    if j > 0 {
      var child := Children(root)[path[0]];
      ReplaceAtKeepsAncestorTokens(child, path[1..], replacement, j - 1);
      assert path[..j][1..] == path[1..][..j - 1];
    }
  }

  predicate IsPrefix(p: seq<nat>, q: seq<nat>) {
    |p| <= |q| && q[..|p|] == p
  }

  /** Paths that start with the same index: prefix of each other exactly when their tails are. */
  lemma PrefixOfTails(p: seq<nat>, q: seq<nat>)
    requires |p| > 0 && |q| > 0 && p[0] == q[0]
    ensures IsPrefix(p, q) <==> IsPrefix(p[1..], q[1..])
  {
    if |p| <= |q| {
      assert q[..|p|] == [q[0]] + q[1..][..|p| - 1];
      assert p == [p[0]] + p[1..];
    }
  }

  /** Two paths that lead to nodes neither of which contains the other. */
  predicate Unrelated(p: seq<nat>, q: seq<nat>) {
    !IsPrefix(p, q) && !IsPrefix(q, p)
  }

  /** Rewrite locality: replacing the node at `p` leaves every node at an unrelated path as it was. */
  lemma {:induction false} ReplaceAtLeavesOthers(root: Node, p: seq<nat>, replacement: Node, q: seq<nat>)
    requires ValidPath(root, p) && ValidPath(root, q) && Unrelated(p, q)
    ensures ValidPath(ReplaceAt(root, p, replacement), q)
    ensures SubtreeAt(ReplaceAt(root, p, replacement), q) == SubtreeAt(root, q)
  {
    assert |p| > 0 && |q| > 0 by {
      assert IsPrefix([], p) && IsPrefix([], q);
    }
    var r := ReplaceAt(root, p, replacement);
    var child := Children(root)[p[0]];
    if p[0] == q[0] {
      PrefixOfTails(p, q);
      PrefixOfTails(q, p);
      ReplaceAtLeavesOthers(child, p[1..], replacement, q[1..]);
    } else {
      assert Children(r)[q[0]] == Children(root)[q[0]];
    }
  }
}
