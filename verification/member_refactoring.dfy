/** The refactorings offered for a member declaration (MemberDeclarationRefactoring):
    a decision table indexed by the member's kind that turns the trigger span, the
    member's brace tokens, its parent and the set of enabled refactorings into the
    ordered list of what is registered. */
module MemberDeclarationRefactoring {
  import opened Syntax

  datatype MemberKind =
    | MethodDeclaration | IndexerDeclaration | PropertyDeclaration | OperatorDeclaration
    | ConversionOperatorDeclaration | ConstructorDeclaration | EventDeclaration
    | NamespaceDeclaration | ClassDeclaration | RecordDeclaration | StructDeclaration
    | RecordStructDeclaration | InterfaceDeclaration | EnumDeclaration
    | EnumMemberDeclaration | DelegateDeclaration | DestructorDeclaration
    | FieldDeclaration | EventFieldDeclaration
    | OtherMemberKind  // any member kind neither switch names (a global statement, say)

  /** The refactorings whose enabled state the dispatcher queries. */
  datatype RefactoringId =
    | RemoveMemberDeclaration | DuplicateMemberDeclaration | CommentOutMemberDeclaration
    | RemoveAllStatements | RemoveAllMemberDeclarations
    | SwapMemberDeclarations | RemoveMemberDeclarations
    | ConvertBlockBodyToExpressionBody | MoveUnsafeContextToContainingDeclaration

  /** The refactoring classes the dispatcher hands the member to; what they
      register in turn is not part of this model. */
  datatype Handler =
    | RemoveAllStatementsRefactoring | RemoveAllMemberDeclarationsRefactoring
    | MemberDeclarationsRefactoring
    | NamespaceDeclarationRefactoring | ClassDeclarationRefactoring
    | RecordDeclarationRefactoring | StructDeclarationRefactoring
    | InterfaceDeclarationRefactoring | SelectedMemberDeclarationsRefactoring
    | EnumDeclarationRefactoring | EnumMemberDeclarationRefactoring
    | DelegateDeclarationRefactoring | MethodDeclarationRefactoring
    | ConstructorDeclarationRefactoring | DestructorDeclarationRefactoring
    | IndexerDeclarationRefactoring | PropertyDeclarationRefactoring
    | FieldDeclarationRefactoring | EventDeclarationRefactoring
    | EventFieldDeclarationRefactoring
    | MoveUnsafeContextToContainingDeclarationRefactoring

  /** One entry of the result: an action registered here, or a handler consulted. */
  datatype Contribution =
    | RemoveMember
    | DuplicateMember(copyAfter: bool)
    | CommentOutMember
    | BlockBodyToExpressionBody
    | Delegated(handler: Handler)

  datatype BraceKind = NoneKind | OpenBraceKind | CloseBraceKind

  /** A brace token; `default(SyntaxToken)` has kind None. */
  datatype BraceToken = BraceToken(kind: BraceKind, span: TextSpan)

  const NoToken := BraceToken(NoneKind, TextSpan(0, 0))

  datatype Braces = Braces(open: BraceToken, close: BraceToken)

  datatype ParentNode = NoParent | ParentNode(canHaveMembers: bool)

  /** A member declaration. `block` is the brace pair the declaration owns: for a
      method, operator, conversion operator or constructor its Body, for a property,
      indexer or event its AccessorList (None: that node is null); for a namespace or
      type declaration its own brace tokens (None: it has none). */
  datatype Member = Member(kind: MemberKind, span: TextSpan, block: Option<Braces>, parent: ParentNode)

  /** What the refactoring context supplies: the trigger span, which refactorings
      are enabled, and whether the language version is at least C# 6. */
  datatype Context = Context(span: TextSpan, enabled: set<RefactoringId>, supportsCSharp6: bool)

  /** Answers of collaborators outside this model: ConvertBlockBodyToExpressionBodyRefactoring.CanRefactor
      and MemberDeclarationListSelection.TryCreate. */
  datatype Facts = Facts(canConvertBlockBody: bool, hasSelectedMembers: bool)

  /** The kinds for which remove, duplicate and comment-out are considered. */
  predicate IsStructuralKind(k: MemberKind) {
    k in {MethodDeclaration, IndexerDeclaration, PropertyDeclaration, OperatorDeclaration,
          ConversionOperatorDeclaration, ConstructorDeclaration, EventDeclaration,
          NamespaceDeclaration, ClassDeclaration, RecordDeclaration, StructDeclaration,
          RecordStructDeclaration, InterfaceDeclaration, EnumDeclaration}
  }

  /** The kinds whose braces belong to a Body or AccessorList that may be null. */
  predicate HasBodyNode(k: MemberKind) {
    k in {MethodDeclaration, IndexerDeclaration, OperatorDeclaration, ConversionOperatorDeclaration,
          ConstructorDeclaration, PropertyDeclaration, EventDeclaration}
  }

  /** GetBraces: the open and close brace of the member, `default` tokens for
      every kind outside its switch, and a null dereference when the Body or
      AccessorList it reads is null. */
  function GetBraces(m: Member): (r: Result<Braces, Failure>)
    ensures !IsStructuralKind(m.kind) ==> r == Ok(Braces(NoToken, NoToken))
    ensures r.Err? <==> HasBodyNode(m.kind) && m.block.None?
    ensures r.Err? ==> r.error == NullReference
    ensures IsStructuralKind(m.kind) && m.block.Some? ==> r == Ok(m.block.value)
    ensures IsStructuralKind(m.kind) && !HasBodyNode(m.kind) && m.block.None? ==> r == Ok(Braces(NoToken, NoToken))
  {
    if !IsStructuralKind(m.kind) then Ok(Braces(NoToken, NoToken))
    else match m.block
      case Some(b) => Ok(b)
      case None => if HasBodyNode(m.kind) then Err(NullReference) else Ok(Braces(NoToken, NoToken))
  }

  /** The trigger span lies within a brace token that is not None. */
  predicate OnBrace(b: Braces, span: TextSpan) {
    (b.open.kind != NoneKind && b.open.span.Contains(span))
    || (b.close.kind != NoneKind && b.close.span.Contains(span))
  }

  predicate ParentCanHaveMembers(m: Member) {
    m.parent.ParentNode? && m.parent.canHaveMembers
  }

  /** Remove, duplicate and comment-out, registered in that order once the braces are known. */
  function StructuralContributions(m: Member, ctx: Context, b: Braces): (r: seq<Contribution>)
    ensures !OnBrace(b, ctx.span) ==> r == []
    ensures forall c :: c in r ==> IsStructural(c)
  {
    if !OnBrace(b, ctx.span) then []
    else
      (if ParentCanHaveMembers(m) then
         (if RemoveMemberDeclaration in ctx.enabled then [RemoveMember] else [])
         + (if DuplicateMemberDeclaration in ctx.enabled
            then [DuplicateMember(b.close.span.Contains(ctx.span))] else [])
       else [])
      + (if CommentOutMemberDeclaration in ctx.enabled then [CommentOutMember] else [])
  }

  predicate AnyStructuralEnabled(ctx: Context) {
    RemoveMemberDeclaration in ctx.enabled || DuplicateMemberDeclaration in ctx.enabled
    || CommentOutMemberDeclaration in ctx.enabled
  }

  /** The first switch: structural actions for the listed kinds; GetBraces runs
      only when one of the three refactorings is enabled. */
  function StructuralPhase(m: Member, ctx: Context): (r: Result<seq<Contribution>, Failure>)
    ensures r.Err? <==> IsStructuralKind(m.kind) && AnyStructuralEnabled(ctx) && GetBraces(m).Err?
    ensures r.Ok? ==> forall c :: c in r.value ==> IsStructural(c)
  {
    if !IsStructuralKind(m.kind) || !AnyStructuralEnabled(ctx) then Ok([])
    else match GetBraces(m)
      case Ok(b) => Ok(StructuralContributions(m, ctx, b))
      case Err(e) => Err(e)
  }

  /** The operator and conversion-operator overloads of ComputeRefactorings. */
  function BlockBodyContributions(ctx: Context, facts: Facts): (r: seq<Contribution>)
    ensures r == [] || r == [BlockBodyToExpressionBody]
    ensures r == [BlockBodyToExpressionBody]
            <==> ConvertBlockBodyToExpressionBody in ctx.enabled && ctx.supportsCSharp6 && facts.canConvertBlockBody
  {
    if ConvertBlockBodyToExpressionBody in ctx.enabled && ctx.supportsCSharp6 && facts.canConvertBlockBody
    then [BlockBodyToExpressionBody] else []
  }

  /** A type or namespace handler, followed by the selected-members refactoring when a member selection exists. */
  function WithSelection(h: Handler, facts: Facts): seq<Contribution> {
    [Delegated(h)] + (if facts.hasSelectedMembers then [Delegated(SelectedMemberDeclarationsRefactoring)] else [])
  }

  /** The second switch: the kind-specific handler. */
  function KindContributions(k: MemberKind, ctx: Context, facts: Facts): (r: seq<Contribution>)
    ensures |r| <= 2
    ensures forall c :: c in r ==> !IsStructural(c)
  {
    match k
    case NamespaceDeclaration => WithSelection(NamespaceDeclarationRefactoring, facts)
    case ClassDeclaration => WithSelection(ClassDeclarationRefactoring, facts)
    case RecordDeclaration => WithSelection(RecordDeclarationRefactoring, facts)
    case RecordStructDeclaration => WithSelection(RecordDeclarationRefactoring, facts)
    case StructDeclaration => WithSelection(StructDeclarationRefactoring, facts)
    case InterfaceDeclaration => WithSelection(InterfaceDeclarationRefactoring, facts)
    case EnumDeclaration => [Delegated(EnumDeclarationRefactoring)]
    case EnumMemberDeclaration => [Delegated(EnumMemberDeclarationRefactoring)]
    case DelegateDeclaration => [Delegated(DelegateDeclarationRefactoring)]
    case MethodDeclaration => [Delegated(MethodDeclarationRefactoring)]
    case ConstructorDeclaration => [Delegated(ConstructorDeclarationRefactoring)]
    case DestructorDeclaration => [Delegated(DestructorDeclarationRefactoring)]
    case IndexerDeclaration => [Delegated(IndexerDeclarationRefactoring)]
    case PropertyDeclaration => [Delegated(PropertyDeclarationRefactoring)]
    case OperatorDeclaration => BlockBodyContributions(ctx, facts)
    case ConversionOperatorDeclaration => BlockBodyContributions(ctx, facts)
    case FieldDeclaration => [Delegated(FieldDeclarationRefactoring)]
    case EventDeclaration => [Delegated(EventDeclarationRefactoring)]
    case EventFieldDeclaration => [Delegated(EventFieldDeclarationRefactoring)]
    case OtherMemberKind => []
  }

  /** A contribution registered only when `cond` holds. */
  function When(cond: bool, c: Contribution): (r: seq<Contribution>)
    ensures |r| <= 1 && (forall x :: x in r ==> x == c)
  {
    if cond then [c] else []
  }

  predicate ConsultsMemberDeclarations(m: Member, ctx: Context) {
    (SwapMemberDeclarations in ctx.enabled || RemoveMemberDeclarations in ctx.enabled)
    && !m.span.IntersectsWith(ctx.span)
  }

  /** Everything after the first switch, in registration order. */
  function LaterContributions(m: Member, ctx: Context, facts: Facts): (r: seq<Contribution>)
    ensures forall c :: c in r ==> !IsStructural(c)
  {
    When(RemoveAllStatements in ctx.enabled, Delegated(RemoveAllStatementsRefactoring))
    + When(RemoveAllMemberDeclarations in ctx.enabled, Delegated(RemoveAllMemberDeclarationsRefactoring))
    + When(ConsultsMemberDeclarations(m, ctx), Delegated(MemberDeclarationsRefactoring))
    + KindContributions(m.kind, ctx, facts)
    + When(MoveUnsafeContextToContainingDeclaration in ctx.enabled,
           Delegated(MoveUnsafeContextToContainingDeclarationRefactoring))
  }

  /** ComputeRefactoringsAsync: the ordered list of what is registered for the
      member, or the exception GetBraces raises. The order of the list is stated by
      ContributionsInRegistrationOrder, and the condition for each entry by the
      OfferedIff and ConsultedIff lemmas below. */
  function ComputeRefactorings(m: Member, ctx: Context, facts: Facts): (r: Result<seq<Contribution>, Failure>)
    ensures r.Err? <==> HasBodyNode(m.kind) && m.block.None? && AnyStructuralEnabled(ctx)
    ensures r.Err? ==> r.error == NullReference
  {
    match StructuralPhase(m, ctx)
    case Ok(s) => Ok(s + LaterContributions(m, ctx, facts))
    case Err(e) => Err(e)
  }

  // ----- Properties of the dispatcher -----

  /** The position of a contribution in the registration order of ComputeRefactoringsAsync. */
  function Stage(c: Contribution): nat {
    match c
    case RemoveMember => 0
    case DuplicateMember(_) => 1
    case CommentOutMember => 2
    case Delegated(RemoveAllStatementsRefactoring) => 3
    case Delegated(RemoveAllMemberDeclarationsRefactoring) => 4
    case Delegated(MemberDeclarationsRefactoring) => 5
    case Delegated(SelectedMemberDeclarationsRefactoring) => 7
    case Delegated(MoveUnsafeContextToContainingDeclarationRefactoring) => 8
    case _ => 6
  }

  predicate StrictlyStaged(s: seq<Contribution>) {
    forall i, j :: 0 <= i < j < |s| ==> Stage(s[i]) < Stage(s[j])
  }

  predicate IsStructural(c: Contribution) {
    c.RemoveMember? || c.DuplicateMember? || c.CommentOutMember?
  }

  /** Every entry of `s` has a stage in [lo, hi). */
  predicate StagesIn(s: seq<Contribution>, lo: nat, hi: nat) {
    forall x :: x in s ==> lo <= Stage(x) < hi
  }

  /** Two staged lists whose stages are separated by `k` concatenate to a staged list. */
  lemma StagedConcat(a: seq<Contribution>, b: seq<Contribution>, lo: nat, k: nat, hi: nat)
    requires StrictlyStaged(a) && StrictlyStaged(b)
    requires lo <= k <= hi && StagesIn(a, lo, k) && StagesIn(b, k, hi)
    ensures StrictlyStaged(a + b) && StagesIn(a + b, lo, hi)
  {
    forall i, j | 0 <= i < j < |a + b| ensures Stage((a + b)[i]) < Stage((a + b)[j]) {
      if i < |a| && j >= |a| {
        assert (a + b)[i] in a && (a + b)[j] in b;
      }
    }
    forall x | x in a + b ensures lo <= Stage(x) < hi {
      assert x in a || x in b;
    }
  }

  /** A conditional registration is staged at its entry's stage. */
  lemma WhenStaged(cond: bool, c: Contribution)
    ensures StrictlyStaged(When(cond, c)) && StagesIn(When(cond, c), Stage(c), Stage(c) + 1)
  {
  }

  lemma StructuralStaged(m: Member, ctx: Context)
    requires StructuralPhase(m, ctx).Ok?
    ensures StrictlyStaged(StructuralPhase(m, ctx).value)
    ensures forall c :: c in StructuralPhase(m, ctx).value ==> Stage(c) < 3
  {
  }

  lemma {:induction false} KindContributionsStaged(k: MemberKind, ctx: Context, facts: Facts)
    ensures StrictlyStaged(KindContributions(k, ctx, facts))
    ensures forall c :: c in KindContributions(k, ctx, facts) ==> 6 <= Stage(c) <= 7 && !IsStructural(c)
  {
  }

  /** The kinds whose own handler a delegated refactoring is; the general handlers,
      the member selection and the unsafe context belong to no kind. */
  function HandledKinds(h: Handler): set<MemberKind> {
    match h
    case NamespaceDeclarationRefactoring => {NamespaceDeclaration}
    case ClassDeclarationRefactoring => {ClassDeclaration}
    case RecordDeclarationRefactoring => {RecordDeclaration, RecordStructDeclaration}
    case StructDeclarationRefactoring => {StructDeclaration}
    case InterfaceDeclarationRefactoring => {InterfaceDeclaration}
    case EnumDeclarationRefactoring => {EnumDeclaration}
    case EnumMemberDeclarationRefactoring => {EnumMemberDeclaration}
    case DelegateDeclarationRefactoring => {DelegateDeclaration}
    case MethodDeclarationRefactoring => {MethodDeclaration}
    case ConstructorDeclarationRefactoring => {ConstructorDeclaration}
    case DestructorDeclarationRefactoring => {DestructorDeclaration}
    case IndexerDeclarationRefactoring => {IndexerDeclaration}
    case PropertyDeclarationRefactoring => {PropertyDeclaration}
    case FieldDeclarationRefactoring => {FieldDeclaration}
    case EventDeclarationRefactoring => {EventDeclaration}
    case EventFieldDeclarationRefactoring => {EventFieldDeclaration}
    case _ => {}
  }

  /** The namespace and type declarations, whose members can be selected. */
  predicate HasMemberList(k: MemberKind) {
    k in {NamespaceDeclaration, ClassDeclaration, RecordDeclaration, RecordStructDeclaration,
          StructDeclaration, InterfaceDeclaration}
  }

  /** The second switch sends each kind to exactly its own handler, and consults the
      member selection only for a namespace or type declaration with selected members. */
  lemma KindContributionsRouting(k: MemberKind, ctx: Context, facts: Facts, h: Handler)
    ensures h != SelectedMemberDeclarationsRefactoring ==>
              (Delegated(h) in KindContributions(k, ctx, facts) <==> k in HandledKinds(h))
    ensures Delegated(SelectedMemberDeclarationsRefactoring) in KindContributions(k, ctx, facts)
            <==> HasMemberList(k) && facts.hasSelectedMembers
  {
  }

  /** The five parts after the first switch, each in its own stage range, join in order. */
  lemma FiveStaged(a: seq<Contribution>, b: seq<Contribution>, c: seq<Contribution>,
                   d: seq<Contribution>, e: seq<Contribution>)
    requires StrictlyStaged(a) && StrictlyStaged(b) && StrictlyStaged(c) && StrictlyStaged(d) && StrictlyStaged(e)
    requires StagesIn(a, 3, 4) && StagesIn(b, 4, 5) && StagesIn(c, 5, 6) && StagesIn(d, 6, 8) && StagesIn(e, 8, 9)
    ensures StrictlyStaged(a + b + c + d + e) && StagesIn(a + b + c + d + e, 3, 9)
  {
    StagedConcat(a, b, 3, 4, 5);
    StagedConcat(a + b, c, 3, 5, 6);
    StagedConcat(a + b + c, d, 3, 6, 8);
    StagedConcat(a + b + c + d, e, 3, 8, 9);
  }

  lemma {:induction false} LaterStaged(m: Member, ctx: Context, facts: Facts)
    ensures StrictlyStaged(LaterContributions(m, ctx, facts))
    ensures StagesIn(LaterContributions(m, ctx, facts), 3, 9)
  {
    KindContributionsStaged(m.kind, ctx, facts);
    var a := When(RemoveAllStatements in ctx.enabled, Delegated(RemoveAllStatementsRefactoring));
    var b := When(RemoveAllMemberDeclarations in ctx.enabled, Delegated(RemoveAllMemberDeclarationsRefactoring));
    var c := When(ConsultsMemberDeclarations(m, ctx), Delegated(MemberDeclarationsRefactoring));
    var d := KindContributions(m.kind, ctx, facts);
    var e := When(MoveUnsafeContextToContainingDeclaration in ctx.enabled,
                  Delegated(MoveUnsafeContextToContainingDeclarationRefactoring));
    WhenStaged(RemoveAllStatements in ctx.enabled, Delegated(RemoveAllStatementsRefactoring));
    WhenStaged(RemoveAllMemberDeclarations in ctx.enabled, Delegated(RemoveAllMemberDeclarationsRefactoring));
    WhenStaged(ConsultsMemberDeclarations(m, ctx), Delegated(MemberDeclarationsRefactoring));
    WhenStaged(MoveUnsafeContextToContainingDeclaration in ctx.enabled,
               Delegated(MoveUnsafeContextToContainingDeclarationRefactoring));
    FiveStaged(a, b, c, d, e);
  }

  /** The registration order is fixed: remove, duplicate, comment-out, the three
      general handlers, the kind's own handler, the member selection, the unsafe
      context; no entry is registered twice. */
  lemma {:induction false} ContributionsInRegistrationOrder(m: Member, ctx: Context, facts: Facts)
    requires ComputeRefactorings(m, ctx, facts).Ok?
    ensures StrictlyStaged(ComputeRefactorings(m, ctx, facts).value)
  {
    StructuralStaged(m, ctx);
    LaterStaged(m, ctx, facts);
    StagedConcat(StructuralPhase(m, ctx).value, LaterContributions(m, ctx, facts), 0, 3, 9);
  }

  /** Remove, duplicate and comment-out are never offered for a kind outside the fourteen listed. */
  lemma {:induction false} NoStructuralForOtherKinds(m: Member, ctx: Context, facts: Facts)
    requires !IsStructuralKind(m.kind)
    ensures ComputeRefactorings(m, ctx, facts).Ok?
    ensures forall c :: c in ComputeRefactorings(m, ctx, facts).value ==> !IsStructural(c)
  {
  }

  /** The brace gate, stated on the tokens GetBraces returns. */
  predicate Gate(m: Member, ctx: Context) {
    IsStructuralKind(m.kind) && GetBraces(m).Ok? && OnBrace(GetBraces(m).value, ctx.span)
  }

  /** Remove is offered exactly when it is enabled, the trigger span lies on a
      brace that is not None, and the member has a parent that can have members. */
  lemma {:induction false} RemoveOfferedIff(m: Member, ctx: Context, facts: Facts)
    requires ComputeRefactorings(m, ctx, facts).Ok?
    ensures RemoveMember in ComputeRefactorings(m, ctx, facts).value
            <==> RemoveMemberDeclaration in ctx.enabled && Gate(m, ctx) && ParentCanHaveMembers(m)
  {
  }

  /** Duplicate is offered under the same conditions as remove, and it copies the
      member after itself exactly when the close brace contains the trigger span. */
  lemma {:induction false} DuplicateOfferedIff(m: Member, ctx: Context, facts: Facts, copyAfter: bool)
    requires ComputeRefactorings(m, ctx, facts).Ok?
    ensures DuplicateMember(copyAfter) in ComputeRefactorings(m, ctx, facts).value
            <==> DuplicateMemberDeclaration in ctx.enabled && Gate(m, ctx) && ParentCanHaveMembers(m)
                 && copyAfter == GetBraces(m).value.close.span.Contains(ctx.span)
  {
  }

  /** Comment-out needs only its flag and the brace gate, not the parent. */
  lemma {:induction false} CommentOutOfferedIff(m: Member, ctx: Context, facts: Facts)
    requires ComputeRefactorings(m, ctx, facts).Ok?
    ensures CommentOutMember in ComputeRefactorings(m, ctx, facts).value
            <==> CommentOutMemberDeclaration in ctx.enabled && Gate(m, ctx)
  {
  }

  /** A brace token of kind None never lets the structural actions through, whatever its span. */
  lemma NoneBracesNeverMatch(m: Member, ctx: Context, facts: Facts)
    requires GetBraces(m).Ok? && GetBraces(m).value.open.kind == NoneKind && GetBraces(m).value.close.kind == NoneKind
    ensures ComputeRefactorings(m, ctx, facts).Ok?
    ensures forall c :: c in ComputeRefactorings(m, ctx, facts).value ==> !IsStructural(c)
  {
  }

  /** The swap/remove-member-declarations handler is consulted exactly when one
      of its two refactorings is enabled and the member's span does not
      intersect the trigger span. */
  lemma {:induction false} MemberDeclarationsConsultedIff(m: Member, ctx: Context, facts: Facts)
    requires ComputeRefactorings(m, ctx, facts).Ok?
    ensures Delegated(MemberDeclarationsRefactoring) in ComputeRefactorings(m, ctx, facts).value
            <==> ConsultsMemberDeclarations(m, ctx)
  {
    KindContributionsStaged(m.kind, ctx, facts);
  }

  /** The remove-all-statements handler is consulted exactly when its refactoring is enabled. */
  lemma {:induction false} RemoveAllStatementsConsultedIff(m: Member, ctx: Context, facts: Facts)
    requires ComputeRefactorings(m, ctx, facts).Ok?
    ensures Delegated(RemoveAllStatementsRefactoring) in ComputeRefactorings(m, ctx, facts).value
            <==> RemoveAllStatements in ctx.enabled
  {
    KindContributionsRouting(m.kind, ctx, facts, RemoveAllStatementsRefactoring);
  }

  /** The remove-all-member-declarations handler is consulted exactly when its refactoring is enabled. */
  lemma {:induction false} RemoveAllMemberDeclarationsConsultedIff(m: Member, ctx: Context, facts: Facts)
    requires ComputeRefactorings(m, ctx, facts).Ok?
    ensures Delegated(RemoveAllMemberDeclarationsRefactoring) in ComputeRefactorings(m, ctx, facts).value
            <==> RemoveAllMemberDeclarations in ctx.enabled
  {
    KindContributionsRouting(m.kind, ctx, facts, RemoveAllMemberDeclarationsRefactoring);
  }

  /** The unsafe-context handler is consulted last, for every kind, exactly when its refactoring is enabled. */
  lemma {:induction false} UnsafeContextConsultedIff(m: Member, ctx: Context, facts: Facts)
    requires ComputeRefactorings(m, ctx, facts).Ok?
    ensures Delegated(MoveUnsafeContextToContainingDeclarationRefactoring) in ComputeRefactorings(m, ctx, facts).value
            <==> MoveUnsafeContextToContainingDeclaration in ctx.enabled
  {
    KindContributionsRouting(m.kind, ctx, facts, MoveUnsafeContextToContainingDeclarationRefactoring);
  }

  /** In the whole result, each kind's own handler is consulted exactly for the kinds it
      handles, and the member selection exactly for a namespace or type declaration
      with selected members. */
  lemma {:induction false} KindHandlerConsultedIff(m: Member, ctx: Context, facts: Facts, h: Handler)
    requires ComputeRefactorings(m, ctx, facts).Ok?
    requires HandledKinds(h) != {}
    ensures Delegated(h) in ComputeRefactorings(m, ctx, facts).value <==> m.kind in HandledKinds(h)
    ensures Delegated(SelectedMemberDeclarationsRefactoring) in ComputeRefactorings(m, ctx, facts).value
            <==> HasMemberList(m.kind) && facts.hasSelectedMembers
  {
    KindContributionsRouting(m.kind, ctx, facts, h);
    KindContributionsRouting(m.kind, ctx, facts, SelectedMemberDeclarationsRefactoring);
  }

  /** Block body to expression body is offered only for operators and conversion
      operators, and for them exactly when it is enabled, C# 6 is available and
      CanRefactor holds. */
  lemma {:induction false} BlockBodyOfferedIff(m: Member, ctx: Context, facts: Facts)
    requires ComputeRefactorings(m, ctx, facts).Ok?
    ensures BlockBodyToExpressionBody in ComputeRefactorings(m, ctx, facts).value
            <==> (m.kind == OperatorDeclaration || m.kind == ConversionOperatorDeclaration)
                 && ConvertBlockBodyToExpressionBody in ctx.enabled && ctx.supportsCSharp6
                 && facts.canConvertBlockBody
  {
  }
}
