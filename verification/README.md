# Roslynator member and enum rewrites, modelled in Dafny

This project models three pieces of Roslynator's syntax-rewrite logic and proves properties of them.

- **The member-declaration refactoring dispatcher** (`MemberDeclarationRefactoring`). For a member declaration and a trigger span, it decides which refactorings are registered and in what order. The inputs are:
  - the member's kind, span, brace tokens and parent;
  - the set of enabled refactorings and the C# 6 flag.

  Remove, duplicate and comment-out are gated by the trigger span lying inside a brace token. The swap/remove-members handler is gated by the member's span not intersecting the trigger span. After that gating comes a kind-indexed switch over the delegated handlers.
- **The enum-member code fixes** (`EnumMemberDeclarationCodeFixProvider`).
  - Declare a composite value as an OR of member names. The decomposed members are sorted in place, composite ones first, and folded into a left-associative `|` chain.
  - Replace a duplicate value by the name of the first other, non-obsolete member with the same value.
  - Normalise a flag value to `1 << k` or to decimal text, according to the configured style.
  - Dispatch on the diagnostic id. This appends at most one fix to the context's list, or throws.
- **The `Count()` → property fix** (`UseCountOrLengthPropertyInsteadOfCountMethodCodeFix`).
  - Its code action's title and equivalence key.
  - The rewrite of `recv.Count(...)` into `recv.<PropertyName>`, including where trivia goes.
  - The replacement of that one node in the syntax root.

Supporting modules:

- `Syntax`: a small syntax tree with tokens and leading and trailing trivia. It models `WithTriviaFrom` and `WalkDownParentheses`, two of Roslynator's extension methods, and Roslyn's node replacement by path.
- `Numerals`: powers of two, the integer logarithm, decimal text and its parse, a bitwise OR on naturals, and C#'s 32-bit `int` shift.

Roslyn's semantic facts are plain inputs: symbols, constant values, obsolescence, composite flags, the decomposition of a composite value, and configuration.

An exception thrown by the code is an `Err` with the exception's kind. The kinds are `NullReference`, `InvalidOperation`, `InvalidCast` and `KeyNotFound`.

Two behaviours of the code are worth stating outright:

- **Sort order.** The comparer at `EnumMemberDeclarationCodeFixProvider.cs:125-144` puts members with a composite value *before* atomic ones.
- **Missing body.** For a method, operator, conversion operator or constructor without a body, or a property, indexer or event without an accessor list, `GetBraces` dereferences null (`MemberDeclarationRefactoring.cs:244-278`). The model makes the whole computation fail, and does so only when one of the three structural refactorings is enabled.

## Model

| member | source | states |
|---|---|---|
| MemberDeclarationRefactoring.GetBraces | src/Refactorings/CSharp/Refactorings/MemberDeclarationRefactoring.cs:240-313 | kinds outside the switch give two None tokens; it fails with a null dereference exactly when a kind that reads Body or AccessorList has none; a namespace or type declaration without braces gives two None tokens; otherwise it returns the member's own braces |
| MemberDeclarationRefactoring.StructuralContributions | src/Refactorings/CSharp/Refactorings/MemberDeclarationRefactoring.cs:41-68 | nothing is registered unless the trigger span lies on a brace that is not None, and everything registered is remove, duplicate or comment-out |
| MemberDeclarationRefactoring.StructuralPhase | src/Refactorings/CSharp/Refactorings/MemberDeclarationRefactoring.cs:17-73 | the first switch throws exactly when it is reached for a listed kind with a structural refactoring enabled and GetBraces throws; otherwise it registers only structural actions |
| MemberDeclarationRefactoring.BlockBodyContributions | src/Refactorings/CSharp/Refactorings/MemberDeclarationRefactoring.cs:214-237 | the operator overloads register block-body-to-expression-body exactly when it is enabled, C# 6 is supported and CanRefactor holds, and never more than once |
| MemberDeclarationRefactoring.StructuralStaged | src/Refactorings/CSharp/Refactorings/MemberDeclarationRefactoring.cs:34-70 | the first switch registers only remove, duplicate and comment-out, in that order, each at most once |
| MemberDeclarationRefactoring.KindContributions | src/Refactorings/CSharp/Refactorings/MemberDeclarationRefactoring.cs:90-208 | the second switch registers at most two entries, none of them structural |
| MemberDeclarationRefactoring.KindContributionsStaged | src/Refactorings/CSharp/Refactorings/MemberDeclarationRefactoring.cs:90-208 | the second switch registers at most one kind handler, then at most the selected-members entry, in that order, and nothing structural |
| MemberDeclarationRefactoring.KindContributionsRouting | src/Refactorings/CSharp/Refactorings/MemberDeclarationRefactoring.cs:90-208 | a kind handler is registered exactly for the kinds it handles (records and record structs share one), and the selected-members entry exactly for a namespace or type declaration with selected members |
| MemberDeclarationRefactoring.LaterContributions | src/Refactorings/CSharp/Refactorings/MemberDeclarationRefactoring.cs:76-211 | nothing registered after the first switch is remove, duplicate or comment-out |
| MemberDeclarationRefactoring.ComputeRefactorings | src/Refactorings/CSharp/Refactorings/MemberDeclarationRefactoring.cs:13-212 | the computation throws, with a null dereference, exactly when a structural refactoring is enabled and the Body or AccessorList that GetBraces reads is null |
| MemberDeclarationRefactoring.LaterStaged | src/Refactorings/CSharp/Refactorings/MemberDeclarationRefactoring.cs:76-211 | after the first switch: remove-all-statements, remove-all-members, member declarations, the kind's handler, unsafe context, in that order, no entry twice |
| MemberDeclarationRefactoring.ContributionsInRegistrationOrder | src/Refactorings/CSharp/Refactorings/MemberDeclarationRefactoring.cs:13-212 | the whole list follows the fixed registration order and holds no entry twice |
| MemberDeclarationRefactoring.NoStructuralForOtherKinds | src/Refactorings/CSharp/Refactorings/MemberDeclarationRefactoring.cs:17-33 | enum members, fields, delegates, destructors, event fields and other kinds never get remove, duplicate or comment-out, and never fail |
| MemberDeclarationRefactoring.RemoveOfferedIff | src/Refactorings/CSharp/Refactorings/MemberDeclarationRefactoring.cs:41-52 | remove is offered iff it is enabled, the span lies in a non-None brace, and the parent exists and can have members |
| MemberDeclarationRefactoring.DuplicateOfferedIff | src/Refactorings/CSharp/Refactorings/MemberDeclarationRefactoring.cs:54-63 | duplicate is offered under the same gate as remove, with copyAfter true exactly when the close brace contains the span |
| MemberDeclarationRefactoring.CommentOutOfferedIff | src/Refactorings/CSharp/Refactorings/MemberDeclarationRefactoring.cs:41-68 | comment-out is offered iff it is enabled and the span lies in a non-None brace, whatever the parent |
| MemberDeclarationRefactoring.NoneBracesNeverMatch | src/Refactorings/CSharp/Refactorings/MemberDeclarationRefactoring.cs:41-44 | brace tokens of kind None never let a structural action through, whatever their spans |
| MemberDeclarationRefactoring.MemberDeclarationsConsultedIff | src/Refactorings/CSharp/Refactorings/MemberDeclarationRefactoring.cs:82-88 | the swap/remove-members handler is consulted iff one of its refactorings is enabled and the member span does not intersect the trigger span |
| MemberDeclarationRefactoring.RemoveAllStatementsConsultedIff | src/Refactorings/CSharp/Refactorings/MemberDeclarationRefactoring.cs:76-77 | in the dispatcher's result, the remove-all-statements handler is consulted iff its refactoring is enabled |
| MemberDeclarationRefactoring.RemoveAllMemberDeclarationsConsultedIff | src/Refactorings/CSharp/Refactorings/MemberDeclarationRefactoring.cs:79-80 | in the dispatcher's result, the remove-all-member-declarations handler is consulted iff its refactoring is enabled |
| MemberDeclarationRefactoring.UnsafeContextConsultedIff | src/Refactorings/CSharp/Refactorings/MemberDeclarationRefactoring.cs:210-211 | in the dispatcher's result, the move-unsafe-context handler is consulted iff its refactoring is enabled, whatever the member kind |
| MemberDeclarationRefactoring.KindHandlerConsultedIff | src/Refactorings/CSharp/Refactorings/MemberDeclarationRefactoring.cs:90-208 | in the dispatcher's result, each kind handler is consulted exactly for the kinds it handles, and the selected-members handler exactly for a namespace or type declaration with selected members |
| MemberDeclarationRefactoring.BlockBodyOfferedIff | src/Refactorings/CSharp/Refactorings/MemberDeclarationRefactoring.cs:214-237 | block body to expression body appears only for operators and conversion operators, and for them iff enabled, C# 6 and CanRefactor |
| EnumMemberDeclarationCodeFix.WithInnermostValue | src/Analyzers.CodeFixes/CSharp/CodeFixes/EnumMemberDeclarationCodeFixProvider.cs:146-155 | replacing the innermost value keeps the identifier and the `=` token and only swaps the node below the parentheses |
| EnumMemberDeclarationCodeFix.CompareMeaning | src/Analyzers.CodeFixes/CSharp/CodeFixes/EnumMemberDeclarationCodeFixProvider.cs:125-144 | a composite member comes before an atomic one; within a group the order is that of the values, equal exactly when the values are |
| EnumMemberDeclarationCodeFix.CompareIsTotalPreorder | src/Analyzers.CodeFixes/CSharp/CodeFixes/EnumMemberDeclarationCodeFixProvider.cs:125-144 | the comparer is antisymmetric, reflexive and transitive, as List.Sort requires |
| EnumMemberDeclarationCodeFix.SortedOrder | src/Analyzers.CodeFixes/CSharp/CodeFixes/EnumMemberDeclarationCodeFixProvider.cs:125-144 | after sorting no atomic member precedes a composite one, and values do not decrease within each group |
| EnumMemberDeclarationCodeFix.SortFields | src/Analyzers.CodeFixes/CSharp/CodeFixes/EnumMemberDeclarationCodeFixProvider.cs:125-144 | the in-place sort leaves the list ordered by the comparer and a permutation of what it was |
| EnumMemberDeclarationCodeFix.InsertIntoSorted | src/Analyzers.CodeFixes/CSharp/CodeFixes/EnumMemberDeclarationCodeFixProvider.cs:125-144 | one step of the sort: an ordered prefix grows by one element, and the array stays a permutation of what it was |
| EnumMemberDeclarationCodeFix.OrChainShape | src/Analyzers.CodeFixes/CSharp/CodeFixes/EnumMemberDeclarationCodeFixProvider.cs:148-151 | the OR expression is a left-associative chain whose leaves are the given names in order |
| EnumMemberDeclarationCodeFix.BuildOrExpression | src/Analyzers.CodeFixes/CSharp/CodeFixes/EnumMemberDeclarationCodeFixProvider.cs:148-151 | the loop that reassigns newValue builds exactly that chain over the members' names |
| EnumMemberDeclarationCodeFix.OrChainValue | src/Analyzers.CodeFixes/CSharp/CodeFixes/EnumMemberDeclarationCodeFixProvider.cs:148-151 | the chain evaluates to the bitwise OR of the values of the members it names |
| EnumMemberDeclarationCodeFix.OrAllPermutation | src/Analyzers.CodeFixes/CSharp/CodeFixes/EnumMemberDeclarationCodeFixProvider.cs:123-151 | the OR of the values does not depend on the order the sort leaves them in |
| EnumMemberDeclarationCodeFix.DeclareEnumValueAsCombinationOfNames | src/Analyzers.CodeFixes/CSharp/CodeFixes/EnumMemberDeclarationCodeFixProvider.cs:110-156 | the member's innermost value becomes the OR chain of the sorted names, and it evaluates to the OR of the decomposed values; no value clause throws |
| EnumMemberDeclarationCodeFix.FirstDuplicate | src/Analyzers.CodeFixes/CSharp/CodeFixes/EnumMemberDeclarationCodeFixProvider.cs:187-212 | the first member in declaration order that is not obsolete, is another symbol, and has a value equal to the target's; none if there is no such member |
| EnumMemberDeclarationCodeFix.FindMemberByValue | src/Analyzers.CodeFixes/CSharp/CodeFixes/EnumMemberDeclarationCodeFixProvider.cs:187-212 | the scan with continue and early return returns that first member's declaration, or throws InvalidOperation when there is none |
| EnumMemberDeclarationCodeFix.ChangeEnumValue | src/Analyzers.CodeFixes/CSharp/CodeFixes/EnumMemberDeclarationCodeFixProvider.cs:163-185 | the value becomes the identifier, carrying the old value's leading and trailing trivia and keeping the `=` token; a member without a value gets a fresh `= name` clause |
| EnumMemberDeclarationCodeFix.ChangeEnumValueIdempotent | src/Analyzers.CodeFixes/CSharp/CodeFixes/EnumMemberDeclarationCodeFixProvider.cs:169-184 | changing the value to the same name twice is the same as once |
| EnumMemberDeclarationCodeFix.DuplicateFixKeepsValue | src/Analyzers.CodeFixes/CSharp/CodeFixes/EnumMemberDeclarationCodeFixProvider.cs:58-77 | naming the duplicate that FindMemberByValue found leaves the member's value unchanged |
| EnumMemberDeclarationCodeFix.ShiftExpression | src/Analyzers.CodeFixes/CSharp/CodeFixes/EnumMemberDeclarationCodeFixProvider.cs:228 | the new expression is `<<` between a literal `1` and a literal written as the decimal text of the power, with no trivia |
| EnumMemberDeclarationCodeFix.ShiftExpressionValue | src/Analyzers.CodeFixes/CSharp/CodeFixes/EnumMemberDeclarationCodeFixProvider.cs:228 | `1 << k` with int literals evaluates with the count masked to five bits and the result wrapped to 32 bits |
| EnumMemberDeclarationCodeFix.UseBitShiftOperator | src/Analyzers.CodeFixes/CSharp/CodeFixes/EnumMemberDeclarationCodeFixProvider.cs:215-233 | the innermost value becomes `1 << log2(value)`: the `1` takes the old value's leading trivia, the exponent its trailing trivia, and the `<<` none; the identifier, the `=` token and the parentheses are kept; no clause throws, and a missing constant throws InvalidOperation |
| EnumMemberDeclarationCodeFix.ShiftRoundTrip | src/Analyzers.CodeFixes/CSharp/CodeFixes/EnumMemberDeclarationCodeFixProvider.cs:226-232 | for a value 2^k with k < 31 the new expression evaluates back to the value |
| EnumMemberDeclarationCodeFix.ShiftWrapsFromBit31 | src/Analyzers.CodeFixes/CSharp/CodeFixes/EnumMemberDeclarationCodeFixProvider.cs:226-228 | for 2^k with k >= 31 the new expression does not evaluate to the value |
| EnumMemberDeclarationCodeFix.ShiftOfBit32IsOne | src/Analyzers.CodeFixes/CSharp/CodeFixes/EnumMemberDeclarationCodeFixProvider.cs:226-228 | the value 4294967296 is rewritten to an expression worth 1 |
| EnumMemberDeclarationCodeFix.ShiftChangesNonPowerOfTwo | src/Analyzers.CodeFixes/CSharp/CodeFixes/EnumMemberDeclarationCodeFixProvider.cs:226-228 | a positive value that is not a power of two is rewritten to an expression with a different value |
| EnumMemberDeclarationCodeFix.UseBitShiftOperatorChecked | src/Analyzers.CodeFixes/CSharp/CodeFixes/EnumMemberDeclarationCodeFixProvider.cs:215-233 | the corrected rewrite applies exactly to values 2^k with k < 31; there it agrees with the original and preserves the value |
| EnumMemberDeclarationCodeFix.DecimalLiteral | src/Analyzers.CodeFixes/CSharp/CodeFixes/EnumMemberDeclarationCodeFixProvider.cs:246-248 | the decimal text of a number, parsed back, is a literal of that same number |
| EnumMemberDeclarationCodeFix.ConvertToDecimalNumber | src/Analyzers.CodeFixes/CSharp/CodeFixes/EnumMemberDeclarationCodeFixProvider.cs:235-251 | the innermost value becomes a literal whose text is the decimal form of the field's value and whose value is that value, with the old trivia, the identifier, the `=` token and the parentheses kept; no clause fails |
| EnumMemberDeclarationCodeFix.DecimalShiftDecimal | src/Analyzers.CodeFixes/CSharp/CodeFixes/EnumMemberDeclarationCodeFixProvider.cs:215-251 | a decimal 2^k with k < 31 rewritten to shift form keeps its value, and converting back with that value gives the original member |
| EnumMemberDeclarationCodeFix.DecimalShiftDecimalFailsAt32 | src/Analyzers.CodeFixes/CSharp/CodeFixes/EnumMemberDeclarationCodeFixProvider.cs:215-251 | as written, 4294967296 rewritten to shift form has the value 1, and converting back with it does not give the original member |
| EnumMemberDeclarationCodeFix.UseBitShiftOperatorCheckedAcceptsPowers | src/Analyzers.CodeFixes/CSharp/CodeFixes/EnumMemberDeclarationCodeFixProvider.cs:215-233 | the corrected rewrite is offered for every power 2^0 to 2^30 |
| EnumMemberDeclarationCodeFix.FixesFor | src/Analyzers.CodeFixes/CSharp/CodeFixes/EnumMemberDeclarationCodeFixProvider.cs:36-108 | no enclosing member or another id gives no fix; otherwise one fix with the diagnostic's key and the exact title; it throws InvalidOperation exactly for a missing duplicate or an unknown style |
| EnumMemberDeclarationCodeFix.CodeFixContext.RegisterCodeFix | src/Analyzers.CodeFixes/CSharp/CodeFixes/EnumMemberDeclarationCodeFixProvider.cs:55 | registering appends the fix to the context's list |
| EnumMemberDeclarationCodeFix.RegisterCodeFixes | src/Analyzers.CodeFixes/CSharp/CodeFixes/EnumMemberDeclarationCodeFixProvider.cs:36-108 | the context's list grows by exactly the fixes FixesFor describes, or stays as it was when the method throws |
| CountPropertyCodeFix.Title | source/Pihrtsoft.CodeAnalysis.CSharp/CodeFixProviders/CodeFixes/UseCountOrLengthPropertyInsteadOfCountMethodCodeFix.cs:23 | the title is the fixed prefix, the property name, and a closing quote |
| CountPropertyCodeFix.PropertyNameFromTitle | source/Pihrtsoft.CodeAnalysis.CSharp/CodeFixProviders/CodeFixes/UseCountOrLengthPropertyInsteadOfCountMethodCodeFix.cs:23 | a name read out of a title is one whose title is that title |
| CountPropertyCodeFix.TitleRoundTrip | source/Pihrtsoft.CodeAnalysis.CSharp/CodeFixProviders/CodeFixes/UseCountOrLengthPropertyInsteadOfCountMethodCodeFix.cs:23 | the title `Replace 'Count()' with '<name>'` gives back exactly its name, so different names give different titles |
| CountPropertyCodeFix.Register | source/Pihrtsoft.CodeAnalysis.CSharp/CodeFixProviders/CodeFixes/UseCountOrLengthPropertyInsteadOfCountMethodCodeFix.cs:15-35 | the property name is the diagnostic's PropertyName entry verbatim, a missing entry throws, the title names it, the key is the id followed by the suffix |
| CountPropertyCodeFix.CountToProperty | source/Pihrtsoft.CodeAnalysis.CSharp/CodeFixProviders/CodeFixes/UseCountOrLengthPropertyInsteadOfCountMethodCodeFix.cs:45-51 | the result is a member access with the same receiver and dot and the property name, whose leading trivia is the old name's; the whole result carries the invocation's trivia; a callee that is no member access fails the cast |
| CountPropertyCodeFix.CountToPropertyRenames | source/Pihrtsoft.CodeAnalysis.CSharp/CodeFixProviders/CodeFixes/UseCountOrLengthPropertyInsteadOfCountMethodCodeFix.cs:45-51 | ignoring trivia, the result is the callee with its name replaced, so the argument list is gone |
| CountPropertyCodeFix.RefactorDocument | source/Pihrtsoft.CodeAnalysis.CSharp/CodeFixProviders/CodeFixes/UseCountOrLengthPropertyInsteadOfCountMethodCodeFix.cs:37-56 | the new root holds the rewritten member access where the invocation was, and fails exactly when the cast fails |
| CountPropertyCodeFix.RefactorDocumentLeavesOthers | source/Pihrtsoft.CodeAnalysis.CSharp/CodeFixProviders/CodeFixes/UseCountOrLengthPropertyInsteadOfCountMethodCodeFix.cs:53 | every node neither containing nor inside the invocation is unchanged in the new root |
| Syntax.WithTriviaFrom | source/Pihrtsoft.CodeAnalysis.CSharp/CodeFixProviders/CodeFixes/UseCountOrLengthPropertyInsteadOfCountMethodCodeFix.cs:50-51 | the node takes over the other node's leading and trailing trivia and is the same node when trivia is ignored (that inner trivia is kept is stated by WithTriviaFromRestores) |
| Syntax.WithTriviaFromRestores | source/Pihrtsoft.CodeAnalysis.CSharp/CodeFixProviders/CodeFixes/UseCountOrLengthPropertyInsteadOfCountMethodCodeFix.cs:50-51 | handing the node its own trivia back restores it exactly, so only the outer leading and trailing trivia change and inner tokens keep theirs |
| Syntax.WalkDownParentheses | src/Analyzers.CodeFixes/CSharp/CodeFixes/EnumMemberDeclarationCodeFixProvider.cs:146 | the result is not parenthesized, and a node that is not parenthesized is its own result |
| Syntax.ReplaceInnermost | src/Analyzers.CodeFixes/CSharp/CodeFixes/EnumMemberDeclarationCodeFixProvider.cs:155 | replacing the node below the parentheses keeps every parenthesis pair and puts the replacement innermost |
| Syntax.ReplaceAt | source/Pihrtsoft.CodeAnalysis.CSharp/CodeFixProviders/CodeFixes/UseCountOrLengthPropertyInsteadOfCountMethodCodeFix.cs:53 | after ReplaceNode the replacement sits at the replaced node's position |
| Syntax.WithChild | source/Pihrtsoft.CodeAnalysis.CSharp/CodeFixProviders/CodeFixes/UseCountOrLengthPropertyInsteadOfCountMethodCodeFix.cs:53 | rebuilding an ancestor replaces one child and keeps its constructor, its operator, its own tokens and its other children |
| Syntax.ReplaceAtRestores | source/Pihrtsoft.CodeAnalysis.CSharp/CodeFixProviders/CodeFixes/UseCountOrLengthPropertyInsteadOfCountMethodCodeFix.cs:53 | replacing the new node again by the old one gives back the original root, so ReplaceNode changes nothing but that node |
| Syntax.ReplaceAtKeepsAncestorTokens | source/Pihrtsoft.CodeAnalysis.CSharp/CodeFixProviders/CodeFixes/UseCountOrLengthPropertyInsteadOfCountMethodCodeFix.cs:53 | every ancestor of the replaced node keeps its own tokens (parentheses, operators, dots), its constructor and its operator |
| Syntax.ReplaceAtLeavesOthers | source/Pihrtsoft.CodeAnalysis.CSharp/CodeFixProviders/CodeFixes/UseCountOrLengthPropertyInsteadOfCountMethodCodeFix.cs:53 | ReplaceNode leaves every node at an unrelated position unchanged |
| Numerals.FloorLog2 | src/Analyzers.CodeFixes/CSharp/CodeFixes/EnumMemberDeclarationCodeFixProvider.cs:226 | the exponent is the largest k with 2^k at most the value |
| Numerals.FloorLog2OfPow2 | src/Analyzers.CodeFixes/CSharp/CodeFixes/EnumMemberDeclarationCodeFixProvider.cs:226 | for a power of two 2^k the exponent is exactly k |
| Numerals.DecimalText | src/Analyzers.CodeFixes/CSharp/CodeFixes/EnumMemberDeclarationCodeFixProvider.cs:246 | `ToString("d")` writes digits only, with no leading zero |
| Numerals.ParseDecimalText | src/Analyzers.CodeFixes/CSharp/CodeFixes/EnumMemberDeclarationCodeFixProvider.cs:246-248 | the decimal text of a number parses back to that number |
| Numerals.DecimalTextOfParse | src/Analyzers.CodeFixes/CSharp/CodeFixes/EnumMemberDeclarationCodeFixProvider.cs:246-248 | canonical decimal text is what ToString writes for its parsed value |
| Numerals.Wrap32 | src/Analyzers.CodeFixes/CSharp/CodeFixes/EnumMemberDeclarationCodeFixProvider.cs:228 | an unchecked `int` result lies in the 32-bit range and differs from the exact result by a multiple of 2^32, so it equals it when that is in range |

## Left out

- The `async`/`await` plumbing is left out: `Task`, cancellation tokens and `ConfigureAwait`. Every operation is a synchronous function or method.
- The Roslyn semantic model is left out, and its answers are inputs: `GetDeclaredSymbol`, `GetConstantValue`, obsolescence, symbol equality and `EnumFieldSymbolInfo.Create`. Symbols are numbers; enum field values are natural numbers, and the constant value the shift rewrite reads is an integer.
- `EnumSymbolInfo.Decompose` is left out. The decomposed list is an input with at least two entries, and the model does not rely on how it relates to the member's value.
- The delegated handlers of the second switch are left out. This covers their own registrations, `CommentOutRefactoring`, `RemoveAllStatementsRefactoring`, `RemoveAllMemberDeclarationsRefactoring` and `MoveUnsafeContextToContainingDeclarationRefactoring`. Each appears as a tag in the registration order.
- `CSharpFacts.CanHaveMembers`, `ConvertBlockBodyToExpressionBodyRefactoring.CanRefactor` and `MemberDeclarationListSelection.TryCreate` are left out. They are boolean inputs.
- `CSharpFacts.GetTitle`, the remove/duplicate titles and the refactoring equivalence keys are left out. A registered refactoring is identified by its tag.
- `TryFindFirstAncestorOrSelf` is left out. Whether an enum member encloses the diagnostic span is an input.
- The diagnostic id strings and `GetEquivalenceKey` are left out. Ids are a datatype, and the key is an input.
- The configuration lookup for the flag-value style is left out. The style is an input.
- `Document.ReplaceNodeAsync` on the enum member is left out. The enum rewrites return the new member declaration, and the document-level replacement is modelled only for the `Count()` fix.
- `WithFormatterAnnotation` is left out, because it has no effect on the tree's content.
- `BaseCodeFixProvider.EquivalenceKeySuffix` is left out. The suffix is a parameter.
- `Identifier.ValueText` is taken as the identifier's text. The model does not distinguish `@`-escaped identifiers.
- EnumMemberDeclarationCodeFix.UseBitShiftOperator: `(int)Math.Log(Convert.ToDouble(v), 2)` is replaced by the exact integer logarithm. Double rounding near large powers of two is not modelled. A non-positive constant returns `NotModelled`: there the source casts the logarithm of zero or of a negative number (negative infinity or NaN) to `int`, whose result C# leaves unspecified. A missing constant is `InvalidOperation`, which `Optional<T>.Value` throws in Roslyn.
- EnumMemberDeclarationCodeFix.UseBitShiftOperator and EnumMemberDeclarationCodeFix.ConvertToDecimalNumber: a member without a value clause fails with `NullReference`. The source first builds a null expression and then fails when it uses it (lines 222-232 and 244-250). Which exception is thrown there is not modelled.
- EnumMemberDeclarationCodeFix.SortFields is an insertion sort; List.Sort is introspective and unstable. Only what the source promises is stated: ordered by the comparer, and a permutation. The order among members that compare equal is not stated.
- EnumMemberDeclarationCodeFix.FlagsValue evaluates only names and `|` (and parentheses). Other constant expressions in an enum value are outside the model.
- Enum values are unbounded natural numbers. The 64-bit range of `ulong` is not enforced, because no modelled operation wraps at 64 bits.

## Findings

| source | as written | input that shows it | evidently intended | confidence | as-written member | corrected member |
|---|---|---|---|---|---|---|
| src/Analyzers.CodeFixes/CSharp/CodeFixes/EnumMemberDeclarationCodeFixProvider.cs:226-228 | the shift form is `1 << power` built from two `int` literals, for any power | a flag value 4294967296 (2^32) in a `ulong` enum becomes `1 << 32`, which C# evaluates to 1; 2^31 becomes `1 << 31`, which is negative | offer the shift form only where it denotes the same value (powers 2^0 to 2^30), or widen the literal | medium, not executed | EnumMemberDeclarationCodeFix.UseBitShiftOperator (with ShiftWrapsFromBit31, ShiftOfBit32IsOne) | EnumMemberDeclarationCodeFix.UseBitShiftOperatorChecked |
