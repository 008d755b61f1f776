/** The code fix that replaces a `Count()` call by the `Count` or `Length`
    property (UseCountOrLengthPropertyInsteadOfCountMethodCodeFix): the code
    action it registers, and the rewrite of the invocation into a member access. */
module CountPropertyCodeFix {
  import opened Syntax

  /** A diagnostic as the fix reads it: its id and its string properties. */
  datatype Diagnostic = Diagnostic(id: string, properties: map<string, string>)

  /** The registered code action; applying it rewrites the invocation with `propertyName`. */
  datatype CodeAction = CodeAction(title: string, equivalenceKey: string, propertyName: string)

  const PropertyNameKey := "PropertyName"
  const TitlePrefix := "Replace 'Count()' with '"

  /** The code action's title: `Replace 'Count()' with '<propertyName>'`. */
  function Title(propertyName: string): (r: string)
    ensures |r| == |TitlePrefix| + |propertyName| + 1
    ensures r[..|TitlePrefix|] == TitlePrefix
    ensures r[|TitlePrefix|..|r| - 1] == propertyName
    ensures r[|r| - 1] == '\''
  {
    TitlePrefix + propertyName + "'"
  }

  /** Reads the property name back out of a title. */
  function PropertyNameFromTitle(title: string): (r: Option<string>)
    ensures r.Some? ==> Title(r.value) == title
  {
    if |title| >= |TitlePrefix| + 1 && title[..|TitlePrefix|] == TitlePrefix && title[|title| - 1] == '\''
    then
      var name := title[|TitlePrefix|..|title| - 1];
      assert Title(name) == title[..|TitlePrefix|] + name + [title[|title| - 1]];
      Some(name)
    else None
  }

  /** Every title names its property: different properties give different titles. */
  lemma {:induction false} TitleRoundTrip(propertyName: string)
    ensures PropertyNameFromTitle(Title(propertyName)) == Some(propertyName)
  {
    var t := Title(propertyName);
    assert t[..|TitlePrefix|] == TitlePrefix;
    assert t[|TitlePrefix|..|t| - 1] == propertyName;
  }

  /** Register: the property name comes verbatim from the diagnostic's properties
      (a missing entry throws), the key is the diagnostic id followed by the suffix. */
  function Register(diagnostic: Diagnostic, equivalenceKeySuffix: string): (r: Result<CodeAction, Failure>)
    ensures r.Err? <==> PropertyNameKey !in diagnostic.properties
    ensures r.Err? ==> r.error == KeyNotFound
    ensures r.Ok? ==> r.value.propertyName == diagnostic.properties[PropertyNameKey]
                      && PropertyNameFromTitle(r.value.title) == Some(r.value.propertyName)
                      && |r.value.equivalenceKey| == |diagnostic.id| + |equivalenceKeySuffix|
                      && r.value.equivalenceKey[..|diagnostic.id|] == diagnostic.id
                      && r.value.equivalenceKey[|diagnostic.id|..] == equivalenceKeySuffix
  {
    if PropertyNameKey !in diagnostic.properties then Err(KeyNotFound)
    else
      var propertyName := diagnostic.properties[PropertyNameKey];
      TitleRoundTrip(propertyName);
      Ok(CodeAction(Title(propertyName), diagnostic.id + equivalenceKeySuffix, propertyName))
  }

  /** RefactorAsync, on the invocation alone: `receiver.Count(args)` becomes
      `receiver.<propertyName>`; the new name keeps the old name's trivia and the
      whole expression the invocation's. A callee that is not a member access fails
      the cast. */
  function CountToProperty(invocation: Node, propertyName: string): (r: Result<Node, Failure>)
    requires invocation.Invocation?
    ensures r.Err? <==> !invocation.callee.MemberAccess?
    ensures r.Err? ==> r.error == InvalidCast
    ensures r.Ok? ==>
              var memberAccess := invocation.callee;
              r.value.MemberAccess?
              && r.value.receiver == memberAccess.receiver
              && r.value.dot == memberAccess.dot
              && r.value.name.IdentifierName?
              && r.value.name.identifier.kind == IdentifierToken
              && r.value.name.identifier.text == propertyName
              && r.value.name.identifier.leading == LeadingTrivia(memberAccess.name)
              && LeadingTrivia(r.value) == LeadingTrivia(invocation)
              && TrailingTrivia(r.value) == TrailingTrivia(invocation)
  {
    if !invocation.callee.MemberAccess? then Err(InvalidCast)
    else
      var memberAccess := invocation.callee;
      var name := WithTriviaFrom(NewIdentifierName(propertyName), memberAccess.name);
      var renamed := memberAccess.(name := name);
      assert name == IdentifierName(Token(IdentifierToken, LeadingTrivia(memberAccess.name), propertyName,
                                          TrailingTrivia(memberAccess.name)));
      WithOwnLeadingTrivia(memberAccess.receiver);
      assert WithLeadingTrivia(renamed, LeadingTrivia(invocation)) == renamed;
      Ok(WithTriviaFrom(renamed, invocation))
  }

  /** Ignoring trivia, the result is the callee with its name replaced: the
      receiver and the dot stay, the argument list goes. */
  lemma CountToPropertyRenames(invocation: Node, propertyName: string)
    requires invocation.Invocation? && invocation.callee.MemberAccess?
    ensures CountToProperty(invocation, propertyName).Ok?
    ensures StripTrivia(CountToProperty(invocation, propertyName).value)
            == StripTrivia(invocation.callee.(name := NewIdentifierName(propertyName)))
  {
  }

  /** The whole fix: the invocation at `path` in the syntax root is replaced by its rewrite. */
  function RefactorDocument(root: Node, path: seq<nat>, propertyName: string): (r: Result<Node, Failure>)
    requires ValidPath(root, path) && SubtreeAt(root, path).Invocation?
    ensures r.Err? <==> !SubtreeAt(root, path).callee.MemberAccess?
    ensures r.Ok? ==> ValidPath(r.value, path)
                      && SubtreeAt(r.value, path) == CountToProperty(SubtreeAt(root, path), propertyName).value
  {
    match CountToProperty(SubtreeAt(root, path), propertyName)
    case Ok(memberAccess) => Ok(ReplaceAt(root, path, memberAccess))
    case Err(e) => Err(e)
  }

  /** ReplaceNode touches nothing outside the invocation: every node at a path
      that neither contains nor lies inside it is unchanged. */
  lemma RefactorDocumentLeavesOthers(root: Node, path: seq<nat>, propertyName: string, q: seq<nat>)
    requires ValidPath(root, path) && SubtreeAt(root, path).Invocation?
    requires RefactorDocument(root, path, propertyName).Ok?
    requires ValidPath(root, q) && Unrelated(path, q)
    ensures ValidPath(RefactorDocument(root, path, propertyName).value, q)
    ensures SubtreeAt(RefactorDocument(root, path, propertyName).value, q) == SubtreeAt(root, q)
  {
    var rewritten := CountToProperty(SubtreeAt(root, path), propertyName).value;
    ReplaceAtLeavesOthers(root, path, rewritten, q);
  }
}
