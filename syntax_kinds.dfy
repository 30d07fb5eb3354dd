/** The kinds of token the syntax classifier reports. The classifier itself
    (SourceKitten's syntax map) is outside this model: the rule only reads
    the kinds it is given. */
module SyntaxKinds {

  datatype SyntaxKind =
    | Argument | AttributeBuiltin | AttributeID | BuildconfigID | BuildconfigKeyword
    | Comment | CommentMark | CommentURL | DocComment | DocCommentField
    | Identifier | Keyword | Number | ObjectLiteral | Parameter | Placeholder
    | String | StringInterpolationAnchor | Typeidentifier

  /** The kinds of comments and string literals, in which colon-shaped text
      is never a type annotation: six kinds, none of them one of the two
      kinds a type annotation starts with. */
  function CommentAndStringKinds(): (r: set<SyntaxKind>)
    ensures |r| == 6 && Comment in r && String in r && DocComment in r
    ensures Identifier !in r && Typeidentifier !in r
  {
    {Comment, CommentMark, CommentURL, DocComment, DocCommentField, String}
  }
}
