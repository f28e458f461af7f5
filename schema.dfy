/**
 * The shape of a stored hack and of its comments, with the required fields
 * and the defaults that the two schema files declare.
 */
module Schema {
  import opened Wrappers

  /** The required fields whose absence makes a save fail validation. */
  datatype Field = CommentText | CommentUserName | Title | CodeLang | HackUserName

  /**
   * A comment or a reply. `replies` holds comments of the same shape, so the
   * depth of a discussion is unbounded. `id` is the identifier the database
   * assigns, in its string form.
   */
  datatype Comment = Comment(
    id: string,
    text: string,
    userName: string,
    twitterId: Option<string>,
    likeCount: int,
    replies: seq<Comment>)

  /** A comment as a request creates it: no likes and no replies yet. */
  function NewComment(id: string, text: string, userName: string, twitterId: Option<string>): Comment
  {
    Comment(id, text, userName, twitterId, 0, [])
  }

  /**
   * The required comment fields a comment with this text and author lacks.
   * A required string counts as absent when it is empty; the Twitter handle
   * is optional and never makes a comment invalid.
   */
  function MissingCommentFields(text: string, userName: string): (missing: set<Field>)
    ensures missing <= {CommentText, CommentUserName}
    ensures missing == {} <==> text != "" && userName != ""
    ensures CommentText in missing <==> text == ""
    ensures CommentUserName in missing <==> userName == ""
  {
    (if text == "" then {CommentText} else {}) + (if userName == "" then {CommentUserName} else {})
  }

  /** The fields a submitted hack carries; the counters and comments are not submitted. */
  datatype HackInput = HackInput(
    title: string,
    description: Option<string>,
    code: Option<string>,
    codeLang: string,
    userName: string,
    twitterId: Option<string>)

  /**
   * The required hack fields the input lacks. Title, language and author are
   * required; description, code and Twitter handle are optional.
   */
  function MissingHackFields(input: HackInput): (missing: set<Field>)
    ensures missing <= {Title, CodeLang, HackUserName}
    ensures missing == {} <==> input.title != "" && input.codeLang != "" && input.userName != ""
    ensures Title in missing <==> input.title == ""
    ensures CodeLang in missing <==> input.codeLang == ""
    ensures HackUserName in missing <==> input.userName == ""
  {
    (if input.title == "" then {Title} else {})
      + (if input.codeLang == "" then {CodeLang} else {})
      + (if input.userName == "" then {HackUserName} else {})
  }
}
