# Code hacks: comment tree and engagement counters

A model of the backend that stores user-submitted code snippets ("hacks"),
each with a threaded discussion and engagement counters. The model covers:

- **The comment forest of one hack.** Comments hold replies of the same shape,
  nested to any depth.
- **The depth-first search `findParentComment`.** It finds a comment or reply
  by id.
- **The in-memory changes the request handlers make to a loaded hack before
  saving it:**
  - adding a top-level comment or a reply;
  - liking and disliking a comment or reply;
  - liking and disliking the hack itself;
  - reporting it;
  - recording a visit.
- **The record shape, required fields and defaults** from the two schema
  files.

The model has four modules:

- `Wrappers` holds `Option`.
- `Schema` holds the `Comment` datatype, the submitted hack fields, and the
  required-field checks that a save performs.
- `CommentTree` holds the search and the edits.
  - The search is `Locate`, a recursive function that mirrors the loop with
    early return and its recursion into replies.
  - The edits are `UpdateAt` with an `Edit` of `CastVote` or `AppendReply`.
  - Both are specified against the pre-order listing `Flat` of the forest.
  - `Rank` is the position of a path in that listing.
  - `FirstIndex` is an independent linear scan of the listing.
- `Engagement` holds a class `Hack` whose fields the handler methods update
  in place. `Valid()` is the invariant every saved hack keeps:
  - the required fields are present;
  - every comment and reply has a text and an author and a like counter of at
    least zero;
  - ids are unique in the whole forest;
  - the offensive score is the one the report count gives;
  - the comment count equals the number of comments and replies.

A handler is a method on a hack already loaded from the database, and the
end of the method stands for the save. Its `Outcome` is one of:

- `Ok`;
- `NotFound(ParentComment)` or `NotFound(CommentOrReply)`, matching the two
  404 messages;
- `Invalid(fields)`, when the save would fail validation. In that case
  nothing is stored.

The offensive score is kept in hundredths, an exact integer. Reporting `n`
times gives `20·n` hundredths, which is `n/5` to two decimals, with no upper
bound.

Where the code and its comments disagree, the model follows the code:

- Hack-level dislike decrements with no floor (routes/hack.js:68), although
  the comment above that line says "if greater than 0", so the hack's like
  counter can go below zero. `Engagement.DislikeExample` shows this.
- Comment-level dislike has a floor at zero (routes/hack.js:194-196).

## Model

| member | source | states |
|---|---|---|
| `Schema.MissingCommentFields` | modals/hack.js:5-15 | A comment fails validation exactly when its text or its author is empty. Each missing field is named. The Twitter handle is never required. |
| `Schema.NewComment` | routes/hack.js:93-98 | The comment object the handler builds, with no replies and the like counter default of modals/hack.js:16-19. It has no contract of its own: `Engagement.InsertKeepsValid` proves the new comment is then found by its id, with zero likes and no replies. |
| `Schema.MissingHackFields` | models/hack.js:29-50 | A hack fails validation exactly when its title, language or author is empty. Each missing field is named. Description, code and Twitter handle are optional. |
| `CommentTree.Locate` | routes/hack.js:209-222 | Finds nothing exactly when no comment or reply carries the id, including in an empty forest. Otherwise it returns a valid path whose pre-order position is the first position of the listing holding that id. |
| `CommentTree.LocateFrom` | routes/hack.js:209-222 | The loop over siblings with early return and recursion into replies. It has no contract of its own: `CommentTree.LocateFromFirst` proves it returns the first match of the pre-order listing. |
| `CommentTree.LocateFromFirst` | routes/hack.js:210-221 | The search started at the i-th sibling returns the first match of the pre-order listing of siblings i onward. It returns nothing when that listing has no match. |
| `CommentTree.FoundHere` | routes/hack.js:211-213 | A sibling that carries the id is returned and is the first match from its position on. |
| `CommentTree.FoundBelow` | routes/hack.js:214-218 | When a sibling does not match but its replies do, the match found in the replies is the first match from that sibling on. |
| `CommentTree.FoundLater` | routes/hack.js:214-220 | When neither a sibling nor its replies match, the search moves to the next sibling with the same result. |
| `CommentTree.FirstIndexFirst` | routes/hack.js:209-222 | The reference scan finds nothing exactly when the id is absent. Otherwise it returns an in-range index holding the id, with no earlier index holding it. |
| `CommentTree.LocateFinds` | routes/hack.js:211-212 | The located comment carries the id, and no comment before it in pre-order does. |
| `CommentTree.LocateListed` | routes/hack.js:209-222 | When ids are unique, every comment or reply is found by its own id, at its own position in the listing. |
| `CommentTree.Apply` | routes/hack.js:106 | The change to the located comment: a reply push, a like, or a dislike that leaves zero at zero (lines 162 and 194-196). It has no contract of its own: `CommentTree.Voted`, `CommentTree.UpdateAtSegment` and `CommentTree.AppendReplySplices` state what it does to the forest. |
| `CommentTree.UpdateAt` | routes/hack.js:101-106 | Editing the located comment changes that comment as the edit says. It keeps the number of top-level comments and every other top-level comment. |
| `CommentTree.UpdateAtSegment` | routes/hack.js:155-162 | Editing a located comment replaces exactly the stretch of the listing its subtree occupies. Everything before and after that stretch is kept. |
| `CommentTree.VoteChangesOneEntry` | routes/hack.js:187-196 | A vote changes the like counter of the located comment's entry and no other entry of the listing. |
| `CommentTree.AppendReplySplices` | routes/hack.js:101-106 | A new reply adds one to its parent's reply count and is listed right after the parent's existing subtree. Every other entry keeps its value and order. |
| `CommentTree.AppendTopLevel` | routes/hack.js:108 | A new top-level comment is listed last, and the listing is otherwise unchanged. |
| `CommentTree.Voted` | routes/hack.js:193-196 | A like raises the counter. A dislike lowers it exactly when it is above zero. A counter of at least zero stays at least zero. |
| `CommentTree.Tally` | routes/hack.js:187-196 | A comment's like counter after any sequence of likes and dislikes from zero is never negative. |
| `CommentTree.TallyAtLeastBalance` | routes/hack.js:155-196 | After any sequence of votes, the counter is at least the likes minus the dislikes. |
| `CommentTree.TallyIsBalance` | routes/hack.js:162-196 | When dislikes never run ahead of likes in any prefix, the counter is exactly the likes minus the dislikes. |
| `CommentTree.TallyAboveBalance` | routes/hack.js:193-196 | Once some prefix of the votes has more dislikes than likes, the floor has acted and the counter stays strictly above likes minus dislikes from then on. |
| `CommentTree.TallyBalanceExactly` | routes/hack.js:162-196 | The counter equals likes minus dislikes if and only if no prefix of the votes has more dislikes than likes. |
| `Engagement.HundredthsOf` | routes/hack.js:238 | Two-decimal rounding of a quotient, kept as integer hundredths. It has no contract of its own: `Engagement.OffensiveScore` proves the result for the reports/5 quotient. |
| `Engagement.OffensiveScore` | routes/hack.js:237-238 | Rounding reports/5 to two decimals is exact: the score is 20 hundredths per report, with no cap. |
| `Engagement.Place` | routes/hack.js:100-109 | An absent or empty `replyTo` places the comment at the top level. Otherwise it goes under a comment carrying that id, with no earlier comment in pre-order carrying it. There is no place exactly when no comment or reply has the id. |
| `Engagement.Insert` | routes/hack.js:101-109 | The branch between pushing onto the top-level comments and pushing onto the located parent's replies. It has no contract of its own: `Engagement.InsertListing` and `Engagement.InsertKeepsValid` state its effect. |
| `Engagement.InsertListing` | routes/hack.js:101-108 | A top-level insert lists the comment last. A reply insert keeps the top-level length, bumps only the parent's reply count, and lists the reply after the parent's subtree. |
| `Engagement.InsertKeepsValid` | routes/hack.js:93-112 | Inserting a valid new comment with a fresh id keeps the stored-forest invariant. It adds exactly one comment, and the new id then locates exactly the new comment, with no likes and no replies. |
| `Engagement.TopLevelKeepsStored` | routes/hack.js:108 | Appending an admissible entry keeps every entry valid and all ids unique. |
| `Engagement.ReplyKeepsStored` | routes/hack.js:106 | A reply splice keeps every entry valid and all ids unique. It adds one entry, which sits right after the parent's subtree. |
| `Engagement.VoteKeepsStored` | routes/hack.js:193-196 | A vote keeps every entry valid, so no comment's like counter goes below zero, and keeps all ids unique. |
| `Engagement.Hack.constructor` | models/hack.js:51-71 | A new hack has likes, comment count, report count, offensive score and visit count at zero, and no comments. |
| `Engagement.Create` | routes/hack.js:9-25 | Creating a hack fails validation, storing nothing, exactly when a required field is missing. Otherwise it yields a valid hack with every counter at its default. |
| `Engagement.Hack.Like` | routes/hack.js:41-42 | The hack's like counter goes up by one, and nothing else changes. |
| `Engagement.Hack.Dislike` | routes/hack.js:67-68 | The hack's like counter goes down by one, even below zero, and nothing else changes. |
| `Engagement.Hack.Report` | routes/hack.js:234-238 | The report count goes up by one, and the score becomes 20 hundredths per report. |
| `Engagement.Hack.Visit` | routes/hack.js:262-263 | The visit count becomes the old count plus one, with an unset count treated as zero. |
| `Engagement.Hack.AddComment` | routes/hack.js:82-113 | An unknown parent gives `NotFound(ParentComment)` with no change. Missing fields give `Invalid` with no change. Otherwise the new comment is inserted at its place and the comment count rises by one. The invariant, including count equals node count, is kept. |
| `Engagement.Hack.VoteOnComment` | routes/hack.js:143-199 | An unknown id gives `NotFound(CommentOrReply)` with no change. Otherwise the located comment alone gets the vote, a dislike leaving zero at zero, and the invariant is kept. |

## Left out

- Routing, request parsing and the mapping of outcomes to HTTP status codes are not modelled.
- Loading a hack by id, and its "Hack not found" answer, is not modelled; every handler method starts from a loaded hack.
- Persistence is not modelled: `findById`, `save`, the database connection (database/connection.js) and the async plumbing are foreign library calls. A save failure other than validation is not represented.
- The response lookup after a comment insert (routes/hack.js:115-128) is not modelled. It re-queries by comment text, and for a reply it returns the parent's first reply (line 122), which is the new reply only when the parent had none.
- The ranking and listing queries (routes/hack.js:276-348) are single database sort and limit calls, so they are not modelled.
- The server setup, middleware and logging (index.js, utils/logger.js) are not modelled.
- Concurrent requests on the same hack, and the lost updates they can cause, are not modelled; each handler runs alone.
- Floating point, `toFixed` and `parseFloat` are not modelled: the offensive score is integer hundredths, and `Engagement.HundredthsOf` rounds half up as two-decimal formatting does on exact values.
- Timestamps are not modelled.
- The typed versus untyped replies of the two schema files are not distinguished: both are read as a list of comments of the same shape.
- A required string counts as missing when it is empty; an absent value is written as the empty string.
- Fields of a non-string type sent in a request are not modelled.
- The routes import modals/hack.js, whose schema has no report count, offensive score or visit count. Those three fields and their defaults follow models/hack.js:60-71.
- Engagement.Hack.AddComment: the new comment's id is a parameter that must not occur in the forest. It stands for the id the document mapper assigns when the comment is pushed, which is fresh by construction.
- Engagement.Hack.VoteOnComment: one method models both the like and the dislike handler (routes/hack.js:143-172 and 175-206). `Up` stands for a like and `Down` for a dislike.
