/**
 * One stored hack and the request handlers that change its counters and its
 * comments. Each handler is a method on a hack that has already been loaded;
 * the method's end stands for the save, and a result other than `Ok` means
 * nothing was saved.
 */
module Engagement {
  import opened Wrappers
  import opened Schema
  import opened CommentTree

  /** The lookup whose failure a handler reports as "not found". */
  datatype Lookup = ParentComment | CommentOrReply

  /** How a handler ends: saved, a failed lookup, or a save that fails validation. */
  datatype Outcome = Ok | NotFound(missing: Lookup) | Invalid(fields: set<Field>)

  /**
   * `num / den` rounded to two decimals, in hundredths (halves round up),
   * as formatting with two fraction digits does.
   */
  function HundredthsOf(num: nat, den: nat): nat
    requires den > 0
  {
    (200 * num + den) / (2 * den)
  }

  /**
   * The offensive score after `reports` reports: the number of reports
   * divided by five, to two decimals. The rounding never loses anything, and
   * the score has no upper bound.
   */
  function OffensiveScore(reports: nat): (hundredths: nat)
    ensures hundredths == 20 * reports
  {
    assert 200 * reports + 5 == 10 * (20 * reports) + 5;
    HundredthsOf(reports, 5)
  }

  /**
   * What saving a hack has established about its comments: every comment and
   * reply has its required fields, no like counter is negative, and no two
   * carry the same id.
   */
  predicate Stored(es: seq<Entry>)
  {
    && UniqueIds(es)
    && forall e :: e in es ==> e.text != "" && e.userName != "" && e.likeCount >= 0
  }

  /** An entry that passes validation as a new comment with a fresh id. */
  predicate Admissible(es: seq<Entry>, w: Entry)
  {
    Absent(es, w.id) && w.text != "" && w.userName != "" && w.likeCount >= 0
  }

  /** Changing an entry but not its id, text or author, and no counter below zero, keeps the listing stored. */
  lemma ChangeKeepsStored(before: seq<Entry>, k: nat, x: Entry)
    requires Stored(before) && k < |before|
    requires x.id == before[k].id && x.text == before[k].text && x.userName == before[k].userName && x.likeCount >= 0
    ensures Stored(before[k := x])
  {
    var after := before[k := x];
    SameIdKeepsUnique(before, k, x);
    forall e | e in after ensures e.text != "" && e.userName != "" && e.likeCount >= 0 {
      var j :| 0 <= j < |after| && after[j] == e;
      assert before[j] in before;
    }
  }

  /** Changing an entry but not its id keeps an id absent. */
  lemma ChangeKeepsAbsent(before: seq<Entry>, k: nat, x: Entry, t: string)
    requires Absent(before, t) && k < |before| && x.id == before[k].id
    ensures Absent(before[k := x], t)
  {
    var after := before[k := x];
    forall e | e in after ensures e.id != t {
      var j :| 0 <= j < |after| && after[j] == e;
      assert before[j] in before;
    }
  }

  /** Inserting an admissible entry anywhere keeps the listing stored. */
  lemma InsertKeepsStored(before: seq<Entry>, j: nat, w: Entry)
    requires Stored(before) && Admissible(before, w) && j <= |before|
    ensures Stored(before[..j] + [w] + before[j..])
  {
    var after := before[..j] + [w] + before[j..];
    FreshIdKeepsUnique(before, j, w);
    forall e | e in after ensures e.text != "" && e.userName != "" && e.likeCount >= 0 {
      if e != w {
        assert e in before[..j] || e in before[j..];
      }
    }
  }

  /** A new top-level comment keeps the listing stored. */
  lemma TopLevelKeepsStored(before: seq<Entry>, w: Entry)
    requires Stored(before) && Admissible(before, w)
    ensures Stored(before + [w])
  {
    InsertKeepsStored(before, |before|, w);
    assert before[..|before|] + [w] + before[|before|..] == before + [w];
  }

  /** A new reply keeps the listing stored and sits right after its parent's subtree. */
  lemma ReplyKeepsStored(before: seq<Entry>, after: seq<Entry>, k: nat, n: nat, w: Entry)
    requires Stored(before) && Admissible(before, w) && ReplyListed(before, after, k, n, w)
    ensures Stored(after) && |after| == |before| + 1 && after[k + n] == w
  {
    var x := before[k].(replyCount := before[k].replyCount + 1);
    var mid := before[k := x];
    ChangeKeepsStored(before, k, x);
    ChangeKeepsAbsent(before, k, x, w.id);
    InsertKeepsStored(mid, k + n, w);
    assert after == mid[..k + n] + [w] + mid[k + n..] by {
      assert mid[..k + n] == before[..k] + [x] + before[k + 1..k + n];
      assert mid[k + n..] == before[k + n..];
    }
  }

  /** A vote on one comment keeps the listing stored. */
  lemma VoteKeepsStored(before: seq<Entry>, k: nat, v: Vote)
    requires Stored(before) && k < |before|
    ensures Stored(before[k := before[k].(likeCount := Voted(before[k].likeCount, v))])
  {
    assert before[k] in before;
    ChangeKeepsStored(before, k, before[k].(likeCount := Voted(before[k].likeCount, v)));
  }

  /** A leaf comment is determined by its entry. */
  lemma LeafByEntry(c: Comment, n: Comment)
    requires EntryOf(c) == EntryOf(n) && n.replies == []
    ensures c == n
  {
    assert |c.replies| == 0;
  }

  /** A hack as stored, with the counters the handlers change. */
  class Hack {
    const info: HackInput
    var likeCount: int
    var commentCount: int
    var isReported: nat
    /** In hundredths. */
    var offensiveScore: nat
    /** `None` for a document stored before the field had a default. */
    var mostVisited: Option<nat>
    var comments: seq<Comment>

    /** What every saved hack satisfies. */
    ghost predicate Valid()
      reads this
    {
      && MissingHackFields(info) == {}
      && Stored(Flat(comments))
      && offensiveScore == OffensiveScore(isReported)
      && commentCount == |Flat(comments)|
    }

    /** A hack as creation stores it, with every counter at its default. */
    constructor (info: HackInput)
      requires MissingHackFields(info) == {}
      ensures Valid()
      ensures this.info == info && comments == []
      ensures likeCount == 0 && commentCount == 0 && isReported == 0 && offensiveScore == 0
      ensures mostVisited == Some(0)
    {
      this.info := info;
      likeCount := 0;
      commentCount := 0;
      isReported := 0;
      offensiveScore := 0;
      mostVisited := Some(0);
      comments := [];
    }

    /** One like for the hack. */
    method Like()
      requires Valid()
      modifies this
      ensures Valid()
      ensures likeCount == old(likeCount) + 1
      ensures commentCount == old(commentCount) && comments == old(comments)
      ensures isReported == old(isReported) && offensiveScore == old(offensiveScore)
      ensures mostVisited == old(mostVisited)
    {
      likeCount := likeCount + 1;
    }

    /** One dislike for the hack: the counter goes down even below zero. */
    method Dislike()
      requires Valid()
      modifies this
      ensures Valid()
      ensures likeCount == old(likeCount) - 1
      ensures commentCount == old(commentCount) && comments == old(comments)
      ensures isReported == old(isReported) && offensiveScore == old(offensiveScore)
      ensures mostVisited == old(mostVisited)
    {
      likeCount := likeCount - 1;
    }

    /** One report: the report count goes up and the score follows it. */
    method Report()
      requires Valid()
      modifies this
      ensures Valid()
      ensures isReported == old(isReported) + 1 && offensiveScore == 20 * isReported
      ensures likeCount == old(likeCount) && commentCount == old(commentCount) && comments == old(comments)
      ensures mostVisited == old(mostVisited)
    {
      isReported := isReported + 1;
      offensiveScore := OffensiveScore(isReported);
    }

    /** One visit: an unset visit count counts as zero. */
    method Visit()
      requires Valid()
      modifies this
      ensures Valid()
      ensures mostVisited == Some(old(mostVisited).GetOr(0) + 1)
      ensures likeCount == old(likeCount) && commentCount == old(commentCount) && comments == old(comments)
      ensures isReported == old(isReported) && offensiveScore == old(offensiveScore)
    {
      mostVisited := Some(mostVisited.GetOr(0) + 1);
    }

    /**
     * A new comment with the id `newId`, which the database gives it, placed
     * as `replyTo` says. The lookup of the parent comes first, then the
     * validation of the new comment's fields.
     */
    method AddComment(newId: string, text: string, userName: string, twitterId: Option<string>,
                      replyTo: Option<string>) returns (r: Outcome)
      requires Valid() && Absent(Flat(comments), newId)
      modifies this
      ensures Valid()
      ensures r.NotFound? <==> Place(old(comments), replyTo).None?
      ensures r.NotFound? ==> r.missing == ParentComment
      ensures r.Invalid? <==> Place(old(comments), replyTo).Some? && MissingCommentFields(text, userName) != {}
      ensures r.Invalid? ==> r.fields == MissingCommentFields(text, userName)
      ensures r != Ok ==> comments == old(comments) && commentCount == old(commentCount)
      ensures r == Ok ==>
        && comments == Insert(old(comments), NewComment(newId, text, userName, twitterId), Place(old(comments), replyTo).value)
        && commentCount == old(commentCount) + 1
      ensures likeCount == old(likeCount) && isReported == old(isReported)
      ensures offensiveScore == old(offensiveScore) && mostVisited == old(mostVisited)
    {
      var place := Place(comments, replyTo);
      if place.None? {
        return NotFound(ParentComment);
      }
      var missing := MissingCommentFields(text, userName);
      if missing != {} {
        return Invalid(missing);
      }
      var n := NewComment(newId, text, userName, twitterId);
      InsertKeepsValid(comments, n, place.value);
      comments := Insert(comments, n, place.value);
      commentCount := commentCount + 1;
      r := Ok;
    }

    /**
     * A like (`Up`) or a dislike (`Down`) for the first comment or reply
     * carrying the id `id`. A dislike leaves a counter at zero unchanged.
     */
    method VoteOnComment(id: string, v: Vote) returns (r: Outcome)
      requires Valid()
      modifies this
      ensures Valid()
      ensures r != Ok <==> Locate(old(comments), id).None?
      ensures r != Ok ==> r == NotFound(CommentOrReply) && comments == old(comments)
      ensures r == Ok ==>
        var p := Locate(old(comments), id).value;
        && ValidPath(old(comments), p)
        && comments == UpdateAt(old(comments), p, CastVote(v))
        && At(comments, p).likeCount == Voted(At(old(comments), p).likeCount, v)
      ensures r == Ok ==>
        var k := Rank(old(comments), Locate(old(comments), id).value);
        && k < |Flat(old(comments))|
        && Flat(comments) == Flat(old(comments))[k := Flat(old(comments))[k].(likeCount := Voted(Flat(old(comments))[k].likeCount, v))]
      ensures likeCount == old(likeCount) && commentCount == old(commentCount)
      ensures isReported == old(isReported) && offensiveScore == old(offensiveScore)
      ensures mostVisited == old(mostVisited)
    {
      var found := Locate(comments, id);
      if found.None? {
        return NotFound(CommentOrReply);
      }
      var p := found.value;
      VoteChangesOneEntry(comments, p, v);
      VoteKeepsStored(Flat(comments), Rank(comments, p), v);
      comments := UpdateAt(comments, p, CastVote(v));
      r := Ok;
    }
  }

  /** Where a new comment goes: at the top level, or as the last reply of the comment at a path. */
  datatype Placement = TopLevel | Under(parent: Path)

  /**
   * Where a request's `replyTo` places a new comment. An absent or empty
   * `replyTo` means the top level; otherwise the new comment goes under the
   * first comment of the pre-order listing with that id, and there is no
   * place when no comment or reply has it.
   */
  function Place(f: seq<Comment>, replyTo: Option<string>): (r: Option<Placement>)
    ensures r == Some(TopLevel) <==> replyTo.None? || replyTo.value == ""
    ensures r.None? <==> replyTo.Some? && replyTo.value != "" && Absent(Flat(f), replyTo.value)
    ensures r.Some? && r.value.Under? ==>
      && ValidPath(f, r.value.parent)
      && Rank(f, r.value.parent) < |Flat(f)|
      && At(f, r.value.parent).id == replyTo.value
      && Absent(Flat(f)[..Rank(f, r.value.parent)], replyTo.value)
  {
    if replyTo.None? || replyTo.value == "" then Some(TopLevel)
    else
      match Locate(f, replyTo.value)
      case None => None
      case Some(p) =>
        LocateFinds(f, replyTo.value);
        Some(Under(p))
  }

  /** The forest with a new comment at the given place. */
  function Insert(f: seq<Comment>, n: Comment, place: Placement): seq<Comment>
    requires place.Under? ==> ValidPath(f, place.parent)
  {
    match place
    case TopLevel => f + [n]
    case Under(p) => UpdateAt(f, p, AppendReply(n))
  }

  /**
   * The listing after an insert: a top-level comment is listed last; a reply
   * adds one to its parent's reply count and is listed right after the
   * parent's existing subtree, and the top level keeps its length. Every
   * other entry keeps its value and its order.
   */
  lemma InsertListing(f: seq<Comment>, n: Comment, place: Placement)
    requires place.Under? ==> ValidPath(f, place.parent)
    requires n.replies == []
    ensures place.TopLevel? ==> Flat(Insert(f, n, place)) == Flat(f) + [EntryOf(n)]
    ensures place.Under? ==>
      && |Insert(f, n, place)| == |f|
      && ReplyListed(Flat(f), Flat(Insert(f, n, place)), Rank(f, place.parent), |Flat([At(f, place.parent)])|, EntryOf(n))
  {
    match place
    case TopLevel => AppendTopLevel(f, n);
    case Under(p) => AppendReplySplices(f, p, n);
  }

  /**
   * Inserting a valid new comment with a fresh id keeps the listing stored,
   * adds exactly one comment to the forest, and the new comment's id locates
   * that comment.
   */
  lemma InsertKeepsValid(f: seq<Comment>, n: Comment, place: Placement)
    requires place.Under? ==> ValidPath(f, place.parent)
    requires Stored(Flat(f)) && Admissible(Flat(f), EntryOf(n)) && n.replies == []
    ensures Stored(Flat(Insert(f, n, place))) && |Flat(Insert(f, n, place))| == |Flat(f)| + 1
    ensures Locate(Insert(f, n, place), n.id).Some?
    ensures At(Insert(f, n, place), Locate(Insert(f, n, place), n.id).value) == n
  {
    match place
    case TopLevel =>
      AppendTopLevel(f, n);
      TopLevelKeepsStored(Flat(f), EntryOf(n));
      Findable(f + [n], |Flat(f)|, n);
    case Under(p) =>
      var u := UpdateAt(f, p, AppendReply(n));
      var k, len := Rank(f, p), |Flat([At(f, p)])|;
      AppendReplySplices(f, p, n);
      ReplyKeepsStored(Flat(f), Flat(u), k, len, EntryOf(n));
      Findable(u, k + len, n);
  }

  /** The comment listed at position `j` of a stored forest is the one its id locates. */
  lemma Findable(f: seq<Comment>, j: nat, n: Comment)
    requires Stored(Flat(f)) && j < |Flat(f)| && Flat(f)[j] == EntryOf(n) && n.replies == []
    ensures Locate(f, n.id).Some? && At(f, Locate(f, n.id).value) == n
  {
    LocateListed(f, j);
    LeafByEntry(At(f, Locate(f, n.id).value), n);
  }

  /**
   * Creating a hack: a submission lacking a required field fails validation
   * and stores nothing; otherwise the new hack has every counter at its default.
   */
  method Create(info: HackInput) returns (r: Outcome, h: Hack?)
    ensures r.Invalid? <==> MissingHackFields(info) != {}
    ensures r.Invalid? ==> r.fields == MissingHackFields(info) && h == null
    ensures !r.Invalid? ==> r == Ok && h != null && fresh(h) && h.Valid() && h.info == info
    ensures !r.Invalid? ==> h.likeCount == 0 && h.commentCount == 0 && h.comments == []
    ensures !r.Invalid? ==> h.isReported == 0 && h.offensiveScore == 0 && h.mostVisited == Some(0)
  {
    var missing := MissingHackFields(info);
    if missing != {} {
      return Invalid(missing), null;
    }
    h := new Hack(info);
    r := Ok;
  }

  /** A dislike on a hack without likes takes its counter below zero. */
  method DislikeExample()
  {
    var h := new Hack(HackInput("Swap", None, None, "python", "ada", None));
    h.Dislike();
    assert h.likeCount == -1;
  }
}
