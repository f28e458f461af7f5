/**
 * The comment forest of one hack: the depth-first search that finds a comment
 * by id, the edits the handlers make to the comment it finds, and the
 * pre-order listing that the properties of both are stated against.
 */
module CommentTree {
  import opened Wrappers
  import opened Schema

  /**
   * The position of a comment in a forest: the index among the top-level
   * comments, then the index among that comment's replies, and so on.
   */
  type Path = seq<nat>

  /** What one comment holds itself, with its replies reduced to their number. */
  datatype Entry = Entry(
    id: string,
    text: string,
    userName: string,
    twitterId: Option<string>,
    likeCount: int,
    replyCount: nat)

  function EntryOf(c: Comment): Entry
  {
    Entry(c.id, c.text, c.userName, c.twitterId, c.likeCount, |c.replies|)
  }

  /**
   * The pre-order listing of a forest: each comment, then (recursively) its
   * replies, then its later siblings. Its length is the number of comments
   * and replies in the forest.
   */
  function Flat(f: seq<Comment>): seq<Entry>
  {
    if f == [] then [] else [EntryOf(f[0])] + Flat(f[0].replies) + Flat(f[1..])
  }

  predicate ValidPath(f: seq<Comment>, p: Path)
    decreases p
  {
    |p| > 0 && p[0] < |f| && (|p| == 1 || ValidPath(f[p[0]].replies, p[1..]))
  }

  /** The comment at path `p`. */
  function At(f: seq<Comment>, p: Path): Comment
    requires ValidPath(f, p)
    decreases p
  {
    if |p| == 1 then f[p[0]] else At(f[p[0]].replies, p[1..])
  }

  /** The position in `Flat(f)` of the comment at path `p`. */
  function Rank(f: seq<Comment>, p: Path): nat
    requires ValidPath(f, p)
    decreases p
  {
    |Flat(f[..p[0]])| + if |p| == 1 then 0 else 1 + Rank(f[p[0]].replies, p[1..])
  }

  /** No entry of `es` carries the id `t`. */
  predicate Absent(es: seq<Entry>, t: string)
  {
    forall e :: e in es ==> e.id != t
  }

  /** No two entries of `es` carry the same id. */
  predicate UniqueIds(es: seq<Entry>)
  {
    forall j, k :: 0 <= j < k < |es| ==> es[j].id != es[k].id
  }

  // ---------------------------------------------------------------------------
  // The pre-order listing

  lemma {:induction false} FlatAppend(a: seq<Comment>, b: seq<Comment>)
    ensures Flat(a + b) == Flat(a) + Flat(b)
    decreases |a|
  {
    if a == [] {
      assert a + b == b;
    } else {
      assert (a + b)[0] == a[0];
      assert (a + b)[1..] == a[1..] + b;
      FlatAppend(a[1..], b);
    }
  }

  /** The listing of one comment's subtree: the comment, then its replies' listing. */
  lemma FlatSingle(c: Comment)
    ensures Flat([c]) == [EntryOf(c)] + Flat(c.replies)
  {
    assert [c][1..] == [];
  }

  /** Cutting a forest around its `i`-th comment cuts its listing the same way. */
  lemma {:induction false} FlatAround(f: seq<Comment>, i: nat)
    requires i < |f|
    ensures Flat(f) == Flat(f[..i]) + Flat([f[i]]) + Flat(f[i + 1..])
  {
    assert f == f[..i] + ([f[i]] + f[i + 1..]);
    FlatAppend(f[..i], [f[i]] + f[i + 1..]);
    FlatAppend([f[i]], f[i + 1..]);
  }

  /** The listing from the `i`-th comment on. */
  lemma FlatFrom(f: seq<Comment>, i: nat)
    requires i < |f|
    ensures Flat(f[i..]) == Flat([f[i]]) + Flat(f[i + 1..])
  {
    assert f[i..] == [f[i]] + f[i + 1..];
    FlatAppend([f[i]], f[i + 1..]);
  }

  /** The listing up to and including the `i`-th comment. */
  lemma FlatUpTo(f: seq<Comment>, i: nat)
    requires i < |f|
    ensures Flat(f[..i + 1]) == Flat(f[..i]) + Flat([f[i]])
  {
    assert f[..i + 1] == f[..i] + [f[i]];
    FlatAppend(f[..i], [f[i]]);
  }

  /**
   * The subtree of the comment at `p` occupies a contiguous stretch of the
   * listing, starting at `Rank(f, p)`.
   */
  predicate SegmentAt(f: seq<Comment>, p: Path)
    requires ValidPath(f, p)
  {
    Stretch(Flat(f), Rank(f, p), Flat([At(f, p)]))
  }

  /** `s` occurs in `whole` from position `k` on. */
  predicate Stretch(whole: seq<Entry>, k: nat, s: seq<Entry>)
  {
    k + |s| <= |whole| && whole[k..k + |s|] == s
  }

  lemma {:induction false} SubtreeSegment(f: seq<Comment>, p: Path)
    requires ValidPath(f, p)
    ensures SegmentAt(f, p)
    decreases p
  {
    if |p| == 1 {
      SegmentTop(f, p);
    } else {
      SubtreeSegment(f[p[0]].replies, p[1..]);
      SegmentDeeper(f, p);
    }
  }

  lemma SegmentTop(f: seq<Comment>, p: Path)
    requires ValidPath(f, p) && |p| == 1
    ensures SegmentAt(f, p)
  {
    var i := p[0];
    var s := Flat([f[i]]);
    FlatAround(f, i);
    assert s[0..|s|] == s;
    Segment(Flat(f), Rank(f, p), Flat([At(f, p)]), Flat(f[..i]), s, Flat(f[i + 1..]), 0);
  }

  lemma SegmentDeeper(f: seq<Comment>, p: Path)
    requires ValidPath(f, p) && |p| > 1
    requires SegmentAt(f[p[0]].replies, p[1..])
    ensures SegmentAt(f, p)
  {
    var i, r, q := p[0], f[p[0]].replies, p[1..];
    FlatAroundEntry(f, i);
    Deeper(f, p);
    Segment(Flat(f), Rank(f, p), Flat([At(f, p)]),
            Flat(f[..i]) + [EntryOf(f[i])], Flat(r), Flat(f[i + 1..]), Rank(r, q));
  }

  /** The rank and the comment of a path that goes below the top level. */
  lemma Deeper(f: seq<Comment>, p: Path)
    requires ValidPath(f, p) && |p| > 1
    ensures ValidPath(f[p[0]].replies, p[1..])
    ensures Rank(f, p) == |Flat(f[..p[0]]) + [EntryOf(f[p[0]])]| + Rank(f[p[0]].replies, p[1..])
    ensures At(f, p) == At(f[p[0]].replies, p[1..])
  {
  }

  /** Cutting a forest around its `i`-th comment, with that comment's own entry split off. */
  lemma {:induction false} FlatAroundEntry(f: seq<Comment>, i: nat)
    requires i < |f|
    ensures Flat(f) == Flat(f[..i]) + [EntryOf(f[i])] + Flat(f[i].replies) + Flat(f[i + 1..])
  {
    FlatAround(f, i);
    FlatSingle(f[i]);
  }

  /** The entry at the rank of a path is the entry of the comment at that path. */
  lemma RankEntry(f: seq<Comment>, p: Path)
    requires ValidPath(f, p)
    ensures Rank(f, p) < |Flat(f)| && Flat(f)[Rank(f, p)] == EntryOf(At(f, p))
  {
    SubtreeSegment(f, p);
    FlatSingle(At(f, p));
    var k, s := Rank(f, p), Flat([At(f, p)]);
    assert Flat(f)[k] == Flat(f)[k..k + |s|][0];
  }

  /** A stretch of the middle part of a concatenation is a stretch of the whole. */
  lemma Segment(whole: seq<Entry>, at: nat, s: seq<Entry>,
                x: seq<Entry>, y: seq<Entry>, z: seq<Entry>, lo: nat)
    requires whole == x + y + z && Stretch(y, lo, s) && at == |x| + lo
    ensures Stretch(whole, at, s)
  {
    assert whole[|x| + lo..|x| + lo + |s|] == y[lo..lo + |s|];
  }

  // ---------------------------------------------------------------------------
  // The locator

  /**
   * The depth-first search of the source, from the `i`-th comment of `f` on:
   * a comment whose id is `t` is returned at once; otherwise its replies are
   * searched before its later siblings.
   */
  function LocateFrom(f: seq<Comment>, i: nat, t: string): Option<Path>
    requires i <= |f|
    decreases f, |f| - i
  {
    if i == |f| then None
    else if f[i].id == t then Some([i])
    else match LocateFrom(f[i].replies, 0, t)
      case Some(q) => Some([i] + q)
      case None => LocateFrom(f, i + 1, t)
  }

  /**
   * The reference the search is measured against: the position of the first
   * entry of a listing that carries the id `t`, found by a plain left-to-right
   * scan.
   */
  function FirstIndex(es: seq<Entry>, t: string): Option<nat>
  {
    if es == [] then None
    else if es[0].id == t then Some(0)
    else Shift(FirstIndex(es[1..], t), 1)
  }

  function Shift(r: Option<nat>, n: nat): Option<nat>
  {
    match r
    case Some(k) => Some(n + k)
    case None => None
  }

  /**
   * The scan finds nothing exactly when no entry carries the id; otherwise it
   * stops at an entry that carries it, and no entry before that one does.
   */
  lemma {:induction false} FirstIndexFirst(es: seq<Entry>, t: string)
    ensures FirstIndex(es, t).None? <==> Absent(es, t)
    ensures FirstIndex(es, t).Some? ==>
      var k := FirstIndex(es, t).value;
      k < |es| && es[k].id == t && Absent(es[..k], t)
  {
    if es != [] && es[0].id != t {
      FirstIndexFirst(es[1..], t);
      assert es == [es[0]] + es[1..];
      if FirstIndex(es[1..], t).Some? {
        var k := FirstIndex(es[1..], t).value;
        assert es[..k + 1] == [es[0]] + es[1..][..k];
      }
    }
  }

  /** Scanning a concatenation: the first part first, then the second, shifted by the first's length. */
  lemma {:induction false} FirstIndexAppend(a: seq<Entry>, b: seq<Entry>, t: string)
    ensures FirstIndex(a + b, t) == if FirstIndex(a, t).Some? then FirstIndex(a, t) else Shift(FirstIndex(b, t), |a|)
    decreases |a|
  {
    if a == [] {
      assert a + b == b;
    } else {
      assert (a + b)[0] == a[0] && (a + b)[1..] == a[1..] + b;
      FirstIndexAppend(a[1..], b, t);
    }
  }

  /** Under unique ids, the scan for the id at position `k` stops at `k`. */
  lemma FirstIndexUnique(es: seq<Entry>, k: nat)
    requires UniqueIds(es) && k < |es|
    ensures FirstIndex(es, es[k].id) == Some(k)
  {
    FirstIndexFirst(es, es[k].id);
    assert es[k] in es;
  }

  /**
   * What the search from the `i`-th comment on promises: it finds a comment
   * exactly when the scan of the listing from there on finds its id, and the
   * comment it finds is the one the scan stops at.
   */
  predicate FirstFrom(f: seq<Comment>, i: nat, t: string, r: Option<Path>)
    requires i <= |f|
  {
    match r
    case None => FirstIndex(Flat(f[i..]), t).None?
    case Some(p) =>
      && ValidPath(f, p) && |Flat(f[..i])| <= Rank(f, p)
      && FirstIndex(Flat(f[i..]), t) == Some(Rank(f, p) - |Flat(f[..i])|)
  }

  lemma {:induction false} LocateFromFirst(f: seq<Comment>, i: nat, t: string)
    requires i <= |f|
    ensures FirstFrom(f, i, t, LocateFrom(f, i, t))
    decreases f, |f| - i
  {
    if i == |f| {
      assert f[i..] == [];
    } else if f[i].id == t {
      FoundHere(f, i, t);
    } else {
      var r := f[i].replies;
      LocateFromFirst(r, 0, t);
      match LocateFrom(r, 0, t)
      case Some(q) =>
        FoundBelow(f, i, t, q);
      case None =>
        LocateFromFirst(f, i + 1, t);
        FoundLater(f, i, t, LocateFrom(f, i + 1, t));
    }
  }

  /** Cutting a forest at its `i`-th comment, with that comment's entry split off. */
  lemma FlatAt(f: seq<Comment>, i: nat)
    requires i < |f|
    ensures Flat(f[i..]) == [EntryOf(f[i])] + Flat(f[i].replies) + Flat(f[i + 1..])
    ensures Flat(f[..i + 1]) == Flat(f[..i]) + [EntryOf(f[i])] + Flat(f[i].replies)
  {
    FlatFrom(f, i);
    FlatUpTo(f, i);
    FlatSingle(f[i]);
  }

  lemma FoundHere(f: seq<Comment>, i: nat, t: string)
    requires i < |f| && f[i].id == t
    ensures FirstFrom(f, i, t, Some([i]))
  {
    FlatAt(f, i);
  }

  lemma FoundBelow(f: seq<Comment>, i: nat, t: string, q: Path)
    requires i < |f| && f[i].id != t
    requires FirstFrom(f[i].replies, 0, t, Some(q))
    ensures FirstFrom(f, i, t, Some([i] + q))
  {
    var r, p := f[i].replies, [i] + q;
    assert r[..0] == [] && r[0..] == r && p[1..] == q;
    Deeper(f, p);
    FlatAt(f, i);
    FirstBelow(Flat(f[i..]), EntryOf(f[i]), Flat(r), Flat(f[i + 1..]), t, |Flat(f[..i])|, Rank(f, p), Rank(r, q));
  }

  lemma FoundLater(f: seq<Comment>, i: nat, t: string, res: Option<Path>)
    requires i < |f| && f[i].id != t && FirstIndex(Flat(f[i].replies), t).None?
    requires FirstFrom(f, i + 1, t, res)
    ensures FirstFrom(f, i, t, res)
  {
    FlatAt(f, i);
    FirstPast(Flat(f[i..]), EntryOf(f[i]), Flat(f[i].replies), Flat(f[i + 1..]), t);
  }

  /** A first match inside the middle part, after an entry that does not match. */
  lemma {:induction false} FirstBelow(whole: seq<Entry>, e: Entry, y: seq<Entry>, z: seq<Entry>, t: string,
                                      before: nat, at: nat, inner: nat)
    requires whole == [e] + y + z && e.id != t && FirstIndex(y, t) == Some(inner)
    requires at == |[e]| + before + inner
    ensures before <= at && FirstIndex(whole, t) == Some(at - before)
  {
    assert FirstIndex([e], t).None? by { assert [e][1..] == []; }
    FirstIndexAppend([e], y, t);
    FirstIndexAppend([e] + y, z, t);
  }

  /** No match in the first two parts: the search continues in the third. */
  lemma {:induction false} FirstPast(whole: seq<Entry>, e: Entry, y: seq<Entry>, z: seq<Entry>, t: string)
    requires whole == [e] + y + z && e.id != t && FirstIndex(y, t).None?
    ensures FirstIndex(whole, t) == Shift(FirstIndex(z, t), 1 + |y|)
  {
    assert FirstIndex([e], t).None? by { assert [e][1..] == []; }
    FirstIndexAppend([e], y, t);
    FirstIndexAppend([e] + y, z, t);
  }

  /**
   * The search over a whole forest. It finds a comment exactly when some
   * comment or reply carries the id, and then it is the first such comment
   * of the pre-order listing.
   */
  function Locate(f: seq<Comment>, t: string): (r: Option<Path>)
    ensures r.None? <==> Absent(Flat(f), t)
    ensures r.Some? ==> ValidPath(f, r.value) && FirstIndex(Flat(f), t) == Some(Rank(f, r.value))
  {
    LocateFromFirst(f, 0, t);
    FirstIndexFirst(Flat(f), t);
    assert f[..0] == [] && f[0..] == f;
    LocateFrom(f, 0, t)
  }

  /** The comment the search returns carries the id, and no comment listed before it does. */
  lemma LocateFinds(f: seq<Comment>, t: string)
    requires Locate(f, t).Some?
    ensures Rank(f, Locate(f, t).value) < |Flat(f)|
    ensures At(f, Locate(f, t).value).id == t
    ensures Absent(Flat(f)[..Rank(f, Locate(f, t).value)], t)
  {
    FirstIndexFirst(Flat(f), t);
    RankEntry(f, Locate(f, t).value);
  }

  /**
   * When ids are unique, searching for the id listed at position `k` finds
   * the comment listed there.
   */
  lemma {:induction false} LocateListed(f: seq<Comment>, k: nat)
    requires UniqueIds(Flat(f)) && k < |Flat(f)|
    ensures Locate(f, Flat(f)[k].id).Some?
    ensures Rank(f, Locate(f, Flat(f)[k].id).value) == k
    ensures EntryOf(At(f, Locate(f, Flat(f)[k].id).value)) == Flat(f)[k]
  {
    FirstIndexUnique(Flat(f), k);
    RankEntry(f, Locate(f, Flat(f)[k].id).value);
  }

  // ---------------------------------------------------------------------------
  // Counters

  datatype Vote = Up | Down

  /** A comment's like counter after one vote: a down-vote on zero does nothing. */
  function Voted(n: int, v: Vote): (r: int)
    ensures n >= 0 ==> r >= 0
    ensures v == Up <==> r > n
    ensures r < n <==> v == Down && n > 0
  {
    match v
    case Up => n + 1
    case Down => if n > 0 then n - 1 else n
  }

  /** A counter that starts at zero, after the votes of `votes` in order. It is never negative. */
  function Tally(votes: seq<Vote>): (n: int)
    ensures n >= 0
  {
    if votes == [] then 0 else Voted(Tally(votes[..|votes| - 1]), votes[|votes| - 1])
  }

  /** The floor only ever adds: a tally is at least the up-votes minus the down-votes. */
  lemma {:induction false} TallyAtLeastBalance(votes: seq<Vote>)
    ensures Tally(votes) >= multiset(votes)[Up] as int - multiset(votes)[Down]
  {
    if votes != [] {
      var init := votes[..|votes| - 1];
      assert votes == init + [votes[|votes| - 1]];
      TallyAtLeastBalance(init);
    }
  }

  /**
   * When no prefix of the votes has more down-votes than up-votes, the floor
   * never acts and the tally is exactly the balance.
   */
  lemma {:induction false} TallyIsBalance(votes: seq<Vote>)
    requires forall i :: 0 <= i <= |votes| ==> multiset(votes[..i])[Down] <= multiset(votes[..i])[Up]
    ensures Tally(votes) == multiset(votes)[Up] as int - multiset(votes)[Down]
  {
    if votes != [] {
      var init := votes[..|votes| - 1];
      assert votes == init + [votes[|votes| - 1]];
      assert votes[..|votes|] == votes;
      forall i | 0 <= i <= |init|
        ensures multiset(init[..i])[Down] <= multiset(init[..i])[Up]
      {
        assert init[..i] == votes[..i];
      }
      TallyIsBalance(init);
    }
  }

  /**
   * Once some prefix has more down-votes than up-votes, the floor has acted
   * and the tally stays strictly above the balance: it never catches up.
   */
  lemma {:induction false} TallyAboveBalance(votes: seq<Vote>, i: nat)
    requires i <= |votes| && multiset(votes[..i])[Down] > multiset(votes[..i])[Up]
    ensures Tally(votes) > multiset(votes)[Up] as int - multiset(votes)[Down]
  {
    var init := votes[..|votes| - 1];
    assert votes == init + [votes[|votes| - 1]];
    if i == |votes| {
      assert votes[..i] == votes;
    } else {
      assert init[..i] == votes[..i];
      TallyAboveBalance(init, i);
    }
  }

  /** The tally is exactly the balance if and only if no prefix runs ahead on down-votes. */
  lemma TallyBalanceExactly(votes: seq<Vote>)
    ensures Tally(votes) == multiset(votes)[Up] as int - multiset(votes)[Down]
        <==> forall i :: 0 <= i <= |votes| ==> multiset(votes[..i])[Down] <= multiset(votes[..i])[Up]
  {
    if forall i :: 0 <= i <= |votes| ==> multiset(votes[..i])[Down] <= multiset(votes[..i])[Up] {
      TallyIsBalance(votes);
    } else {
      var i :| 0 <= i <= |votes| && multiset(votes[..i])[Down] > multiset(votes[..i])[Up];
      TallyAboveBalance(votes, i);
    }
  }

  // ---------------------------------------------------------------------------
  // Edits at a located comment

  /** What a handler does to the comment it located. */
  datatype Edit = CastVote(vote: Vote) | AppendReply(reply: Comment)

  function Apply(e: Edit, c: Comment): Comment
  {
    match e
    case CastVote(v) => c.(likeCount := Voted(c.likeCount, v))
    case AppendReply(n) => c.(replies := c.replies + [n])
  }

  /**
   * The forest with the comment at `p` replaced by its edited version. The
   * top-level sequence keeps its length and all other top-level comments.
   */
  function UpdateAt(f: seq<Comment>, p: Path, e: Edit): (r: seq<Comment>)
    requires ValidPath(f, p)
    ensures |r| == |f| && ValidPath(r, p) && At(r, p) == Apply(e, At(f, p))
    ensures forall j :: 0 <= j < |f| && j != p[0] ==> r[j] == f[j]
    decreases p
  {
    var c := f[p[0]];
    if |p| == 1 then f[p[0] := Apply(e, c)]
    else
      var r := f[p[0] := c.(replies := UpdateAt(c.replies, p[1..], e))];
      assert r[p[0]].replies == UpdateAt(c.replies, p[1..], e);
      r
  }

  /**
   * The listing after editing the comment at `p`: the stretch its subtree
   * occupied is replaced by the listing of the edited subtree, and everything
   * before and after that stretch is kept.
   */
  predicate Replaced(f: seq<Comment>, p: Path, e: Edit)
    requires ValidPath(f, p)
  {
    Spliced(Flat(f), Flat(UpdateAt(f, p, e)), Rank(f, p), |Flat([At(f, p)])|, Flat([Apply(e, At(f, p))]))
  }

  /** `after` is `before` with its `n` entries from position `k` on replaced by `m`. */
  predicate Spliced(before: seq<Entry>, after: seq<Entry>, k: nat, n: nat, m: seq<Entry>)
  {
    k + n <= |before| && after == before[..k] + m + before[k + n..]
  }

  /** Editing any located comment replaces exactly its subtree's stretch. */
  lemma {:induction false} UpdateAtSegment(f: seq<Comment>, p: Path, e: Edit)
    requires ValidPath(f, p)
    ensures Replaced(f, p, e)
    decreases p
  {
    if |p| == 1 {
      ReplacedTop(f, p, e);
    } else {
      UpdateAtSegment(f[p[0]].replies, p[1..], e);
      ReplacedDeeper(f, p, e);
    }
  }

  lemma {:induction false} ReplacedTop(f: seq<Comment>, p: Path, e: Edit)
    requires ValidPath(f, p) && |p| == 1
    ensures Replaced(f, p, e)
  {
    var i, u := p[0], UpdateAt(f, p, e);
    var x, y, z := Flat(f[..i]), Flat([At(f, p)]), Flat(f[i + 1..]);
    assert Flat(f) == x + y + z by {
      FlatAround(f, i);
    }
    assert Flat(u) == x + Flat([Apply(e, At(f, p))]) + z by {
      FlatAround(u, i);
      assert u[..i] == f[..i] && u[i + 1..] == f[i + 1..];
    }
    assert Rank(f, p) == |x| + 0;
    Inside(Flat(f), Flat(u), Rank(f, p), |Flat([At(f, p)])|, Flat([Apply(e, At(f, p))]),
           x, y, z, Flat([Apply(e, At(f, p))]), 0);
  }

  lemma ReplacedDeeper(f: seq<Comment>, p: Path, e: Edit)
    requires ValidPath(f, p) && |p| > 1
    requires ValidPath(f[p[0]].replies, p[1..]) && Replaced(f[p[0]].replies, p[1..], e)
    ensures Replaced(f, p, e)
  {
    var i, r, q := p[0], f[p[0]].replies, p[1..];
    var u, r' := UpdateAt(f, p, e), UpdateAt(r, q, e);
    var x, y, z := Flat(f[..i]) + [EntryOf(f[i])], Flat(r), Flat(f[i + 1..]);
    assert Flat(f) == x + y + z by {
      FlatAroundEntry(f, i);
    }
    assert Flat(u) == x + Flat(r') + z by {
      assert u == f[i := f[i].(replies := r')];
      FlatAroundEntry(u, i);
      assert u[..i] == f[..i] && u[i + 1..] == f[i + 1..];
      assert u[i].replies == r' && EntryOf(u[i]) == EntryOf(f[i]);
    }
    Deeper(f, p);
    Inside(Flat(f), Flat(u), Rank(f, p), |Flat([At(f, p)])|, Flat([Apply(e, At(f, p))]),
           x, y, z, Flat(r'), Rank(r, q));
  }

  /**
   * A listing made of three parts in which the middle part is spliced is
   * spliced at the same stretch shifted by the length of the first part.
   */
  lemma Inside(s: seq<Entry>, s': seq<Entry>, at: nat, n: nat, m: seq<Entry>,
               x: seq<Entry>, y: seq<Entry>, z: seq<Entry>, y': seq<Entry>, k: nat)
    requires s == x + y + z && s' == x + y' + z && at == |x| + k
    requires Spliced(y, y', k, n, m)
    ensures Spliced(s, s', at, n, m)
  {
    assert s[..|x| + k] == x + y[..k];
    assert s[|x| + k + n..] == y[k + n..] + z;
  }

  /**
   * A vote changes the like counter of the located comment's entry and no
   * other entry of the listing.
   */
  lemma VoteChangesOneEntry(f: seq<Comment>, p: Path, v: Vote)
    requires ValidPath(f, p)
    ensures Rank(f, p) < |Flat(f)|
    ensures Flat(UpdateAt(f, p, CastVote(v)))
      == Flat(f)[Rank(f, p) := Flat(f)[Rank(f, p)].(likeCount := Voted(Flat(f)[Rank(f, p)].likeCount, v))]
  {
    var c := At(f, p);
    var c' := Apply(CastVote(v), c);
    UpdateAtSegment(f, p, CastVote(v));
    SubtreeHead(f, p);
    assert Flat([c']) == [EntryOf(c')] + Flat(c.replies) by {
      FlatSingle(c');
    }
    NewHead(Flat(f), Flat(UpdateAt(f, p, CastVote(v))), Rank(f, p), |Flat([c])|, Flat([c']),
            EntryOf(c), Flat(c.replies), EntryOf(c'));
  }

  /** A splice that keeps all but the head entry of the stretch it replaces. */
  lemma NewHead(s: seq<Entry>, s': seq<Entry>, k: nat, n: nat, sub: seq<Entry>,
                x: Entry, t: seq<Entry>, y: Entry)
    requires Spliced(s, s', k, n, sub) && s[k..k + n] == [x] + t && sub == [y] + t
    ensures k < |s| && s[k] == x && s' == s[k := y]
  {
    assert s[k] == s[k..k + n][0];
    assert s[k + 1..k + n] == s[k..k + n][1..];
  }

  /**
   * Appending a reply to the located comment adds one to that comment's reply
   * count and lists the reply right after the comment's existing subtree;
   * every other entry keeps its value and its order.
   */
  lemma {:induction false} AppendReplySplices(f: seq<Comment>, p: Path, n: Comment)
    requires ValidPath(f, p) && n.replies == []
    ensures ReplyListed(Flat(f), Flat(UpdateAt(f, p, AppendReply(n))), Rank(f, p), |Flat([At(f, p)])|, EntryOf(n))
  {
    var c := At(f, p);
    var c' := Apply(AppendReply(n), c);
    UpdateAtSegment(f, p, AppendReply(n));
    SubtreeHead(f, p);
    ReplyListing(c, n);
    NewLastChild(Flat(f), Flat(UpdateAt(f, p, AppendReply(n))), Rank(f, p), |Flat([c])|, Flat([c']),
                 EntryOf(c), Flat(c.replies), EntryOf(c'), EntryOf(n));
  }

  /**
   * `after` is `before` with the `n` entries from position `k` on, a comment
   * and its subtree, changed as a new last reply `w` changes them: the
   * comment's reply count goes up by one and `w` follows the subtree.
   */
  predicate ReplyListed(before: seq<Entry>, after: seq<Entry>, k: nat, n: nat, w: Entry)
  {
    && 0 < n && k + n <= |before|
    && after == before[..k] + [before[k].(replyCount := before[k].replyCount + 1)]
                + before[k + 1..k + n] + [w] + before[k + n..]
  }

  /** A splice that replaces the head entry of a stretch and adds an entry after it. */
  lemma NewLastChild(s: seq<Entry>, s': seq<Entry>, k: nat, n: nat, sub: seq<Entry>,
                     x: Entry, t: seq<Entry>, y: Entry, w: Entry)
    requires Spliced(s, s', k, n, sub) && s[k..k + n] == [x] + t && sub == [y] + t + [w]
    requires y == x.(replyCount := x.replyCount + 1)
    ensures ReplyListed(s, s', k, n, w)
  {
    assert s[k] == s[k..k + n][0];
    assert s[k + 1..k + n] == s[k..k + n][1..];
  }

  /** The stretch of a subtree starts with the entry of its root. */
  lemma SubtreeHead(f: seq<Comment>, p: Path)
    requires ValidPath(f, p)
    ensures Rank(f, p) + |Flat([At(f, p)])| <= |Flat(f)|
    ensures Flat(f)[Rank(f, p)..Rank(f, p) + |Flat([At(f, p)])|] == [EntryOf(At(f, p))] + Flat(At(f, p).replies)
  {
    SubtreeSegment(f, p);
    FlatSingle(At(f, p));
  }

  /** The listing of a comment after a reply without replies is appended to it. */
  lemma ReplyListing(c: Comment, n: Comment)
    requires n.replies == []
    ensures Flat([Apply(AppendReply(n), c)]) == [EntryOf(Apply(AppendReply(n), c))] + Flat(c.replies) + [EntryOf(n)]
  {
    FlatSingle(Apply(AppendReply(n), c));
    FlatAppend(c.replies, [n]);
    FlatSingle(n);
  }

  /** Appending a comment at the top level lists it last. */
  lemma AppendTopLevel(f: seq<Comment>, n: Comment)
    requires n.replies == []
    ensures Flat(f + [n]) == Flat(f) + [EntryOf(n)]
  {
    FlatAppend(f, [n]);
    FlatSingle(n);
  }

  // ---------------------------------------------------------------------------
  // Ids stay unique

  /** Changing an entry without changing its id keeps the ids unique. */
  lemma SameIdKeepsUnique(es: seq<Entry>, k: nat, x: Entry)
    requires UniqueIds(es) && k < |es| && x.id == es[k].id
    ensures UniqueIds(es[k := x])
  {
    var s := es[k := x];
    forall j, m | 0 <= j < m < |s|
      ensures s[j].id != s[m].id
    {
      assert s[j].id == es[j].id && s[m].id == es[m].id;
    }
  }

  /** Inserting an entry whose id occurs nowhere else keeps the ids unique. */
  lemma FreshIdKeepsUnique(es: seq<Entry>, j: nat, x: Entry)
    requires UniqueIds(es) && Absent(es, x.id) && j <= |es|
    ensures UniqueIds(es[..j] + [x] + es[j..])
  {
    var s := es[..j] + [x] + es[j..];
    forall a, b | 0 <= a < b < |s|
      ensures s[a].id != s[b].id
    {
      var ia := if a < j then a else a - 1;
      var ib := if b < j then b else b - 1;
      if a == j {
        assert s[b] == es[ib] && es[ib] in es;
      } else if b == j {
        assert s[a] == es[ia] && es[ia] in es;
      } else {
        assert s[a] == es[ia] && s[b] == es[ib] && ia < ib;
      }
    }
  }
}
