/**
 * The chat: `chat_send` appends messages, and `chat_messages` lists the
 * newest fifty, oldest first, optionally only those after a given time.
 * Times are integers (the stored `created_at`); a missing, empty or
 * unparseable `after` argument is `None`.
 */
module Chat {
  import opened Optional
  import opened Text

  datatype Message = Message(id: nat, userId: nat, content: string, createdAt: int)

  /** What `chat_send` answers: a 400 for empty content, or the new id and time. */
  datatype SendOutcome = EmptyMessage | Sent(messageId: nat, createdAt: int)

  /** The `limit(50)` of the listing query. */
  const PageSize: nat := 50

  /** Every message's id is its position plus one and its content is non-empty and stripped. */
  ghost predicate MessagesValid(ms: seq<Message>) {
    forall i :: 0 <= i < |ms| ==> ms[i].id == i + 1 && ms[i].content != [] && IsTrimmed(ms[i].content)
  }

  /**
   * `chat_send`: the content is stripped; an empty one is refused and
   * nothing is stored, otherwise one message is appended at time `now`.
   */
  function Send(ms: seq<Message>, userId: nat, rawContent: string, now: int): (r: (SendOutcome, seq<Message>))
    ensures r.0 == EmptyMessage <==> AllSpace(rawContent)
    ensures r.0 == EmptyMessage ==> r.1 == ms
    ensures r.0.Sent? ==>
      && r.0 == Sent(|ms| + 1, now)
      && r.1 == ms + [Message(|ms| + 1, userId, Strip(rawContent), now)]
  {
    var content := Strip(rawContent);
    if content == [] then (EmptyMessage, ms)
    else (Sent(|ms| + 1, now), ms + [Message(|ms| + 1, userId, content, now)])
  }

  /** `chat_send` keeps the message table valid. */
  lemma SendPreservesValid(ms: seq<Message>, userId: nat, rawContent: string, now: int)
    requires MessagesValid(ms)
    ensures MessagesValid(Send(ms, userId, rawContent, now).1)
  {
  }

  ghost predicate NewestFirst(ms: seq<Message>) {
    forall i, j :: 0 <= i < j < |ms| ==> ms[i].createdAt >= ms[j].createdAt
  }

  ghost predicate OldestFirst(ms: seq<Message>) {
    forall i, j :: 0 <= i < j < |ms| ==> ms[i].createdAt <= ms[j].createdAt
  }

  /** Puts `m` into the newest-first list `ms`. */
  function Insert(m: Message, ms: seq<Message>): (r: seq<Message>)
    requires NewestFirst(ms)
    ensures |r| == |ms| + 1 && (r[0] == m || (ms != [] && r[0] == ms[0]))
    ensures multiset(r) == multiset(ms) + multiset{m}
    ensures NewestFirst(r)
  {
    if ms == [] || ms[0].createdAt <= m.createdAt then [m] + ms
    else
      var rest := Insert(m, ms[1..]);
      InsertStep(m, ms, rest);
      [ms[0]] + rest
  }

  /** The step case of `Insert`: `ms[0]` can go in front of the rest. */
  lemma InsertStep(m: Message, ms: seq<Message>, rest: seq<Message>)
    requires NewestFirst(ms) && ms != [] && ms[0].createdAt > m.createdAt
    requires |rest| == |ms| && (rest[0] == m || (|ms| > 1 && rest[0] == ms[1]))
    requires multiset(rest) == multiset(ms[1..]) + multiset{m}
    requires NewestFirst(rest)
    ensures multiset([ms[0]] + rest) == multiset(ms) + multiset{m}
    ensures NewestFirst([ms[0]] + rest)
  {
    assert ms == [ms[0]] + ms[1..];
    var r := [ms[0]] + rest;
    forall i, j | 0 <= i < j < |r| ensures r[i].createdAt >= r[j].createdAt {
      if i == 0 {
        assert r[1] == rest[0] && r[1].createdAt <= ms[0].createdAt;
        if j > 1 { assert rest[0].createdAt >= rest[j - 1].createdAt; }
      } else {
        assert r[i] == rest[i - 1] && r[j] == rest[j - 1];
      }
    }
  }

  /** `order_by(created_at.desc())`: the same messages, newest first. */
  function SortNewestFirst(ms: seq<Message>): (r: seq<Message>)
    ensures |r| == |ms| && multiset(r) == multiset(ms)
    ensures NewestFirst(r)
  {
    if ms == [] then []
    else
      assert ms == [ms[0]] + ms[1..];
      Insert(ms[0], SortNewestFirst(ms[1..]))
  }

  /** Python's `reversed`: the same messages back to front. */
  function Reverse(s: seq<Message>): (r: seq<Message>)
    ensures |r| == |s| && multiset(r) == multiset(s)
    ensures forall k :: 0 <= k < |s| ==> r[k] == s[|s| - 1 - k]
  {
    if s == [] then []
    else
      var rest := Reverse(s[1..]);
      assert s == [s[0]] + s[1..];
      assert forall k :: 0 <= k < |rest| ==> rest[k] == s[|s| - 1 - k];
      rest + [s[0]]
  }

  /** In a newest-first list, whatever lies past a prefix is no newer than anything in it. */
  lemma NewestFirstPrefix(s: seq<Message>, n: nat)
    requires NewestFirst(s) && n <= |s|
    ensures multiset(s) - multiset(s[..n]) == multiset(s[n..])
    ensures forall m, x :: m in s[n..] && x in s[..n] ==> m.createdAt <= x.createdAt
  {
    assert s == s[..n] + s[n..];
    forall m, x | m in s[n..] && x in s[..n] ensures m.createdAt <= x.createdAt {
      var j :| 0 <= j < |s[n..]| && s[n..][j] == m;
      var i :| 0 <= i < |s[..n]| && s[..n][i] == x;
      assert s[i] == x && s[n + j] == m;
    }
  }

  /**
   * The listing before the `after` filter: the newest `PageSize` messages
   * (`order_by(created_at.desc()).limit(50)`, then `reversed`), oldest first.
   * It holds as many messages as there are, up to fifty; each comes from
   * `ms`, and every message left out is no newer than every message kept.
   */
  function Newest(ms: seq<Message>): (w: seq<Message>)
    ensures |w| == if |ms| < PageSize then |ms| else PageSize
    ensures OldestFirst(w)
    ensures multiset(w) <= multiset(ms)
    ensures forall m, x :: m in multiset(ms) - multiset(w) && x in w ==> m.createdAt <= x.createdAt
  {
    var sorted := SortNewestFirst(ms);
    var n := if |sorted| < PageSize then |sorted| else PageSize;
    var w := Reverse(sorted[..n]);
    NewestWindow(ms, sorted, n, w);
    w
  }

  /** Reversing the first `n` of the sorted messages gives the window `Newest` promises. */
  lemma NewestWindow(ms: seq<Message>, sorted: seq<Message>, n: nat, w: seq<Message>)
    requires NewestFirst(sorted) && multiset(sorted) == multiset(ms) && n <= |sorted|
    requires |w| == n && multiset(w) == multiset(sorted[..n])
    requires forall k :: 0 <= k < n ==> w[k] == sorted[..n][n - 1 - k]
    ensures OldestFirst(w)
    ensures multiset(w) <= multiset(ms)
    ensures forall m, x :: m in multiset(ms) - multiset(w) && x in w ==> m.createdAt <= x.createdAt
  {
    NewestFirstPrefix(sorted, n);
    assert sorted == sorted[..n] + sorted[n..];
    forall i, j | 0 <= i < j < |w| ensures w[i].createdAt <= w[j].createdAt {
      assert w[i] == sorted[n - 1 - i] && w[j] == sorted[n - 1 - j];
    }
    forall m, x | m in multiset(ms) - multiset(w) && x in w ensures m.createdAt <= x.createdAt {
      assert m in sorted[n..];
      assert x in multiset(w);
      assert x in sorted[..n];
    }
  }

  /**
   * The list comprehension `[m for m in messages if m.created_at > after]`:
   * exactly the messages later than `after`, each as often as in `ms`.
   */
  function Since(ms: seq<Message>, after: int): (r: seq<Message>)
    ensures forall x :: multiset(r)[x] == if x.createdAt > after then multiset(ms)[x] else 0
  {
    if ms == [] then []
    else
      var rest := Since(ms[1..], after);
      assert ms == [ms[0]] + ms[1..];
      if ms[0].createdAt > after then [ms[0]] + rest else rest
  }

  /** Whatever the filter returns was in its input. */
  lemma SinceFrom(ms: seq<Message>, after: int, x: Message)
    requires x in Since(ms, after)
    ensures x in ms
  {
    assert multiset(Since(ms, after))[x] > 0;
  }

  /** The filter keeps the order: an oldest-first list stays oldest first. */
  lemma {:induction false} SinceKeepsOrder(ms: seq<Message>, after: int)
    requires OldestFirst(ms)
    ensures OldestFirst(Since(ms, after))
  {
    if ms != [] {
      var tail := ms[1..];
      var rest := Since(tail, after);
      SinceKeepsOrder(tail, after);
      if ms[0].createdAt > after {
        forall y | y in rest ensures ms[0].createdAt <= y.createdAt {
          SinceFrom(tail, after, y);
          var k :| 0 <= k < |tail| && tail[k] == y;
          assert ms[k + 1] == y;
        }
        ConsOldestFirst(ms[0], rest);
      }
    }
  }

  /** A message no newer than any in an oldest-first list can go in front of it. */
  lemma ConsOldestFirst(m: Message, rest: seq<Message>)
    requires OldestFirst(rest)
    requires forall y :: y in rest ==> m.createdAt <= y.createdAt
    ensures OldestFirst([m] + rest)
  {
    var r := [m] + rest;
    forall i, j | 0 <= i < j < |r| ensures r[i].createdAt <= r[j].createdAt {
      assert r[j] == rest[j - 1];
      if i > 0 { assert r[i] == rest[i - 1]; }
    }
  }

  /** The filter keeps only later messages, and never more than it was given. */
  lemma SinceBounds(ms: seq<Message>, after: int)
    ensures forall x :: x in Since(ms, after) ==> x.createdAt > after
    ensures multiset(Since(ms, after)) <= multiset(ms)
    ensures |Since(ms, after)| <= |ms|
  {
    var r := Since(ms, after);
    forall x | x in r ensures x.createdAt > after {
      assert multiset(r)[x] > 0;
    }
    assert multiset(r) <= multiset(ms);
    assert |multiset(r)| <= |multiset(ms)| by { MultisetSubsetSize(multiset(r), multiset(ms)); }
  }

  /** A sub-multiset is no larger. */
  lemma MultisetSubsetSize(a: multiset<Message>, b: multiset<Message>)
    requires a <= b
    ensures |a| <= |b|
  {
    assert b == a + (b - a);
  }

  /**
   * `chat_messages`: the newest fifty messages oldest first, and with a
   * parsed `after` only those later than it; without one, unfiltered.
   */
  function Listing(ms: seq<Message>, after: Option<int>): (r: seq<Message>)
    ensures |r| <= PageSize
    ensures OldestFirst(r)
    ensures after.None? ==> r == Newest(ms)
    ensures after.Some? ==> forall x :: x in r ==> x.createdAt > after.value
    ensures after.Some? ==>
      forall x :: multiset(r)[x] == if x.createdAt > after.value then multiset(Newest(ms))[x] else 0
  {
    match after
    case None => Newest(ms)
    case Some(t) =>
      var w := Newest(ms);
      SinceKeepsOrder(w, t);
      SinceBounds(w, t);
      Since(w, t)
  }

  /**
   * With a parsed `after`, a message later than `after` that the listing
   * leaves out is no newer than anything it shows: it fell outside the
   * newest fifty.
   */
  lemma ListingKeepsNewest(ms: seq<Message>, after: int, m: Message)
    requires m in multiset(ms) - multiset(Listing(ms, Some(after))) && m.createdAt > after
    ensures forall x :: x in Listing(ms, Some(after)) ==> m.createdAt <= x.createdAt
  {
    var w, r := Newest(ms), Listing(ms, Some(after));
    assert multiset(r)[m] == multiset(w)[m];
    assert m in multiset(ms) - multiset(w);
    forall x | x in r ensures m.createdAt <= x.createdAt {
      assert multiset(r)[x] > 0;
      assert x in multiset(w);
    }
  }

  /** With at most fifty messages and no `after`, the listing shows every one of them. */
  lemma FewMessagesAllShown(ms: seq<Message>)
    requires |ms| <= PageSize
    ensures multiset(Listing(ms, None)) == multiset(ms)
  {
    var w := Newest(ms);
    var a, b := multiset(w), multiset(ms);
    assert b == a + (b - a);
    assert |b - a| == 0;
  }
}
