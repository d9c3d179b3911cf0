/**
 * The application's tables, changed in place by the POST handlers. Each
 * handler checks its input and then either appends one row or leaves every
 * table as it was; the signed-in user's id is a parameter, and so is the
 * clock reading the database would stamp on a new row.
 */
module App {
  import opened Optional
  import Text
  import Accounts
  import Reservations
  import Forum
  import Chat

  class Store {
    /** The ids of the cars; no handler modelled here adds or removes one. */
    const cars: set<nat>
    var users: seq<Accounts.User>
    var reservations: seq<Reservations.Reservation>
    var topics: seq<Forum.Topic>
    var posts: seq<Forum.Post>
    var messages: seq<Chat.Message>

    /** `userId` belongs to a registered user. */
    predicate IsUser(userId: nat)
      reads this
    {
      1 <= userId <= |users|
    }

    /** The tables' invariant, `TablesValid`, of the current tables. */
    ghost predicate Valid()
      reads this
    {
      TablesValid(cars, users, reservations, topics, posts, messages)
    }

    /** Empty tables beside the given cars. */
    constructor (cars: set<nat>)
      ensures Valid()
      ensures this.cars == cars
      ensures users == [] && reservations == [] && topics == [] && posts == [] && messages == []
    {
      this.cars := cars;
      users, reservations, topics, posts, messages := [], [], [], [], [];
    }

    /** `register` on POST: refuses an empty field or a known e-mail, else adds the user. */
    method Register(rawEmail: string, rawName: string, password: string) returns (outcome: Accounts.RegisterOutcome)
      requires Valid()
      modifies this`users
      ensures Valid()
      ensures (outcome, users) == Accounts.Register(old(users), rawEmail, rawName, password)
    {
      var email := Accounts.NormalizeEmail(rawEmail);
      var name := Text.Strip(rawName);
      if email == [] || name == [] || password == [] {
        return Accounts.MissingField;
      }
      if Accounts.FindByEmail(users, email).Some? {
        return Accounts.EmailTaken;
      }
      RegisterKeepsValid(cars, users, reservations, topics, posts, messages, rawEmail, rawName, password);
      outcome := Accounts.Registered(|users| + 1);
      users := users + [Accounts.User(|users| + 1, email, name, Accounts.HashOf(password))];
    }

    /**
     * `reserve`: a 404 for an unknown car, then the date checks and the
     * conflict query; on success one reservation is appended.
     */
    method Reserve(userId: nat, carId: nat, start: Option<int>, end: Option<int>)
      returns (outcome: Reservations.Outcome)
      requires Valid() && IsUser(userId)
      modifies this`reservations
      ensures Valid()
      ensures (outcome, reservations)
        == Reservations.Reserve(old(reservations), cars, Reservations.Request(userId, carId, start, end))
    {
      if carId !in cars {
        return Reservations.CarNotFound;
      }
      if start.None? || end.None? {
        return Reservations.InvalidDate;
      }
      var s, e := start.value, end.value;
      if e < s {
        return Reservations.EndBeforeStart;
      }
      if Reservations.FirstConflict(reservations, carId, s, e).Some? {
        return Reservations.Conflict;
      }
      ReserveKeepsValid(cars, users, reservations, topics, posts, messages, Reservations.Request(userId, carId, start, end));
      reservations := reservations + [Reservations.Reservation(userId, carId, s, e)];
      outcome := Reservations.Reserved;
    }

    /** `forum` on POST: refuses an empty title, else adds the topic. */
    method CreateTopic(userId: nat, rawTitle: string, now: int) returns (outcome: Forum.TopicOutcome)
      requires Valid() && IsUser(userId)
      modifies this`topics
      ensures Valid()
      ensures (outcome, topics) == Forum.CreateTopic(old(topics), userId, rawTitle, now)
    {
      var title := Text.Strip(rawTitle);
      if title == [] {
        return Forum.EmptyTitle;
      }
      CreateTopicKeepsValid(cars, users, reservations, topics, posts, messages, userId, rawTitle, now);
      outcome := Forum.TopicCreated(|topics| + 1);
      topics := topics + [Forum.Topic(|topics| + 1, title, userId, now)];
    }

    /** `forum_topic` on POST: a 404 for an unknown topic, refuses empty content, else adds the post. */
    method AddPost(userId: nat, topicId: nat, rawContent: string, now: int) returns (outcome: Forum.PostOutcome)
      requires Valid() && IsUser(userId)
      modifies this`posts
      ensures Valid()
      ensures (outcome, posts) == Forum.AddPost(old(posts), |topics|, topicId, userId, rawContent, now)
    {
      if !(1 <= topicId <= |topics|) {
        return Forum.TopicNotFound;
      }
      var content := Text.Strip(rawContent);
      if content == [] {
        return Forum.EmptyPost;
      }
      AddPostKeepsValid(cars, users, reservations, topics, posts, messages, userId, topicId, rawContent, now);
      outcome := Forum.Posted(|posts| + 1);
      posts := posts + [Forum.Post(|posts| + 1, topicId, userId, content, now)];
    }

    /** `chat_send`: refuses empty content, else adds the message. */
    method SendChat(userId: nat, rawContent: string, now: int) returns (outcome: Chat.SendOutcome)
      requires Valid() && IsUser(userId)
      modifies this`messages
      ensures Valid()
      ensures (outcome, messages) == Chat.Send(old(messages), userId, rawContent, now)
    {
      var content := Text.Strip(rawContent);
      if content == [] {
        return Chat.EmptyMessage;
      }
      SendKeepsValid(cars, users, reservations, topics, posts, messages, userId, rawContent, now);
      outcome := Chat.Sent(|messages| + 1, now);
      messages := messages + [Chat.Message(|messages| + 1, userId, content, now)];
    }

    /** `chat_messages`: the listing of the stored messages; changes nothing. */
    method ChatMessages(after: Option<int>) returns (listed: seq<Chat.Message>)
      requires Valid()
      ensures listed == Chat.Listing(messages, after)
      ensures |listed| <= Chat.PageSize && Chat.OldestFirst(listed)
      ensures forall m | m in listed :: m in messages
    {
      listed := Chat.Listing(messages, after);
      ChatListingFromTable(messages, after);
    }
  }

  /**
   * The tables' invariant: each table is valid on its own, and every
   * reservation, topic, post and message names a registered user.
   */
  ghost predicate TablesValid(cars: set<nat>, users: seq<Accounts.User>, reservations: seq<Reservations.Reservation>,
                              topics: seq<Forum.Topic>, posts: seq<Forum.Post>, messages: seq<Chat.Message>)
  {
    && Accounts.UsersValid(users)
    && Reservations.Invariant(reservations, cars)
    && Forum.TopicsValid(topics)
    && Forum.PostsValid(posts, |topics|)
    && Chat.MessagesValid(messages)
    && Authored(reservations, topics, posts, messages, |users|)
  }

  /** `register` keeps the tables valid. */
  lemma RegisterKeepsValid(cars: set<nat>, users: seq<Accounts.User>, reservations: seq<Reservations.Reservation>,
                           topics: seq<Forum.Topic>, posts: seq<Forum.Post>, messages: seq<Chat.Message>,
                           rawEmail: string, rawName: string, password: string)
    requires TablesValid(cars, users, reservations, topics, posts, messages)
    ensures TablesValid(cars, Accounts.Register(users, rawEmail, rawName, password).1, reservations, topics, posts, messages)
  {
    Accounts.RegisterPreservesValid(users, rawEmail, rawName, password);
  }

  /** `reserve` by a registered user keeps the tables valid. */
  lemma ReserveKeepsValid(cars: set<nat>, users: seq<Accounts.User>, reservations: seq<Reservations.Reservation>,
                          topics: seq<Forum.Topic>, posts: seq<Forum.Post>, messages: seq<Chat.Message>,
                          req: Reservations.Request)
    requires TablesValid(cars, users, reservations, topics, posts, messages)
    requires 1 <= req.userId <= |users|
    ensures TablesValid(cars, users, Reservations.Reserve(reservations, cars, req).1, topics, posts, messages)
  {
    Reservations.ReservePreservesInvariant(reservations, cars, req);
  }

  /** `forum` by a registered user keeps the tables valid. */
  lemma CreateTopicKeepsValid(cars: set<nat>, users: seq<Accounts.User>, reservations: seq<Reservations.Reservation>,
                              topics: seq<Forum.Topic>, posts: seq<Forum.Post>, messages: seq<Chat.Message>,
                              userId: nat, rawTitle: string, now: int)
    requires TablesValid(cars, users, reservations, topics, posts, messages)
    requires 1 <= userId <= |users|
    ensures TablesValid(cars, users, reservations, Forum.CreateTopic(topics, userId, rawTitle, now).1, posts, messages)
  {
    var topics' := Forum.CreateTopic(topics, userId, rawTitle, now).1;
    Forum.CreateTopicPreservesValid(topics, userId, rawTitle, now);
    Forum.PostsValidMonotone(posts, |topics|, |topics'|);
  }

  /** `forum_topic` by a registered user keeps the tables valid. */
  lemma AddPostKeepsValid(cars: set<nat>, users: seq<Accounts.User>, reservations: seq<Reservations.Reservation>,
                          topics: seq<Forum.Topic>, posts: seq<Forum.Post>, messages: seq<Chat.Message>,
                          userId: nat, topicId: nat, rawContent: string, now: int)
    requires TablesValid(cars, users, reservations, topics, posts, messages)
    requires 1 <= userId <= |users|
    ensures TablesValid(cars, users, reservations, topics,
                        Forum.AddPost(posts, |topics|, topicId, userId, rawContent, now).1, messages)
  {
    Forum.AddPostPreservesValid(posts, |topics|, topicId, userId, rawContent, now);
  }

  /** `chat_send` by a registered user keeps the tables valid. */
  lemma SendKeepsValid(cars: set<nat>, users: seq<Accounts.User>, reservations: seq<Reservations.Reservation>,
                       topics: seq<Forum.Topic>, posts: seq<Forum.Post>, messages: seq<Chat.Message>,
                       userId: nat, rawContent: string, now: int)
    requires TablesValid(cars, users, reservations, topics, posts, messages)
    requires 1 <= userId <= |users|
    ensures TablesValid(cars, users, reservations, topics, posts, Chat.Send(messages, userId, rawContent, now).1)
  {
    Chat.SendPreservesValid(messages, userId, rawContent, now);
  }

  /** Every reservation, topic, post and message names one of the first `userCount` users. */
  ghost predicate Authored(reservations: seq<Reservations.Reservation>, topics: seq<Forum.Topic>,
                           posts: seq<Forum.Post>, messages: seq<Chat.Message>, userCount: nat)
  {
    && (forall r | r in reservations :: 1 <= r.userId <= userCount)
    && (forall t | t in topics :: 1 <= t.userId <= userCount)
    && (forall p | p in posts :: 1 <= p.userId <= userCount)
    && (forall m | m in messages :: 1 <= m.userId <= userCount)
  }

  /** Everything the listing shows is a stored message. */
  lemma ChatListingFromTable(ms: seq<Chat.Message>, after: Option<int>)
    ensures forall m | m in Chat.Listing(ms, after) :: m in ms
  {
    var w := Chat.Newest(ms);
    forall m | m in Chat.Listing(ms, after) ensures m in ms {
      if after.Some? {
        assert multiset(Chat.Listing(ms, after))[m] > 0;
      }
      assert m in multiset(w);
    }
  }
}
