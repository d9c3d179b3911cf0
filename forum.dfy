/** Forum topics and posts as `forum` and `forum_topic` create them. */
module Forum {
  import opened Text

  datatype Topic = Topic(id: nat, title: string, userId: nat, createdAt: int)
  datatype Post = Post(id: nat, topicId: nat, userId: nat, content: string, createdAt: int)

  /** What a POST to `forum` does. */
  datatype TopicOutcome = EmptyTitle | TopicCreated(topicId: nat)

  /** What a POST to `forum_topic` does. */
  datatype PostOutcome = TopicNotFound | EmptyPost | Posted(postId: nat)

  /** Every topic's id is its position plus one and its title is non-empty and stripped. */
  ghost predicate TopicsValid(topics: seq<Topic>) {
    forall i :: 0 <= i < |topics| ==>
      topics[i].id == i + 1 && topics[i].title != [] && IsTrimmed(topics[i].title)
  }

  /**
   * Every post's id is its position plus one, it belongs to one of the
   * `topicCount` topics, and its content is non-empty and stripped.
   */
  ghost predicate PostsValid(posts: seq<Post>, topicCount: nat) {
    forall i :: 0 <= i < |posts| ==>
      && posts[i].id == i + 1 && 1 <= posts[i].topicId <= topicCount
      && posts[i].content != [] && IsTrimmed(posts[i].content)
  }

  /**
   * `forum` on POST: the title is stripped; an empty one is refused and
   * nothing is stored, otherwise one topic is appended at time `now`.
   */
  function CreateTopic(topics: seq<Topic>, userId: nat, rawTitle: string, now: int): (r: (TopicOutcome, seq<Topic>))
    ensures r.0 == EmptyTitle <==> AllSpace(rawTitle)
    ensures r.0 == EmptyTitle ==> r.1 == topics
    ensures r.0.TopicCreated? ==>
      r.0.topicId == |topics| + 1 && r.1 == topics + [Topic(|topics| + 1, Strip(rawTitle), userId, now)]
  {
    var title := Strip(rawTitle);
    if title == [] then (EmptyTitle, topics)
    else (TopicCreated(|topics| + 1), topics + [Topic(|topics| + 1, title, userId, now)])
  }

  /** `forum` keeps the topic table valid. */
  lemma CreateTopicPreservesValid(topics: seq<Topic>, userId: nat, rawTitle: string, now: int)
    requires TopicsValid(topics)
    ensures TopicsValid(CreateTopic(topics, userId, rawTitle, now).1)
  {
  }

  /**
   * `forum_topic` on POST: an unknown topic id is a 404; the content is
   * stripped, an empty one is refused and nothing is stored, otherwise one
   * post is appended to the topic at time `now`.
   */
  function AddPost(posts: seq<Post>, topicCount: nat, topicId: nat, userId: nat, rawContent: string, now: int)
    : (r: (PostOutcome, seq<Post>))
    ensures r.0 == TopicNotFound <==> !(1 <= topicId <= topicCount)
    ensures r.0 == EmptyPost <==>
      1 <= topicId <= topicCount && AllSpace(rawContent)
    ensures !r.0.Posted? ==> r.1 == posts
    ensures r.0.Posted? ==>
      r.0.postId == |posts| + 1 && r.1 == posts + [Post(|posts| + 1, topicId, userId, Strip(rawContent), now)]
  {
    if !(1 <= topicId <= topicCount) then (TopicNotFound, posts)
    else
      var content := Strip(rawContent);
      if content == [] then (EmptyPost, posts)
      else (Posted(|posts| + 1), posts + [Post(|posts| + 1, topicId, userId, content, now)])
  }

  /** `forum_topic` keeps the post table valid. */
  lemma AddPostPreservesValid(posts: seq<Post>, topicCount: nat, topicId: nat, userId: nat, rawContent: string, now: int)
    requires PostsValid(posts, topicCount)
    ensures PostsValid(AddPost(posts, topicCount, topicId, userId, rawContent, now).1, topicCount)
  {
  }

  /** Adding topics never invalidates posts: they only refer to earlier topics. */
  lemma PostsValidMonotone(posts: seq<Post>, topicCount: nat, topicCount': nat)
    requires PostsValid(posts, topicCount) && topicCount <= topicCount'
    ensures PostsValid(posts, topicCount')
  {
  }
}
