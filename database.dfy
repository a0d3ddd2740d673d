/** The in-memory store of users, conversations and topics (lib/database.ts). Each create
    appends to a stored list; each read is a `find` or a `filter` over one. The clock and the
    random source that make ids and timestamps are parameters. */
module Database {
  import opened Text

  datatype User = User(id: int, email: String, name: Option<String>, createdAt: String)

  datatype Conversation = Conversation(
    id: int, userId: int, title: String, content: String, createdAt: String, updatedAt: String)

  /** A stored topic. Its id is `Date.now() + Math.random()`, so not a whole number. */
  datatype Topic = Topic(
    id: real, conversationId: int, title: String, summary: Option<String>,
    positionStart: int, positionEnd: int, createdAt: String)

  /** The fields a caller supplies for a new topic. */
  datatype TopicInput = TopicInput(title: String, summary: Option<String>, positionStart: int, positionEnd: int)

  // ---------------------------------------------------------------------------
  // find and filter
  // ---------------------------------------------------------------------------

  /** `xs.find(matches) || null`: the first element that matches, or nothing. */
  function Find<T>(xs: seq<T>, matches: T -> bool): (r: Option<T>)
    ensures r.None? <==> forall i :: 0 <= i < |xs| ==> !matches(xs[i])
    ensures r.Some? ==> exists i :: 0 <= i < |xs| && xs[i] == r.value && matches(xs[i])
                                    && forall j :: 0 <= j < i ==> !matches(xs[j])
  {
    if xs == [] then None
    else if matches(xs[0]) then Some(xs[0])
    else Find(xs[1..], matches)
  }

  /** `xs.filter(matches)`: the matching elements, in order. */
  function Filter<T>(xs: seq<T>, matches: T -> bool): (r: seq<T>)
    ensures |r| <= |xs|
  {
    if xs == [] then []
    else if matches(xs[0]) then [xs[0]] + Filter(xs[1..], matches)
    else Filter(xs[1..], matches)
  }

  /** Membership: the filtered list holds only matching elements of the list, and every
      matching one. */
  lemma {:induction false} FilterMembers<T>(xs: seq<T>, matches: T -> bool)
    ensures forall i :: 0 <= i < |Filter(xs, matches)| ==> matches(Filter(xs, matches)[i]) && Filter(xs, matches)[i] in xs
    ensures forall x :: x in xs && matches(x) ==> x in Filter(xs, matches)
  {
    if xs != [] {
      FilterMembers(xs[1..], matches);
      var r, r' := Filter(xs, matches), Filter(xs[1..], matches);
      if matches(xs[0]) {
        assert r == [xs[0]] + r';
        forall i | 0 < i < |r| ensures matches(r[i]) && r[i] in xs {
          assert r[i] == r'[i - 1];
        }
      }
      forall x | x in xs && matches(x) ensures x in r {
        if x != xs[0] {
          assert x in xs[1..];
        }
      }
    }
  }

  /** Multiplicity: every matching element is kept as often as it occurs, every other one is
      dropped. */
  lemma {:induction false} FilterCount<T>(xs: seq<T>, matches: T -> bool)
    ensures forall x :: x in xs ==> multiset(Filter(xs, matches))[x] == if matches(x) then multiset(xs)[x] else 0
  {
    if xs != [] {
      FilterCount(xs[1..], matches);
      assert xs == [xs[0]] + xs[1..];
      forall x | x in xs
        ensures multiset(Filter(xs, matches))[x] == if matches(x) then multiset(xs)[x] else 0
      {
        if x !in xs[1..] {
          FilterMembers(xs[1..], matches);
          assert x !in Filter(xs[1..], matches);
        }
      }
    }
  }

  lemma {:induction false} FilterAppend<T>(xs: seq<T>, ys: seq<T>, matches: T -> bool)
    ensures Filter(xs + ys, matches) == Filter(xs, matches) + Filter(ys, matches)
  {
    if xs == [] {
      assert xs + ys == ys;
    } else {
      assert (xs + ys)[0] == xs[0];
      assert (xs + ys)[1..] == xs[1..] + ys;
      FilterAppend(xs[1..], ys, matches);
    }
  }

  /** Insertion order: one more element at the end of the list is one more match at the end
      of the filtered list when it matches, and nothing more otherwise. */
  lemma FilterSnoc<T>(xs: seq<T>, x: T, matches: T -> bool)
    ensures Filter(xs + [x], matches) == Filter(xs, matches) + (if matches(x) then [x] else [])
  {
    FilterAppend(xs, [x], matches);
    assert [x][1..] == [];
  }

  /** Appending elements that all match appends them to the filtered list. */
  lemma FilterAppendAll<T>(xs: seq<T>, ys: seq<T>, matches: T -> bool)
    requires forall i :: 0 <= i < |ys| ==> matches(ys[i])
    ensures Filter(xs + ys, matches) == Filter(xs, matches) + ys
  {
    FilterAppend(xs, ys, matches);
    FilterAll(ys, matches);
  }

  /** Appending only matching elements to a list with none: the filtered list is exactly what
      was appended. */
  lemma FilterOnlyNew<T>(xs: seq<T>, ys: seq<T>, matches: T -> bool)
    requires forall i :: 0 <= i < |xs| ==> !matches(xs[i])
    requires forall i :: 0 <= i < |ys| ==> matches(ys[i])
    ensures Filter(xs + ys, matches) == ys
  {
    FilterAppendAll(xs, ys, matches);
    FilterNone(xs, matches);
  }

  lemma {:induction false} FilterAll<T>(xs: seq<T>, matches: T -> bool)
    requires forall i :: 0 <= i < |xs| ==> matches(xs[i])
    ensures Filter(xs, matches) == xs
  {
    if xs != [] {
      FilterAll(xs[1..], matches);
    }
  }

  lemma {:induction false} FilterNone<T>(xs: seq<T>, matches: T -> bool)
    requires forall i :: 0 <= i < |xs| ==> !matches(xs[i])
    ensures Filter(xs, matches) == []
  {
    if xs != [] {
      FilterNone(xs[1..], matches);
    }
  }

  lemma {:induction false} FindAppend<T>(xs: seq<T>, ys: seq<T>, matches: T -> bool)
    ensures Find(xs + ys, matches) == if Find(xs, matches).Some? then Find(xs, matches) else Find(ys, matches)
  {
    if xs == [] {
      assert xs + ys == ys;
    } else {
      assert (xs + ys)[0] == xs[0];
      assert (xs + ys)[1..] == xs[1..] + ys;
      FindAppend(xs[1..], ys, matches);
    }
  }

  // ---------------------------------------------------------------------------
  // Topics as the store records them
  // ---------------------------------------------------------------------------

  /** The records `createTopics` builds (lines 98-103): each input stamped with its own id,
      the conversation id and its own creation time (the clock is read once per topic). */
  function Stamp(conversationId: int, inputs: seq<TopicInput>, ids: seq<real>, times: seq<String>): (r: seq<Topic>)
    requires |ids| == |inputs| && |times| == |inputs|
    ensures |r| == |inputs|
    ensures forall i :: 0 <= i < |r| ==>
              && r[i].conversationId == conversationId
              && r[i].id == ids[i]
              && r[i].createdAt == times[i]
              && Unstamp(r[i]) == inputs[i]
  {
    if inputs == [] then []
    else [Topic(ids[0], conversationId, inputs[0].title, inputs[0].summary,
                inputs[0].positionStart, inputs[0].positionEnd, times[0])]
         + Stamp(conversationId, inputs[1..], ids[1..], times[1..])
  }

  /** The caller-supplied fields of a stored topic. */
  function Unstamp(t: Topic): TopicInput {
    TopicInput(t.title, t.summary, t.positionStart, t.positionEnd)
  }

  function UnstampAll(ts: seq<Topic>): (r: seq<TopicInput>)
    ensures |r| == |ts|
    ensures forall i :: 0 <= i < |ts| ==> r[i] == Unstamp(ts[i])
  {
    if ts == [] then [] else [Unstamp(ts[0])] + UnstampAll(ts[1..])
  }

  function OfConversation(conversationId: int): Topic -> bool {
    (t: Topic) => t.conversationId == conversationId
  }

  /** Round trip: reading the topics of conversation `c` after storing `inputs` under `c` gives
      the topics stored under `c` before, then the new ones, which carry exactly the inputs'
      fields in order. */
  lemma TopicsRoundTrip(stored: seq<Topic>, c: int, inputs: seq<TopicInput>, ids: seq<real>, times: seq<String>)
    requires |ids| == |inputs| && |times| == |inputs|
    ensures Filter(stored + Stamp(c, inputs, ids, times), OfConversation(c))
            == Filter(stored, OfConversation(c)) + Stamp(c, inputs, ids, times)
    ensures UnstampAll(Stamp(c, inputs, ids, times)) == inputs
  {
    UnstampStamp(c, inputs, ids, times);
    StampAllMatch(c, inputs, ids, times);
    FilterAppendAll(stored, Stamp(c, inputs, ids, times), OfConversation(c));
  }

  /** With nothing stored under `c` before, reading `c` back gives exactly the inputs. */
  lemma FreshTopicsRoundTrip(stored: seq<Topic>, c: int, inputs: seq<TopicInput>, ids: seq<real>, times: seq<String>)
    requires |ids| == |inputs| && |times| == |inputs|
    requires forall i :: 0 <= i < |stored| ==> stored[i].conversationId != c
    ensures UnstampAll(Filter(stored + Stamp(c, inputs, ids, times), OfConversation(c))) == inputs
  {
    var created := Stamp(c, inputs, ids, times);
    StampAllMatch(c, inputs, ids, times);
    UnstampStamp(c, inputs, ids, times);
    ReadBackFresh(stored, created, c, inputs);
  }

  /** Topics stored under a conversation that had none read back as exactly the new ones. */
  lemma ReadBackFresh(stored: seq<Topic>, created: seq<Topic>, c: int, inputs: seq<TopicInput>)
    requires forall i :: 0 <= i < |stored| ==> stored[i].conversationId != c
    requires forall i :: 0 <= i < |created| ==> OfConversation(c)(created[i])
    requires UnstampAll(created) == inputs
    ensures UnstampAll(Filter(stored + created, OfConversation(c))) == inputs
  {
    assert forall i :: 0 <= i < |stored| ==> !OfConversation(c)(stored[i]);
    FilterOnlyNew(stored, created, OfConversation(c));
  }

  /** Every stamped topic belongs to the conversation it was stamped with. */
  lemma StampAllMatch(c: int, inputs: seq<TopicInput>, ids: seq<real>, times: seq<String>)
    requires |ids| == |inputs| && |times| == |inputs|
    ensures forall i :: 0 <= i < |Stamp(c, inputs, ids, times)| ==> OfConversation(c)(Stamp(c, inputs, ids, times)[i])
  {
  }

  /** Stamping keeps every input's own fields, in order. */
  lemma UnstampStamp(c: int, inputs: seq<TopicInput>, ids: seq<real>, times: seq<String>)
    requires |ids| == |inputs| && |times| == |inputs|
    ensures UnstampAll(Stamp(c, inputs, ids, times)) == inputs
  {
    var created := Stamp(c, inputs, ids, times);
    assert forall i :: 0 <= i < |inputs| ==> UnstampAll(created)[i] == inputs[i];
  }

  // ---------------------------------------------------------------------------
  // The service
  // ---------------------------------------------------------------------------

  function WithEmail(email: String): User -> bool { (u: User) => u.email == email }
  function UserWithId(id: int): User -> bool { (u: User) => u.id == id }
  function ConversationWithId(id: int): Conversation -> bool { (c: Conversation) => c.id == id }
  function OfUser(userId: int): Conversation -> bool { (c: Conversation) => c.userId == userId }

  /** `DatabaseService` with the three stored lists as fields. */
  class DatabaseService {
    var users: seq<User>
    var conversations: seq<Conversation>
    var topics: seq<Topic>

    constructor ()
      ensures users == [] && conversations == [] && topics == []
    {
      users := [];
      conversations := [];
      topics := [];
    }

    /** `createUser` (lines 32-47): appends the new user, with no check for an existing
        email; the password hash is not stored. */
    method CreateUser(email: String, passwordHash: String, name: Option<String>, id: int, createdAt: String)
      returns (user: User)
      modifies this
      ensures user == User(id, email, name, createdAt)
      ensures users == old(users) + [user]
      ensures conversations == old(conversations) && topics == old(topics)
      ensures GetUserByEmail(email) == if old(GetUserByEmail(email)).Some? then old(GetUserByEmail(email)) else Some(user)
    {
      user := User(id, email, name, createdAt);
      FindAppend(users, [user], WithEmail(email));
      users := users + [user];
    }

    /** `getUserByEmail` (lines 49-53). */
    function GetUserByEmail(email: String): (r: Option<User>)
      reads this
      ensures r.Some? ==> exists i :: 0 <= i < |users| && users[i] == r.value && r.value.email == email
                                      && forall j :: 0 <= j < i ==> users[j].email != email
      ensures r.None? <==> forall i :: 0 <= i < |users| ==> users[i].email != email
    {
      Find(users, WithEmail(email))
    }

    /** `getUserById` (lines 55-59). */
    function GetUserById(id: int): (r: Option<User>)
      reads this
      ensures r.Some? ==> exists i :: 0 <= i < |users| && users[i] == r.value && r.value.id == id
                                      && forall j :: 0 <= j < i ==> users[j].id != id
      ensures r.None? <==> forall i :: 0 <= i < |users| ==> users[i].id != id
    {
      Find(users, UserWithId(id))
    }

    /** `createConversation` (lines 62-78): appends one record with the given owner, title and
        content; the clock is read once for `createdAt` and once more for `updatedAt`. The
        record goes at the end of its owner's list, and no other owner's list changes. */
    method CreateConversation(userId: int, title: String, content: String, id: int, createdAt: String, updatedAt: String)
      returns (conversation: Conversation)
      modifies this
      ensures conversation == Conversation(id, userId, title, content, createdAt, updatedAt)
      ensures conversations == old(conversations) + [conversation]
      ensures users == old(users) && topics == old(topics)
      ensures GetConversationsByUserId(userId) == old(GetConversationsByUserId(userId)) + [conversation]
      ensures forall u :: u != userId ==> GetConversationsByUserId(u) == old(GetConversationsByUserId(u))
    {
      conversation := Conversation(id, userId, title, content, createdAt, updatedAt);
      ghost var before := conversations;
      conversations := conversations + [conversation];
      FilterSnoc(before, conversation, OfUser(userId));
      forall u | u != userId
        ensures Filter(conversations, OfUser(u)) == Filter(before, OfUser(u))
      {
        FilterSnoc(before, conversation, OfUser(u));
      }
    }

    /** `getConversationsByUserId` (lines 80-84). */
    function GetConversationsByUserId(userId: int): (r: seq<Conversation>)
      reads this
      ensures forall i :: 0 <= i < |r| ==> r[i].userId == userId && r[i] in conversations
      ensures forall c :: c in conversations && c.userId == userId ==> c in r
      ensures forall c :: c in conversations ==> multiset(r)[c] == if c.userId == userId then multiset(conversations)[c] else 0
    {
      FilterMembers(conversations, OfUser(userId));
      FilterCount(conversations, OfUser(userId));
      Filter(conversations, OfUser(userId))
    }

    /** `getConversationById` (lines 86-90). */
    function GetConversationById(id: int): (r: Option<Conversation>)
      reads this
      ensures r.Some? ==> exists i :: 0 <= i < |conversations| && conversations[i] == r.value && r.value.id == id
                                      && forall j :: 0 <= j < i ==> conversations[j].id != id
      ensures r.None? <==> forall i :: 0 <= i < |conversations| ==> conversations[i].id != id
    {
      Find(conversations, ConversationWithId(id))
    }

    /** `createTopics` (lines 93-110): stamps every input and appends them, in order, after
        the stored topics; `ids` and `times` are what the clock and the random source gave
        for each. The new topics come last in their conversation's list. */
    method CreateTopics(conversationId: int, inputs: seq<TopicInput>, ids: seq<real>, times: seq<String>)
      returns (created: seq<Topic>)
      requires |ids| == |inputs| && |times| == |inputs|
      modifies this
      ensures created == Stamp(conversationId, inputs, ids, times)
      ensures topics == old(topics) + created
      ensures users == old(users) && conversations == old(conversations)
      ensures GetTopicsByConversationId(conversationId) == old(GetTopicsByConversationId(conversationId)) + created
    {
      created := Stamp(conversationId, inputs, ids, times);
      TopicsRoundTrip(topics, conversationId, inputs, ids, times);
      topics := topics + created;
    }

    /** `getTopicsByConversationId` (lines 112-116). */
    function GetTopicsByConversationId(conversationId: int): (r: seq<Topic>)
      reads this
      ensures forall i :: 0 <= i < |r| ==> r[i].conversationId == conversationId && r[i] in topics
      ensures forall t :: t in topics && t.conversationId == conversationId ==> t in r
      ensures forall t :: t in topics ==> multiset(r)[t] == if t.conversationId == conversationId then multiset(topics)[t] else 0
    {
      FilterMembers(topics, OfConversation(conversationId));
      FilterCount(topics, OfConversation(conversationId));
      Filter(topics, OfConversation(conversationId))
    }
  }

  /** Creating a user whose email is already taken leaves the lookup by email on the earlier
      user: the first match wins. */
  lemma DuplicateEmailKeepsFirst(stored: seq<User>, user: User)
    requires Find(stored, WithEmail(user.email)).Some?
    ensures Find(stored + [user], WithEmail(user.email)) == Find(stored, WithEmail(user.email))
  {
    FindAppend(stored, [user], WithEmail(user.email));
  }

  /** A new user is found by email when no stored user has that email. */
  lemma NewUserFound(stored: seq<User>, user: User)
    requires forall i :: 0 <= i < |stored| ==> stored[i].email != user.email
    ensures Find(stored + [user], WithEmail(user.email)) == Some(user)
  {
    FindAppend(stored, [user], WithEmail(user.email));
  }

  /** After a conversation is created, its owner's list is the previous list plus it, and it
      is found by id unless an earlier record has the same id. */
  lemma ConversationRoundTrip(stored: seq<Conversation>, conversation: Conversation)
    ensures Filter(stored + [conversation], OfUser(conversation.userId))
            == Filter(stored, OfUser(conversation.userId)) + [conversation]
    ensures (forall i :: 0 <= i < |stored| ==> stored[i].id != conversation.id) ==>
              Find(stored + [conversation], ConversationWithId(conversation.id)) == Some(conversation)
  {
    FilterAppend(stored, [conversation], OfUser(conversation.userId));
    FindAppend(stored, [conversation], ConversationWithId(conversation.id));
  }
}
