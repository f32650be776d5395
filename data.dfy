/**
 * The store behind `BlogDbContext`: the `Users`, `Posts` and `Tags` tables
 * as sequences in insertion order, with the next identity value of each
 * table. Rows are only ever appended by the controllers.
 */
module Data {
  import opened Wrappers
  import opened Models

  /** `Users.FindAsync(id)`: the user with primary key `id`. */
  function FindUserById(users: seq<User>, id: int): (r: Option<User>)
    ensures r.Some? ==> r.value in users && r.value.id == id
    ensures r.None? <==> forall u :: u in users ==> u.id != id
  {
    if users == [] then None
    else if users[0].id == id then Some(users[0])
    else FindUserById(users[1..], id)
  }

  /** `Users.FirstOrDefaultAsync(u => u.Email == email)`, by exact string equality. */
  function FindUserByEmail(users: seq<User>, email: string): (r: Option<User>)
    ensures r.Some? ==> r.value in users && r.value.email == email
    ensures r.None? <==> forall u :: u in users ==> u.email != email
  {
    if users == [] then None
    else if users[0].email == email then Some(users[0])
    else FindUserByEmail(users[1..], email)
  }

  /** No two users share an email address. */
  predicate UniqueEmails(users: seq<User>) {
    forall i, j :: 0 <= i < j < |users| ==> users[i].email != users[j].email
  }

  predicate UserIdsBelow(users: seq<User>, next: int) {
    (forall i :: 0 <= i < |users| ==> 1 <= users[i].id < next)
    && (forall i, j :: 0 <= i < j < |users| ==> users[i].id != users[j].id)
  }

  predicate PostIdsBelow(posts: seq<Post>, next: int) {
    (forall i :: 0 <= i < |posts| ==> 1 <= posts[i].id < next)
    && (forall i, j :: 0 <= i < j < |posts| ==> posts[i].id != posts[j].id)
  }

  predicate TagIdsBelow(tags: seq<Tag>, next: int) {
    (forall i :: 0 <= i < |tags| ==> 1 <= tags[i].id < next)
    && (forall i, j :: 0 <= i < j < |tags| ==> tags[i].id != tags[j].id)
  }

  /** Appending rows numbered `next`, `next + 1`, ... keeps the tag identities distinct. */
  lemma AppendTagsKeepsIds(tags: seq<Tag>, next: int, added: seq<Tag>)
    requires TagIdsBelow(tags, next) && next >= 1
    requires forall j :: 0 <= j < |added| ==> added[j].id == next + j
    ensures TagIdsBelow(tags + added, next + |added|)
  {
    var all := tags + added;
    forall i, j | 0 <= i < j < |all| ensures all[i].id != all[j].id {
      if j >= |tags| {
        assert all[j] == added[j - |tags|];
        if i >= |tags| {
          assert all[i] == added[i - |tags|];
        }
      }
    }
    forall i | 0 <= i < |all| ensures 1 <= all[i].id < next + |added| {
      if i >= |tags| {
        assert all[i] == added[i - |tags|];
      }
    }
  }

  /**
   * The store's invariant, on the tables' values: identity columns hand out
   * distinct ids; every post belongs to a stored user and links only stored
   * tags; emails are unique (kept by `Register`, not by a storage constraint).
   */
  predicate Consistent(users: seq<User>, posts: seq<Post>, tags: seq<Tag>,
                       nextUserId: int, nextPostId: int, nextTagId: int)
  {
    && nextUserId >= 1 && nextPostId >= 1 && nextTagId >= 1
    && UserIdsBelow(users, nextUserId)
    && PostIdsBelow(posts, nextPostId)
    && TagIdsBelow(tags, nextTagId)
    && UniqueEmails(users)
    && (forall i :: 0 <= i < |posts| ==> FindUserById(users, posts[i].userId).Some?)
    && (forall i, t :: 0 <= i < |posts| && t in posts[i].tags ==> t in tags)
  }

  /**
   * Storing new tags numbered from `nextTagId` and one post numbered
   * `nextPostId`, owned by a stored user and linking only stored or new tags,
   * keeps the store consistent.
   */
  lemma AppendPostKeepsConsistent(users: seq<User>, posts: seq<Post>, tags: seq<Tag>,
                                  nextUserId: int, nextPostId: int, nextTagId: int,
                                  added: seq<Tag>, post: Post)
    requires Consistent(users, posts, tags, nextUserId, nextPostId, nextTagId)
    requires forall j :: 0 <= j < |added| ==> added[j].id == nextTagId + j
    requires post.id == nextPostId && FindUserById(users, post.userId).Some?
    requires forall t :: t in post.tags ==> t in tags || t in added
    ensures Consistent(users, posts + [post], tags + added, nextUserId, nextPostId + 1, nextTagId + |added|)
  {
    AppendTagsKeepsIds(tags, nextTagId, added);
    var all := posts + [post];
    forall i | 0 <= i < |all| ensures FindUserById(users, all[i].userId).Some? {
      if i < |posts| { assert all[i] == posts[i]; }
    }
    forall i, t | 0 <= i < |all| && t in all[i].tags ensures t in tags + added {
      if i < |posts| { assert all[i] == posts[i]; }
    }
    forall i, j | 0 <= i < j < |all| ensures all[i].id != all[j].id {
      if j == |posts| { assert all[i] == posts[i]; }
      else { assert all[i] == posts[i] && all[j] == posts[j]; }
    }
    forall i | 0 <= i < |all| ensures 1 <= all[i].id < nextPostId + 1 {
      if i < |posts| { assert all[i] == posts[i]; }
    }
  }

  /**
   * Storing one user numbered `nextUserId` whose email no stored user has
   * keeps the store consistent.
   */
  lemma AppendUserKeepsConsistent(users: seq<User>, posts: seq<Post>, tags: seq<Tag>,
                                  nextUserId: int, nextPostId: int, nextTagId: int, user: User)
    requires Consistent(users, posts, tags, nextUserId, nextPostId, nextTagId)
    requires user.id == nextUserId && FindUserByEmail(users, user.email).None?
    ensures Consistent(users + [user], posts, tags, nextUserId + 1, nextPostId, nextTagId)
  {
    var all := users + [user];
    forall i, j | 0 <= i < j < |all| ensures all[i].email != all[j].email && all[i].id != all[j].id {
      assert all[i] == users[i];
      if j < |users| { assert all[j] == users[j]; }
    }
    forall i | 0 <= i < |all| ensures 1 <= all[i].id < nextUserId + 1 {
      if i < |users| { assert all[i] == users[i]; }
    }
    forall i | 0 <= i < |posts| ensures FindUserById(all, posts[i].userId).Some? {
      var owner := FindUserById(users, posts[i].userId).value;
      assert owner in all;
    }
  }

  class BlogContext {
    var users: seq<User>
    var posts: seq<Post>
    var tags: seq<Tag>
    var nextUserId: int
    var nextPostId: int
    var nextTagId: int

    /**
     * Identity columns hand out distinct ids; every post belongs to a stored
     * user and links only stored tags; emails are unique (kept by `Register`,
     * not by a storage constraint).
     */
    ghost predicate Valid()
      reads this
    {
      Consistent(users, posts, tags, nextUserId, nextPostId, nextTagId)
    }

    /** An empty database whose identity columns start at 1. */
    constructor ()
      ensures Valid()
      ensures users == [] && posts == [] && tags == []
      ensures nextUserId == 1 && nextPostId == 1 && nextTagId == 1
    {
      users, posts, tags := [], [], [];
      nextUserId, nextPostId, nextTagId := 1, 1, 1;
    }
  }
}
