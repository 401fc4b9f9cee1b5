module Wrappers {
  datatype Option<T> = None | Some(value: T)
}

/** The tables the core reads and writes: sits, relationships and
    authorised_users, and the default scope every Sit query starts from. */
module Schema {
  import opened Calendar

  type UserId = int

  /** The account-wide privacy tier, `users.privacy_setting`. */
  datatype Tier = Public | Following | SelectedUsers | Private

  /** A row of the sits table. A nil title is the empty string. `sType` is
      0 for a timed sit, 1 for a diary entry, anything else an article. */
  datatype Sit = Sit(
    id: int,
    userId: UserId,
    createdAt: Stamp,
    sType: int,
    title: string,
    duration: int,
    body: string,
    isPrivate: bool,
    tags: seq<string>)

  /** A row of the relationships table: `followerId` follows `followedId`. */
  datatype Relationship = Relationship(followerId: UserId, followedId: UserId)

  /** A row of the authorised_users table: `userId` whitelists
      `authorisedUserId` for its selected_users tier. */
  datatype AuthorisedUser = AuthorisedUser(userId: UserId, authorisedUserId: UserId)

  /** What a privacy decision needs to know about the owner of the content. */
  datatype Owner = Owner(id: UserId, privacySetting: Tier)

  /** The two join tables the privacy rules consult. */
  datatype Social = Social(relationships: set<Relationship>, authorisedUsers: seq<AuthorisedUser>)

  /** The mutable tables. */
  class Database {
    var sits: seq<Sit>
    var relationships: set<Relationship>
    var authorisedUsers: seq<AuthorisedUser>

    constructor (sits: seq<Sit>, relationships: set<Relationship>, authorisedUsers: seq<AuthorisedUser>)
      ensures this.sits == sits && this.relationships == relationships
      ensures this.authorisedUsers == authorisedUsers
    {
      this.sits := sits;
      this.relationships := relationships;
      this.authorisedUsers := authorisedUsers;
    }

    function Links(): Social
      reads this
    {
      Social(relationships, authorisedUsers)
    }
  }

  /** `user.sits`: the owner's rows in table order; without `unscoped`, the
      default scope (`where.not(private: true)`) drops private rows. */
  function SitsOf(table: seq<Sit>, owner: UserId, unscoped: bool): (r: seq<Sit>)
    ensures forall s :: s in r <==> s in table && s.userId == owner && (unscoped || !s.isPrivate)
    ensures |r| <= |table|
  {
    if table == [] then []
    else
      var rest := SitsOf(table[1..], owner, unscoped);
      var s := table[0];
      if s.userId == owner && (unscoped || !s.isPrivate) then [s] + rest else rest
  }

  /** The `newest_first` scope's order: latest `created_at` first. */
  predicate NewestFirst(rows: seq<Sit>) {
    forall i, j :: 0 <= i < j < |rows| ==> StampAtMost(rows[j].createdAt, rows[i].createdAt)
  }

  /** Everything the default scope lets through is also in the unscoped
      view. */
  lemma {:induction false} DefaultScopeIsSubmultiset(table: seq<Sit>, owner: UserId)
    ensures multiset(SitsOf(table, owner, false)) <= multiset(SitsOf(table, owner, true))
  {
    if table != [] {
      DefaultScopeIsSubmultiset(table[1..], owner);
    }
  }
}
