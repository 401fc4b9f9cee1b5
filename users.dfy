/** app/models/user.rb: account privacy, the selected-users whitelist,
    relationships and the name and location shown for an account. */
module Users {
  import opened Wrappers
  import opened Text
  import opened Lists
  import opened Schema

  /** The OpenSit account every new user follows on sign-up. */
  const OpenSitId: UserId := 97

  /** Names and place as entered on the account form; nil is "". */
  datatype Profile = Profile(username: string, firstName: string, lastName: string, city: string, country: string)

  datatype SettingOutcome = Assigned | ArgumentError

  // ---------------------------------------------------------------------
  // Privacy tier

  function TierName(t: Tier): string {
    match t
    case Public => "public"
    case Following => "following"
    case SelectedUsers => "selected_users"
    case Private => "private"
  }

  /** The values `privacy_setting=` accepts. */
  function ParseTier(value: string): (r: Option<Tier>)
    ensures r.Some? ==> TierName(r.value) == value
  {
    if value == "public" then Some(Public)
    else if value == "following" then Some(Following)
    else if value == "selected_users" then Some(SelectedUsers)
    else if value == "private" then Some(Private)
    else None
  }

  /** Exactly the four tier names are accepted, each as its own tier. */
  lemma ParseTierAcceptsExactlyTheNames(value: string)
    ensures ParseTier(value).Some? <==> exists t: Tier :: TierName(t) == value
    ensures forall t: Tier :: ParseTier(TierName(t)) == Some(t)
  {
    if ParseTier(value).None? {
      forall t: Tier ensures TierName(t) != value {
        match t
        case Public =>
        case Following =>
        case SelectedUsers =>
        case Private =>
      }
    }
  }

  predicate PrivateJournal(o: Owner) {
    o.privacySetting == Private
  }

  predicate PublicJournal(o: Owner) {
    o.privacySetting == Public
  }

  /** `update_all(private: true)` on the owner's default-scoped sits: every
      non-private row of the owner becomes private. */
  function MarkPrivate(table: seq<Sit>, owner: UserId): (r: seq<Sit>)
    ensures |r| == |table|
  {
    seq(|table|, i requires 0 <= i < |table| =>
      if table[i].userId == owner && !table[i].isPrivate then table[i].(isPrivate := true) else table[i])
  }

  /** `update_all(private: false)` restricted to the owner's rows, private
      ones included. */
  function UnmarkPrivate(table: seq<Sit>, owner: UserId): (r: seq<Sit>)
    ensures |r| == |table|
  {
    seq(|table|, i requires 0 <= i < |table| =>
      if table[i].userId == owner then table[i].(isPrivate := false) else table[i])
  }

  /** `sits.unscoped.update_all(private: false)` as written: `unscoped` drops
      the association's user_id condition, so every row of the table is
      cleared. */
  function UnscopedUnmarkAsWritten(table: seq<Sit>): (r: seq<Sit>)
    ensures |r| == |table|
  {
    seq(|table|, i requires 0 <= i < |table| => table[i].(isPrivate := false))
  }

  /** The sits table after the owner moves from tier `from` to tier `to`. */
  function AfterTierChange(table: seq<Sit>, owner: UserId, from: Tier, to: Tier): seq<Sit> {
    if from == Private && to != Private then UnmarkPrivate(table, owner)
    else if to == Private then MarkPrivate(table, owner)
    else table
  }

  /** Moving to the private tier leaves every sit of the owner private, so no
      default-scoped query sees any of them; rows of other users and every
      other column are untouched. */
  lemma ToPrivateHidesAllOwnerSits(table: seq<Sit>, owner: UserId, from: Tier)
    ensures var after := AfterTierChange(table, owner, from, Private);
      && |after| == |table|
      && (forall i :: 0 <= i < |table| && table[i].userId == owner ==>
            after[i] == table[i].(isPrivate := true))
      && (forall i :: 0 <= i < |table| && table[i].userId != owner ==> after[i] == table[i])
      && SitsOf(after, owner, false) == []
  {
    var after := AfterTierChange(table, owner, from, Private);
    NoVisibleRowLeft(after, owner);
  }

  lemma {:induction false} NoVisibleRowLeft(table: seq<Sit>, owner: UserId)
    requires forall i :: 0 <= i < |table| && table[i].userId == owner ==> table[i].isPrivate
    ensures SitsOf(table, owner, false) == []
  {
    if table != [] {
      NoVisibleRowLeft(table[1..], owner);
    }
  }

  /** Leaving the private tier clears the flag on every sit of the owner, so
      default-scoped queries see all of them again; nothing else changes. */
  lemma FromPrivateShowsAllOwnerSits(table: seq<Sit>, owner: UserId, to: Tier)
    requires to != Private
    ensures var after := AfterTierChange(table, owner, Private, to);
      && |after| == |table|
      && (forall i :: 0 <= i < |table| && table[i].userId == owner ==>
            after[i] == table[i].(isPrivate := false))
      && (forall i :: 0 <= i < |table| && table[i].userId != owner ==> after[i] == table[i])
      && SitsOf(after, owner, false) == SitsOf(after, owner, true)
  {
    var after := AfterTierChange(table, owner, Private, to);
    AllPublicScopesAgree(after, owner);
  }

  lemma {:induction false} AllPublicScopesAgree(table: seq<Sit>, owner: UserId)
    requires forall i :: 0 <= i < |table| && table[i].userId == owner ==> !table[i].isPrivate
    ensures SitsOf(table, owner, false) == SitsOf(table, owner, true)
  {
    if table != [] {
      AllPublicScopesAgree(table[1..], owner);
    }
  }

  /** Moves among public, following and selected_users leave the table as it
      was. */
  lemma AmongSharedTiersNothingChanges(table: seq<Sit>, owner: UserId, from: Tier, to: Tier)
    requires from != Private && to != Private
    ensures AfterTierChange(table, owner, from, to) == table
  {
  }

  /** The as-written clear reaches rows of other users: each private sit of
      someone else is made public, where the owner-only clear keeps it
      private. */
  lemma UnscopedClearReachesOtherUsers(table: seq<Sit>, owner: UserId, i: int)
    requires 0 <= i < |table| && table[i].userId != owner && table[i].isPrivate
    ensures !UnscopedUnmarkAsWritten(table)[i].isPrivate
    ensures UnmarkPrivate(table, owner)[i] == table[i]
  {
  }

  // ---------------------------------------------------------------------
  // Who may see whose content

  /** `follower.following?(followed)`: a relationship row from `follower`
      to `followed`. */
  predicate Follows(rels: set<Relationship>, follower: UserId, followed: UserId) {
    Relationship(follower, followed) in rels
  }

  /** `AuthorisedUser.where(user_id: owner, authorised_user_id: viewer).present?` */
  predicate IsAuthorised(rows: seq<AuthorisedUser>, owner: UserId, viewer: UserId) {
    AuthorisedUser(owner, viewer) in rows
  }

  /** `viewer.can_view_content_of(owner)`: oneself always; otherwise the
      owner's tier decides: following shares with the accounts the owner
      follows, selected_users with the whitelist, public with everyone,
      private with nobody. */
  function CanViewContentOf(viewer: UserId, owner: Owner, social: Social): (r: bool)
    ensures viewer == owner.id ==> r
    ensures viewer != owner.id ==>
      (r <==> match owner.privacySetting
              case Public => true
              case Following => Follows(social.relationships, owner.id, viewer)
              case SelectedUsers => IsAuthorised(social.authorisedUsers, owner.id, viewer)
              case Private => false)
  {
    if viewer == owner.id then true
    else if owner.privacySetting == Following && Follows(social.relationships, owner.id, viewer) then true
    else if owner.privacySetting == SelectedUsers && IsAuthorised(social.authorisedUsers, owner.id, viewer) then true
    else owner.privacySetting == Public
  }

  /** `User#viewable_users` as written: users who whitelisted the viewer,
      whatever their tier; users with the following tier who follow the
      viewer; and public users. `tiers` is the users table's privacy_setting
      column. */
  function ViewableUsersAsWritten(viewer: UserId, tiers: map<UserId, Tier>, social: Social): set<UserId> {
    set u | u in tiers &&
      (IsAuthorised(social.authorisedUsers, u, viewer)
       || (tiers[u] == Following && Follows(social.relationships, u, viewer))
       || tiers[u] == Public)
  }

  /** `viewable_users` with its whitelist branch limited to owners whose tier
      is selected_users. */
  function ViewableUsers(viewer: UserId, tiers: map<UserId, Tier>, social: Social): (r: set<UserId>)
    ensures forall u :: u in r ==> u in tiers
  {
    set u | u in tiers &&
      ((tiers[u] == SelectedUsers && IsAuthorised(social.authorisedUsers, u, viewer))
       || (tiers[u] == Following && Follows(social.relationships, u, viewer))
       || tiers[u] == Public)
  }

  /** The corrected set holds exactly the other users whose content the
      viewer may see. */
  lemma ViewableUsersMatchesCanView(viewer: UserId, tiers: map<UserId, Tier>, social: Social, u: UserId)
    requires u in tiers && u != viewer
    ensures u in ViewableUsers(viewer, tiers, social) <==> CanViewContentOf(viewer, Owner(u, tiers[u]), social)
  {
  }

  /** As written, the whitelist outlives the tier: an owner who whitelisted
      the viewer and then moved to the following tier without following the
      viewer is still listed, though the viewer may not see the content. */
  lemma ViewableUsersAsWrittenAdmitsStaleWhitelist()
    ensures var tiers := map[1 := Following];
      var social := Social({}, [AuthorisedUser(1, 2)]);
      && 1 in ViewableUsersAsWritten(2, tiers, social)
      && !CanViewContentOf(2, Owner(1, Following), social)
      && 1 !in ViewableUsers(2, tiers, social)
  {
    var social := Social({}, [AuthorisedUser(1, 2)]);
    assert IsAuthorised(social.authorisedUsers, 1, 2);
  }

  function FollowedIds(rels: set<Relationship>, u: UserId): (ids: set<UserId>)
    ensures forall v :: v in ids <==> Follows(rels, u, v)
  {
    set r | r in rels && r.followerId == u :: r.followedId
  }

  function FollowerIds(rels: set<Relationship>, u: UserId): (ids: set<UserId>)
    ensures forall v :: v in ids <==> Follows(rels, v, u)
  {
    set r | r in rels && r.followedId == u :: r.followerId
  }

  /** `viewable_and_following_users`: the accounts the viewer follows whose
      content the viewer may see (the feed's authors), on the corrected
      `viewable_users`. */
  function ViewableAndFollowingUsers(viewer: UserId, tiers: map<UserId, Tier>, social: Social): (r: set<UserId>)
    ensures forall u :: u in r <==>
      u in tiers && Follows(social.relationships, viewer, u) && u in ViewableUsers(viewer, tiers, social)
    ensures forall u :: u in tiers && u != viewer ==>
      (u in r <==> Follows(social.relationships, viewer, u) && CanViewContentOf(viewer, Owner(u, tiers[u]), social))
  {
    ViewableUsers(viewer, tiers, social) * FollowedIds(social.relationships, viewer)
  }

  /** `viewable_and_following_users` as written, on the `viewable_users`
      whose whitelist branch ignores the owner's tier. */
  function ViewableAndFollowingUsersAsWritten(viewer: UserId, tiers: map<UserId, Tier>, social: Social): (r: set<UserId>)
    ensures forall u :: u in r <==>
      u in tiers && Follows(social.relationships, viewer, u) && u in ViewableUsersAsWritten(viewer, tiers, social)
  {
    ViewableUsersAsWritten(viewer, tiers, social) * FollowedIds(social.relationships, viewer)
  }

  /** The feed as written lists the corrected feed's users and, besides
      them, exactly the followed users who whitelisted the viewer but whose
      tier no longer shares with the viewer. */
  lemma FeedAsWrittenAddsStaleWhitelist(viewer: UserId, tiers: map<UserId, Tier>, social: Social, u: UserId)
    requires u in tiers && u != viewer
    ensures u in ViewableAndFollowingUsersAsWritten(viewer, tiers, social) <==>
      || u in ViewableAndFollowingUsers(viewer, tiers, social)
      || (&& Follows(social.relationships, viewer, u)
          && IsAuthorised(social.authorisedUsers, u, viewer)
          && !CanViewContentOf(viewer, Owner(u, tiers[u]), social))
  {
  }

  /** The stale whitelist reaches the feed: user 2 follows user 1, who
      whitelisted user 2 and then moved to the following tier without
      following user 2. */
  lemma FeedAsWrittenListsStaleWhitelist()
    ensures var tiers := map[1 := Following];
      var social := Social({Relationship(2, 1)}, [AuthorisedUser(1, 2)]);
      && 1 in ViewableAndFollowingUsersAsWritten(2, tiers, social)
      && 1 !in ViewableAndFollowingUsers(2, tiers, social)
  {
    var tiers := map[1 := Following];
    var social := Social({Relationship(2, 1)}, [AuthorisedUser(1, 2)]);
    assert IsAuthorised(social.authorisedUsers, 1, 2);
    assert Follows(social.relationships, 2, 1);
    assert !Follows(social.relationships, 1, 2);
  }

  /** `mutual_following_ids`: accounts `u` follows that follow `u` back. */
  function MutualFollowingIds(rels: set<Relationship>, u: UserId): (ids: set<UserId>)
    ensures forall v :: v in ids <==> Follows(rels, u, v) && Follows(rels, v, u)
  {
    FollowedIds(rels, u) * FollowerIds(rels, u)
  }

  /** `following_anyone?`: following someone other than the OpenSit account. */
  predicate FollowingAnyone(rels: set<Relationship>, u: UserId) {
    FollowedIds(rels, u) - {OpenSitId} != {}
  }

  lemma FollowingAnyoneMeansAnotherAccount(rels: set<Relationship>, u: UserId)
    ensures FollowingAnyone(rels, u) <==> exists v :: v != OpenSitId && Follows(rels, u, v)
  {
    if FollowingAnyone(rels, u) {
      var v :| v in FollowedIds(rels, u) - {OpenSitId};
      assert Follows(rels, u, v);
    } else {
      forall v | v != OpenSitId ensures !Follows(rels, u, v) {
        assert v !in FollowedIds(rels, u) - {OpenSitId};
      }
    }
  }

  // ---------------------------------------------------------------------
  // Names

  /** `display_name`: the username when no first name is given, the first
      name alone when no last name is given, else "first last". */
  function DisplayName(p: Profile): (r: string)
    ensures IsBlank(p.firstName) ==> r == p.username
    ensures !IsBlank(p.firstName) && IsBlank(p.lastName) ==> r == p.firstName
    ensures !IsBlank(p.firstName) && !IsBlank(p.lastName) ==> r == p.firstName + " " + p.lastName
    ensures !IsBlank(p.username) ==> !IsBlank(r)
  {
    if IsBlank(p.firstName) then p.username
    else if IsBlank(p.lastName) then p.firstName
    else
      var r := p.firstName + " " + p.lastName;
      assert r[..|p.firstName|] == p.firstName;
      r
  }

  /** `location`: "city, country", or whichever of the two is given, or nil. */
  function Location(p: Profile): (r: Option<string>)
    ensures r.None? <==> IsBlank(p.city) && IsBlank(p.country)
    ensures !IsBlank(p.city) && !IsBlank(p.country) ==> r == Some(p.city + ", " + p.country)
    ensures !IsBlank(p.city) && IsBlank(p.country) ==> r == Some(p.city)
    ensures IsBlank(p.city) && !IsBlank(p.country) ==> r == Some(p.country)
  {
    if !IsBlank(p.city) && !IsBlank(p.country) then Some(p.city + ", " + p.country)
    else if !IsBlank(p.city) then Some(p.city)
    else if !IsBlank(p.country) then Some(p.country)
    else None
  }

  // ---------------------------------------------------------------------
  // The selected-users whitelist

  /** The form values that `reject! { |c| c.empty? }` keeps. */
  function NonEmpty(users: seq<string>): (r: seq<string>)
    ensures forall x :: x in r <==> x in users && x != ""
    ensures forall x :: multiset(r)[x] == if x == "" then 0 else multiset(users)[x]
  {
    if users == [] then []
    else
      var rest := NonEmpty(users[..|users| - 1]);
      assert users == users[..|users| - 1] + [users[|users| - 1]];
      if users[|users| - 1] == "" then rest else rest + [users[|users| - 1]]
  }

  /** `reject!` keeps the order: the values kept from two lists in a row are
      those kept from the first followed by those kept from the second. */
  lemma {:induction false} NonEmptyAppend(a: seq<string>, b: seq<string>)
    ensures NonEmpty(a + b) == NonEmpty(a) + NonEmpty(b)
    decreases |b|
  {
    if b == [] {
      assert a + b == a;
    } else {
      var init := b[..|b| - 1];
      assert (a + b)[..|a + b| - 1] == a + init;
      NonEmptyAppend(a, init);
    }
  }

  /** The authorised_users rows other than the owner's. */
  function RowsNotOf(rows: seq<AuthorisedUser>, owner: UserId): (r: seq<AuthorisedUser>)
    ensures forall a :: a in r <==> a in rows && a.userId != owner
  {
    if rows == [] then []
    else
      var rest := RowsNotOf(rows[..|rows| - 1], owner);
      if rows[|rows| - 1].userId == owner then rest else rest + [rows[|rows| - 1]]
  }

  /** The rows `AuthorisedUser.create!` adds, one per kept form value, with
      the value cast to an integer id. */
  function NewRows(owner: UserId, kept: seq<string>): (r: seq<AuthorisedUser>)
    ensures |r| == |kept|
  {
    seq(|kept|, i requires 0 <= i < |kept| => AuthorisedUser(owner, ToI(kept[i])))
  }

  /** `selected_users`: the owner's rows' authorised ids, in the order the
      rows come. */
  function SelectedOf(rows: seq<AuthorisedUser>, owner: UserId): seq<UserId> {
    if rows == [] then []
    else
      var rest := SelectedOf(rows[..|rows| - 1], owner);
      if rows[|rows| - 1].userId == owner then rest + [rows[|rows| - 1].authorisedUserId] else rest
  }

  /** Each id is read back as often as the owner has a row for it. */
  lemma {:induction false} SelectedOfCounts(rows: seq<AuthorisedUser>, owner: UserId)
    ensures forall x :: multiset(SelectedOf(rows, owner))[x] == multiset(rows)[AuthorisedUser(owner, x)]
  {
    if rows != [] {
      SelectedOfCounts(rows[..|rows| - 1], owner);
      assert rows == rows[..|rows| - 1] + [rows[|rows| - 1]];
    }
  }

  /** The ids the form values denote. */
  function IdsOf(kept: seq<string>): (ids: seq<UserId>)
    ensures |ids| == |kept|
  {
    seq(|kept|, i requires 0 <= i < |kept| => ToI(kept[i]) as UserId)
  }

  /** After the whole-list replacement, `selected_users` reads back exactly
      the ids of the kept form values, in order, and no row of another owner
      has been touched. */
  lemma {:induction false} SelectedAfterReplace(rows: seq<AuthorisedUser>, owner: UserId, kept: seq<string>)
    ensures SelectedOf(RowsNotOf(rows, owner) + NewRows(owner, kept), owner) == IdsOf(kept)
    decreases |kept|
  {
    if kept == [] {
      assert RowsNotOf(rows, owner) + NewRows(owner, kept) == RowsNotOf(rows, owner);
      NoRowsOf(RowsNotOf(rows, owner), owner);
    } else {
      var init := kept[..|kept| - 1];
      var all := RowsNotOf(rows, owner) + NewRows(owner, kept);
      assert all[..|all| - 1] == RowsNotOf(rows, owner) + NewRows(owner, init);
      SelectedAfterReplace(rows, owner, init);
      assert IdsOf(kept) == IdsOf(init) + [ToI(kept[|kept| - 1])];
    }
  }

  /** `authorised_users` has no ORDER BY, so the rows may come in any order:
      whatever order the database returns them in, the ids read back after
      the replacement are the ids of the kept values, each as often. */
  lemma SelectedAfterReplaceAnyOrder(rows: seq<AuthorisedUser>, owner: UserId, kept: seq<string>,
                                     returned: seq<AuthorisedUser>)
    requires multiset(returned) == multiset(RowsNotOf(rows, owner) + NewRows(owner, kept))
    ensures multiset(SelectedOf(returned, owner)) == multiset(IdsOf(kept))
  {
    SelectedAfterReplace(rows, owner, kept);
    SelectedOfReordered(returned, RowsNotOf(rows, owner) + NewRows(owner, kept), owner);
  }

  /** Reading the same rows in another order gives the same ids, each as often. */
  lemma SelectedOfReordered(a: seq<AuthorisedUser>, b: seq<AuthorisedUser>, owner: UserId)
    requires multiset(a) == multiset(b)
    ensures multiset(SelectedOf(a, owner)) == multiset(SelectedOf(b, owner))
  {
    SelectedOfCounts(a, owner);
    SelectedOfCounts(b, owner);
    forall x
      ensures multiset(SelectedOf(a, owner))[x] == multiset(SelectedOf(b, owner))[x]
    {
      assert multiset(a)[AuthorisedUser(owner, x)] == multiset(b)[AuthorisedUser(owner, x)];
    }
  }

  lemma {:induction false} NoRowsOf(rows: seq<AuthorisedUser>, owner: UserId)
    requires forall a :: a in rows ==> a.userId != owner
    ensures SelectedOf(rows, owner) == []
  {
    if rows != [] {
      assert forall a :: a in rows[..|rows| - 1] ==> a in rows;
      NoRowsOf(rows[..|rows| - 1], owner);
    }
  }

  /** A user account: the attributes the core updates in place, and the
      shared tables its `sits` and `authorised_users` associations live in. */
  class User {
    const id: UserId
    const db: Database
    var privacySetting: Tier
    var profile: Profile

    constructor (id: UserId, db: Database, privacySetting: Tier, profile: Profile)
      ensures this.id == id && this.db == db
      ensures this.privacySetting == privacySetting && this.profile == profile
    {
      this.id := id;
      this.db := db;
      this.privacySetting := privacySetting;
      this.profile := profile;
    }

    function AsOwner(): Owner
      reads this
    {
      Owner(id, privacySetting)
    }

    /** `privacy_setting=`: an unknown value raises and changes nothing;
        otherwise the owner's sits are re-flagged for the move and the new
        tier is stored. */
    method SetPrivacySetting(value: string) returns (outcome: SettingOutcome)
      modifies this`privacySetting, db`sits
      ensures outcome == ArgumentError <==> ParseTier(value).None?
      ensures outcome == ArgumentError ==>
        privacySetting == old(privacySetting) && db.sits == old(db.sits)
      ensures outcome == Assigned ==>
        && Some(privacySetting) == ParseTier(value)
        && db.sits == AfterTierChange(old(db.sits), id, old(privacySetting), privacySetting)
      ensures outcome == Assigned && privacySetting == Private ==> SitsOf(db.sits, id, false) == []
      ensures outcome == Assigned && old(privacySetting) == Private && privacySetting != Private ==>
        SitsOf(db.sits, id, false) == SitsOf(db.sits, id, true)
    {
      var parsed := ParseTier(value);
      if parsed.None? {
        return ArgumentError;
      }
      var tier := parsed.value;
      ghost var before := db.sits;
      if privacySetting == Private && tier != Private {
        db.sits := UnmarkPrivate(db.sits, id);
        FromPrivateShowsAllOwnerSits(before, id, tier);
      } else if tier == Private {
        db.sits := MarkPrivate(db.sits, id);
        ToPrivateHidesAllOwnerSits(before, id, privacySetting);
      }
      privacySetting := tier;
      outcome := Assigned;
    }

    /** `selected_users=`: drop empty form values, delete the owner's
        whitelist rows, then create one row per remaining value. */
    method SetSelectedUsers(users: seq<string>)
      modifies db`authorisedUsers
      ensures db.authorisedUsers == RowsNotOf(old(db.authorisedUsers), id) + NewRows(id, NonEmpty(users))
      ensures SelectedUsers() == IdsOf(NonEmpty(users))
      ensures forall returned :: multiset(returned) == multiset(db.authorisedUsers) ==>
                multiset(SelectedOf(returned, id)) == multiset(IdsOf(NonEmpty(users)))
      ensures forall a :: a in old(db.authorisedUsers) && a.userId != id ==> a in db.authorisedUsers
    {
      var kept: seq<string> := [];
      for i := 0 to |users|
        invariant kept == NonEmpty(users[..i])
      {
        assert users[..i + 1][..i] == users[..i];
        if users[i] != "" {
          kept := kept + [users[i]];
        }
      }
      assert users[..|users|] == users;
      db.authorisedUsers := RowsNotOf(db.authorisedUsers, id);
      ghost var base := db.authorisedUsers;
      for i := 0 to |kept|
        invariant db.authorisedUsers == base + NewRows(id, kept[..i])
      {
        assert NewRows(id, kept[..i + 1]) == NewRows(id, kept[..i]) + [AuthorisedUser(id, ToI(kept[i]))];
        db.authorisedUsers := db.authorisedUsers + [AuthorisedUser(id, ToI(kept[i]))];
      }
      assert kept[..|kept|] == kept;
      SelectedAfterReplace(old(db.authorisedUsers), id, kept);
      forall returned | multiset(returned) == multiset(db.authorisedUsers)
        ensures multiset(SelectedOf(returned, id)) == multiset(IdsOf(kept))
      {
        SelectedAfterReplaceAnyOrder(old(db.authorisedUsers), id, kept, returned);
      }
    }

    /** `selected_users`, with the rows read in the order they were created. */
    function SelectedUsers(): (ids: seq<UserId>)
      reads this, db
      ensures forall x :: multiset(ids)[x] == multiset(db.authorisedUsers)[AuthorisedUser(id, x)]
    {
      SelectedOfCounts(db.authorisedUsers, id);
      SelectedOf(db.authorisedUsers, id)
    }
  }
}
