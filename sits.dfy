/** app/models/sit.rb: per-entry visibility, validation, titles, body
    clean-up, neighbours in the owner's journal, commenters and tags. */
module Sits {
  import opened Wrappers
  import opened Calendar
  import opened Text
  import opened Lists
  import opened Schema
  import opened Users

  // ---------------------------------------------------------------------
  // Visibility

  /** `sit.viewable?(current_user)`: the owner always; a private entry nobody
      else; otherwise the owner's tier decides, and an anonymous viewer only
      sees public journals. */
  function Viewable(sit: Sit, owner: Owner, viewer: Option<UserId>, social: Social): (r: bool)
    requires sit.userId == owner.id
    ensures viewer == Some(owner.id) ==> r
    ensures viewer != Some(owner.id) && sit.isPrivate ==> !r
    ensures viewer != Some(owner.id) && !sit.isPrivate ==>
      (r <==> match owner.privacySetting
              case Private => false
              case Following => viewer.Some? && Follows(social.relationships, owner.id, viewer.value)
              case SelectedUsers => viewer.Some? && IsAuthorised(social.authorisedUsers, owner.id, viewer.value)
              case Public => true)
  {
    if viewer.Some? && sit.userId == viewer.value then true
    else if sit.isPrivate then false
    else if PrivateJournal(owner) then false
    else if owner.privacySetting == Following then
      viewer.Some? && viewer.value in FollowedIds(social.relationships, owner.id)
    else if owner.privacySetting == SelectedUsers then
      viewer.Some? && IsAuthorised(social.authorisedUsers, owner.id, viewer.value)
    else
      PublicJournal(owner)
  }

  /** For a shared entry and a signed-in viewer, the per-entry rule and the
      account-wide rule agree. */
  lemma ViewableAgreesWithCanViewContentOf(sit: Sit, owner: Owner, viewer: UserId, social: Social)
    requires sit.userId == owner.id && !sit.isPrivate
    ensures Viewable(sit, owner, Some(viewer), social) == CanViewContentOf(viewer, owner, social)
  {
  }

  /** The owner's view of an entry never depends on the tier or the flag. */
  lemma OwnerAlwaysViews(sit: Sit, owner: Owner, social: Social, tier: Tier, flag: bool)
    requires sit.userId == owner.id
    ensures Viewable(sit.(isPrivate := flag), owner.(privacySetting := tier), Some(owner.id), social)
  {
  }

  // ---------------------------------------------------------------------
  // Validation

  /** The duration field as submitted: left blank, an integer literal, a
      number written with a fraction, or text that is not a number. */
  datatype DurationInput = Blank | Whole(n: int) | Decimal(x: real) | NotNumeric

  /** A submitted entry before it is saved. A missing title is "". */
  datatype Draft = Draft(sType: Option<int>, title: string, duration: DurationInput, body: string)

  datatype SitError =
    | STypeBlank
    | TitleBlank
    | DurationBlank
    | DurationNotANumber
    | DurationNotAnInteger
    | DurationNotPositive

  /** The messages the four validations attach. Presence of the title is
      checked unless the type is 0 (a missing type counts as "not 0"),
      presence of the duration only for type 0, and the numericality of the
      duration always (it has no allow_nil). */
  function Errors(d: Draft): (errs: set<SitError>)
    ensures STypeBlank in errs <==> d.sType.None?
    ensures TitleBlank in errs <==> d.sType != Some(0) && IsBlank(d.title)
    ensures DurationBlank in errs <==> d.sType == Some(0) && d.duration.Blank?
  {
    (if d.sType.None? then {STypeBlank} else {})
    + (if d.sType != Some(0) && IsBlank(d.title) then {TitleBlank} else {})
    + (if d.sType == Some(0) && d.duration.Blank? then {DurationBlank} else {})
    + NumericalityErrors(d.duration)
  }

  /** `validates_numericality_of :duration, greater_than: 0, only_integer:
      true`: one message, or none for a whole number above 0. */
  function NumericalityErrors(duration: DurationInput): (errs: set<SitError>)
    ensures errs == {} <==> duration.Whole? && duration.n > 0
    ensures |errs| <= 1
    ensures STypeBlank !in errs && TitleBlank !in errs && DurationBlank !in errs
  {
    match duration
    case Blank => {DurationNotANumber}
    case NotNumeric => {DurationNotANumber}
    case Decimal(_) => {DurationNotAnInteger}
    case Whole(n) => if n > 0 then {} else {DurationNotPositive}
  }

  predicate Valid(d: Draft) {
    Errors(d) == {}
  }

  /** An entry is valid exactly when it has a type, a non-blank title unless
      it is a timed sit, and a whole positive duration; the body plays no
      part, so an empty body (a stub) is valid. */
  lemma ValidIff(d: Draft)
    ensures Valid(d) <==>
      && d.sType.Some?
      && (d.sType.value != 0 ==> !IsBlank(d.title))
      && d.duration.Whole? && d.duration.n > 0
    ensures Valid(d) <==> Valid(d.(body := ""))
  {
  }

  // ---------------------------------------------------------------------
  // Titles and bodies

  predicate IsSit(sit: Sit) {
    sit.sType == 0
  }

  predicate IsStub(sit: Sit) {
    sit.body == ""
  }

  /** `full_title`: a timed sit is titled by its duration, a diary entry by
      its own title, anything else is an article. */
  function FullTitle(sit: Sit): (r: string)
    ensures IsSit(sit) ==> r == IntToString(sit.duration) + " minute meditation journal"
    ensures IsSit(sit) && sit.duration >= 0 ==> ToI(r) == sit.duration
    ensures sit.sType == 1 ==> r == sit.title
    ensures !IsSit(sit) && sit.sType != 1 ==> StartsWith(r, "Article: ") && r[9..] == sit.title
  {
    if sit.sType == 0 then
      DurationTitleReadsBack(sit.duration);
      IntToString(sit.duration) + " minute meditation journal"
    else if sit.sType == 1 then sit.title
    else "Article: " + sit.title
  }

  lemma DurationTitleReadsBack(n: int)
    ensures n >= 0 ==> ToI(IntToString(n) + " minute meditation journal") == n
  {
    if n >= 0 {
      ToIOfNatToString(n, " minute meditation journal");
    }
  }

  /** `custom_strip`: every `<br>`, then every `&nbsp;`, becomes one space. */
  function CustomStrip(body: string): (r: string)
    ensures !Occurs("<br>", r) && !Occurs("&nbsp;", r)
    ensures !Occurs("<br>", body) && !Occurs("&nbsp;", body) ==> r == body
  {
    CustomStripSteps(body);
    ReplaceAll(ReplaceAll(body, "<br>", " "), "&nbsp;", " ")
  }

  /** `stub?`: an entry is a stub exactly when cleaning its body leaves
      nothing. */
  lemma StubIffStripsToNothing(sit: Sit)
    ensures IsStub(sit) <==> CustomStrip(sit.body) == ""
  {
    ReplaceAllEmpty(sit.body, "<br>", " ");
    ReplaceAllEmpty(ReplaceAll(sit.body, "<br>", " "), "&nbsp;", " ");
  }

  lemma CustomStripSteps(body: string)
    ensures var r := ReplaceAll(ReplaceAll(body, "<br>", " "), "&nbsp;", " ");
      && !Occurs("<br>", r) && !Occurs("&nbsp;", r)
      && (!Occurs("<br>", body) && !Occurs("&nbsp;", body) ==> r == body)
  {
    var noBrs := ReplaceAll(body, "<br>", " ");
    var r := ReplaceAll(noBrs, "&nbsp;", " ");
    ReplaceBySpaceRemovesAll(body, "<br>");
    ReplaceBySpaceRemovesAll(noBrs, "&nbsp;");
    if Occurs("<br>", r) {
      ReplaceBySpaceCreatesNothing(noBrs, "&nbsp;", "<br>");
    }
    if !Occurs("<br>", body) && !Occurs("&nbsp;", body) {
      ReplaceAllWithoutOccurrence(body, "<br>", " ");
      ReplaceAllWithoutOccurrence(body, "&nbsp;", " ");
    }
  }

  /** Cleaning a cleaned body changes nothing. */
  lemma CustomStripIdempotent(body: string)
    ensures CustomStrip(CustomStrip(body)) == CustomStrip(body)
  {
  }

  /** A `<br>` becomes exactly one space: the text before it, holding
      neither tag's first character, is kept, and cleaning goes on after it. */
  lemma CustomStripBr(a: string, b: string)
    requires forall i :: 0 <= i < |a| ==> a[i] != '<' && a[i] != '&'
    ensures CustomStrip(a + "<br>" + b) == a + " " + CustomStrip(b)
  {
    var noBrs := ReplaceAll(b, "<br>", " ");
    assert a + "<br>" + b == a + ("<br>" + b);
    ReplaceAllSkips(a, "<br>" + b, "<br>", " ");
    ReplaceAllAtPattern(b, "<br>", " ");
    assert a + (" " + noBrs) == (a + " ") + noBrs;
    ReplaceAllSkips(a + " ", noBrs, "&nbsp;", " ");
  }

  /** A `&nbsp;` becomes exactly one space in the same way. */
  lemma CustomStripNbsp(a: string, b: string)
    requires forall i :: 0 <= i < |a| ==> a[i] != '<' && a[i] != '&'
    ensures CustomStrip(a + "&nbsp;" + b) == a + " " + CustomStrip(b)
  {
    var noBrs := ReplaceAll(b, "<br>", " ");
    ReplaceAllSkips(a + "&nbsp;", b, "<br>", " ");
    assert (a + "&nbsp;") + noBrs == a + ("&nbsp;" + noBrs);
    ReplaceAllSkips(a, "&nbsp;" + noBrs, "&nbsp;", " ");
    ReplaceAllAtPattern(noBrs, "&nbsp;", " ");
    assert a + (" " + ReplaceAll(noBrs, "&nbsp;", " ")) == a + " " + ReplaceAll(noBrs, "&nbsp;", " ");
  }

  // ---------------------------------------------------------------------
  // Neighbours in the owner's journal

  /** The owner's entries that `next`/`prev` may land on: those with a body,
      private ones only when the owner is the one looking. */
  function Neighbours(table: seq<Sit>, sit: Sit, viewer: Option<UserId>): (r: seq<Sit>)
    ensures forall s :: s in r <==>
      s in SitsOf(table, sit.userId, viewer == Some(sit.userId)) && s.body != ""
  {
    var mine := SitsOf(table, sit.userId, viewer == Some(sit.userId));
    Filter(mine, (s: Sit) => s.body != "")
  }

  function Filter(s: seq<Sit>, keep: Sit -> bool): (r: seq<Sit>)
    ensures forall x :: x in r <==> x in s && keep(x)
  {
    if s == [] then [] else (if keep(s[0]) then [s[0]] else []) + Filter(s[1..], keep)
  }

  /** The entry with the earliest `created_at` (the first in `ORDER BY
      created_at ASC`; ties go to the earlier row). */
  function Earliest(s: seq<Sit>): (r: Option<Sit>)
    ensures r.None? <==> s == []
    ensures r.Some? ==> r.value in s && forall x :: x in s ==> StampAtMost(r.value.createdAt, x.createdAt)
  {
    if s == [] then None
    else
      match Earliest(s[1..])
      case None => Some(s[0])
      case Some(e) => if StampAtMost(s[0].createdAt, e.createdAt) then Some(s[0]) else Some(e)
  }

  /** The entry with the latest `created_at` (the last in `ORDER BY
      created_at ASC`; ties go to the later row). */
  function Latest(s: seq<Sit>): (r: Option<Sit>)
    ensures r.None? <==> s == []
    ensures r.Some? ==> r.value in s && forall x :: x in s ==> StampAtMost(x.createdAt, r.value.createdAt)
  {
    if s == [] then None
    else
      match Latest(s[..|s| - 1])
      case None => Some(s[|s| - 1])
      case Some(e) => if StampAtMost(e.createdAt, s[|s| - 1].createdAt) then Some(s[|s| - 1]) else Some(e)
  }

  function After(s: seq<Sit>, t: Stamp): (r: seq<Sit>)
    ensures forall x :: x in r <==> x in s && StampBefore(t, x.createdAt)
  {
    Filter(s, (x: Sit) => StampBefore(t, x.createdAt))
  }

  function Before(s: seq<Sit>, t: Stamp): (r: seq<Sit>)
    ensures forall x :: x in r <==> x in s && StampBefore(x.createdAt, t)
  {
    Filter(s, (x: Sit) => StampBefore(x.createdAt, t))
  }

  /** `sit.next(current_user)`: the owner's next entry with a body, strictly
      later than this one, or nil. */
  function Next(table: seq<Sit>, sit: Sit, viewer: Option<UserId>): (r: Option<Sit>)
    ensures r.Some? ==> r.value in Neighbours(table, sit, viewer) && StampBefore(sit.createdAt, r.value.createdAt)
    ensures r.Some? ==> forall x :: x in Neighbours(table, sit, viewer) && StampBefore(sit.createdAt, x.createdAt) ==>
      StampAtMost(r.value.createdAt, x.createdAt)
    ensures r.None? <==> forall x :: x in Neighbours(table, sit, viewer) ==> !StampBefore(sit.createdAt, x.createdAt)
  {
    Earliest(After(Neighbours(table, sit, viewer), sit.createdAt))
  }

  /** `sit.prev(current_user)`: the owner's previous entry with a body,
      strictly earlier than this one, or nil. */
  function Prev(table: seq<Sit>, sit: Sit, viewer: Option<UserId>): (r: Option<Sit>)
    ensures r.Some? ==> r.value in Neighbours(table, sit, viewer) && StampBefore(r.value.createdAt, sit.createdAt)
    ensures r.Some? ==> forall x :: x in Neighbours(table, sit, viewer) && StampBefore(x.createdAt, sit.createdAt) ==>
      StampAtMost(x.createdAt, r.value.createdAt)
    ensures r.None? <==> forall x :: x in Neighbours(table, sit, viewer) ==> !StampBefore(x.createdAt, sit.createdAt)
  {
    Latest(Before(Neighbours(table, sit, viewer), sit.createdAt))
  }

  lemma StampOrderAsymmetric(a: Stamp, b: Stamp)
    ensures !(StampBefore(a, b) && StampAtMost(b, a))
  {
  }

  /** Stepping forward and then back lands on an entry created at the same
      instant as the one the walk started from (the same entry unless two
      entries share a timestamp). */
  lemma NextThenPrev(table: seq<Sit>, sit: Sit, viewer: Option<UserId>)
    requires sit in Neighbours(table, sit, viewer)
    requires Next(table, sit, viewer).Some?
    ensures var n := Next(table, sit, viewer).value;
      Prev(table, n, viewer).Some? && Prev(table, n, viewer).value.createdAt == sit.createdAt
  {
    var n := Next(table, sit, viewer).value;
    var hood := Neighbours(table, sit, viewer);
    assert n in hood && StampBefore(sit.createdAt, n.createdAt);
    assert n.userId == sit.userId;
    assert Neighbours(table, n, viewer) == hood;
    assert sit in hood && StampBefore(sit.createdAt, n.createdAt);
    var p := Prev(table, n, viewer).value;
    assert p in hood && StampBefore(p.createdAt, n.createdAt);
    assert StampAtMost(sit.createdAt, p.createdAt);
    StampOrderAsymmetric(p.createdAt, n.createdAt);
    assert !StampBefore(sit.createdAt, p.createdAt);
  }

  // ---------------------------------------------------------------------
  // Commenters

  /** `commenters`: the distinct authors of the comments, in first-comment
      order, without the entry's owner. */
  method Commenters(authors: seq<UserId>, owner: UserId) returns (ids: seq<UserId>)
    ensures ids == Without(Uniq(authors), owner)
    ensures NoDup(ids)
    ensures forall u :: u in ids <==> u in authors && u != owner
  {
    ids := [];
    for i := 0 to |authors|
      invariant ids == Uniq(authors[..i])
    {
      assert authors[..i + 1][..i] == authors[..i];
      if authors[i] !in ids {
        ids := ids + [authors[i]];
      }
    }
    assert authors[..|authors|] == authors;
    var kept: seq<UserId> := [];
    for i := 0 to |ids|
      invariant kept == Without(ids[..i], owner)
    {
      assert ids[..i + 1][..i] == ids[..i];
      if ids[i] != owner {
        kept := kept + [ids[i]];
      }
    }
    assert ids[..|ids|] == ids;
    ids := kept;
  }

  // ---------------------------------------------------------------------
  // Tags

  /** The fields `reject!` keeps, each stripped. */
  function Cleaned(fields: seq<string>): (r: seq<string>)
    ensures |r| <= |fields|
  {
    if fields == [] then []
    else (if IsBlank(fields[0]) then [] else [Strip(fields[0])]) + Cleaned(fields[1..])
  }

  /** The tag names `tag_list=` assigns: the comma-separated fields that are
      not blank, stripped. */
  function TagNames(names: string): seq<string> {
    Cleaned(Split(names, ','))
  }

  /** A name as a tag should be: non-empty, stripped, without a comma. */
  predicate CleanName(t: string) {
    t != [] && IsStripped(t) && ',' !in t
  }

  lemma {:induction false} CleanedNames(fields: seq<string>)
    requires forall i :: 0 <= i < |fields| ==> ',' !in fields[i]
    ensures forall t :: t in Cleaned(fields) ==> IsStripped(t) && ',' !in t
  {
    if fields != [] {
      CleanedNames(fields[1..]);
      StripProperties(fields[0]);
    }
  }

  /** Every tag name `tag_list=` assigns is stripped and free of commas. */
  lemma TagNamesAreStripped(names: string)
    ensures forall t :: t in TagNames(names) ==> IsStripped(t) && ',' !in t
  {
    CleanedNames(Split(names, ','));
  }

  /** `blank?` is asked before `strip`, and a NUL is not blank but `strip`
      removes it at the end: a field of white space and NULs that holds a
      NUL passes the blank check and becomes a tag with an empty name. */
  lemma NulFieldMakesEmptyTag(f: string)
    requires ',' !in f && IsTrailingBlank(f) && !IsBlank(f)
    ensures TagNames(f) == [""]
  {
    SplitWithoutSeparator(f, ',');
    StripProperties(f);
    CleanedCons(f, []);
    assert [f] + [] == [f];
  }

  /** The smallest such field: a lone NUL. */
  lemma LoneNulMakesEmptyTag()
    ensures TagNames("\0") == [""]
  {
    var f := "\0";
    assert !IsSpace(f[0]);
    NulFieldMakesEmptyTag(f);
  }

  /** The fields stripped first and then kept when not blank, as the guard
      against blank tags means. */
  function StrippedNonBlank(fields: seq<string>): (r: seq<string>)
    ensures |r| <= |fields|
  {
    if fields == [] then []
    else (if IsBlank(Strip(fields[0])) then [] else [Strip(fields[0])]) + StrippedNonBlank(fields[1..])
  }

  /** The tag names with the blank check made after stripping. */
  function NonBlankTagNames(names: string): seq<string> {
    StrippedNonBlank(Split(names, ','))
  }

  /** Every name of the corrected assignment is clean. */
  lemma NonBlankTagNamesAreClean(names: string)
    ensures forall t :: t in NonBlankTagNames(names) ==> CleanName(t)
  {
    StrippedNonBlankNames(Split(names, ','));
  }

  lemma {:induction false} StrippedNonBlankNames(fields: seq<string>)
    requires forall i :: 0 <= i < |fields| ==> ',' !in fields[i]
    ensures forall t :: t in StrippedNonBlank(fields) ==> CleanName(t)
  {
    if fields != [] {
      StrippedNonBlankNames(fields[1..]);
      StripProperties(fields[0]);
    }
  }

  /** The corrected assignment gives the names `tag_list=` gives, in the
      same order, less the empty ones. */
  lemma NonBlankTagNamesDropEmpty(names: string)
    ensures NonBlankTagNames(names) == Without(TagNames(names), "")
  {
    StrippedNonBlankIsCleanedWithoutEmpty(Split(names, ','));
  }

  lemma {:induction false} StrippedNonBlankIsCleanedWithoutEmpty(fields: seq<string>)
    ensures StrippedNonBlank(fields) == Without(Cleaned(fields), "")
  {
    if fields != [] {
      var f := fields[0];
      var head := if IsBlank(f) then [] else [Strip(f)];
      StrippedNonBlankIsCleanedWithoutEmpty(fields[1..]);
      WithoutAppend(head, Cleaned(fields[1..]), "");
      StripProperties(f);
      if Strip(f) != [] {
        assert Strip(f)[0] == Strip(f)[0];
        assert !IsBlank(Strip(f));
      }
      assert Without(head, "") == (if IsBlank(Strip(f)) then [] else [Strip(f)]) by {
        if head != [] {
          assert head[..0] == [];
        }
      }
    }
  }

  /** `tag_list=`: split on commas, drop blank fields, strip the rest and
      make them the entry's tags. */
  method SetTagList(sit: Sit, names: string) returns (updated: Sit)
    ensures updated == sit.(tags := TagNames(names))
  {
    var elements := Split(names, ',');
    var kept: seq<string> := [];
    var i := |elements|;
    while i > 0
      invariant 0 <= i <= |elements|
      invariant kept == Cleaned(elements[i..])
    {
      i := i - 1;
      assert elements[i..][1..] == elements[i + 1..];
      if !IsBlank(elements[i]) {
        kept := [Strip(elements[i])] + kept;
      }
    }
    updated := sit.(tags := kept);
  }

  /** `tag_list`: the names joined by ", ". */
  function TagList(sit: Sit): string {
    Join(sit.tags, ", ")
  }

  /** Writing back what `tag_list` shows gives the same tags, for clean
      names (every name the corrected assignment produces, and every
      non-empty one `tag_list=` produces). */
  lemma TagListRoundTrip(sit: Sit)
    requires forall t :: t in sit.tags ==> CleanName(t)
    ensures TagNames(TagList(sit)) == sit.tags
  {
    if sit.tags != [] {
      JoinedFields(sit.tags, "");
      assert "" + TagList(sit) == TagList(sit);
    } else {
      assert Split("", ',') == [""];
      assert Cleaned([""]) == [];
    }
  }

  /** The first field of a joined list, after an optional leading space,
      comes back as the first name. */
  lemma FirstFieldComesBack(n: string, p: string)
    requires CleanName(n) && (p == "" || p == " ")
    ensures ',' !in p + n && !IsBlank(p + n) && Strip(p + n) == n
  {
    var head := p + n;
    assert head[|p|] == n[0];
    if p == "" {
      assert head == n;
      StripOfStripped(n);
    } else {
      StripAfterSpace(n);
    }
  }

  lemma CleanedCons(a: string, rest: seq<string>)
    requires !IsBlank(a)
    ensures Cleaned([a] + rest) == [Strip(a)] + Cleaned(rest)
  {
    assert ([a] + rest)[1..] == rest;
  }

  /** A joined list, optionally after a space, cut at its first comma. */
  lemma JoinedHead(ns: seq<string>, p: string)
    requires |ns| > 1
    ensures p + Join(ns, ", ") == (p + ns[0]) + [','] + (" " + Join(ns[1..], ", "))
  {
    var rest := Join(ns[1..], ", ");
    assert Join(ns, ", ") == ns[0] + ", " + rest;
    assert ", " + rest == [','] + (" " + rest);
  }

  lemma {:induction false} JoinedFields(ns: seq<string>, p: string)
    requires |ns| > 0 && (p == "" || p == " ")
    requires forall t :: t in ns ==> CleanName(t)
    ensures Cleaned(Split(p + Join(ns, ", "), ',')) == ns
    decreases |ns|
  {
    if |ns| == 1 {
      LastFieldComesBack(ns[0], p);
      assert ns == [ns[0]];
    } else {
      var tail := " " + Join(ns[1..], ", ");
      assert Cleaned(Split(p + Join(ns, ", "), ',')) == [ns[0]] + Cleaned(Split(tail, ',')) by {
        HeadFieldComesBack(ns, p);
      }
      assert Cleaned(Split(tail, ',')) == ns[1..] by {
        assert forall t :: t in ns[1..] ==> t in ns;
        JoinedFields(ns[1..], " ");
      }
      assert ns == [ns[0]] + ns[1..];
    }
  }

  lemma LastFieldComesBack(n: string, p: string)
    requires CleanName(n) && (p == "" || p == " ")
    ensures Cleaned(Split(p + Join([n], ", "), ',')) == [n]
  {
    var head := p + n;
    assert Join([n], ", ") == n;
    assert Split(head, ',') == [head] by {
      FirstFieldComesBack(n, p);
      SplitWithoutSeparator(head, ',');
    }
    assert Cleaned([head]) == [n] by {
      FirstFieldComesBack(n, p);
      CleanedCons(head, []);
    }
  }

  lemma HeadFieldComesBack(ns: seq<string>, p: string)
    requires |ns| > 1 && CleanName(ns[0]) && (p == "" || p == " ")
    ensures Cleaned(Split(p + Join(ns, ", "), ',')) == [ns[0]] + Cleaned(Split(" " + Join(ns[1..], ", "), ','))
  {
    var head := p + ns[0];
    var tail := " " + Join(ns[1..], ", ");
    FirstFieldComesBack(ns[0], p);
    JoinedHead(ns, p);
    SplitAfterField(head, ',', tail);
    CleanedCons(head, Split(tail, ','));
  }
}
