/** `UserRepository`: the queries over the user table. `isActive = true`
    holds only for a stored `true` (`null` matches no comparison). Derived
    `...ContainingIgnoreCase` queries escape the wildcards of their argument,
    so they are true substring tests; the hand-written JPQL search is not. */
module UserRepository {
  import opened Common
  import opened Ordering
  import opened Users

  /** The table's unique columns: `id`, `username` and `email`. */
  predicate UniqueColumns(us: seq<User>) {
    forall i, j :: 0 <= i < j < |us| ==>
      us[i].id != us[j].id && us[i].username != us[j].username && us[i].email != us[j].email
  }

  function UsernameIs(username: string): User -> bool {
    (u: User) => u.username == username
  }

  function EmailIs(email: string): User -> bool {
    (u: User) => u.email == email
  }

  function UsernameOrEmailIs(usernameOrEmail: string): User -> bool {
    (u: User) => u.username == usernameOrEmail || u.email == usernameOrEmail
  }

  function ActiveUser(): User -> bool {
    (u: User) => u.IsCurrentlyActive()
  }

  function ActiveNamed(username: string): User -> bool {
    (u: User) => u.username == username && u.IsCurrentlyActive()
  }

  function NameContains(username: string): User -> bool {
    (u: User) => IsSubstring(ToLower(username), ToLower(u.username))
  }

  function ActiveNameContains(username: string): User -> bool {
    (u: User) => IsSubstring(ToLower(username), ToLower(u.username)) && u.IsCurrentlyActive()
  }

  function OtherActiveNameContains(username: string, userId: Id): User -> bool {
    (u: User) => IsSubstring(ToLower(username), ToLower(u.username)) && u.id != userId && u.IsCurrentlyActive()
  }

  function ActiveMatching(searchTerm: string): User -> bool {
    (u: User) => (LikeContainsIgnoreCase(u.username, searchTerm) || LikeContainsIgnoreCase(u.email, searchTerm)) && u.IsCurrentlyActive()
  }

  function IdIn(ids: seq<Id>): User -> bool {
    (u: User) => u.id in ids
  }

  /** `findByUsername`. */
  function FindByUsername(us: seq<User>, username: string): (r: Result<Option<User>>)
    ensures r.Success? && r.value.Some? ==> r.value.value in us && r.value.value.username == username
    ensures r.Success? && r.value.None? ==> forall u :: u in us ==> u.username != username
    ensures UniqueColumns(us) ==> r.Success?
  {
    var rows := Filter(us, UsernameIs(username));
    assert UniqueColumns(us) ==> |rows| <= 1 by {
      if UniqueColumns(us) { AtMostOneMatch(us, UsernameIs(username)); }
    }
    assert rows != [] ==> rows[0] in rows;
    SingleResult(rows)
  }

  /** `findByEmail`. */
  function FindByEmail(us: seq<User>, email: string): (r: Result<Option<User>>)
    ensures r.Success? && r.value.Some? ==> r.value.value in us && r.value.value.email == email
    ensures r.Success? && r.value.None? ==> forall u :: u in us ==> u.email != email
    ensures UniqueColumns(us) ==> r.Success?
  {
    var rows := Filter(us, EmailIs(email));
    assert UniqueColumns(us) ==> |rows| <= 1 by {
      if UniqueColumns(us) { AtMostOneMatch(us, EmailIs(email)); }
    }
    assert rows != [] ==> rows[0] in rows;
    SingleResult(rows)
  }

  /** `findByUsernameOrEmail`: one text compared with both columns; two users
      can match it even when both columns are unique. */
  function FindByUsernameOrEmail(us: seq<User>, usernameOrEmail: string): (r: Result<Option<User>>)
    ensures r.Success? && r.value.Some? ==>
              r.value.value in us && (r.value.value.username == usernameOrEmail || r.value.value.email == usernameOrEmail)
    ensures r.Success? && r.value.None? ==>
              forall u :: u in us ==> u.username != usernameOrEmail && u.email != usernameOrEmail
    ensures r.Failure? <==> Count(us, UsernameOrEmailIs(usernameOrEmail)) > 1
  {
    var rows := Filter(us, UsernameOrEmailIs(usernameOrEmail));
    assert rows != [] ==> rows[0] in rows;
    SingleResult(rows)
  }

  /** One user's username that is another user's email makes the lookup by
      that text fail, whatever the uniqueness of the columns. */
  lemma UsernameOrEmailCanClash(us: seq<User>, i: nat, j: nat)
    requires i < j < |us| && (us[i].username == us[j].email || us[i].email == us[j].username)
    ensures var t := if us[i].username == us[j].email then us[i].username else us[j].username;
      FindByUsernameOrEmail(us, t).Failure?
  {
    var t := if us[i].username == us[j].email then us[i].username else us[j].username;
    CountAtLeastTwo(us, UsernameOrEmailIs(t), i, j);
  }

  /** `existsByUsername`. */
  predicate ExistsByUsername(us: seq<User>, username: string) {
    Count(us, UsernameIs(username)) > 0
  }

  /** `existsByEmail`. */
  predicate ExistsByEmail(us: seq<User>, email: string) {
    Count(us, EmailIs(email)) > 0
  }

  /** The existence tests agree with the lookups they shadow. */
  lemma {:induction false} ExistsAgreesWithFind(us: seq<User>, text: string)
    requires UniqueColumns(us)
    ensures ExistsByUsername(us, text) <==> FindByUsername(us, text).value.Some?
    ensures ExistsByEmail(us, text) <==> FindByEmail(us, text).value.Some?
  {
    CountExtremes(us, UsernameIs(text));
    CountExtremes(us, EmailIs(text));
    if FindByUsername(us, text).value.None? {
      assert forall i :: 0 <= i < |us| ==> us[i] in us;
    }
    if FindByEmail(us, text).value.None? {
      assert forall i :: 0 <= i < |us| ==> us[i] in us;
    }
  }

  /** `findAllActiveUsers`: table order. */
  function FindAllActiveUsers(us: seq<User>): (r: seq<User>)
    ensures forall u :: u in r <==> u in us && u.IsCurrentlyActive()
    ensures multiset(r) <= multiset(us)
  {
    Filter(us, ActiveUser())
  }

  /** `findByUsernameContainingIgnoreCaseAndIsActiveTrue(username, pageable)`:
      the page of the matches, in table order, that `LIMIT size OFFSET page * size` selects. */
  function FindByUsernameContainingIgnoreCaseAndIsActiveTrue(us: seq<User>, username: string, p: Pageable): (r: seq<User>)
    requires p.size >= 1
    ensures forall u :: u in r ==> u in us && u.IsCurrentlyActive() && IsSubstring(ToLower(username), ToLower(u.username))
    ensures |r| <= p.size
    ensures IsSliceOf(r, Filter(us, ActiveNameContains(username)), p)
  {
    var rows := Filter(us, ActiveNameContains(username));
    PageInside(rows, p, (u: User) => 0);
    PageOf(rows, p).content
  }

  /** Paging through the name search visits every match: the `i`-th match in
      table order is entry `i % size` of page `i / size`. */
  lemma NameMatchOnItsPage(us: seq<User>, username: string, size: nat, i: nat)
    requires size >= 1 && i < Count(us, ActiveNameContains(username))
    ensures var page := FindByUsernameContainingIgnoreCaseAndIsActiveTrue(us, username, Pageable(i / size, size));
      i % size < |page| && page[i % size] == Filter(us, ActiveNameContains(username))[i]
  {
    var rows := Filter(us, ActiveNameContains(username));
    SliceCoversRow(PageOf(rows, Pageable(i / size, size)).content, rows, size, i);
  }

  /** `findByUsernameContainingIgnoreCaseAndIdNotAndIsActiveTrue`: the user
      search, never returning the searching user. */
  function FindByUsernameContainingIgnoreCaseAndIdNotAndIsActiveTrue(us: seq<User>, username: string, userId: Id): (r: seq<User>)
    ensures forall u :: u in r <==>
              (u in us && u.id != userId && u.IsCurrentlyActive() && IsSubstring(ToLower(username), ToLower(u.username)))
    ensures multiset(r) <= multiset(us)
  {
    Filter(us, OtherActiveNameContains(username, userId))
  }

  /** The empty search text is contained in every name: the search lists every
      other active user. */
  lemma EmptySearchListsEveryone(us: seq<User>, userId: Id)
    ensures forall u :: u in FindByUsernameContainingIgnoreCaseAndIdNotAndIsActiveTrue(us, "", userId) <==>
              u in us && u.id != userId && u.IsCurrentlyActive()
  {
    forall u: User ensures IsSubstring(ToLower(""), ToLower(u.username)) {
      assert OccursAt(ToLower(""), ToLower(u.username), 0);
    }
  }

  /** `findByUsernameAndIsActiveTrue`: an inactive account is not found by name. */
  function FindByUsernameAndIsActiveTrue(us: seq<User>, username: string): (r: Result<Option<User>>)
    ensures r.Success? && r.value.Some? ==> r.value.value in us && r.value.value.username == username && r.value.value.IsCurrentlyActive()
    ensures r.Success? && r.value.None? ==> forall u :: u in us && u.username == username ==> !u.IsCurrentlyActive()
    ensures UniqueColumns(us) ==> r.Success?
  {
    var rows := Filter(us, ActiveNamed(username));
    assert UniqueColumns(us) ==> |rows| <= 1 by {
      if UniqueColumns(us) { AtMostOneMatch(us, ActiveNamed(username)); }
    }
    assert rows != [] ==> rows[0] in rows;
    SingleResult(rows)
  }

  /** `findByIsActiveTrueOrderByUsernameAsc(pageable)`: the requested page of
      the active users in table order (the alphabetical order is not modelled). */
  function FindByIsActiveTrueOrderByUsernameAsc(us: seq<User>, p: Pageable): (r: seq<User>)
    requires p.size >= 1
    ensures forall u :: u in r ==> u in us && u.IsCurrentlyActive()
    ensures |r| <= p.size
    ensures IsSliceOf(r, FindAllActiveUsers(us), p)
  {
    var rows := Filter(us, ActiveUser());
    PageInside(rows, p, (u: User) => 0);
    PageOf(rows, p).content
  }

  /** Paging through the active users visits all of them: the `i`-th of
      `findAllActiveUsers` is entry `i % size` of page `i / size`. */
  lemma ActiveUserOnItsPage(us: seq<User>, size: nat, i: nat)
    requires size >= 1 && i < Count(us, ActiveUser())
    ensures var page := FindByIsActiveTrueOrderByUsernameAsc(us, Pageable(i / size, size));
      i % size < |page| && page[i % size] == FindAllActiveUsers(us)[i]
  {
    var rows := Filter(us, ActiveUser());
    SliceCoversRow(PageOf(rows, Pageable(i / size, size)).content, rows, size, i);
  }

  /** `searchActiveUsers`: `LOWER(..) LIKE LOWER(CONCAT('%', :searchTerm, '%'))`
      on username or email, wildcards in the term left live. */
  function SearchActiveUsers(us: seq<User>, searchTerm: string, p: Pageable): (r: seq<User>)
    requires p.size >= 1
    ensures forall u :: u in r ==>
              (u in us && u.IsCurrentlyActive() &&
               (LikeContainsIgnoreCase(u.username, searchTerm) || LikeContainsIgnoreCase(u.email, searchTerm)))
    ensures |r| <= p.size
    ensures IsSliceOf(r, Filter(us, ActiveMatching(searchTerm)), p)
  {
    var rows := Filter(us, ActiveMatching(searchTerm));
    PageInside(rows, p, (u: User) => 0);
    PageOf(rows, p).content
  }

  /** Paging through `searchActiveUsers` visits every match: the `i`-th match
      in table order is entry `i % size` of page `i / size`. */
  lemma SearchMatchOnItsPage(us: seq<User>, searchTerm: string, size: nat, i: nat)
    requires size >= 1 && i < Count(us, ActiveMatching(searchTerm))
    ensures var page := SearchActiveUsers(us, searchTerm, Pageable(i / size, size));
      i % size < |page| && page[i % size] == Filter(us, ActiveMatching(searchTerm))[i]
  {
    var rows := Filter(us, ActiveMatching(searchTerm));
    SliceCoversRow(PageOf(rows, Pageable(i / size, size)).content, rows, size, i);
  }

  /** A search term holding `%` matches users whose names do not contain it:
      "%" itself matches every active user. */
  lemma PercentMatchesEveryone(u: User)
    requires u.IsCurrentlyActive()
    ensures ActiveMatching("%")(u)
  {
    var s := ToLower(u.username);
    assert ToLower("%" + "%" + "%") == "%%%" by {
      assert LowerChar('%') == '%';
    }
    LikeAnything(s);
    assert "%%"[1..] == "%" && "%%%"[1..] == "%%";
    assert Like(s, "%%");
    assert Like(s, "%%%");
  }

  /** `countByIsActiveTrue`. */
  function CountByIsActiveTrue(us: seq<User>): (n: nat)
    ensures n == |FindAllActiveUsers(us)| && n <= |us|
  {
    Count(us, ActiveUser())
  }

  /** `findByUsernameContainingIgnoreCase`: table order, active or not. */
  function FindByUsernameContainingIgnoreCase(us: seq<User>, username: string): (r: seq<User>)
    ensures forall u :: u in r <==> u in us && IsSubstring(ToLower(username), ToLower(u.username))
    ensures multiset(r) <= multiset(us)
  {
    Filter(us, NameContains(username))
  }

  /** The distinct values of a collection. */
  function Distinct(s: seq<Id>): set<Id> { set i | i in s }

  /** The ids of a list of users. */
  function IdsOf(s: seq<User>): set<Id> { set u | u in s :: u.id }

  /** `countByIdIn(ids)`: the number of users whose id is in the collection; a
      repeated id is counted once. */
  function CountByIdIn(us: seq<User>, ids: seq<Id>): (n: nat)
    ensures n <= |us|
    ensures UniqueColumns(us) ==> n <= |Distinct(ids)|
    ensures n == |us| <==> forall k :: 0 <= k < |us| ==> us[k].id in ids
  {
    CountExtremes(us, IdIn(ids));
    assert UniqueColumns(us) ==> Count(us, IdIn(ids)) <= |Distinct(ids)| by {
      if UniqueColumns(us) { CountBoundedByDistinctIds(us, ids); }
    }
    Count(us, IdIn(ids))
  }

  /** Distinct users whose ids are all in `ids` are at most as many as the
      distinct ids. */
  lemma CountBoundedByDistinctIds(us: seq<User>, ids: seq<Id>)
    requires UniqueColumns(us)
    ensures Count(us, IdIn(ids)) <= |Distinct(ids)|
  {
    var rows := Filter(us, IdIn(ids));
    var rel := (a: User, b: User) => a.id != b.id;
    assert Pairwise(us, rel);
    FilterKeepsPairwise(us, IdIn(ids), rel);
    assert Pairwise(rows, rel);
    DistinctIdsCount(rows);
    var found := IdsOf(rows);
    var all := Distinct(ids);
    assert found <= all;
    SubsetNoLarger(found, all);
  }

  /** A sequence of users with pairwise different ids has as many ids as users. */
  lemma {:induction false} DistinctIdsCount(s: seq<User>)
    requires forall i, j :: 0 <= i < j < |s| ==> s[i].id != s[j].id
    ensures |IdsOf(s)| == |s|
  {
    if s != [] {
      DistinctIdsCount(s[1..]);
      var rest := IdsOf(s[1..]);
      assert IdsOf(s) == rest + {s[0].id};
      forall u | u in s[1..] ensures u.id != s[0].id {
        var k :| 0 <= k < |s[1..]| && s[1..][k] == u;
        assert s[k + 1] == u;
      }
      assert s[0].id !in rest;
    }
  }

  /** Listing the same existing user twice makes the count fall short of the
      list's length. */
  lemma RepeatedIdFallsShort(us: seq<User>, ids: seq<Id>, i: nat, j: nat)
    requires UniqueColumns(us)
    requires i < j < |ids| && ids[i] == ids[j]
    ensures CountByIdIn(us, ids) < |ids|
  {
    SetOfSeqWithRepeat(ids, i, j);
  }

  /** `countByIdIn(ids) == ids.size()` holds exactly when the ids are pairwise
      different and every one of them names a stored user. */
  lemma CountByIdInMatchesLength(us: seq<User>, ids: seq<Id>)
    requires UniqueColumns(us)
    ensures CountByIdIn(us, ids) == |ids| <==>
              (forall i, j :: 0 <= i < j < |ids| ==> ids[i] != ids[j])
              && (forall k :: 0 <= k < |ids| ==> exists u :: u in us && u.id == ids[k])
  {
    var rows := Filter(us, IdIn(ids));
    var rel := (a: User, b: User) => a.id != b.id;
    assert Pairwise(us, rel);
    FilterKeepsPairwise(us, IdIn(ids), rel);
    DistinctIdsCount(rows);
    var found := IdsOf(rows);
    var all := Distinct(ids);
    assert found <= all;
    SetOfSeqAtMostLength(ids);
    if !(forall i, j :: 0 <= i < j < |ids| ==> ids[i] != ids[j]) {
      var i, j :| 0 <= i < j < |ids| && ids[i] == ids[j];
      SetOfSeqWithRepeat(ids, i, j);
      SubsetNoLarger(found, all);
    } else if !(forall k :: 0 <= k < |ids| ==> exists u :: u in us && u.id == ids[k]) {
      var k :| 0 <= k < |ids| && !(exists u :: u in us && u.id == ids[k]);
      assert found <= all - {ids[k]};
      SubsetNoLarger(found, all - {ids[k]});
    } else {
      DistinctSeqFull(ids);
      forall x | x in all ensures x in found {
        var k :| 0 <= k < |ids| && ids[k] == x;
        var u :| u in us && u.id == ids[k];
        assert u in rows;
      }
      assert found == all;
    }
  }

  /** Pairwise different values give as many distinct values as entries. */
  lemma {:induction false} DistinctSeqFull(s: seq<Id>)
    requires forall i, j :: 0 <= i < j < |s| ==> s[i] != s[j]
    ensures |Distinct(s)| == |s|
  {
    if s != [] {
      DistinctSeqFull(s[1..]);
      assert Distinct(s) == Distinct(s[1..]) + {s[0]};
      assert s[0] !in Distinct(s[1..]);
    }
  }

  /** A sequence with a repeated value has fewer distinct values than entries. */
  lemma SetOfSeqWithRepeat(ids: seq<Id>, i: nat, j: nat)
    requires i < j < |ids| && ids[i] == ids[j]
    ensures |Distinct(ids)| < |ids|
  {
    var without := ids[..j] + ids[j + 1..];
    assert Distinct(ids) == Distinct(without) by {
      forall x | x in ids ensures x in without {
        var m :| 0 <= m < |ids| && ids[m] == x;
        if m < j { assert without[m] == x; }
        else if m == j { assert without[i] == ids[i]; }
        else { assert without[m - 1] == x; }
      }
      forall x | x in without ensures x in ids {
        var m :| 0 <= m < |without| && without[m] == x;
        if m < j { assert ids[m] == x; } else { assert ids[m + 1] == x; }
      }
    }
    SetOfSeqAtMostLength(without);
  }

  lemma {:induction false} SetOfSeqAtMostLength(s: seq<Id>)
    ensures |Distinct(s)| <= |s|
  {
    if s != [] {
      SetOfSeqAtMostLength(s[1..]);
      var rest := Distinct(s[1..]);
      assert Distinct(s) == rest + {s[0]};
      if s[0] in rest {
        assert rest + {s[0]} == rest;
      } else {
        assert |rest + {s[0]}| == |rest| + 1;
      }
    }
  }

  lemma {:induction false} SubsetNoLarger(a: set<Id>, b: set<Id>)
    requires a <= b
    ensures |a| <= |b|
    decreases |a|
  {
    if a != {} {
      var x :| x in a;
      SubsetNoLarger(a - {x}, b - {x});
      assert |a - {x}| == |a| - 1;
      assert |b - {x}| == |b| - 1;
    }
  }
}
