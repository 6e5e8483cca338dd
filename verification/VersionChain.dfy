/**
 The supersession chain of document versions that db_store.py keeps up to date.
 */
module VersionChain {
  import opened Basics

  /* ---- version keys ---- */

  type Key = seq<int>

  /** The order of tuples. */
  predicate Less(a: Key, b: Key)
  {
    b != [] && (a == [] || a[0] < b[0] || (a[0] == b[0] && Less(a[1..], b[1..])))
  }

  lemma {:induction false} LessIsStrict(a: Key)
    ensures !Less(a, a)
  {
    if a != [] {
      LessIsStrict(a[1..]);
    }
  }

  lemma {:induction false} LessChains(a: Key, b: Key, c: Key)
    requires Less(a, b) && Less(b, c)
    ensures Less(a, c)
  {
    if a != [] && a[0] == b[0] == c[0] {
      LessChains(a[1..], b[1..], c[1..]);
    }
  }

  lemma {:induction false} LessIsTotal(a: Key, b: Key)
    ensures Less(a, b) || a == b || Less(b, a)
  {
    if a != [] && b != [] && a[0] == b[0] {
      LessIsTotal(a[1..], b[1..]);
      assert a == [a[0]] + a[1..] && b == [b[0]] + b[1..];
    }
  }

  /* ---- documents ---- */

  datatype Scope = Scope(owner: Option<string>, project: Option<string>, chat: Option<string>)

  /** The version fields computed from a file name and its metadata; a key is never empty. */
  datatype Version = Version(family: string, kind: Option<string>, key: Option<Key>)

  datatype Row = Row(scope: Scope, version: Version, created: nat, deleted: bool, supersedes: Option<nat>)

  type Rows = map<nat, Row>

  ghost predicate WellKeyed(v: Version)
  {
    v.key.Some? ==> v.key.value != []
  }

  datatype Group = Group(scope: Scope, family: string, kind: string)

  /** The live versions of a group, compared as they are stored. */
  predicate Member(rows: Rows, g: Group, id: nat)
  {
    && id in rows && !rows[id].deleted && rows[id].scope == g.scope
    && rows[id].version.family == g.family && rows[id].version.kind == Some(g.kind) && rows[id].version.key.Some?
  }

  predicate HasKey(rows: Rows, id: nat)
  {
    id in rows && rows[id].version.key.Some?
  }

  function KeyOf(rows: Rows, id: nat): Key
    requires HasKey(rows, id)
  {
    rows[id].version.key.value
  }

  /** Created first, or at the same time with a smaller identifier. */
  predicate Older(rows: Rows, a: nat, b: nat)
    requires a in rows && b in rows
  {
    rows[a].created < rows[b].created || (rows[a].created == rows[b].created && a < b)
  }

  /**
   The right predecessor of a version: the oldest of the versions with the greatest smaller key,
   none if no key is smaller.
   */
  ghost predicate IsLink(rows: Rows, g: Group, id: nat, link: Option<nat>)
    requires Member(rows, g, id)
  {
    if link.None? then forall m | Member(rows, g, m) :: !Less(KeyOf(rows, m), KeyOf(rows, id))
    else
      var t := link.value;
      && Member(rows, g, t) && Less(KeyOf(rows, t), KeyOf(rows, id))
      && forall m | Member(rows, g, m) && Less(KeyOf(rows, m), KeyOf(rows, id)) ::
           Less(KeyOf(rows, m), KeyOf(rows, t)) || (KeyOf(rows, m) == KeyOf(rows, t) && (m == t || Older(rows, t, m)))
  }

  /** There is only one right predecessor. */
  lemma LinkIsUnique(rows: Rows, g: Group, id: nat, a: Option<nat>, b: Option<nat>)
    requires Member(rows, g, id) && IsLink(rows, g, id, a) && IsLink(rows, g, id, b)
    ensures a == b
  {
    if a.Some? && b.Some? {
      LessIsStrict(KeyOf(rows, a.value));
      if Less(KeyOf(rows, a.value), KeyOf(rows, b.value)) && Less(KeyOf(rows, b.value), KeyOf(rows, a.value)) {
        LessChains(KeyOf(rows, a.value), KeyOf(rows, b.value), KeyOf(rows, a.value));
      }
    }
  }

  /* ---- linking a group ---- */

  /** The order in which versions are read. */
  predicate Before(rows: Rows, a: nat, b: nat)
    requires HasKey(rows, a) && HasKey(rows, b)
  {
    Less(KeyOf(rows, a), KeyOf(rows, b)) || (KeyOf(rows, a) == KeyOf(rows, b) && Older(rows, a, b))
  }

  ghost predicate Keyed(rows: Rows, ids: seq<nat>)
  {
    forall i | 0 <= i < |ids| :: HasKey(rows, ids[i])
  }

  ghost predicate InOrder(rows: Rows, ids: seq<nat>)
  {
    Keyed(rows, ids) && forall i, j | 0 <= i < j < |ids| :: Before(rows, ids[i], ids[j])
  }

  lemma BeforeIsOrder(rows: Rows, a: nat, b: nat, c: nat)
    requires HasKey(rows, a) && HasKey(rows, b) && HasKey(rows, c)
    ensures Before(rows, a, b) && Before(rows, b, c) ==> Before(rows, a, c)
    ensures a == b || Before(rows, a, b) || Before(rows, b, a)
  {
    if Less(KeyOf(rows, a), KeyOf(rows, b)) && Less(KeyOf(rows, b), KeyOf(rows, c)) {
      LessChains(KeyOf(rows, a), KeyOf(rows, b), KeyOf(rows, c));
    }
    LessIsTotal(KeyOf(rows, a), KeyOf(rows, b));
  }

  function Insert(rows: Rows, id: nat, ids: seq<nat>): (r: seq<nat>)
    requires HasKey(rows, id) && Keyed(rows, ids)
    ensures Keyed(rows, r) && forall x :: x in r <==> x == id || x in ids
  {
    if ids == [] then [id]
    else if Before(rows, id, ids[0]) then [id] + ids
    else [ids[0]] + Insert(rows, id, ids[1..])
  }

  lemma {:induction false} InsertKeepsOrder(rows: Rows, id: nat, ids: seq<nat>)
    requires HasKey(rows, id) && InOrder(rows, ids) && id !in ids
    ensures InOrder(rows, Insert(rows, id, ids))
  {
    if ids != [] {
      hide Before;
      var head, rest := ids[0], ids[1..];
      if Before(rows, id, head) {
        forall j | 1 <= j < |ids| ensures Before(rows, id, ids[j]) {
          BeforeIsOrder(rows, id, head, ids[j]);
        }
      } else {
        BeforeIsOrder(rows, id, head, head);
        InsertKeepsOrder(rows, id, rest);
        var r := Insert(rows, id, rest);
        forall j | 0 <= j < |r| ensures Before(rows, head, r[j]) {
          assert r[j] in r;
        }
      }
    }
  }

  /** Reading the versions of a group in order. */
  method ReadGroup(rows: Rows, g: Group) returns (ids: seq<nat>)
    ensures InOrder(rows, ids) && forall id :: id in ids <==> Member(rows, g, id)
  {
    var left: set<nat> := set id | id in rows && Member(rows, g, id);
    ids := [];
    while left != {}
      invariant InOrder(rows, ids) && (forall id :: id in ids || id in left <==> Member(rows, g, id))
      invariant forall id | id in left :: id !in ids
      decreases |left|
    {
      hide Before, InOrder;
      var id :| id in left;
      InsertKeepsOrder(rows, id, ids);
      assert Keyed(rows, ids) by { OrderIsKeyed(rows, ids); }
      ids := Insert(rows, id, ids);
      left := left - {id};
    }
  }

  lemma OrderIsKeyed(rows: Rows, ids: seq<nat>)
    requires InOrder(rows, ids)
    ensures Keyed(rows, ids)
  {
  }

  /** The same rows, but for the links of the group, which are right. */
  ghost predicate Relinked(rows: Rows, g: Group, after: Rows)
  {
    && after.Keys == rows.Keys
    && forall id | id in rows ::
         && after[id] == rows[id].(supersedes := after[id].supersedes)
         && if Member(rows, g, id) then IsLink(rows, g, id, after[id].supersedes) else after[id] == rows[id]
  }

  /** The first version with the key of the version at `k`. */
  ghost predicate FirstWithKey(rows: Rows, ids: seq<nat>, k: nat, id: nat)
    requires InOrder(rows, ids) && k < |ids|
  {
    exists j | 0 <= j <= k ::
      ids[j] == id && KeyOf(rows, ids[j]) == KeyOf(rows, ids[k])
      && forall i | 0 <= i < j :: Less(KeyOf(rows, ids[i]), KeyOf(rows, ids[k]))
  }

  /** The loop over a group finds the right link of every version in turn. */
  lemma NextLink(rows: Rows, g: Group, ids: seq<nat>, k: nat, first: nat, link: Option<nat>)
    requires InOrder(rows, ids) && (forall id :: id in ids <==> Member(rows, g, id)) && 0 < k < |ids|
    requires FirstWithKey(rows, ids, k - 1, first)
    requires Member(rows, g, ids[k - 1]) && IsLink(rows, g, ids[k - 1], link)
    ensures Member(rows, g, ids[k])
    ensures Less(KeyOf(rows, ids[k - 1]), KeyOf(rows, ids[k])) ==>
              IsLink(rows, g, ids[k], Some(first)) && FirstWithKey(rows, ids, k, ids[k])
    ensures !Less(KeyOf(rows, ids[k - 1]), KeyOf(rows, ids[k])) ==>
              IsLink(rows, g, ids[k], link) && FirstWithKey(rows, ids, k, first)
  {
    assert ids[k] in ids;
    var at, before := KeyOf(rows, ids[k]), KeyOf(rows, ids[k - 1]);
    assert Before(rows, ids[k - 1], ids[k]);
    if Less(before, at) {
      FirstOfKey(rows, ids, k);
      LinkToFirst(rows, g, ids, k, first);
    }
  }

  lemma FirstOfKey(rows: Rows, ids: seq<nat>, k: nat)
    requires InOrder(rows, ids) && 0 < k < |ids| && Less(KeyOf(rows, ids[k - 1]), KeyOf(rows, ids[k]))
    ensures FirstWithKey(rows, ids, k, ids[k])
  {
    hide Less;
    forall i | 0 <= i < k ensures Less(KeyOf(rows, ids[i]), KeyOf(rows, ids[k])) {
      if i < k - 1 {
        assert Before(rows, ids[i], ids[k - 1]);
        if KeyOf(rows, ids[i]) != KeyOf(rows, ids[k - 1]) {
          LessChains(KeyOf(rows, ids[i]), KeyOf(rows, ids[k - 1]), KeyOf(rows, ids[k]));
        }
      }
    }
  }

  lemma LinkToFirst(rows: Rows, g: Group, ids: seq<nat>, k: nat, first: nat)
    requires InOrder(rows, ids) && (forall id :: id in ids <==> Member(rows, g, id)) && 0 < k < |ids|
    requires FirstWithKey(rows, ids, k - 1, first) && Less(KeyOf(rows, ids[k - 1]), KeyOf(rows, ids[k]))
    requires Member(rows, g, ids[k])
    ensures IsLink(rows, g, ids[k], Some(first))
  {
    hide Less, Member;
    var j :| 0 <= j <= k - 1 && ids[j] == first && KeyOf(rows, ids[j]) == KeyOf(rows, ids[k - 1])
             && forall i | 0 <= i < j :: Less(KeyOf(rows, ids[i]), KeyOf(rows, ids[k - 1]));
    forall m | Member(rows, g, m) && Less(KeyOf(rows, m), KeyOf(rows, ids[k]))
      ensures Less(KeyOf(rows, m), KeyOf(rows, first))
              || (KeyOf(rows, m) == KeyOf(rows, first) && (m == first || Older(rows, first, m)))
    {
      assert m in ids;
      var i :| 0 <= i < |ids| && ids[i] == m;
      if i >= k {
        NotLess(rows, ids, k, i);
      } else if i > j {
        assert Before(rows, ids[j], ids[i]);
        if i < k - 1 {
          assert Before(rows, ids[i], ids[k - 1]);
          if Less(KeyOf(rows, ids[j]), KeyOf(rows, ids[i])) {
            LessIsStrict(KeyOf(rows, ids[j]));
            if Less(KeyOf(rows, ids[i]), KeyOf(rows, ids[j])) {
              LessChains(KeyOf(rows, ids[i]), KeyOf(rows, ids[j]), KeyOf(rows, ids[i]));
              LessIsStrict(KeyOf(rows, ids[i]));
            }
          }
        } else {
          LessIsStrict(KeyOf(rows, ids[j]));
        }
      }
    }
  }

  lemma NotLess(rows: Rows, ids: seq<nat>, k: nat, i: nat)
    requires InOrder(rows, ids) && k <= i < |ids|
    ensures !Less(KeyOf(rows, ids[i]), KeyOf(rows, ids[k]))
  {
    LessIsStrict(KeyOf(rows, ids[k]));
    if k < i {
      assert Before(rows, ids[k], ids[i]);
      if Less(KeyOf(rows, ids[i]), KeyOf(rows, ids[k])) && Less(KeyOf(rows, ids[k]), KeyOf(rows, ids[i])) {
        LessChains(KeyOf(rows, ids[k]), KeyOf(rows, ids[i]), KeyOf(rows, ids[k]));
      }
    }
  }

  lemma FirstLink(rows: Rows, g: Group, ids: seq<nat>)
    requires InOrder(rows, ids) && (forall id :: id in ids <==> Member(rows, g, id)) && ids != []
    ensures Member(rows, g, ids[0]) && IsLink(rows, g, ids[0], None) && FirstWithKey(rows, ids, 0, ids[0])
  {
    assert ids[0] in ids;
    forall m | Member(rows, g, m) ensures !Less(KeyOf(rows, m), KeyOf(rows, ids[0])) {
      assert m in ids;
      var i :| 0 <= i < |ids| && ids[i] == m;
      NotLess(rows, ids, 0, i);
    }
  }

  /* ---- the registry ---- */

  function Strip(s: string): string
  {
    var from := TrimLeft(s, 0);
    s[from..TrimRight(s, from, |s|)]
  }

  function TrimLeft(s: string, i: nat): (r: nat)
    requires i <= |s|
    ensures i <= r <= |s|
    decreases |s| - i
  {
    if i < |s| && IsSpace(s[i]) then TrimLeft(s, i + 1) else i
  }

  function TrimRight(s: string, i: nat, j: nat): (r: nat)
    requires i <= j <= |s|
    ensures i <= r <= j
  {
    if i < j && IsSpace(s[j - 1]) then TrimRight(s, i, j - 1) else j
  }

  /** The group that a change of this row relinks. */
  function GroupOf(row: Row): Option<Group>
  {
    var family := Strip(row.version.family);
    var kind := if row.version.kind.Some? then Strip(row.version.kind.value) else "";
    if family == "" || kind == "" || row.version.key.None? || row.version.key.value == [] then None
    else Some(Group(row.scope, family, kind))
  }

  /** The group a row is stored in. */
  function StoredGroup(row: Row): Group
    requires row.version.kind.Some?
  {
    Group(row.scope, row.version.family, row.version.kind.value)
  }

  /** A named version whose name is stored without blanks around it. */
  predicate Named(row: Row)
  {
    && !row.deleted && GroupOf(row).Some?
    && row.version.family == Strip(row.version.family) && row.version.kind.value == Strip(row.version.kind.value)
  }

  lemma NamedIsMember(rows: Rows, id: nat)
    requires id in rows && Named(rows[id])
    ensures Member(rows, GroupOf(rows[id]).value, id) && GroupOf(rows[id]).value == StoredGroup(rows[id])
  {
  }

  ghost predicate LinksAreRight(rows: Rows)
  {
    && (forall id | id in rows :: WellKeyed(rows[id].version))
    && forall id | id in rows && Named(rows[id]) ::
         Member(rows, GroupOf(rows[id]).value, id) && IsLink(rows, GroupOf(rows[id]).value, id, rows[id].supersedes)
  }

  /** Only links differ. */
  ghost predicate SameButLinks(a: Rows, b: Rows)
  {
    a.Keys == b.Keys && forall id | id in a :: b[id] == a[id].(supersedes := b[id].supersedes)
  }

  lemma LinksIgnored(a: Rows, b: Rows, g: Group, id: nat, link: Option<nat>)
    requires SameButLinks(a, b) && Member(a, g, id)
    ensures Member(b, g, id) && (IsLink(a, g, id, link) <==> IsLink(b, g, id, link))
  {
    forall m ensures Member(a, g, m) <==> Member(b, g, m) {
    }
    assert forall m | Member(a, g, m) :: KeyOf(a, m) == KeyOf(b, m);
    assert forall m, t | Member(a, g, m) && Member(a, g, t) :: Older(a, m, t) <==> Older(b, m, t);
  }

  /** The named rows outside some groups have the right links. */
  ghost predicate RightExcept(rows: Rows, groups: set<Group>)
  {
    forall id | id in rows && Named(rows[id]) && GroupOf(rows[id]).value !in groups ::
      Member(rows, GroupOf(rows[id]).value, id) && IsLink(rows, GroupOf(rows[id]).value, id, rows[id].supersedes)
  }

  ghost predicate AllKeyed(rows: Rows)
  {
    forall id | id in rows :: WellKeyed(rows[id].version)
  }

  lemma RightIsAll(rows: Rows)
    ensures LinksAreRight(rows) <==> AllKeyed(rows) && RightExcept(rows, {})
  {
  }

  /** A row that is a member of a named row's group has that group. */
  lemma MemberHasGroup(rows: Rows, id: nat, other: nat)
    requires AllKeyed(rows) && id in rows && Named(rows[id]) && Member(rows, GroupOf(rows[id]).value, other)
    ensures GroupOf(rows[other]) == GroupOf(rows[id])
  {
  }

  lemma SameGroupSameLink(a: Rows, b: Rows, g: Group, id: nat, link: Option<nat>)
    requires forall m :: Member(a, g, m) <==> Member(b, g, m)
    requires forall m | Member(a, g, m) && m in b :: a[m].version.key == b[m].version.key && a[m].created == b[m].created
    requires Member(a, g, id) && IsLink(a, g, id, link)
    ensures IsLink(b, g, id, link)
  {
    hide Less;
    assert forall m | Member(a, g, m) :: KeyOf(a, m) == KeyOf(b, m);
    assert forall m, t | Member(a, g, m) && Member(a, g, t) :: Older(a, m, t) <==> Older(b, m, t);
  }

  ghost predicate Touches(row: Row, groups: set<Group>)
  {
    GroupOf(row).Some? ==> GroupOf(row).value in groups
  }

  /** Writing one row disturbs only the groups it leaves and enters. */
  lemma WriteRow(a: Rows, id: nat, row: Row, groups: set<Group>)
    requires LinksAreRight(a) && WellKeyed(row.version)
    requires id in a ==> a[id].deleted || Touches(a[id], groups)
    requires row.deleted || Touches(row, groups)
    ensures AllKeyed(a[id := row]) && RightExcept(a[id := row], groups)
  {
    var b := a[id := row];
    forall x | x in b && Named(b[x]) && GroupOf(b[x]).value !in groups
      ensures Member(b, GroupOf(b[x]).value, x) && IsLink(b, GroupOf(b[x]).value, x, b[x].supersedes)
    {
      var g := GroupOf(b[x]).value;
      NamedIsMember(b, x);
      assert x != id && b[x] == a[x];
      hide IsLink;
      assert !Member(b, g, id) by {
        if Member(b, g, id) {
          MemberHasGroup(b, x, id);
        }
      }
      assert !Member(a, g, id) by {
        if Member(a, g, id) {
          MemberHasGroup(a, x, id);
        }
      }
      hide GroupOf, Named;
      assert forall m :: Member(a, g, m) <==> Member(b, g, m);
      SameGroupSameLink(a, b, g, x, a[x].supersedes);
    }
  }

  /** Relinking a group puts it right and leaves the others right. */
  lemma RelinkMends(a: Rows, g: Group, b: Rows, groups: set<Group>)
    requires AllKeyed(a) && RightExcept(a, groups) && Relinked(a, g, b)
    ensures AllKeyed(b) && RightExcept(b, groups - {g}) && SameButLinks(a, b)
  {
    forall x | x in b && Named(b[x]) && GroupOf(b[x]).value !in groups - {g}
      ensures Member(b, GroupOf(b[x]).value, x) && IsLink(b, GroupOf(b[x]).value, x, b[x].supersedes)
    {
      var h := GroupOf(b[x]).value;
      assert Named(a[x]) && GroupOf(a[x]) == Some(h);
      NamedIsMember(a, x);
      hide IsLink;
      if h != g {
        assert !Member(a, g, x);
      }
      hide GroupOf, Named;
      assert IsLink(a, h, x, b[x].supersedes);
      LinksIgnored(a, b, h, x, b[x].supersedes);
    }
  }

  /** The same rows, but for the links of some groups, which are right. */
  ghost predicate RelinkedAll(rows: Rows, groups: set<Group>, after: Rows)
  {
    SameButLinks(rows, after) && forall id | id in rows :: RightlyRelinked(rows, groups, after, id)
  }

  /** A member of one of the groups has its right link there, and any other row is as it was. */
  ghost predicate RightlyRelinked(rows: Rows, groups: set<Group>, after: Rows, id: nat)
  {
    && id in rows && id in after
    && (forall g | g in groups && Member(rows, g, id) :: IsLink(rows, g, id, after[id].supersedes))
    && ((forall g | g in groups :: !Member(rows, g, id)) ==> after[id] == rows[id])
  }

  lemma RelinkedNone(rows: Rows)
    ensures RelinkedAll(rows, {}, rows)
  {
    hide IsLink, Member;
  }

  lemma RelinkedMore(a: Rows, done: set<Group>, b: Rows, g: Group, c: Rows)
    requires RelinkedAll(a, done, b) && Relinked(b, g, c)
    ensures RelinkedAll(a, done + {g}, c)
  {
    RelinkFreezes(b, g, c);
    hide IsLink, Member, Relinked, RightlyRelinked;
    forall id | id in a ensures RightlyRelinked(a, done + {g}, c, id) {
      assert RightlyRelinked(a, done, b, id);
      RelinkedOne(a, done, b, g, c, id);
    }
  }

  lemma RelinkedOne(a: Rows, done: set<Group>, b: Rows, g: Group, c: Rows, id: nat)
    requires SameButLinks(a, b) && RightlyRelinked(a, done, b, id) && Relinked(b, g, c)
    ensures RightlyRelinked(a, done + {g}, c, id)
  {
    hide IsLink, Member, Relinked, SameButLinks;
    SameMembers(a, b, id);
    if Member(a, g, id) {
      RelinkedHere(b, g, c, id);
      LinksIgnored(a, b, g, id, c[id].supersedes);
      forall h | Member(a, h, id) ensures h == g {
        OneGroup(a, h, g, id);
      }
    } else {
      RelinkedElsewhere(b, g, c, id);
    }
  }

  lemma SameMembers(a: Rows, b: Rows, id: nat)
    requires SameButLinks(a, b) && id in a
    ensures forall h :: Member(a, h, id) <==> Member(b, h, id)
  {
  }

  lemma RelinkedHere(b: Rows, g: Group, c: Rows, id: nat)
    requires Relinked(b, g, c) && Member(b, g, id)
    ensures id in c && IsLink(b, g, id, c[id].supersedes)
  {
    hide IsLink;
  }

  lemma RelinkedElsewhere(b: Rows, g: Group, c: Rows, id: nat)
    requires Relinked(b, g, c) && id in b && !Member(b, g, id)
    ensures id in c && c[id] == b[id]
  {
    hide IsLink;
  }

  lemma OneGroup(rows: Rows, g: Group, h: Group, id: nat)
    requires Member(rows, g, id) && Member(rows, h, id)
    ensures g == h
  {
  }

  /** The groups that a change relinks: the one left and the one entered. */
  function GroupsOf(a: Row, b: Row): set<Group>
  {
    (if GroupOf(a).Some? then {GroupOf(a).value} else {}) + (if GroupOf(b).Some? then {GroupOf(b).value} else {})
  }

  /** Tombstones are as they were. */
  ghost predicate Frozen(a: Rows, b: Rows)
  {
    forall id | id in a && a[id].deleted :: id in b && b[id] == a[id]
  }

  lemma RelinkFreezes(a: Rows, g: Group, b: Rows)
    requires Relinked(a, g, b)
    ensures Frozen(a, b) && SameButLinks(a, b)
  {
    hide IsLink;
  }

  datatype Patch = Nothing | OtherFields | NewVersion(version: Version)

  class Registry {
    var rows: Rows

    ghost predicate Valid()
      reads this
    {
      LinksAreRight(rows)
    }

    constructor ()
      ensures Valid() && rows == map[]
    {
      rows := map[];
    }

    /** Link the versions of one group. */
    method Rebuild(g: Group)
      modifies this
      ensures Relinked(old(rows), g, rows)
    {
      ghost var before := rows;
      var ids := ReadGroup(rows, g);
      var link: Option<nat>, first: Option<nat>, last: Option<Key> := None, None, None;
      hide Less, InOrder, Cursor;
      NothingLinked(before, g, ids);
      for k := 0 to |ids|
        invariant Cursor(before, g, ids, k, rows, link, first, last)
      {
        LinkNext(before, g, ids, k, rows, link, first, last);
        var id := ids[k];
        var key := KeyOf(rows, id);
        var newer := last.Some? && Less(last.value, key);
        if newer {
          link := first;
        }
        rows := rows[id := rows[id].(supersedes := link)];
        if last.None? || newer {
          last := Some(key);
          first := Some(id);
        }
      }
      AllLinked(before, g, ids, rows, link, first, last);
    }

    /** Relink some groups, one after the other. */
    method RebuildAll(groups: set<Group>)
      requires AllKeyed(rows) && RightExcept(rows, groups)
      modifies this
      ensures Valid() && Frozen(old(rows), rows) && RelinkedAll(old(rows), groups, rows)
    {
      hide RightExcept, AllKeyed, Relinked, LinksAreRight, RelinkedAll;
      RelinkedNone(rows);
      var left := groups;
      assert groups - left == {};
      while left != {}
        invariant left <= groups && RelinkedAll(old(rows), groups - left, rows)
        invariant AllKeyed(rows) && RightExcept(rows, left)
        invariant Frozen(old(rows), rows) && SameButLinks(old(rows), rows)
        decreases |left|
      {
        var g :| g in left;
        ghost var before := rows;
        Rebuild(g);
        RelinkedMore(old(rows), groups - left, before, g, rows);
        RelinkMends(before, g, rows, left);
        RelinkFreezes(before, g, rows);
        assert groups - left + {g} == groups - (left - {g});
        left := left - {g};
      }
      assert groups - left == groups;
      RightIsAll(rows);
    }

    /** A new document, with an identifier that the database chooses. */
    method Create(id: nat, scope: Scope, version: Version, created: nat)
      requires Valid() && id !in rows && WellKeyed(version)
      modifies this
      ensures Valid() && Frozen(old(rows), rows)
      ensures SameButLinks(old(rows)[id := Row(scope, version, created, false, None)], rows)
      ensures GroupOf(Row(scope, version, created, false, None)).None? ==>
                rows == old(rows)[id := Row(scope, version, created, false, None)]
      ensures var g := GroupOf(Row(scope, version, created, false, None));
              g.Some? ==> Relinked(old(rows)[id := Row(scope, version, created, false, None)], g.value, rows)
    {
      var row := Row(scope, version, created, false, None);
      var group := GroupOf(row);
      hide LinksAreRight, RightExcept, AllKeyed, Relinked, GroupOf;
      WriteRow(rows, id, row, if group.Some? then {group.value} else {});
      rows := rows[id := row];
      ghost var before := rows;
      if group.Some? {
        Rebuild(group.value);
        RelinkMends(before, group.value, rows, {group.value});
        RelinkFreezes(before, group.value, rows);
        assert {group.value} - {group.value} == {};
      }
      RightIsAll(rows);
    }

    /** Change a live document; a new file name or new metadata computes its version anew. */
    method Update(id: nat, patch: Patch) returns (found: bool)
      requires Valid() && (patch.NewVersion? ==> WellKeyed(patch.version))
      modifies this
      ensures Valid() && Frozen(old(rows), rows)
      ensures found == (id in old(rows) && !old(rows)[id].deleted)
      ensures !found || patch.Nothing? ==> rows == old(rows)
      ensures found && !patch.Nothing? ==>
                var row := Patched(old(rows)[id], patch);
                RelinkedAll(old(rows)[id := row], GroupsOf(old(rows)[id], row), rows)
    {
      if id !in rows || rows[id].deleted {
        return false;
      }
      if patch.Nothing? {
        return true;
      }
      var row := Patched(rows[id], patch);
      var oldGroup, newGroup := GroupOf(rows[id]), GroupOf(row);
      var groups := (if oldGroup.Some? then {oldGroup.value} else {}) + (if newGroup.Some? then {newGroup.value} else {});
      assert WellKeyed(row.version);
      hide LinksAreRight, RightExcept, AllKeyed, GroupOf, RelinkedAll;
      WriteRow(rows, id, row, groups);
      rows := rows[id := row];
      RebuildAll(groups);
      return true;
    }

    /** Hide a live document for good. */
    method Tombstone(id: nat) returns (found: bool)
      requires Valid()
      modifies this
      ensures Valid() && Frozen(old(rows), rows)
      ensures found == (id in old(rows) && !old(rows)[id].deleted)
      ensures !found ==> rows == old(rows)
      ensures found ==>
                var row := old(rows)[id].(deleted := true);
                RelinkedAll(old(rows)[id := row], GroupsOf(old(rows)[id], old(rows)[id]), rows)
    {
      if id !in rows || rows[id].deleted {
        return false;
      }
      var group := GroupOf(rows[id]);
      var groups := if group.Some? then {group.value} else {};
      assert WellKeyed(rows[id].version);
      hide LinksAreRight, RightExcept, AllKeyed, GroupOf, RelinkedAll;
      WriteRow(rows, id, rows[id].(deleted := true), groups);
      rows := rows[id := rows[id].(deleted := true)];
      RebuildAll(groups);
      return true;
    }

    /**
     Recompute the version of every live document, then link every group as it is stored; `fields`
     gives the versions computed from the documents' names and metadata.
     */
    method Backfill(fields: map<nat, Version>)
      requires forall id | id in fields :: WellKeyed(fields[id])
      requires AllKeyed(rows) && forall id | id in rows && !rows[id].deleted :: id in fields
      modifies this
      ensures Valid() && Frozen(old(rows), rows)
      ensures var refreshed := Refreshed(old(rows), fields);
              RelinkedAll(refreshed, set id | id in refreshed && Versioned(refreshed[id]) :: StoredGroup(refreshed[id]), rows)
      ensures forall id | id in rows && Versioned(rows[id]) ::
                Member(rows, StoredGroup(rows[id]), id) && IsLink(rows, StoredGroup(rows[id]), id, rows[id].supersedes)
    {
      rows := Refreshed(rows, fields);
      var groups := set id | id in rows && Versioned(rows[id]) :: StoredGroup(rows[id]);
      assert AllKeyed(rows);
      LinkStored(groups);
      StoredIsRight(rows);
    }

    /** Link some stored groups. */
    method LinkStored(groups: set<Group>)
      requires AllKeyed(rows) && StoredExcept(rows, groups)
      modifies this
      ensures AllKeyed(rows) && StoredExcept(rows, {})
      ensures Frozen(old(rows), rows) && RelinkedAll(old(rows), groups, rows)
    {
      hide Relinked, StoredExcept, AllKeyed, RelinkedAll;
      RelinkedNone(rows);
      var left := groups;
      assert groups - left == {};
      while left != {}
        invariant left <= groups && RelinkedAll(old(rows), groups - left, rows)
        invariant AllKeyed(rows) && StoredExcept(rows, left)
        invariant Frozen(old(rows), rows) && SameButLinks(old(rows), rows)
        decreases |left|
      {
        var g :| g in left;
        ghost var before := rows;
        Rebuild(g);
        RelinkedMore(old(rows), groups - left, before, g, rows);
        RelinkFreezes(before, g, rows);
        RelinkStored(before, g, rows, left);
        assert groups - left + {g} == groups - (left - {g});
        left := left - {g};
      }
      assert groups - left == groups;
    }
  }

  function Patched(row: Row, patch: Patch): Row
  {
    if patch.NewVersion? then row.(version := patch.version, supersedes := None) else row
  }

  /** The live rows with their versions computed anew; a changed version loses its link. */
  function Refreshed(rows: Rows, fields: map<nat, Version>): (r: Rows)
    ensures r.Keys == rows.Keys && Frozen(rows, r)
  {
    map id | id in rows ::
      if !rows[id].deleted && id in fields && rows[id].version != fields[id]
      then rows[id].(version := fields[id], supersedes := None) else rows[id]
  }

  /** A live row with a kind and a key. */
  predicate Versioned(row: Row)
  {
    !row.deleted && row.version.kind.Some? && row.version.key.Some?
  }

  ghost predicate StoredRight(rows: Rows, id: nat)
    requires id in rows && Versioned(rows[id])
  {
    Member(rows, StoredGroup(rows[id]), id) && IsLink(rows, StoredGroup(rows[id]), id, rows[id].supersedes)
  }

  ghost predicate StoredExcept(rows: Rows, groups: set<Group>)
  {
    forall id | id in rows && Versioned(rows[id]) :: StoredGroup(rows[id]) in groups || StoredRight(rows, id)
  }

  lemma RelinkStoredOne(a: Rows, g: Group, b: Rows, id: nat)
    requires Relinked(a, g, b) && id in b && id in a && Versioned(b[id]) && Versioned(a[id])
    requires StoredGroup(a[id]) == g || StoredRight(a, id)
    ensures StoredRight(b, id)
  {
    var h := StoredGroup(b[id]);
    RelinkFreezes(a, g, b);
    assert Member(a, h, id);
    hide Less;
    if h != g {
      assert !Member(a, g, id);
    }
    assert IsLink(a, h, id, b[id].supersedes);
    hide IsLink;
    LinksIgnored(a, b, h, id, b[id].supersedes);
  }

  lemma RelinkStored(a: Rows, g: Group, b: Rows, groups: set<Group>)
    requires AllKeyed(a) && StoredExcept(a, groups) && Relinked(a, g, b)
    ensures AllKeyed(b) && StoredExcept(b, groups - {g})
  {
    hide StoredRight;
    RelinkFreezes(a, g, b);
    forall id | id in b && Versioned(b[id]) && StoredGroup(b[id]) !in groups - {g} ensures StoredRight(b, id) {
      RelinkStoredOne(a, g, b, id);
    }
  }

  lemma StoredIsRight(rows: Rows)
    requires AllKeyed(rows) && StoredExcept(rows, {})
    ensures LinksAreRight(rows) && forall id | id in rows && Versioned(rows[id]) :: StoredRight(rows, id)
  {
    hide IsLink;
    forall id | id in rows && Named(rows[id])
      ensures Member(rows, GroupOf(rows[id]).value, id) && IsLink(rows, GroupOf(rows[id]).value, id, rows[id].supersedes)
    {
      NamedIsMember(rows, id);
      assert StoredRight(rows, id);
    }
  }

  /* ---- chains ---- */

  /** Every version of the group has its right link. */
  ghost predicate GroupRight(rows: Rows, g: Group)
  {
    forall id | Member(rows, g, id) :: IsLink(rows, g, id, rows[id].supersedes)
  }

  /** The groups of named documents are right. */
  lemma NamedGroupIsRight(rows: Rows, id: nat)
    requires LinksAreRight(rows) && id in rows && Named(rows[id])
    ensures GroupRight(rows, GroupOf(rows[id]).value)
  {
    var g := GroupOf(rows[id]).value;
    hide IsLink;
    forall m | Member(rows, g, m) ensures IsLink(rows, g, m, rows[m].supersedes) {
      assert GroupOf(rows[m]) == Some(g) && Named(rows[m]);
    }
  }

  ghost function Smaller(rows: Rows, g: Group, id: nat): set<nat>
    requires HasKey(rows, id)
  {
    set m | m in rows && Member(rows, g, m) && Less(KeyOf(rows, m), KeyOf(rows, id))
  }

  lemma SmallerShrinks(rows: Rows, g: Group, id: nat)
    requires Member(rows, g, id) && IsLink(rows, g, id, rows[id].supersedes) && rows[id].supersedes.Some?
    ensures var t := rows[id].supersedes.value;
            Member(rows, g, t) && Smaller(rows, g, t) < Smaller(rows, g, id)
  {
    var t := rows[id].supersedes.value;
    forall m | m in Smaller(rows, g, t) ensures m in Smaller(rows, g, id) {
      LessChains(KeyOf(rows, m), KeyOf(rows, t), KeyOf(rows, id));
    }
    LessIsStrict(KeyOf(rows, t));
    assert t in Smaller(rows, g, id) && t !in Smaller(rows, g, t);
  }

  /** The versions that a version supersedes, one after the other. */
  ghost function Chain(rows: Rows, g: Group, id: nat): seq<nat>
    requires GroupRight(rows, g) && Member(rows, g, id)
    decreases Smaller(rows, g, id)
  {
    if rows[id].supersedes.None? then [] else
    SmallerShrinks(rows, g, id);
    [rows[id].supersedes.value] + Chain(rows, g, rows[id].supersedes.value)
  }

  /** Keys fall along a chain. */
  lemma {:induction false} ChainFalls(rows: Rows, g: Group, id: nat)
    requires GroupRight(rows, g) && Member(rows, g, id)
    ensures forall i | 0 <= i < |Chain(rows, g, id)| ::
              Member(rows, g, Chain(rows, g, id)[i]) && Less(KeyOf(rows, Chain(rows, g, id)[i]), KeyOf(rows, id))
    ensures forall i, j | 0 <= i < j < |Chain(rows, g, id)| ::
              Less(KeyOf(rows, Chain(rows, g, id)[j]), KeyOf(rows, Chain(rows, g, id)[i]))
    decreases Smaller(rows, g, id)
  {
    if rows[id].supersedes.Some? {
      SmallerShrinks(rows, g, id);
      var t := rows[id].supersedes.value;
      ChainFalls(rows, g, t);
      var rest := Chain(rows, g, t);
      forall i | 0 <= i < |rest| ensures Less(KeyOf(rows, rest[i]), KeyOf(rows, id)) {
        LessChains(KeyOf(rows, rest[i]), KeyOf(rows, t), KeyOf(rows, id));
      }
      assert Chain(rows, g, id) == [t] + rest;
    }
  }

  /** A chain visits every smaller key of its group, at the oldest version with that key. */
  lemma {:induction false} ChainVisits(rows: Rows, g: Group, id: nat, m: nat)
    requires GroupRight(rows, g) && Member(rows, g, id) && Member(rows, g, m) && Less(KeyOf(rows, m), KeyOf(rows, id))
    ensures exists c | c in Chain(rows, g, id) ::
              Member(rows, g, c) && KeyOf(rows, c) == KeyOf(rows, m) && (c == m || Older(rows, c, m))
    decreases Smaller(rows, g, id)
  {
    assert IsLink(rows, g, id, rows[id].supersedes);
    SmallerShrinks(rows, g, id);
    var t := rows[id].supersedes.value;
    assert Chain(rows, g, id) == [t] + Chain(rows, g, t);
    if KeyOf(rows, m) == KeyOf(rows, t) {
      assert t in Chain(rows, g, id);
    } else {
      ChainVisits(rows, g, t, m);
    }
  }

  /* ---- names stored with blanks around them ---- */

  /**
   A new version is linked among the versions stored under its name exactly if the name is stored
   without blanks around it, or there is nothing to link it to.
   */
  lemma LinkedIffNamed(rows: Rows, id: nat, after: Rows)
    requires id in rows && !rows[id].deleted && GroupOf(rows[id]).Some? && rows[id].supersedes.None?
    requires Relinked(rows, GroupOf(rows[id]).value, after)
    ensures Member(rows, StoredGroup(rows[id]), id)
    ensures IsLink(rows, StoredGroup(rows[id]), id, after[id].supersedes)
       <==> Named(rows[id]) || IsLink(rows, StoredGroup(rows[id]), id, None)
  {
    hide Less;
    if Named(rows[id]) {
      NamedIsMember(rows, id);
    } else {
      hide IsLink;
      assert !Member(rows, GroupOf(rows[id]).value, id);
    }
  }

  /** A dash and a blank: the family of the file "\u2014 .pdf", which has no letter or digit to keep. */
  const DASH_BLANK := "\U{2014} "

  const FIRST_KEY: Key := [1, 0, 0, 0]
  const SECOND_KEY: Key := [2, 0, 0, 0]

  /** Versions 1.0 and 2.0 of such a file, the numbers given in the metadata. */
  function DashRows(scope: Scope): Rows
  {
    map[1 := Row(scope, Version(DASH_BLANK, Some("semantic"), Some(FIRST_KEY)), 0, false, None),
        2 := Row(scope, Version(DASH_BLANK, Some("semantic"), Some(SECOND_KEY)), 1, false, None)]
  }

  /** The newer of two versions of a name with a blank at its end misses its predecessor. */
  lemma BlankNameIsMissed(scope: Scope)
    ensures var rows := DashRows(scope);
            && GroupOf(rows[2]).Some? && Relinked(rows, GroupOf(rows[2]).value, rows)
            && Member(rows, StoredGroup(rows[2]), 2) && IsLink(rows, StoredGroup(rows[2]), 2, Some(1))
            && !IsLink(rows, StoredGroup(rows[2]), 2, rows[2].supersedes)
  {
    var rows := DashRows(scope);
    DashIsStripped();
    KeysRise();
    assert Member(rows, StoredGroup(rows[2]), 1);
    LessIsStrict(FIRST_KEY);
    LessIsStrict(SECOND_KEY);
    hide Less, Strip;
  }

  lemma DashIsStripped()
    ensures Strip(DASH_BLANK) == "\U{2014}" && Strip(DASH_BLANK) != DASH_BLANK && Strip("semantic") == "semantic"
  {
    assert !IsSpace('\U{2014}') && IsSpace(' ');
    assert TrimLeft(DASH_BLANK, 0) == 0 && TrimRight(DASH_BLANK, 0, 2) == 1;
    assert !IsSpace('s') && !IsSpace('c');
    assert TrimLeft("semantic", 0) == 0 && TrimRight("semantic", 0, 8) == 8;
  }

  lemma KeysRise()
    ensures Less(FIRST_KEY, SECOND_KEY)
  {
  }

  /* ---- the loop of Rebuild ---- */

  /** The first `k` versions are linked; what the loop remembers of the last of them. */
  ghost predicate Cursor(before: Rows, g: Group, ids: seq<nat>, k: nat, rows: Rows,
                         link: Option<nat>, first: Option<nat>, last: Option<Key>)
  {
    && k <= |ids| && InOrder(before, ids) && (forall id :: id in ids <==> Member(before, g, id))
    && rows.Keys == before.Keys
    && (forall id | id in before :: rows[id] == before[id].(supersedes := rows[id].supersedes))
    && (forall id | id in before && id !in ids[..k] :: rows[id] == before[id])
    && (forall i | 0 <= i < k :: Member(before, g, ids[i]) && IsLink(before, g, ids[i], rows[ids[i]].supersedes))
    && (k == 0 ==> last.None?)
    && (k > 0 ==> last == Some(KeyOf(before, ids[k - 1])) && first.Some? && rows[ids[k - 1]].supersedes == link
                  && FirstWithKey(before, ids, k - 1, first.value))
    && (k == 0 ==> link.None?)
  }

  lemma NothingLinked(before: Rows, g: Group, ids: seq<nat>)
    requires InOrder(before, ids) && forall id :: id in ids <==> Member(before, g, id)
    ensures Cursor(before, g, ids, 0, before, None, None, None)
  {
  }

  lemma Distinct(rows: Rows, ids: seq<nat>, i: nat, j: nat)
    requires InOrder(rows, ids) && i < j < |ids|
    ensures ids[i] != ids[j]
  {
    assert Before(rows, ids[i], ids[j]);
    LessIsStrict(KeyOf(rows, ids[i]));
  }

  lemma LinkNext(before: Rows, g: Group, ids: seq<nat>, k: nat, rows: Rows,
                 link: Option<nat>, first: Option<nat>, last: Option<Key>)
    requires Cursor(before, g, ids, k, rows, link, first, last) && k < |ids|
    ensures HasKey(rows, ids[k])
    ensures var id := ids[k];
            var key := KeyOf(rows, id);
            var newer := last.Some? && Less(last.value, key);
            var next := if newer then first else link;
            Cursor(before, g, ids, k + 1, rows[id := rows[id].(supersedes := next)], next,
                   if last.None? || newer then Some(id) else first, if last.None? || newer then Some(key) else last)
  {
    hide Less, InOrder, IsLink, FirstWithKey, Member;
    var id := ids[k];
    assert id in ids;
    LinkHere(before, g, ids, k, rows, link, first, last);
    forall i | 0 <= i < k ensures ids[i] != id {
      Distinct(before, ids, i, k);
    }
    assert ids[..k + 1] == ids[..k] + [id];
  }

  lemma LinkHere(before: Rows, g: Group, ids: seq<nat>, k: nat, rows: Rows,
                 link: Option<nat>, first: Option<nat>, last: Option<Key>)
    requires Cursor(before, g, ids, k, rows, link, first, last) && k < |ids|
    ensures HasKey(rows, ids[k]) && HasKey(before, ids[k]) && KeyOf(rows, ids[k]) == KeyOf(before, ids[k])
    ensures var newer := last.Some? && Less(last.value, KeyOf(before, ids[k]));
            && Member(before, g, ids[k]) && IsLink(before, g, ids[k], if newer then first else link)
            && (last.None? || newer ==> FirstWithKey(before, ids, k, ids[k]))
            && (!(last.None? || newer) ==> first.Some? && FirstWithKey(before, ids, k, first.value)
                                           && last == Some(KeyOf(before, ids[k])))
  {
    assert ids[k] in ids;
    if k == 0 {
      FirstLink(before, g, ids);
    } else {
      assert Before(before, ids[k - 1], ids[k]);
      NextLink(before, g, ids, k, first.value, link);
    }
    hide Less, InOrder, IsLink, FirstWithKey;
  }

  lemma AllLinked(before: Rows, g: Group, ids: seq<nat>, rows: Rows,
                  link: Option<nat>, first: Option<nat>, last: Option<Key>)
    requires Cursor(before, g, ids, |ids|, rows, link, first, last)
    ensures Relinked(before, g, rows)
  {
    hide Less, InOrder, IsLink, FirstWithKey;
    assert ids[..|ids|] == ids;
    forall id | id in before && Member(before, g, id) ensures IsLink(before, g, id, rows[id].supersedes) {
      assert id in ids;
      var i :| 0 <= i < |ids| && ids[i] == id;
    }
  }
}
