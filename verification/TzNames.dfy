/**
 The merge behind the time-zone name table: two trees of zone names are flattened, the
 second overriding the first field by field, and every name fans out to its aliases.
 */
module TzNames {
  import opened Options
  import opened SortedKeys

  type Path = seq<string>

  /** A node of a JSON tree: what it carries, and its children under distinct keys. */
  datatype Tree<+V> = Node(item: Option<V>, kids: Forest<V>)

  datatype Forest<+V> = NoKids | Kid(key: string, tree: Tree<V>, more: Forest<V>)

  /** The `_mzone` of each stretch of a zone's history, oldest first. */
  type History = seq<Option<string>>

  datatype Long = Long(standard: Option<string>, daylight: Option<string>)

  datatype Row = Row(standard: string, daylight: string)

  function Lookup<R>(m: map<string, R>, k: string): Option<R> {
    if k in m then Some(m[k]) else None
  }

  // ----- zone names

  /** `"/".join(path)` */
  function Join(p: Path): string {
    if p == [] then "" else if |p| == 1 then p[0] else p[0] + "/" + Join(p[1..])
  }

  /** Keys in the order of the path, a slash between them. */
  lemma {:induction false} JoinMeans(p: Path, key: string)
    ensures Join([key]) == key
    ensures p != [] ==> Join(p + [key]) == Join(p) + ("/" + key)
  {
    if |p| > 1 {
      JoinMeans(p[1..], key);
      assert (p + [key])[1..] == p[1..] + [key];
    } else if |p| == 1 {
      assert (p + [key])[1..] == [key];
    }
  }

  predicate Plain(key: string) {
    key != "" && '/' !in key
  }

  predicate PlainPath(p: Path) {
    forall i | 0 <= i < |p| :: Plain(p[i])
  }

  lemma JoinHead(p: Path)
    requires p != [] && PlainPath(p)
    ensures p[0] <= Join(p)
    ensures |p| > 1 ==> |Join(p)| > |p[0]| && Join(p)[|p[0]|] == '/' && Join(p)[|p[0]| + 1..] == Join(p[1..])
    ensures |p| == 1 ==> Join(p) == p[0]
  {
  }

  /** Different paths of non-empty, slash-free keys have different names. */
  lemma {:induction false} JoinInjective(p: Path, q: Path)
    requires PlainPath(p) && PlainPath(q) && Join(p) == Join(q)
    ensures p == q
  {
    if p != [] && q != [] {
      JoinHead(p);
      JoinHead(q);
      SameHead(p, q);
      hide Join;
      if |p| > 1 && |q| > 1 { JoinInjective(p[1..], q[1..]); }
      assert p == [p[0]] + p[1..] && q == [q[0]] + q[1..];
    } else {
      if p != [] { JoinHead(p); }
      if q != [] { JoinHead(q); }
    }
  }

  lemma SameHead(p: Path, q: Path)
    requires p != [] && q != [] && PlainPath(p) && PlainPath(q) && Join(p) == Join(q)
    ensures p[0] == q[0] && (|p| > 1 <==> |q| > 1)
  {
    JoinHead(p);
    JoinHead(q);
    hide Join;
    var s, a, b := Join(p), p[0], q[0];
    NoSlashInside(a, b, s, |p| > 1);
    NoSlashInside(b, a, s, |q| > 1);
    assert a == s[..|a|] && b == s[..|b|];
  }

  /** A key ends where the name ends or has a slash, so no other key reaches past it. */
  lemma NoSlashInside(a: string, b: string, s: string, more: bool)
    requires b <= s && '/' !in b
    requires if more then |a| < |s| && s[|a|] == '/' else |s| == |a|
    ensures |b| <= |a|
  {
    forall i | 0 <= i < |b| ensures s[i] != '/' { assert s[i] == b[i] && b[i] in b; }
  }

  // ----- walking a tree

  /** What a tree carries at a path. */
  function ItemAt<V>(t: Tree<V>, p: Path): Option<V>
    decreases t
  {
    if p == [] then t.item else ItemIn(t.kids, p)
  }

  function ItemIn<V>(f: Forest<V>, p: Path): Option<V>
    requires p != []
    decreases f
  {
    match f
    case NoKids => None
    case Kid(k, t, more) => if k == p[0] then ItemAt(t, p[1..]) else ItemIn(more, p)
  }

  predicate HasKey<V>(f: Forest<V>, k: string) {
    f.Kid? && (f.key == k || HasKey(f.more, k))
  }

  /** Keys are non-empty, slash-free, and distinct among the children of one node. */
  predicate KeysOk<V>(f: Forest<V>) {
    f.Kid? ==> Plain(f.key) && !HasKey(f.more, f.key) && KeysOk(f.tree.kids) && KeysOk(f.more)
  }

  /** How an item changes the entry under its name; `None` leaves the entry alone. */
  type Update<!V, !R> = (V, Option<R>) -> Option<R>

  function Put<V, R>(f: Update<V, R>, m: map<string, R>, name: string, v: V): map<string, R> {
    var r := f(v, Lookup(m, name));
    if r.Some? then m[name := r.value] else m
  }

  /** The walk: every item, in depth-first order, updates the entry under its path's name. */
  function Walk<V, R>(f: Update<V, R>, t: Tree<V>, path: Path, m: map<string, R>): map<string, R>
    decreases t
  {
    WalkForest(f, t.kids, path, if t.item.Some? then Put(f, m, Join(path), t.item.value) else m)
  }

  function WalkForest<V, R>(f: Update<V, R>, kids: Forest<V>, path: Path, m: map<string, R>): map<string, R>
    decreases kids
  {
    match kids
    case NoKids => m
    case Kid(k, t, more) => WalkForest(f, more, path, Walk(f, t, path + [k], m))
  }

  /** What the entry under a name becomes when an item, or none, meets it. */
  function Updated<V, R>(f: Update<V, R>, v: Option<V>, was: Option<R>): Option<R> {
    if v.Some? && f(v.value, was).Some? then f(v.value, was) else was
  }

  lemma {:induction false} NoKeyNoItem<V>(kids: Forest<V>, p: Path)
    requires p != [] && !HasKey(kids, p[0])
    ensures ItemIn(kids, p) == None
  {
    if kids.Kid? { NoKeyNoItem(kids.more, p); }
  }

  /** A walk leaves alone every entry whose name is not that of a path in the tree. */
  lemma {:induction false} WalkElsewhere<V, R>(f: Update<V, R>, t: Tree<V>, path: Path, m: map<string, R>, name: string)
    requires PlainPath(path) && KeysOk(t.kids)
    requires forall q | PlainPath(q) :: Join(path + q) != name
    ensures Lookup(Walk(f, t, path, m), name) == Lookup(m, name)
    decreases t
  {
    assert path + [] == path;
    ForestElsewhere(f, t.kids, path, if t.item.Some? then Put(f, m, Join(path), t.item.value) else m, name);
  }

  lemma {:induction false} ForestElsewhere<V, R>(f: Update<V, R>, kids: Forest<V>, path: Path,
                                                 m: map<string, R>, name: string)
    requires PlainPath(path) && KeysOk(kids)
    requires forall q | PlainPath(q) && q != [] :: Join(path + q) != name
    ensures Lookup(WalkForest(f, kids, path, m), name) == Lookup(m, name)
    decreases kids
  {
    if kids.Kid? {
      forall q | PlainPath(q) ensures Join((path + [kids.key]) + q) != name {
        assert (path + [kids.key]) + q == path + ([kids.key] + q);
        assert PlainPath([kids.key] + q);
      }
      WalkElsewhere(f, kids.tree, path + [kids.key], m, name);
      ForestElsewhere(f, kids.more, path, Walk(f, kids.tree, path + [kids.key], m), name);
    }
  }

  /** A walk updates the entry under a path's name by the item at that path, and by nothing else. */
  lemma {:induction false} WalkUpdates<V, R>(f: Update<V, R>, t: Tree<V>, path: Path, m: map<string, R>, p: Path)
    requires PlainPath(path) && PlainPath(p) && KeysOk(t.kids)
    ensures Lookup(Walk(f, t, path, m), Join(path + p)) == Updated(f, ItemAt(t, p), Lookup(m, Join(path + p)))
    decreases t
  {
    var m0 := if t.item.Some? then Put(f, m, Join(path), t.item.value) else m;
    if p == [] {
      assert path + p == path;
      forall q | PlainPath(q) && q != [] ensures Join(path + q) != Join(path) {
        if Join(path + q) == Join(path) { JoinInjective(path + q, path); }
      }
      ForestElsewhere(f, t.kids, path, m0, Join(path));
    } else {
      if Join(path + p) == Join(path) { JoinInjective(path + p, path); }
      ForestUpdates(f, t.kids, path, m0, p);
    }
  }

  lemma {:induction false} ForestUpdates<V, R>(f: Update<V, R>, kids: Forest<V>, path: Path, m: map<string, R>, p: Path)
    requires PlainPath(path) && PlainPath(p) && p != [] && KeysOk(kids)
    ensures Lookup(WalkForest(f, kids, path, m), Join(path + p)) ==
            Updated(f, ItemIn(kids, p), Lookup(m, Join(path + p)))
    decreases kids
  {
    if kids.Kid? {
      var sub := path + [kids.key];
      var m1 := Walk(f, kids.tree, sub, m);
      ForestUpdates(f, kids.more, path, m1, p);
      if p[0] == kids.key {
        NoKeyNoItem(kids.more, p);
        assert sub + p[1..] == path + p;
        WalkUpdates(f, kids.tree, sub, m, p[1..]);
      } else {
        forall q | PlainPath(q) ensures Join(sub + q) != Join(path + p) { OtherBranch(path, kids.key, q, p); }
        WalkElsewhere(f, kids.tree, sub, m, Join(path + p));
      }
    }
  }

  lemma OtherBranch(path: Path, key: string, q: Path, p: Path)
    requires PlainPath(path) && Plain(key) && PlainPath(q) && PlainPath(p) && p != [] && p[0] != key
    ensures Join((path + [key]) + q) != Join(path + p)
  {
    assert ((path + [key]) + q)[|path|] == key && (path + p)[|path|] == p[0];
    if Join((path + [key]) + q) == Join(path + p) { JoinInjective((path + [key]) + q, path + p); }
  }

  // ----- the two walks and the rows between them

  /** The last stretch of a history is the active one; an empty name counts as none. */
  function Active(h: History, was: Option<string>): Option<string> {
    if h == [] then None
    else
      var last := h[|h| - 1];
      if last.Some? && last.value != "" then last else None
  }

  /** A zone without a daylight name repeats its standard name; without a standard name it has no row. */
  function NamedRow(l: Long): Option<Row> {
    if l.standard.None? || l.standard.value == "" then None
    else Some(Row(l.standard.value, if l.daylight.Some? then l.daylight.value else l.standard.value))
  }

  /** Each field the override gives replaces the base's; the rest is inherited. */
  function Merge(l: Long, base: Option<Row>): Option<Row> {
    var standard := if l.standard.Some? then l.standard else if base.Some? then Some(base.value.standard) else None;
    if standard.None? || standard.value == "" then None
    else
      var daylight :=
        if l.daylight.Some? then l.daylight.value
        else if base.Some? && base.value.daylight != "" then base.value.daylight
        else standard.value;
      Some(Row(standard.value, daylight))
  }

  /** A leaf with an empty history makes the walk fail. */
  predicate NoEmptyHistory(t: Tree<History>)
    decreases t
  {
    (t.item.Some? ==> t.item.value != []) && NoEmptyHistories(t.kids)
  }

  predicate NoEmptyHistories(f: Forest<History>)
    decreases f
  {
    f.Kid? ==> NoEmptyHistory(f.tree) && NoEmptyHistories(f.more)
  }

  /** The rows of the zones whose metazone has a standard name. */
  function RowsOf(zones: map<string, string>, names: map<string, Long>): map<string, Row> {
    map z | z in zones && zones[z] in names && NamedRow(names[zones[z]]).Some? :: NamedRow(names[zones[z]]).value
  }

  // ----- the rows field by field

  /** The entry of a zone is the name of the last stretch of its history, unless that has none. */
  lemma LastStretch(tree: Tree<History>, p: Path)
    requires PlainPath(p) && KeysOk(tree.kids)
    ensures
      var h := ItemAt(tree, p);
      Lookup(Walk(Active, tree, [], map[]), Join(p)) ==
        if h.Some? && h.value != [] && h.value[|h.value| - 1].Some? && h.value[|h.value| - 1].value != ""
        then h.value[|h.value| - 1] else None
  {
    assert [] + p == p;
    WalkUpdates(Active, tree, [], map[], p);
  }

  /** A zone has a row exactly when its metazone has a non-empty standard name. */
  lemma MetazoneRow(zones: map<string, string>, names: map<string, Long>, z: string)
    ensures z in RowsOf(zones, names) <==>
      z in zones && zones[z] in names && names[zones[z]].standard.Some? && names[zones[z]].standard.value != ""
    ensures z in RowsOf(zones, names) ==>
      var l, row := names[zones[z]], RowsOf(zones, names)[z];
      && l.standard == Some(row.standard)
      && row.daylight == if l.daylight.Some? then l.daylight.value else row.standard
  {
  }

  /** The standard name after an override: the override's, or else the one before. */
  ghost predicate StandardIs(name: string, l: Long, was: Option<Row>) {
    (l.standard == Some(name)) || (l.standard.None? && was.Some? && was.value.standard == name)
  }

  /**
   What an override does to a row: when there is a non-empty standard name to use, the
   row has it, and each field the override supplies; a daylight name it omits is the
   one before, or the standard name when there was none.  Otherwise nothing changes.
   */
  ghost predicate Overridden(l: Long, was: Option<Row>, now: Option<Row>) {
    && ((exists name :: name != "" && StandardIs(name, l, was)) ==>
        && now.Some? && now.value.standard != "" && StandardIs(now.value.standard, l, was)
        && (l.daylight.Some? ==> now.value.daylight == l.daylight.value)
        && (l.daylight.None? && was.Some? && was.value.daylight != "" ==> now.value.daylight == was.value.daylight)
        && (l.daylight.None? && (was.None? || was.value.daylight == "") ==> now.value.daylight == now.value.standard))
    && (!(exists name :: name != "" && StandardIs(name, l, was)) ==> now == was)
    && (now.Some? <==> was.Some? || (l.standard.Some? && l.standard.value != ""))
  }

  lemma MergeOverrides(l: Long, was: Option<Row>)
    ensures Overridden(l, was, Updated(Merge, Some(l), was))
  {
    var name := if l.standard.Some? then l.standard.value else if was.Some? then was.value.standard else "";
    assert (exists n :: n != "" && StandardIs(n, l, was)) <==> name != "" by {
      if name != "" { assert StandardIs(name, l, was); }
    }
  }

  /** The row under the name of a path, after the walk over the overrides. */
  lemma RowAfterOverrides(overrides: Tree<Long>, rows: map<string, Row>, p: Path)
    requires PlainPath(p) && KeysOk(overrides.kids)
    ensures
      var l, was, now := ItemAt(overrides, p), Lookup(rows, Join(p)), Lookup(Walk(Merge, overrides, [], rows), Join(p));
      if l.None? then now == was else Overridden(l.value, was, now)
  {
    assert [] + p == p;
    WalkUpdates(Merge, overrides, [], rows, p);
    var l := ItemAt(overrides, p);
    if l.Some? { MergeOverrides(l.value, Lookup(rows, Join(p))); }
  }

  /**
   The row a zone has from its history: there is one when the last stretch names a
   metazone with a non-empty standard name, and a missing daylight name repeats that.
   */
  ghost predicate FromHistory(h: Option<History>, names: map<string, Long>, row: Option<Row>) {
    if h.Some? && h.value != [] && h.value[|h.value| - 1].Some? && h.value[|h.value| - 1].value != "" &&
       h.value[|h.value| - 1].value in names
    then
      var l := names[h.value[|h.value| - 1].value];
      && (row.Some? <==> l.standard.Some? && l.standard.value != "")
      && (row.Some? ==> l.standard == Some(row.value.standard) &&
                        row.value.daylight == if l.daylight.Some? then l.daylight.value else row.value.standard)
    else row.None?
  }

  /** The row a zone has before the fan-out: its metazone's names, with its own overrides over them. */
  lemma ZoneNames(tree: Tree<History>, names: map<string, Long>, overrides: Tree<Long>, p: Path)
    requires PlainPath(p) && KeysOk(tree.kids) && KeysOk(overrides.kids)
    ensures
      var rows := RowsOf(Walk(Active, tree, [], map[]), names);
      var base, now := Lookup(rows, Join(p)), Lookup(Walk(Merge, overrides, [], rows), Join(p));
      var l := ItemAt(overrides, p);
      FromHistory(ItemAt(tree, p), names, base) && if l.None? then now == base else Overridden(l.value, base, now)
  {
    var zones := Walk(Active, tree, [], map[]);
    LastStretch(tree, p);
    MetazoneRow(zones, names, Join(p));
    RowAfterOverrides(overrides, RowsOf(zones, names), p);
    hide Walk, ItemAt, Join, RowsOf, Overridden;
    assert Lookup(zones, Join(p)).Some? <==> Join(p) in zones;
  }

  // ----- fanning out to aliases

  type Group = seq<string>

  /** The first name of a group that has a row. */
  function FirstNamed(rows: map<string, Row>, ids: Group): (r: Option<string>)
    ensures r.Some? ==> r.value in rows && r.value in ids
    ensures r.Some? ==> exists i :: 0 <= i < |ids| && ids[i] == r.value && forall j | 0 <= j < i :: ids[j] !in rows
    ensures r.None? ==> forall id | id in ids :: id !in rows
  {
    if ids == [] then None
    else if ids[0] in rows then Some(ids[0])
    else
      assert ids == [ids[0]] + ids[1..];
      FirstNamed(rows, ids[1..])
  }

  /** `setdefault` for every name of a group. */
  function WithDefaults(rows: map<string, Row>, ids: Group, row: Row): map<string, Row> {
    map k | k in rows.Keys + (set id | id in ids) :: if k in rows then rows[k] else row
  }

  function FanOne(rows: map<string, Row>, ids: Group): map<string, Row> {
    var n := FirstNamed(rows, ids);
    if n.None? then rows else WithDefaults(rows, ids, rows[n.value])
  }

  function FanAll(rows: map<string, Row>, groups: seq<Group>): map<string, Row>
    decreases |groups|
  {
    if groups == [] then rows else FanAll(FanOne(rows, groups[0]), groups[1..])
  }

  /** Whatever the groups are: rows are kept, and every new row is a copy of an old one. */
  lemma {:induction false} FanKeepsRows(rows: map<string, Row>, groups: seq<Group>)
    ensures forall k | k in rows :: Lookup(FanAll(rows, groups), k) == Some(rows[k])
    ensures forall k | k in FanAll(rows, groups) :: FanAll(rows, groups)[k] in rows.Values
    ensures forall k | k in FanAll(rows, groups) && k !in rows :: exists g :: g in groups && k in g
    decreases |groups|
  {
    if groups != [] {
      var next := FanOne(rows, groups[0]);
      FanKeepsRows(next, groups[1..]);
      assert groups == [groups[0]] + groups[1..];
      forall k | k in FanAll(rows, groups) ensures FanAll(rows, groups)[k] in rows.Values {
        assert FanAll(rows, groups)[k] in next.Values;
        assert next.Values <= rows.Values;
      }
      forall k | k in FanAll(rows, groups) && k !in rows ensures exists g :: g in groups && k in g {
        if k in next { assert groups[0] in groups && k in groups[0]; }
      }
    }
  }

  ghost predicate Apart(g: Group, h: Group) {
    forall id | id in g :: id !in h
  }

  ghost predicate Disjoint(groups: seq<Group>) {
    forall i, j | 0 <= i < j < |groups| :: Apart(groups[i], groups[j])
  }

  /** The first group a name is in. */
  function GroupOf(groups: seq<Group>, k: string): (r: Option<Group>)
    ensures r.Some? ==> r.value in groups && k in r.value
    ensures r.None? ==> forall g | g in groups :: k !in g
  {
    if groups == [] then None
    else if k in groups[0] then Some(groups[0])
    else
      assert groups == [groups[0]] + groups[1..];
      GroupOf(groups[1..], k)
  }

  /** The row a name gets: its own, or that of the first named member of its group. */
  function Expected(rows: map<string, Row>, groups: seq<Group>, k: string): Option<Row> {
    if k in rows then Some(rows[k])
    else
      var g := GroupOf(groups, k);
      if g.None? then None
      else
        var n := FirstNamed(rows, g.value);
        if n.None? then None else Some(rows[n.value])
  }

  lemma {:induction false} FirstNamedAgree(r: map<string, Row>, s: map<string, Row>, ids: Group)
    requires forall id | id in ids :: Lookup(r, id) == Lookup(s, id)
    ensures FirstNamed(r, ids) == FirstNamed(s, ids)
  {
    if ids != [] {
      assert ids == [ids[0]] + ids[1..];
      assert Lookup(r, ids[0]) == Lookup(s, ids[0]);
      FirstNamedAgree(r, s, ids[1..]);
    }
  }

  lemma DisjointTail(groups: seq<Group>)
    requires Disjoint(groups) && groups != []
    ensures Disjoint(groups[1..]) && forall h | h in groups[1..] :: Apart(groups[0], h)
  {
    forall i, j | 0 <= i < j < |groups[1..]| ensures Apart(groups[1..][i], groups[1..][j]) {
      assert Apart(groups[i + 1], groups[j + 1]);
    }
    forall h | h in groups[1..] ensures Apart(groups[0], h) {
      var j :| 0 <= j < |groups[1..]| && groups[1..][j] == h;
      assert Apart(groups[0], groups[j + 1]);
    }
  }

  /** Every alias of a group with a named member is covered, and nothing else is added. */
  lemma {:induction false} FanOutCovers(rows: map<string, Row>, groups: seq<Group>, k: string)
    requires Disjoint(groups)
    ensures Lookup(FanAll(rows, groups), k) == Expected(rows, groups, k)
    decreases |groups|
  {
    if groups != [] {
      var g, next := groups[0], FanOne(rows, groups[0]);
      DisjointTail(groups);
      FanOutCovers(next, groups[1..], k);
      if k in g {
        NotInLater(groups, k);
      } else {
        assert Lookup(next, k) == Lookup(rows, k);
        var h := GroupOf(groups[1..], k);
        if h.Some? {
          assert Apart(g, h.value);
          forall id | id in h.value ensures Lookup(rows, id) == Lookup(next, id) {}
          FirstNamedAgree(rows, next, h.value);
        }
      }
    }
  }

  lemma NotInLater(groups: seq<Group>, k: string)
    requires Disjoint(groups) && groups != [] && k in groups[0]
    ensures GroupOf(groups[1..], k) == None
  {
    DisjointTail(groups);
    forall h | h in groups[1..] ensures k !in h { assert Apart(groups[0], h); }
  }

  lemma GroupUnique(groups: seq<Group>, g: Group, k: string)
    requires Disjoint(groups) && g in groups && k in g
    ensures GroupOf(groups, k) == Some(g)
  {
    forall i, j | 0 <= i < j < |groups| ensures !(k in groups[i] && k in groups[j]) {
      assert Apart(groups[i], groups[j]);
    }
    var h := GroupOf(groups, k).value;
    var i :| 0 <= i < |groups| && groups[i] == g;
    var j :| 0 <= j < |groups| && groups[j] == h;
    assert i == j;
  }

  /** The order of disjoint groups does not matter. */
  lemma FanOutOrderIndependent(rows: map<string, Row>, groups: seq<Group>, others: seq<Group>)
    requires Disjoint(groups) && Disjoint(others)
    requires forall g :: g in groups <==> g in others
    ensures FanAll(rows, groups) == FanAll(rows, others)
  {
    forall k ensures Lookup(FanAll(rows, groups), k) == Lookup(FanAll(rows, others), k) {
      FanOutCovers(rows, groups, k);
      FanOutCovers(rows, others, k);
      var g := GroupOf(groups, k);
      if g.Some? { GroupUnique(others, g.value, k); }
    }
    SameLookups(FanAll(rows, groups), FanAll(rows, others));
  }

  lemma SameLookups(r: map<string, Row>, s: map<string, Row>)
    requires forall k :: Lookup(r, k) == Lookup(s, k)
    ensures r == s
  {
    forall k ensures k in r <==> k in s { assert Lookup(r, k) == Lookup(s, k); }
    forall k | k in r ensures r[k] == s[k] { assert Lookup(r, k) == Lookup(s, k); }
  }

  /** Fanning out twice adds nothing to fanning out once. */
  lemma FanOutIdempotent(rows: map<string, Row>, groups: seq<Group>)
    requires Disjoint(groups)
    ensures FanAll(FanAll(rows, groups), groups) == FanAll(rows, groups)
  {
    var once := FanAll(rows, groups);
    forall k ensures Lookup(FanAll(once, groups), k) == Lookup(once, k) {
      FanOutCovers(once, groups, k);
      FanOutCovers(rows, groups, k);
      var g := GroupOf(groups, k);
      if k !in once && g.Some? { NoNameAppears(rows, groups, g.value); }
    }
    SameLookups(FanAll(once, groups), once);
  }

  lemma NoNameAppears(rows: map<string, Row>, groups: seq<Group>, g: Group)
    requires Disjoint(groups) && g in groups && FirstNamed(rows, g).None?
    ensures FirstNamed(FanAll(rows, groups), g).None?
  {
    var n := FirstNamed(FanAll(rows, groups), g);
    if n.Some? {
      FanOutCovers(rows, groups, n.value);
      GroupUnique(groups, g, n.value);
    }
  }

  /**
   Two groups that share a name, each with a name of its own: rows that name some of the
   second and none of the first make the order matter, and a second pass add rows.
   */
  lemma OverlapMatters(rows: map<string, Row>, g: Group, h: Group)
    requires (exists x :: x in g && x in h) && (exists a :: a in g && a !in h)
    requires (exists c :: c in h && c in rows) && forall id | id in g :: id !in rows
    ensures FanAll(rows, [g, h]) != FanAll(rows, [h, g])
    ensures FanAll(FanAll(rows, [g, h]), [g, h]) != FanAll(rows, [g, h])
  {
    var x: string :| x in g && x in h;
    var a: string :| a in g && a !in h;
    var mid := FanOne(rows, h);
    FanInTurn(rows, g, h);
    FanInTurn(rows, h, g);
    FanInTurn(mid, g, h);
    FanNames(rows, g, a);
    FanNames(rows, h, a);
    FanNames(rows, h, x);
    FanNames(mid, g, a);
    FanNames(FanOne(mid, g), h, a);
    hide FanAll, FanOne;
    assert a !in mid && a in FanOne(mid, g);
  }

  /** A group gives a name a row when it has the name and some row to copy. */
  lemma FanNames(rows: map<string, Row>, g: Group, k: string)
    ensures k in FanOne(rows, g) <==> k in rows || (k in g && exists id :: id in g && id in rows)
    ensures (forall id | id in g :: id !in rows) ==> FanOne(rows, g) == rows
  {
  }

  lemma FanInTurn(rows: map<string, Row>, g: Group, h: Group)
    ensures FanAll(rows, [g, h]) == FanOne(FanOne(rows, g), h)
  {
    hide FanOne;
    assert [g, h][1..] == [h] && [h][1..] == [];
    assert FanAll(rows, [g, h]) == FanAll(FanOne(rows, g), [h]);
    assert FanAll(FanOne(rows, g), [h]) == FanAll(FanOne(FanOne(rows, g), h), []);
  }

  // ----- the dictionaries

  /** The dictionaries that the walks and loops fill in place. */
  class NameTable {
    var zones: map<string, string>
    var rows: map<string, Row>

    constructor ()
      ensures zones == map[] && rows == map[]
    {
      zones, rows := map[], map[];
    }

    /** `walk_zones`; false stands for the IndexError of an empty history. */
    method WalkZones(node: Tree<History>, path: Path) returns (ok: bool)
      modifies this`zones
      ensures ok <==> NoEmptyHistory(node)
      ensures ok ==> zones == Walk(Active, node, path, old(zones))
      decreases node
    {
      if node.item.Some? {
        var h := node.item.value;
        if h == [] { return false; }
        var last := h[|h| - 1];
        if last.Some? && last.value != "" { zones := zones[Join(path) := last.value]; }
      }
      ok := WalkZonesIn(node.kids, path);
    }

    /** The loop over the children. */
    method WalkZonesIn(kids: Forest<History>, path: Path) returns (ok: bool)
      modifies this`zones
      ensures ok <==> NoEmptyHistories(kids)
      ensures ok ==> zones == WalkForest(Active, kids, path, old(zones))
      decreases kids
    {
      match kids
      case NoKids => return true;
      case Kid(k, t, more) =>
        ok := WalkZones(t, path + [k]);
        if !ok { return; }
        ok := WalkZonesIn(more, path);
    }

    /** The rows of the zones whose metazone has a standard name. */
    method NameZones(names: map<string, Long>)
      requires rows == map[]
      modifies this`rows
      ensures rows == RowsOf(zones, names)
    {
      var todo := zones.Keys;
      while todo != {}
        invariant todo <= zones.Keys
        invariant forall z | z in rows :: z in RowsOf(zones, names) && rows[z] == RowsOf(zones, names)[z]
        invariant forall z | z in RowsOf(zones, names) && z !in todo :: z in rows
        decreases |todo|
      {
        var zone :| zone in todo;
        todo := todo - {zone};
        var mzone := zones[zone];
        if mzone !in names { continue; }
        var long := names[mzone];
        if long.standard.None? || long.standard.value == "" { continue; }
        var daylight := if long.daylight.Some? then long.daylight.value else long.standard.value;
        rows := rows[zone := Row(long.standard.value, daylight)];
      }
    }

    /** `walk_overrides` */
    method WalkOverrides(node: Tree<Long>, path: Path)
      modifies this`rows
      ensures rows == Walk(Merge, node, path, old(rows))
      decreases node
    {
      if node.item.Some? {
        var long, zone := node.item.value, Join(path);
        var base := Lookup(rows, zone);
        var standard := if base.Some? then Some(base.value.standard) else None;
        if long.standard.Some? { standard := long.standard; }
        if standard.Some? && standard.value != "" {
          var daylight := if base.Some? && base.value.daylight != "" then base.value.daylight else standard.value;
          if long.daylight.Some? { daylight := long.daylight.value; }
          rows := rows[zone := Row(standard.value, daylight)];
        }
      }
      WalkOverridesIn(node.kids, path);
    }

    method WalkOverridesIn(kids: Forest<Long>, path: Path)
      modifies this`rows
      ensures rows == WalkForest(Merge, kids, path, old(rows))
      decreases kids
    {
      match kids
      case NoKids =>
      case Kid(k, t, more) =>
        WalkOverrides(t, path + [k]);
        WalkOverridesIn(more, path);
    }

    /** The call of `walk_overrides` at the root: every zone's row is overridden by the item at its path. */
    method ApplyOverrides(node: Tree<Long>)
      requires KeysOk(node.kids)
      modifies this`rows
      ensures forall p | PlainPath(p) ::
        var l, was, now := ItemAt(node, p), Lookup(old(rows), Join(p)), Lookup(rows, Join(p));
        if l.None? then now == was else Overridden(l.value, was, now)
    {
      forall p | PlainPath(p)
        ensures var l, was, now := ItemAt(node, p), Lookup(rows, Join(p)), Lookup(Walk(Merge, node, [], rows), Join(p));
                if l.None? then now == was else Overridden(l.value, was, now)
      {
        RowAfterOverrides(node, rows, p);
      }
      WalkOverrides(node, []);
    }

    /** The alias loop of `main`. */
    method FanOut(groups: seq<Group>)
      modifies this`rows
      ensures rows == FanAll(old(rows), groups)
    {
      var i := 0;
      assert groups[0..] == groups;
      while i < |groups|
        invariant 0 <= i <= |groups|
        invariant FanAll(rows, groups[i..]) == FanAll(old(rows), groups)
        decreases |groups| - i
      {
        var ids := groups[i];
        assert groups[i..][1..] == groups[i + 1..];
        FanOutGroup(ids);
        i := i + 1;
      }
    }

    method FanOutGroup(ids: Group)
      modifies this`rows
      ensures rows == FanOne(old(rows), ids)
    {
      var named := FirstNamed(rows, ids);
      if named.None? { return; }
      for j := 0 to |ids|
        invariant forall k | k in old(rows) :: Lookup(rows, k) == Some(old(rows)[k])
        invariant forall k | k in rows && k !in old(rows) :: k in ids && rows[k] == old(rows)[named.value]
        invariant forall i | 0 <= i < j :: ids[i] in rows
      {
        if ids[j] !in rows { rows := rows[ids[j] := rows[named.value]]; }
      }
      assert forall k :: k in rows <==> k in old(rows) || k in ids;
    }

    /** The lines of the table, in the order of `sorted(rows)`. */
    method Emit() returns (lines: seq<(string, string, string)>)
      ensures forall i, j | 0 <= i < j < |lines| :: Before(lines[i].0, lines[j].0)
      ensures forall k :: k in rows <==> exists i :: 0 <= i < |lines| && lines[i].0 == k
      ensures forall i | 0 <= i < |lines| :: Lookup(rows, lines[i].0) == Some(Row(lines[i].1, lines[i].2))
    {
      var keys := KeyList(rows.Keys);
      var zones := Sort(keys);
      lines := [];
      for i := 0 to |zones|
        invariant |lines| == i && forall j | 0 <= j < i ::
          lines[j].0 == zones[j] && zones[j] in rows && rows[zones[j]] == Row(lines[j].1, lines[j].2)
      {
        var row := rows[zones[i]];
        lines := lines + [(zones[i], row.standard, row.daylight)];
      }
      forall k ensures k in rows <==> exists i :: 0 <= i < |lines| && lines[i].0 == k {
        assert k in rows <==> k in zones;
        if k in zones {
          var i :| 0 <= i < |zones| && zones[i] == k;
          assert lines[i].0 == k;
        }
      }
    }
  }

  /** The keys of a dictionary in some order. */
  method KeyList(keys: set<string>) returns (s: seq<string>)
    ensures Distinct(s) && forall k :: k in s <==> k in keys
  {
    s := [];
    var todo := keys;
    while todo != {}
      invariant todo <= keys && Distinct(s) && forall k :: k in s <==> k in keys && k !in todo
      decreases |todo|
    {
      var k :| k in todo;
      todo := todo - {k};
      s := s + [k];
    }
  }
}
