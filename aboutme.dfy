/**
 * The `aboutme` table of `cogs/aboutme.py` and what the cog does with it.
 * A row is keyed by `(user_id, info)` (the table's primary key) and holds a
 * value, NULL until the user writes one, and a toggle, 1 when the field is
 * shown. The four fields every profile has are seeded on demand; the
 * configure view splits them by toggle and flips one toggle per selection;
 * the modal and the profile embed show the toggled-on fields in a fixed order
 * with the age computed from the birthday in front of it.
 * The order in which SQLite returns the rows of a `SELECT` is not fixed; it
 * is a parameter `order` listing the user's info names.
 */
module Aboutme {
  import opened Options
  import opened Text
  import opened AboutDates

  const Name: string := "name"
  const Birthday: string := "birthday"
  const Country: string := "country"
  const Hobbies: string := "hobbies"

  /** The fields of a profile, in display order */
  const Infos: seq<string> := [Name, Birthday, Country, Hobbies]

  datatype Entry = Entry(value: Option<string>, toggle: int)

  type Table = map<(int, string), Entry>

  /** `check_info(info, user_id)`: the row exists (its `user_id` is never NULL). */
  predicate CheckInfo(t: Table, info: string, userId: int) {
    (userId, info) in t
  }

  /** Every toggle is 0 or 1, as everything the cog writes is. */
  predicate BitToggles(t: Table) {
    forall k :: k in t ==> t[k].toggle == 0 || t[k].toggle == 1
  }

  /**
   * The table after the seeding loop over `names`: an `INSERT` of
   * `(user_id, info)`, which takes the defaults NULL and 1, for each name
   * the user has no row for.
   */
  function SeededWith(t: Table, user: int, names: seq<string>): (r: Table)
    ensures forall k :: k in t ==> k in r && r[k] == t[k]
    ensures forall i :: i in names ==> (user, i) in r
    ensures forall k :: k in r && k !in t ==> k.0 == user && k.1 in names && r[k] == Entry(None, 1)
    ensures BitToggles(t) ==> BitToggles(r)
  {
    map k | k in t.Keys + (set i | i in names :: (user, i)) :: if k in t then t[k] else Entry(None, 1)
  }

  /** A user's rows after seeding all four fields */
  function Seeded(t: Table, user: int): Table {
    SeededWith(t, user, Infos)
  }

  /** Seeding twice is seeding once. */
  lemma SeededIdempotent(t: Table, user: int)
    ensures Seeded(Seeded(t, user), user) == Seeded(t, user)
  {
    var s := Seeded(t, user);
    assert Seeded(s, user).Keys == s.Keys;
  }

  lemma SeedStep(t: Table, user: int, names: seq<string>, info: string)
    ensures SeededWith(t, user, names + [info]) ==
      var s := SeededWith(t, user, names);
      if (user, info) in s then s else s[(user, info) := Entry(None, 1)]
  {
    var a := SeededWith(t, user, names + [info]);
    var s := SeededWith(t, user, names);
    var b := if (user, info) in s then s else s[(user, info) := Entry(None, 1)];
    assert forall i :: i in names + [info] <==> i in names || i == info;
    assert a.Keys == b.Keys;
  }

  /** The seeding of `Social.on_ready`: every listed user, one after the other */
  function SeededAll(t: Table, users: seq<int>): Table
    decreases |users|
  {
    if users == [] then t else Seeded(SeededAll(t, users[..|users| - 1]), users[|users| - 1])
  }

  /**
   * After seeding a list of users every one of them has all four fields;
   * rows that existed are untouched and every added row is a NULL, toggled-on
   * field of a listed user.
   */
  lemma {:induction false} SeededAllCovers(t: Table, users: seq<int>)
    ensures var r := SeededAll(t, users);
      && (forall u, i :: u in users && i in Infos ==> (u, i) in r)
      && (forall k :: k in t ==> k in r && r[k] == t[k])
      && (forall k :: k in r && k !in t ==> k.0 in users && k.1 in Infos && r[k] == Entry(None, 1))
    decreases |users|
  {
    if users != [] {
      var init := users[..|users| - 1];
      SeededAllCovers(t, init);
      assert forall u :: u in users ==> u in init || u == users[|users| - 1];
    }
  }

  /** `UPDATE aboutme SET toggle = bit WHERE user_id = user AND info = info`: no row, no change */
  function WithToggle(t: Table, user: int, info: string, bit: int): Table {
    if (user, info) in t then t[(user, info) := t[(user, info)].(toggle := bit)] else t
  }

  /** `UPDATE aboutme SET value = v WHERE info = info AND user_id = user` */
  function WithValue(t: Table, user: int, info: string, v: Option<string>): Table {
    if (user, info) in t then t[(user, info) := t[(user, info)].(value := v)] else t
  }

  /** The field is shown: its row exists with toggle 1. */
  predicate Visible(t: Table, user: int, info: string) {
    (user, info) in t && t[(user, info)].toggle == 1
  }

  /**
   * `SELECT info FROM aboutme WHERE user_id = user AND toggle = bit`, the
   * rows arriving in `order`
   */
  function Select(t: Table, user: int, order: seq<string>, bit: int): (r: seq<string>)
    ensures forall i :: i in r <==> i in order && (user, i) in t && t[(user, i)].toggle == bit
    decreases |order|
  {
    if order == [] then []
    else
      var i := order[|order| - 1];
      var init := Select(t, user, order[..|order| - 1], bit);
      assert forall x :: x in order <==> x in order[..|order| - 1] || x == i;
      if (user, i) in t && t[(user, i)].toggle == bit then init + [i] else init
  }

  /** `order` is what the engine returns for the user: each of the user's info names, once. */
  ghost predicate UserOrder(t: Table, user: int, order: seq<string>) {
    && (forall i :: i in order <==> (user, i) in t)
    && (forall a, b :: 0 <= a < b < |order| ==> order[a] != order[b])
  }

  /**
   * `remops` and `addops` split the user's fields: each one is in exactly one
   * of them, by its toggle, and together they are as long as the user's rows.
   */
  lemma {:induction false} SelectPartitions(t: Table, user: int, order: seq<string>)
    requires BitToggles(t)
    requires forall i :: i in order ==> (user, i) in t
    ensures |Select(t, user, order, 1)| + |Select(t, user, order, 0)| == |order|
    ensures forall i :: i in order ==> (i in Select(t, user, order, 1) <==> i !in Select(t, user, order, 0))
    decreases |order|
  {
    if order != [] {
      var init := order[..|order| - 1];
      assert forall x :: x in init ==> x in order;
      SelectPartitions(t, user, init);
    }
  }

  /**
   * A selection flips exactly one field: after setting the toggle of an
   * existing row to `bit`, that field is selected by `bit` and not by the
   * other value, and every other field stays where it was.
   */
  lemma FlipMovesOne(t: Table, user: int, order: seq<string>, info: string, bit: int)
    requires (user, info) in t && info in order
    requires bit == 0 || bit == 1
    ensures var u := WithToggle(t, user, info, bit);
      && info in Select(u, user, order, bit)
      && info !in Select(u, user, order, 1 - bit)
      && (forall x :: x != info ==>
        (x in Select(u, user, order, 0) <==> x in Select(t, user, order, 0)) &&
        (x in Select(u, user, order, 1) <==> x in Select(t, user, order, 1)))
  {
  }

  /** `[option for option in options if option.value != x]` */
  function Without(options: seq<string>, x: string): (r: seq<string>)
    ensures x !in r
    ensures forall y :: y != x ==> (y in r <==> y in options)
    ensures |r| <= |options|
    ensures x !in options ==> r == options
    decreases |options|
  {
    if options == [] then []
    else if options[0] == x then Without(options[1..], x)
    else [options[0]] + Without(options[1..], x)
  }

  /** The database both the views and the commands work on */
  class AboutDb {
    var rows: Table

    constructor (existing: Table)
      ensures rows == existing
    {
      rows := existing;
    }

    /** The seeding loop for one user (cogs/aboutme.py:34-36 and its copies) */
    method SeedUser(user: int)
      modifies this
      ensures rows == Seeded(old(rows), user)
    {
      var k := 0;
      while k < |Infos|
        invariant 0 <= k <= |Infos|
        invariant rows == SeededWith(old(rows), user, Infos[..k])
      {
        var info := Infos[k];
        SeedStep(old(rows), user, Infos[..k], info);
        if !CheckInfo(rows, info, user) {
          rows := rows[(user, info) := Entry(None, 1)];
        }
        assert Infos[..k + 1] == Infos[..k] + [info];
        k := k + 1;
      }
      assert Infos[..k] == Infos;
    }

    /** `Social.on_ready`: seed every user the bot can see */
    method SeedUsers(users: seq<int>)
      modifies this
      ensures rows == SeededAll(old(rows), users)
    {
      var j := 0;
      while j < |users|
        invariant 0 <= j <= |users|
        invariant rows == SeededAll(old(rows), users[..j])
      {
        SeedUser(users[j]);
        assert users[..j + 1][..j] == users[..j];
        j := j + 1;
      }
      assert users[..j] == users;
    }

    method SetToggle(user: int, info: string, bit: int)
      modifies this
      ensures rows == WithToggle(old(rows), user, info, bit)
    {
      if (user, info) in rows {
        rows := rows[(user, info) := rows[(user, info)].(toggle := bit)];
      }
    }

    method SetValue(user: int, info: string, v: Option<string>)
      modifies this
      ensures rows == WithValue(old(rows), user, info, v)
    {
      if (user, info) in rows {
        rows := rows[(user, info) := rows[(user, info)].(value := v)];
      }
    }
  }

  /**
   * `ConfigAboutme`: the configure view. `remops` are the shown fields,
   * `addops` the hidden ones; the option lists start as copies and a select
   * is disabled when it would offer nothing.
   */
  class ConfigView {
    const user: int
    var remops: seq<string>
    var addops: seq<string>
    var aoptions: seq<string>
    var roptions: seq<string>
    var addDisabled: bool
    var removeDisabled: bool

    constructor (db: AboutDb, userId: int, order: seq<string>)
      modifies db
      requires UserOrder(Seeded(db.rows, userId), userId, order)
      ensures db.rows == Seeded(old(db.rows), userId)
      ensures user == userId
      ensures remops == Select(db.rows, userId, order, 1)
      ensures addops == Select(db.rows, userId, order, 0)
      ensures aoptions == addops && roptions == remops
      ensures addDisabled <==> addops == []
      ensures removeDisabled <==> remops == []
    {
      db.SeedUser(userId);
      user := userId;
      var rem := Select(db.rows, userId, order, 1);
      var add := Select(db.rows, userId, order, 0);
      remops, addops := rem, add;
      aoptions, roptions := add, rem;
      addDisabled := add == [];
      removeDisabled := rem == [];
    }

    /**
     * `addselect`: enable the select, show the selected field, drop it from
     * the add options and answer with a fresh view of the updated table.
     */
    method AddSelect(db: AboutDb, selval: string, order: seq<string>) returns (next: ConfigView)
      modifies this, db
      requires UserOrder(Seeded(db.rows, user), user, order)
      ensures db.rows == Seeded(WithToggle(old(db.rows), user, selval, 1), user)
      ensures aoptions == Without(old(aoptions), selval) && !addDisabled
      ensures roptions == old(roptions) && removeDisabled == old(removeDisabled)
      ensures remops == old(remops) && addops == old(addops)
      ensures fresh(next) && next.user == user
      ensures next.remops == Select(db.rows, user, order, 1)
      ensures next.addops == Select(db.rows, user, order, 0)
      ensures next.aoptions == next.addops && next.roptions == next.remops
      ensures next.addDisabled <==> next.addops == []
      ensures next.removeDisabled <==> next.remops == []
    {
      addDisabled := false;
      db.SetToggle(user, selval, 1);
      aoptions := Without(aoptions, selval);
      assert UserOrder(Seeded(db.rows, user), user, order) by {
        assert db.rows.Keys == old(db.rows).Keys;
        assert Seeded(db.rows, user).Keys == Seeded(old(db.rows), user).Keys;
      }
      next := new ConfigView(db, user, order);
    }

    /** `removeselect`: enable the select and hide the selected field, likewise */
    method RemoveSelect(db: AboutDb, selval: string, order: seq<string>) returns (next: ConfigView)
      modifies this, db
      requires UserOrder(Seeded(db.rows, user), user, order)
      ensures db.rows == Seeded(WithToggle(old(db.rows), user, selval, 0), user)
      ensures roptions == Without(old(roptions), selval) && !removeDisabled
      ensures aoptions == old(aoptions) && addDisabled == old(addDisabled)
      ensures remops == old(remops) && addops == old(addops)
      ensures fresh(next) && next.user == user
      ensures next.remops == Select(db.rows, user, order, 1)
      ensures next.addops == Select(db.rows, user, order, 0)
      ensures next.aoptions == next.addops && next.roptions == next.remops
      ensures next.addDisabled <==> next.addops == []
      ensures next.removeDisabled <==> next.remops == []
    {
      removeDisabled := false;
      db.SetToggle(user, selval, 0);
      roptions := Without(roptions, selval);
      assert UserOrder(Seeded(db.rows, user), user, order) by {
        assert db.rows.Keys == old(db.rows).Keys;
        assert Seeded(db.rows, user).Keys == Seeded(old(db.rows), user).Keys;
      }
      next := new ConfigView(db, user, order);
    }
  }

  /** A profile field as the modal and the embed carry it: its name and value */
  type Pair = (string, Option<string>)

  /**
   * `SELECT info, value FROM aboutme WHERE user_id = user AND toggle = 1`,
   * the rows arriving in `order`
   */
  function SelectRows(t: Table, user: int, order: seq<string>): (rows: seq<Pair>)
    decreases |order|
  {
    if order == [] then []
    else
      var i := order[|order| - 1];
      var init := SelectRows(t, user, order[..|order| - 1]);
      if Visible(t, user, i) then init + [(i, t[(user, i)].value)] else init
  }

  /** The `info_dict[info] = value` loop: a later row for the same info overwrites an earlier one */
  function RowsToMap(rows: seq<Pair>): map<string, Option<string>>
    decreases |rows|
  {
    if rows == [] then map[]
    else RowsToMap(rows[..|rows| - 1])[rows[|rows| - 1].0 := rows[|rows| - 1].1]
  }

  /** `OrderedDict((info, d[info]) for info in names if info in d)` */
  function OrderFields(d: map<string, Option<string>>, names: seq<string>): seq<Pair>
    decreases |names|
  {
    if names == [] then []
    else
      var i := names[|names| - 1];
      OrderFields(d, names[..|names| - 1]) + (if i in d then [(i, d[i])] else [])
  }

  /**
   * The shown fields of a profile with their values, in the order of
   * `names`: every visible field of `names` is there, and nothing else.
   */
  function Shown(t: Table, user: int, names: seq<string>): (r: seq<Pair>)
    ensures |r| <= |names|
    ensures forall j :: 0 <= j < |r| ==>
      r[j].0 in names && Visible(t, user, r[j].0) && r[j].1 == t[(user, r[j].0)].value
    ensures forall i :: i in names && Visible(t, user, i) ==> exists j :: 0 <= j < |r| && r[j].0 == i
    decreases |names|
  {
    if names == [] then []
    else
      var n := |names| - 1;
      var i := names[n];
      var init := Shown(t, user, names[..n]);
      var last := if Visible(t, user, i) then [(i, t[(user, i)].value)] else [];
      var r := init + last;
      assert forall x :: x in names[..n] ==> x in names;
      assert forall x :: x in names ==> x in names[..n] || x == i by {
        assert names == names[..n] + [i];
      }
      assert forall j :: 0 <= j < |init| ==> r[j] == init[j];
      assert Visible(t, user, i) ==> r[|init|].0 == i;
      r
  }

  /** The shown fields of a list of names are those of its parts, one after the other. */
  lemma {:induction false} ShownAppend(t: Table, user: int, a: seq<string>, b: seq<string>)
    ensures Shown(t, user, a + b) == Shown(t, user, a) + Shown(t, user, b)
    decreases |b|
  {
    if b == [] {
      assert a + b == a;
    } else {
      var init := b[..|b| - 1];
      assert (a + b)[..|a + b| - 1] == a + init;
      assert (a + b)[|a + b| - 1] == b[|b| - 1];
      ShownAppend(t, user, a, init);
    }
  }

  /** A single name is shown, with its stored value, exactly when it is visible. */
  lemma ShownOne(t: Table, user: int, i: string)
    ensures Shown(t, user, [i]) == if Visible(t, user, i) then [(i, t[(user, i)].value)] else []
  {
    assert [i][..0] == [];
  }

  /** The shown fields as a dictionary */
  ghost function VisibleMap(t: Table, user: int, order: seq<string>): map<string, Option<string>> {
    map i | i in order && Visible(t, user, i) :: t[(user, i)].value
  }

  lemma {:induction false} RowsAreVisible(t: Table, user: int, order: seq<string>)
    ensures RowsToMap(SelectRows(t, user, order)) == VisibleMap(t, user, order)
    decreases |order|
  {
    if order != [] {
      var init := order[..|order| - 1];
      var i := order[|order| - 1];
      RowsAreVisible(t, user, init);
      var rows := SelectRows(t, user, init);
      if Visible(t, user, i) {
        var ext := rows + [(i, t[(user, i)].value)];
        assert ext[..|ext| - 1] == rows;
      }
      assert order == init + [i];
      VisibleMapSnoc(t, user, init, i);
    }
  }

  /** One more name adds its row to the shown fields when it is shown. */
  lemma VisibleMapSnoc(t: Table, user: int, init: seq<string>, i: string)
    ensures VisibleMap(t, user, init + [i]) ==
      if Visible(t, user, i) then VisibleMap(t, user, init)[i := t[(user, i)].value]
      else VisibleMap(t, user, init)
  {
    var a := VisibleMap(t, user, init + [i]);
    var b := if Visible(t, user, i) then VisibleMap(t, user, init)[i := t[(user, i)].value]
      else VisibleMap(t, user, init);
    assert forall x :: x in init + [i] <==> x in init || x == i;
    assert a.Keys == b.Keys;
  }

  lemma {:induction false} OrderVisible(t: Table, user: int, order: seq<string>, names: seq<string>)
    requires forall i :: Visible(t, user, i) ==> i in order
    ensures OrderFields(VisibleMap(t, user, order), names) == Shown(t, user, names)
    decreases |names|
  {
    if names != [] {
      OrderVisible(t, user, order, names[..|names| - 1]);
    }
  }

  /**
   * Displayed fields are exactly the toggled-on ones in the order name,
   * birthday, country, hobbies, whatever order the rows arrive in.
   */
  lemma RowOrderIrrelevant(t: Table, user: int, order: seq<string>)
    requires forall i :: Visible(t, user, i) ==> i in order
    ensures OrderFields(RowsToMap(SelectRows(t, user, order)), Infos) == Shown(t, user, Infos)
  {
    RowsAreVisible(t, user, order);
    OrderVisible(t, user, order, Infos);
  }

  /** The marker appended to the birthday's label in the modal */
  const DateHint: string := "(dd.mm.yyyy)"

  /** The label of a field's text input */
  function LabelFor(info: string): string {
    if info == Birthday then info + DateHint else info
  }

  /** What the callback files a text input under: `birthday` labels lose the marker. */
  function KeyOfLabel(caption: string): string {
    if Contains(caption, Birthday) then ReplaceAll(caption, DateHint, "") else caption
  }

  /** The marker added to the birthday's label comes off again; other labels are their field. */
  lemma LabelRoundTrip(info: string)
    requires info in Infos
    ensures KeyOfLabel(LabelFor(info)) == info
  {
    if info == Birthday {
      var caption := Birthday + DateHint;
      assert OccursAt(caption, Birthday, 0) by {
        assert caption[..|Birthday|] == Birthday;
      }
      assert forall k :: 0 <= k < |Birthday| ==> Birthday[k] != DateHint[0];
      ReplaceTrailing(Birthday, DateHint, "");
      assert Birthday + "" == Birthday;
    } else {
      ShorterNotContains(info, Birthday);
    }
  }

  /** The text inputs of the modal for `fields` */
  function ModalItems(fields: seq<Pair>): (items: seq<Pair>)
    ensures |items| == |fields|
    ensures forall j :: 0 <= j < |fields| ==> items[j] == (LabelFor(fields[j].0), fields[j].1)
  {
    seq(|fields|, j requires 0 <= j < |fields| => (LabelFor(fields[j].0), fields[j].1))
  }

  /** Each input of the modal is filed under its own field again, with that field's value. */
  lemma ModalLabelsRoundTrip(fields: seq<Pair>)
    requires forall j :: 0 <= j < |fields| ==> fields[j].0 in Infos
    ensures forall j :: 0 <= j < |fields| ==>
      KeyOfLabel(ModalItems(fields)[j].0) == fields[j].0 && ModalItems(fields)[j].1 == fields[j].1
  {
    forall j | 0 <= j < |fields|
      ensures KeyOfLabel(ModalItems(fields)[j].0) == fields[j].0
    {
      LabelRoundTrip(fields[j].0);
    }
  }

  /** `values[key] = value` on a dict that keeps insertion order */
  function Put(d: seq<Pair>, k: string, v: Option<string>): (r: seq<Pair>)
    decreases |d|
  {
    if d == [] then [(k, v)]
    else if d[0].0 == k then [(k, v)] + d[1..]
    else [d[0]] + Put(d[1..], k, v)
  }

  /**
   * Putting a key adds it to the keys and nothing else, adds at most one
   * entry, and keeps the keys distinct.
   */
  lemma {:induction false} PutKeys(d: seq<Pair>, k: string, v: Option<string>)
    ensures KeysOf(Put(d, k, v)) == KeysOf(d) + {k}
    ensures |Put(d, k, v)| <= |d| + 1
    ensures DistinctKeys(d) ==> DistinctKeys(Put(d, k, v))
    decreases |d|
  {
    if d == [] {
      KeysCons((k, v), []);
    } else {
      assert d == [d[0]] + d[1..];
      KeysCons(d[0], d[1..]);
      DistinctCons(d[0], d[1..]);
      if d[0].0 == k {
        KeysCons((k, v), d[1..]);
        DistinctCons((k, v), d[1..]);
      } else {
        PutKeys(d[1..], k, v);
        var rest := Put(d[1..], k, v);
        KeysCons(d[0], rest);
        DistinctCons(d[0], rest);
      }
    }
  }

  lemma KeysCons(x: Pair, rest: seq<Pair>)
    ensures KeysOf([x] + rest) == {x.0} + KeysOf(rest)
  {
    var d := [x] + rest;
    assert forall i :: 0 < i < |d| ==> d[i] == rest[i - 1];
    forall y | y in KeysOf(rest) ensures y in KeysOf(d) {
      var i :| 0 <= i < |rest| && rest[i].0 == y;
      assert d[i + 1].0 == y;
    }
    forall y | y in KeysOf(d) ensures y == x.0 || y in KeysOf(rest) {
      var i :| 0 <= i < |d| && d[i].0 == y;
      if i > 0 {
        assert rest[i - 1].0 == y;
      }
    }
    assert d[0].0 == x.0;
  }

  /** A key that is not yet present keeps a dictionary distinct when put in front. */
  lemma DistinctCons(x: Pair, rest: seq<Pair>)
    ensures DistinctKeys([x] + rest) <==> DistinctKeys(rest) && x.0 !in KeysOf(rest)
  {
    var d := [x] + rest;
    assert forall i :: 0 < i < |d| ==> d[i] == rest[i - 1];
    if DistinctKeys(d) {
      forall i | 0 <= i < |rest| ensures rest[i].0 != x.0 {
        assert d[0] == x && d[i + 1] == rest[i];
      }
      forall a, b | 0 <= a < b < |rest| ensures rest[a].0 != rest[b].0 {
        assert d[a + 1] == rest[a] && d[b + 1] == rest[b];
      }
    }
  }

  lemma {:induction false} PutNew(d: seq<Pair>, k: string, v: Option<string>)
    requires forall j :: 0 <= j < |d| ==> d[j].0 != k
    ensures Put(d, k, v) == d + [(k, v)]
    decreases |d|
  {
    if d != [] {
      PutNew(d[1..], k, v);
      assert d == [d[0]] + d[1..];
    }
  }

  /** The keys of an ordered dictionary */
  function KeysOf(d: seq<Pair>): set<string> {
    set i | 0 <= i < |d| :: d[i].0
  }

  /** The first loop of `callback`: the submitted inputs filed by key */
  function Collect(children: seq<Pair>): seq<Pair>
    decreases |children|
  {
    if children == [] then []
    else
      var c := children[|children| - 1];
      Put(Collect(children[..|children| - 1]), KeyOfLabel(c.0), c.1)
  }

  /**
   * Like the dictionary it builds, the collected list never holds a key twice
   * and has no more entries than there are inputs.
   */
  lemma {:induction false} CollectDistinct(children: seq<Pair>)
    ensures DistinctKeys(Collect(children))
    ensures |Collect(children)| <= |children|
    decreases |children|
  {
    if children != [] {
      var c := children[|children| - 1];
      CollectDistinct(children[..|children| - 1]);
      PutKeys(Collect(children[..|children| - 1]), KeyOfLabel(c.0), c.1);
    }
  }

  /**
   * The modal's inputs as submitted: their labels with the typed values. On
   * the fields themselves, each field with the value typed for it.
   */
  function Submitted(items: seq<Pair>, typed: seq<Option<string>>): (c: seq<Pair>)
    requires |typed| == |items|
    ensures |c| == |items|
  {
    seq(|items|, j requires 0 <= j < |items| => (items[j].0, typed[j]))
  }

  /**
   * The labels the modal shows file the submitted values back under their
   * own fields, in the modal's order, when those fields are distinct.
   */
  lemma {:induction false} CollectModal(fields: seq<Pair>, typed: seq<Option<string>>)
    requires |typed| == |fields|
    requires forall j :: 0 <= j < |fields| ==> fields[j].0 in Infos
    requires DistinctKeys(fields)
    ensures Collect(Submitted(ModalItems(fields), typed)) == Submitted(fields, typed)
    decreases |fields|
  {
    if fields != [] {
      var n := |fields| - 1;
      var init, tinit := fields[..n], typed[..n];
      CollectModal(init, tinit);
      var c := Submitted(ModalItems(fields), typed);
      SubmittedPrefix(fields, typed);
      assert c[n] == (LabelFor(fields[n].0), typed[n]);
      LabelRoundTrip(fields[n].0);
      var prev := Submitted(init, tinit);
      assert forall j :: 0 <= j < |prev| ==> prev[j].0 == fields[j].0;
      PutNew(prev, fields[n].0, typed[n]);
      SubmittedSnoc(fields, typed);
    }
  }

  lemma SubmittedPrefix(fields: seq<Pair>, typed: seq<Option<string>>)
    requires |typed| == |fields| && fields != []
    ensures var n := |fields| - 1;
      Submitted(ModalItems(fields), typed)[..n] == Submitted(ModalItems(fields[..n]), typed[..n])
  {
  }

  lemma SubmittedSnoc(fields: seq<Pair>, typed: seq<Option<string>>)
    requires |typed| == |fields| && fields != []
    ensures var n := |fields| - 1;
      Submitted(fields, typed) == Submitted(fields[..n], typed[..n]) + [(fields[n].0, typed[n])]
  {
  }

  /** The second loop of `callback`, as far as the table goes: one `UPDATE` per key */
  function WriteBack(t: Table, user: int, values: seq<Pair>): Table
    decreases |values|
  {
    if values == [] then t
    else
      var v := values[|values| - 1];
      WithValue(WriteBack(t, user, values[..|values| - 1]), user, v.0, v.1)
  }

  /** Writing back adds no row, changes no toggle and touches no other user's rows. */
  lemma {:induction false} WriteBackFrame(t: Table, user: int, values: seq<Pair>)
    ensures WriteBack(t, user, values).Keys == t.Keys
    ensures forall key :: key in t ==> WriteBack(t, user, values)[key].toggle == t[key].toggle
    ensures forall key :: key in t && key.0 != user ==> WriteBack(t, user, values)[key] == t[key]
    decreases |values|
  {
    if values != [] {
      WriteBackFrame(t, user, values[..|values| - 1]);
    }
  }

  /** Writing back the values a table already holds leaves it as it was. */
  lemma {:induction false} WriteBackSame(t: Table, user: int, values: seq<Pair>)
    requires forall j :: 0 <= j < |values| ==>
      (user, values[j].0) in t && t[(user, values[j].0)].value == values[j].1
    ensures WriteBack(t, user, values) == t
    decreases |values|
  {
    if values != [] {
      WriteBackSame(t, user, values[..|values| - 1]);
    }
  }

  /** No field appears twice. */
  predicate DistinctKeys(r: seq<Pair>) {
    forall a, b :: 0 <= a < b < |r| ==> r[a].0 != r[b].0
  }

  /** The shown fields are distinct fields of the profile. */
  lemma {:induction false} ShownDistinct(t: Table, user: int, names: seq<string>)
    requires forall a, b :: 0 <= a < b < |names| ==> names[a] != names[b]
    ensures DistinctKeys(Shown(t, user, names))
    decreases |names|
  {
    if names != [] {
      var n := |names| - 1;
      var init, i := names[..n], names[n];
      ShownDistinct(t, user, init);
      var ri := Shown(t, user, init);
      forall a | 0 <= a < |ri| ensures ri[a].0 != i {
        assert ri[a].0 in init;
        var m :| 0 <= m < n && init[m] == ri[a].0;
        assert names[m] == init[m];
      }
      assert DistinctKeys(ri);
      var r := Shown(t, user, names);
      assert r == ri + (if Visible(t, user, i) then [(i, t[(user, i)].value)] else []);
      forall a, b | 0 <= a < b < |r| ensures r[a].0 != r[b].0 {
        assert r[a] == ri[a];
        if b < |ri| {
          assert r[b] == ri[b];
          assert ri[a].0 != ri[b].0;
        } else {
          assert r[b].0 == i;
          assert ri[a].0 != i;
        }
      }
    }
  }

  /**
   * Submitting the modal without editing anything files each value under
   * its own field and writes back what the table holds, so the table does
   * not change.
   */
  lemma UntouchedModalKeepsTable(t: Table, user: int)
    ensures var fields := Shown(t, user, Infos);
      var typed := seq(|fields|, j requires 0 <= j < |fields| => fields[j].1);
      && Collect(Submitted(ModalItems(fields), typed)) == fields
      && WriteBack(t, user, fields) == t
  {
    var fields := Shown(t, user, Infos);
    var typed := seq(|fields|, j requires 0 <= j < |fields| => fields[j].1);
    ShownDistinct(t, user, Infos);
    CollectModal(fields, typed);
    assert Submitted(fields, typed) == fields;
    WriteBackSame(t, user, fields);
  }

  datatype FieldValue = Text(text: Option<string>) | Age(years: int)

  /** An embed field */
  datatype Field = Field(name: string, value: FieldValue)

  /** The embed fields one entry contributes: the age first when the birthday parses */
  function FieldsFor(e: Pair, today: Date): seq<Field> {
    var age := if e.0 == Birthday && e.1.Some? then AgeFromString(e.1.value, today) else None;
    (if age.Some? then [Field("age", Age(age.value))] else []) + [Field(e.0, Text(e.1))]
  }

  /** The embed of `create_aboutme_embed` and of `callback` for a list of entries */
  function EmbedFields(entries: seq<Pair>, today: Date): seq<Field>
    decreases |entries|
  {
    if entries == [] then []
    else EmbedFields(entries[..|entries| - 1], today) + FieldsFor(entries[|entries| - 1], today)
  }

  /** The embed has one or two fields per entry. */
  lemma {:induction false} EmbedFieldsSize(entries: seq<Pair>, today: Date)
    ensures |entries| <= |EmbedFields(entries, today)| <= 2 * |entries|
    decreases |entries|
  {
    if entries != [] {
      EmbedFieldsSize(entries[..|entries| - 1], today);
    }
  }

  /** The embed without its age fields */
  function Texts(fields: seq<Field>): (r: seq<Field>)
    ensures forall j :: 0 <= j < |r| ==> r[j].value.Text?
    decreases |fields|
  {
    if fields == [] then []
    else
      var last := fields[|fields| - 1];
      Texts(fields[..|fields| - 1]) + (if last.value.Text? then [last] else [])
  }

  lemma {:induction false} TextsAppend(a: seq<Field>, b: seq<Field>)
    ensures Texts(a + b) == Texts(a) + Texts(b)
    decreases |b|
  {
    if b != [] {
      var ab := a + b;
      assert ab[..|ab| - 1] == a + b[..|b| - 1];
      TextsAppend(a, b[..|b| - 1]);
    } else {
      assert a + b == a;
    }
  }

  /** Dropping the age fields from the embed leaves one field per entry, in order. */
  lemma {:induction false} AgeIsOnlyAddition(entries: seq<Pair>, today: Date)
    ensures Texts(EmbedFields(entries, today)) == TextRows(entries)
    decreases |entries|
  {
    if entries != [] {
      var n := |entries| - 1;
      AgeIsOnlyAddition(entries[..n], today);
      var e := entries[n];
      TextsAppend(EmbedFields(entries[..n], today), FieldsFor(e, today));
      TextsOfEntry(e, today);
      TextRowsSnoc(entries);
    }
  }

  /** One text field per entry, in order */
  function TextRows(entries: seq<Pair>): (r: seq<Field>)
    ensures |r| == |entries|
    ensures forall j :: 0 <= j < |entries| ==> r[j] == Field(entries[j].0, Text(entries[j].1))
  {
    seq(|entries|, j requires 0 <= j < |entries| => Field(entries[j].0, Text(entries[j].1)))
  }

  lemma TextRowsSnoc(entries: seq<Pair>)
    requires entries != []
    ensures var n := |entries| - 1;
      TextRows(entries) == TextRows(entries[..n]) + [Field(entries[n].0, Text(entries[n].1))]
  {
  }

  /** The age field of an entry is not a text; its text field is. */
  lemma TextsOfEntry(e: Pair, today: Date)
    ensures Texts(FieldsFor(e, today)) == [Field(e.0, Text(e.1))]
  {
    var text := Field(e.0, Text(e.1));
    assert Texts([text]) == [text] by {
      assert [text][..0] == [];
    }
    var age := if e.0 == Birthday && e.1.Some? then AgeFromString(e.1.value, today) else None;
    if age.Some? {
      var af := Field("age", Age(age.value));
      assert [af, text] == [af] + [text];
      TextsAppend([af], [text]);
      assert Texts([af]) == [] by {
        assert [af][..0] == [];
      }
    }
  }

  /** The fields of one entry end with its text; an age comes first exactly when the birthday parses. */
  lemma FieldsForShape(e: Pair, today: Date)
    ensures var l := FieldsFor(e, today);
      && (|l| == 1 || |l| == 2)
      && l[|l| - 1] == Field(e.0, Text(e.1))
      && (|l| == 2 <==> e.0 == Birthday && e.1.Some? && AgeFromString(e.1.value, today).Some?)
      && (|l| == 2 ==> l[0] == Field("age", Age(AgeFromString(e.1.value, today).value)))
  {
  }

  /** Every age field sits right before a birthday that parses to that age. */
  ghost predicate AgesPrecede(f: seq<Field>, today: Date) {
    forall j :: 0 <= j < |f| && f[j].value.Age? ==>
      && j + 1 < |f| && f[j + 1].name == Birthday && f[j + 1].value.Text?
      && f[j + 1].value.text.Some?
      && AgeFromString(f[j + 1].value.text.value, today) == Some(f[j].value.years)
  }

  /** A birthday field whose value parses is a text field that this age field precedes. */
  predicate ParsedBirthday(x: Field, today: Date) {
    x.name == Birthday && x.value.Text? && x.value.text.Some? && AgeFromString(x.value.text.value, today).Some?
  }

  /** Every birthday that parses has its age field right before it. */
  ghost predicate BirthdaysAged(f: seq<Field>, today: Date) {
    forall j :: 0 <= j < |f| && ParsedBirthday(f[j], today) ==>
      0 < j && f[j - 1] == Field("age", Age(AgeFromString(f[j].value.text.value, today).value))
  }

  /** The age fields sit right before the birthdays that parse, and every such birthday has one. */
  ghost predicate AgePlaced(f: seq<Field>, today: Date) {
    AgesPrecede(f, today) && BirthdaysAged(f, today)
  }

  /**
   * The embed puts an age field immediately before a birthday whose value
   * parses, with the age of that birthday, and nowhere else.
   */
  lemma {:induction false} AgePrecedesBirthday(entries: seq<Pair>, today: Date)
    ensures AgePlaced(EmbedFields(entries, today), today)
    ensures EmbedFields(entries, today) != [] ==>
      EmbedFields(entries, today)[|EmbedFields(entries, today)| - 1].value.Text?
    decreases |entries|
  {
    if entries != [] {
      var n := |entries| - 1;
      AgePrecedesBirthday(entries[..n], today);
      var pre := EmbedFields(entries[..n], today);
      var e := entries[n];
      FieldsForShape(e, today);
      AgesPrecedeJoin(pre, e, today);
      BirthdaysAgedJoin(pre, e, today);
      var f := pre + FieldsFor(e, today);
      assert f[|f| - 1] == Field(e.0, Text(e.1));
    }
  }

  lemma AgesPrecedeJoin(pre: seq<Field>, e: Pair, today: Date)
    requires AgesPrecede(pre, today)
    requires pre != [] ==> pre[|pre| - 1].value.Text?
    ensures AgesPrecede(pre + FieldsFor(e, today), today)
  {
    var last := FieldsFor(e, today);
    FieldsForShape(e, today);
    var f := pre + last;
    forall j | 0 <= j < |f| && f[j].value.Age?
      ensures j + 1 < |f| && f[j + 1].name == Birthday && f[j + 1].value.Text? && f[j + 1].value.text.Some?
      ensures AgeFromString(f[j + 1].value.text.value, today) == Some(f[j].value.years)
    {
      if j < |pre| {
        assert f[j] == pre[j];
        assert j + 1 < |pre|;
        assert f[j + 1] == pre[j + 1];
      } else {
        assert f[j] == last[j - |pre|];
        assert f[j + 1] == last[1];
      }
    }
  }

  lemma BirthdaysAgedJoin(pre: seq<Field>, e: Pair, today: Date)
    requires BirthdaysAged(pre, today)
    ensures BirthdaysAged(pre + FieldsFor(e, today), today)
  {
    var last := FieldsFor(e, today);
    FieldsForShape(e, today);
    var f := pre + last;
    forall j | 0 <= j < |f| && ParsedBirthday(f[j], today)
      ensures 0 < j && f[j - 1] == Field("age", Age(AgeFromString(f[j].value.text.value, today).value))
    {
      if j < |pre| {
        assert f[j] == pre[j];
        assert f[j - 1] == pre[j - 1];
      } else {
        assert f[j] == last[j - |pre|];
        assert f[|f| - 1] == last[|last| - 1];
        if |last| == 2 {
          assert f[|f| - 2] == last[0];
        }
      }
    }
  }

  /**
   * The rows-to-ordered-fields part shared by `AboutModal.__init__` and
   * `create_aboutme_embed`: the query's rows are gathered in a dict and
   * re-ordered by the field list.
   */
  method ShownRows(db: AboutDb, user: int, order: seq<string>) returns (ordered: seq<Pair>)
    requires forall i :: Visible(db.rows, user, i) ==> i in order
    ensures ordered == Shown(db.rows, user, Infos)
  {
    var rows := SelectRows(db.rows, user, order);
    var infoDict: map<string, Option<string>> := map[];
    var j := 0;
    while j < |rows|
      invariant 0 <= j <= |rows|
      invariant infoDict == RowsToMap(rows[..j])
    {
      assert rows[..j + 1][..j] == rows[..j];
      infoDict := infoDict[rows[j].0 := rows[j].1];
      j := j + 1;
    }
    assert rows[..j] == rows;
    ordered := OrderFields(infoDict, Infos);
    RowOrderIrrelevant(db.rows, user, order);
  }

  /** The loop of `AboutModal.__init__` adding one text input per field */
  method InputTexts(ordered: seq<Pair>) returns (inputs: seq<Pair>)
    ensures inputs == ModalItems(ordered)
  {
    inputs := [];
    var j := 0;
    while j < |ordered|
      invariant 0 <= j <= |ordered|
      invariant |inputs| == j
      invariant forall m :: 0 <= m < j ==> inputs[m] == (LabelFor(ordered[m].0), ordered[m].1)
    {
      inputs := inputs + [(LabelFor(ordered[j].0), ordered[j].1)];
      j := j + 1;
    }
  }

  /** `AboutModal`: one text input per shown field, the birthday's label carrying the marker */
  class AboutModal {
    const user: int
    var items: seq<Pair>

    constructor (db: AboutDb, userId: int, order: seq<string>)
      modifies db
      requires UserOrder(Seeded(db.rows, userId), userId, order)
      ensures db.rows == Seeded(old(db.rows), userId)
      ensures user == userId
      ensures items == ModalItems(Shown(db.rows, userId, Infos))
    {
      db.SeedUser(userId);
      var ordered := ShownRows(db, userId, order);
      var inputs := InputTexts(ordered);
      user := userId;
      items := inputs;
    }

    /**
     * `callback`: file the submitted values by key, write each one back and
     * build the embed, with today's date given.
     */
    method Callback(db: AboutDb, typed: seq<Option<string>>, today: Date) returns (fields: seq<Field>)
      modifies db
      requires |typed| == |items|
      ensures var values := Collect(Submitted(items, typed));
        && db.rows == WriteBack(old(db.rows), user, values)
        && fields == EmbedFields(values, today)
    {
      var children := Submitted(items, typed);
      var values: seq<Pair> := [];
      var j := 0;
      while j < |children|
        invariant 0 <= j <= |children|
        invariant values == Collect(children[..j])
        invariant db.rows == old(db.rows)
      {
        CollectStep(children, j);
        var c := children[j];
        values := Put(values, KeyOfLabel(c.0), c.1);
        j := j + 1;
      }
      assert children[..j] == children;
      fields := [];
      j := 0;
      assert values[..0] == [];
      while j < |values|
        invariant 0 <= j <= |values|
        invariant db.rows == WriteBack(old(db.rows), user, values[..j])
        invariant fields == EmbedFields(values[..j], today)
      {
        WriteBackStep(old(db.rows), user, values, j);
        EmbedStep(values, j, today);
        var key, value := values[j].0, values[j].1;
        db.SetValue(user, key, value);
        ghost var before := fields;
        if key == Birthday && value.Some? {
          var age := AgeFromString(value.value, today);
          if age.Some? {
            fields := fields + [Field("age", Age(age.value))];
          }
        }
        fields := fields + [Field(key, Text(value))];
        AppendFields(before, fields, values[j], today);
        j := j + 1;
      }
      assert values[..j] == values;
    }
  }

  /** `create_aboutme_embed(user)`, with today's date given */
  method CreateAboutmeEmbed(db: AboutDb, user: int, order: seq<string>, today: Date) returns (fields: seq<Field>)
    modifies db
    requires UserOrder(Seeded(db.rows, user), user, order)
    ensures db.rows == Seeded(old(db.rows), user)
    ensures fields == EmbedFields(Shown(db.rows, user, Infos), today)
  {
    db.SeedUser(user);
    var ordered := ShownRows(db, user, order);
    fields := AddFields(ordered, today);
  }

  /** The loop of `create_aboutme_embed` adding the fields of each entry */
  method AddFields(ordered: seq<Pair>, today: Date) returns (fields: seq<Field>)
    ensures fields == EmbedFields(ordered, today)
  {
    fields := [];
    var j := 0;
    while j < |ordered|
      invariant 0 <= j <= |ordered|
      invariant fields == EmbedFields(ordered[..j], today)
    {
      EmbedStep(ordered, j, today);
      var info, value := ordered[j].0, ordered[j].1;
      ghost var before := fields;
      if info == Birthday && value.Some? {
        var age := AgeFromString(value.value, today);
        if age.Some? {
          fields := fields + [Field("age", Age(age.value))];
        }
      }
      fields := fields + [Field(info, Text(value))];
      AppendFields(before, fields, ordered[j], today);
      j := j + 1;
    }
    assert ordered[..j] == ordered;
  }

  lemma EmbedStep(values: seq<Pair>, j: nat, today: Date)
    requires j < |values|
    ensures EmbedFields(values[..j + 1], today) == EmbedFields(values[..j], today) + FieldsFor(values[j], today)
  {
    assert values[..j + 1][..j] == values[..j];
  }

  lemma WriteBackStep(t: Table, user: int, values: seq<Pair>, j: nat)
    requires j < |values|
    ensures WriteBack(t, user, values[..j + 1]) == WithValue(WriteBack(t, user, values[..j]), user, values[j].0, values[j].1)
  {
    assert values[..j + 1][..j] == values[..j];
  }

  lemma CollectStep(children: seq<Pair>, j: nat)
    requires j < |children|
    ensures Collect(children[..j + 1]) == Put(Collect(children[..j]), KeyOfLabel(children[j].0), children[j].1)
  {
    assert children[..j + 1][..j] == children[..j];
  }

  /** The fields the loop bodies add for one entry are that entry's fields. */
  lemma AppendFields(before: seq<Field>, after: seq<Field>, e: Pair, today: Date)
    requires var age := if e.0 == Birthday && e.1.Some? then AgeFromString(e.1.value, today) else None;
      after == (if age.Some? then before + [Field("age", Age(age.value))] else before) + [Field(e.0, Text(e.1))]
    ensures after == before + FieldsFor(e, today)
  {
  }
}
