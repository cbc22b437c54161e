/**
 * The `settings` table of `guppi.py`: rows `(setting, value)` with no primary
 * key, seeded with the two required names, filled in by prompting on the
 * console until each has a value, and updated by an upsert.
 * The console is modelled as the sequence of lines the operator types.
 */
module SettingsStore {
  import opened Options

  datatype SettingRow = SettingRow(setting: string, value: Option<string>)

  /** The table's rows in insertion order; a value of `None` is SQL NULL. */
  type Table = seq<SettingRow>

  const BotToken: string := "bottoken"
  const StatusChannel: string := "statuschannel_id"

  /** The names `init_settings` seeds and prompts for, in that order */
  const Required: seq<string> := [BotToken, StatusChannel]

  /** `check_setting`: a row for `s` exists. */
  predicate CheckSetting(t: Table, s: string) {
    exists i :: 0 <= i < |t| && t[i].setting == s
  }

  /** Index of the first row for `s`, the one `fetchone()` returns */
  function FirstRow(t: Table, s: string): (r: Option<nat>)
    ensures r.Some? ==> r.value < |t| && t[r.value].setting == s
    ensures r.Some? ==> forall j :: 0 <= j < r.value ==> t[j].setting != s
    ensures r.None? <==> !CheckSetting(t, s)
  {
    if t == [] then None
    else if t[0].setting == s then Some(0)
    else match FirstRow(t[1..], s)
      case Some(k) => Some(k + 1)
      case None =>
        assert forall i :: 1 <= i < |t| ==> t[i] == t[1..][i - 1];
        None
  }

  /**
   * `retrieve_setting`: the value of the first row for `s`. Without a row,
   * `fetchone()` gives `None` and indexing it raises, modelled as `None` here;
   * `Some(None)` is a row whose value is NULL.
   */
  function RetrieveSetting(t: Table, s: string): (r: Option<Option<string>>)
    ensures r.Some? <==> CheckSetting(t, s)
    ensures r.Some? ==> FirstRow(t, s).Some? && r.value == t[FirstRow(t, s).value].value
    ensures r.Some? ==> exists i :: 0 <= i < |t| && t[i] == SettingRow(s, r.value)
  {
    match FirstRow(t, s)
    case Some(i) => Some(t[i].value)
    case None => None
  }

  /**
   * The condition under which `init_settings` prompts for `s` (guppi.py:87):
   * no row (`not check_setting(s)`) or a NULL value.
   */
  predicate NeedsPrompt(t: Table, s: string) {
    var r := RetrieveSetting(t, s);
    r.None? || r.value.None?
  }

  /** Both required settings hold a non-NULL value. */
  predicate Configured(t: Table) {
    !NeedsPrompt(t, BotToken) && !NeedsPrompt(t, StatusChannel)
  }

  /**
   * `update_settings(value, setting)`: insert `(setting, value)` when no row
   * exists, otherwise set the value of every row for `setting`.
   */
  function Upsert(t: Table, s: string, v: string): (u: Table)
    ensures RetrieveSetting(u, s) == Some(Some(v))
    ensures forall x :: x != s ==> RetrieveSetting(u, x) == RetrieveSetting(t, x)
    ensures |u| == if CheckSetting(t, s) then |t| else |t| + 1
    ensures forall i :: 0 <= i < |t| && t[i].setting != s ==> u[i] == t[i]
    ensures forall i :: 0 <= i < |u| && u[i].setting == s ==> u[i].value == Some(v)
  {
    if !CheckSetting(t, s) then
      var u := t + [SettingRow(s, Some(v))];
      assert forall x :: x != s ==> FirstRow(u, x) == FirstRow(t, x) by {
        forall x | x != s ensures FirstRow(u, x) == FirstRow(t, x) {
          FirstRowAppend(t, SettingRow(s, Some(v)), x);
        }
      }
      assert FirstRow(u, s) == Some(|t|) by {
        FirstRowAppend(t, SettingRow(s, Some(v)), s);
      }
      u
    else
      var u := seq(|t|, i requires 0 <= i < |t| =>
        if t[i].setting == s then SettingRow(s, Some(v)) else t[i]);
      assert forall x :: FirstRow(u, x) == FirstRow(t, x) by {
        forall x ensures FirstRow(u, x) == FirstRow(t, x) {
          FirstRowSameNames(t, u, x);
        }
      }
      u
  }

  lemma {:induction false} FirstRowAppend(t: Table, row: SettingRow, x: string)
    ensures FirstRow(t + [row], x) ==
      if CheckSetting(t, x) then FirstRow(t, x)
      else if row.setting == x then Some(|t|) else None
  {
    var u := t + [row];
    assert forall j :: 0 <= j < |t| ==> u[j] == t[j];
    assert u[|t|] == row;
  }

  lemma FirstRowSameNames(t: Table, u: Table, x: string)
    requires |t| == |u|
    requires forall i :: 0 <= i < |t| ==> u[i].setting == t[i].setting
    ensures FirstRow(u, x) == FirstRow(t, x)
  {
    if CheckSetting(t, x) {
      var i := FirstRow(t, x).value;
      FirstRowIs(u, x, i);
    } else {
      forall i | 0 <= i < |u| ensures u[i].setting != x {
        assert t[i].setting != x;
      }
    }
  }

  /** The first row for `x` is the one before which no row has that name. */
  lemma FirstRowIs(t: Table, x: string, i: nat)
    requires i < |t| && t[i].setting == x
    requires forall j :: 0 <= j < i ==> t[j].setting != x
    ensures FirstRow(t, x) == Some(i)
  {
    var r := FirstRow(t, x);
    assert r.Some?;
    assert !(r.value < i) && !(i < r.value);
  }

  /**
   * The seeding loop of `init_settings` (guppi.py:81-84): a NULL row for each
   * name that has no row yet, in order.
   */
  function Seed(t: Table, names: seq<string>): (r: Table)
    ensures |t| <= |r| && r[..|t|] == t
    ensures forall s :: s in names ==> CheckSetting(r, s)
    ensures forall i :: |t| <= i < |r| ==>
      r[i].value == None && r[i].setting in names && !CheckSetting(t, r[i].setting)
    ensures forall i, j :: |t| <= i < j < |r| ==> r[i].setting != r[j].setting
    decreases |names|
  {
    if names == [] then t
    else
      var s := names[0];
      var t' := if CheckSetting(t, s) then t else t + [SettingRow(s, None)];
      SeedKeeps(t, t', s);
      var r := Seed(t', names[1..]);
      PrefixKeepsRows(t', r);
      r
  }

  /** A table that extends `t` keeps every name of `t`. */
  lemma PrefixKeepsRows(t: Table, r: Table)
    requires |t| <= |r| && r[..|t|] == t
    ensures forall x :: CheckSetting(t, x) ==> CheckSetting(r, x)
  {
    forall x | CheckSetting(t, x) ensures CheckSetting(r, x) {
      var i :| 0 <= i < |t| && t[i].setting == x;
      assert r[i] == t[i];
    }
  }

  /** Extending a table keeps the first row of every name it already had. */
  lemma PrefixKeepsFirst(t: Table, r: Table, x: string)
    requires |t| <= |r| && r[..|t|] == t
    requires CheckSetting(t, x)
    ensures FirstRow(r, x) == FirstRow(t, x)
  {
    var i := FirstRow(t, x).value;
    assert forall j :: 0 <= j <= i ==> r[j] == t[j];
    FirstRowIs(r, x, i);
  }

  /**
   * Seeding changes no value anybody could read: a name with a row keeps its
   * value, a name without one reads as NULL if it was seeded and as missing
   * otherwise.
   */
  lemma SeedRetrieve(t: Table, names: seq<string>, x: string)
    ensures CheckSetting(t, x) ==> RetrieveSetting(Seed(t, names), x) == RetrieveSetting(t, x)
    ensures !CheckSetting(t, x) && x in names ==> RetrieveSetting(Seed(t, names), x) == Some(None)
    ensures x !in names ==> RetrieveSetting(Seed(t, names), x) == RetrieveSetting(t, x)
  {
    var r := Seed(t, names);
    if CheckSetting(t, x) {
      PrefixKeepsFirst(t, r, x);
    } else {
      assert forall j :: 0 <= j < |t| ==> r[j] == t[j];
    }
  }

  lemma SeedKeeps(t: Table, t': Table, s: string)
    requires t' == if CheckSetting(t, s) then t else t + [SettingRow(s, None)]
    ensures |t| <= |t'| && t'[..|t|] == t
    ensures CheckSetting(t', s)
    ensures forall x :: CheckSetting(t, x) ==> CheckSetting(t', x)
    ensures forall x :: CheckSetting(t', x) ==> CheckSetting(t, x) || x == s
  {
    if !CheckSetting(t, s) {
      assert t'[|t|].setting == s;
      forall x | CheckSetting(t, x) ensures CheckSetting(t', x) {
        var i :| 0 <= i < |t| && t[i].setting == x;
        assert t'[i] == t[i];
      }
      forall x | CheckSetting(t', x) ensures CheckSetting(t, x) || x == s {
        var i :| 0 <= i < |t'| && t'[i].setting == x;
        if i < |t| { assert t'[i] == t[i]; }
      }
    }
  }

  /** Seeding a table whose required settings all have rows adds nothing. */
  lemma {:induction false} SeedPresent(t: Table, names: seq<string>)
    requires forall s :: s in names ==> CheckSetting(t, s)
    ensures Seed(t, names) == t
    decreases |names|
  {
    if names != [] {
      assert CheckSetting(t, names[0]);
      SeedPresent(t, names[1..]);
    }
  }

  /** Seeding neither fills in nor hides a required setting: a prompt is due afterwards exactly when it was due before. */
  lemma SeedPrompts(t: Table, s: string)
    requires s in Required
    ensures NeedsPrompt(Seed(t, Required), s) <==> NeedsPrompt(t, s)
    ensures !NeedsPrompt(t, s) ==> RetrieveSetting(Seed(t, Required), s) == RetrieveSetting(t, s)
  {
    SeedRetrieve(t, Required, s);
  }

  /** Index of the first non-empty line the operator types */
  function FirstNonEmpty(inputs: seq<string>): (r: Option<nat>)
    ensures r.Some? ==> r.value < |inputs| && inputs[r.value] != ""
    ensures r.Some? ==> forall j :: 0 <= j < r.value ==> inputs[j] == ""
    ensures r.None? ==> forall j :: 0 <= j < |inputs| ==> inputs[j] == ""
  {
    if inputs == [] then None
    else if inputs[0] != "" then Some(0)
    else match FirstNonEmpty(inputs[1..])
      case Some(k) => Some(k + 1)
      case None => None
  }

  /** What prompting leaves behind: the table, whether it finished, how many typed lines it read */
  datatype Outcome = Outcome(table: Table, ok: bool, used: nat)

  /**
   * One round of the `while True` prompt loop (guppi.py:86-95) for `s`:
   * nothing is asked when `s` already has a value; otherwise empty lines are
   * asked again (the default for both settings is the `'Invalid'` marker)
   * and the first non-empty line is stored. Running out of typed lines is the
   * `EOFError` of `input()`: the table is left as it was.
   */
  function PromptRound(t: Table, s: string, inputs: seq<string>): (o: Outcome)
    ensures o.used <= |inputs|
    ensures !NeedsPrompt(t, s) ==> o == Outcome(t, true, 0)
    ensures o.ok ==> !NeedsPrompt(o.table, s)
    ensures o.ok && NeedsPrompt(t, s) ==>
      && 0 < o.used && inputs[o.used - 1] != ""
      && (forall j :: 0 <= j < o.used - 1 ==> inputs[j] == "")
      && RetrieveSetting(o.table, s) == Some(Some(inputs[o.used - 1]))
    ensures !o.ok ==> o.table == t && forall j :: 0 <= j < |inputs| ==> inputs[j] == ""
    ensures forall x :: x != s ==> RetrieveSetting(o.table, x) == RetrieveSetting(t, x)
  {
    if !NeedsPrompt(t, s) then Outcome(t, true, 0)
    else match FirstNonEmpty(inputs)
      case Some(k) => Outcome(Upsert(t, s, inputs[k]), true, k + 1)
      case None => Outcome(t, false, |inputs|)
  }

  /**
   * `init_settings`: seed, then prompt for `bottoken` and then for
   * `statuschannel_id` on the lines that remain. An `EOFError` while
   * prompting for the first ends it.
   */
  function Init(t: Table, inputs: seq<string>): (o: Outcome)
    ensures o.used <= |inputs|
  {
    var p := PromptRound(Seed(t, Required), BotToken, inputs);
    if !p.ok then p
    else
      var q := PromptRound(p.table, StatusChannel, inputs[p.used..]);
      Outcome(q.table, q.ok, p.used + q.used)
  }

  /** A finished initialisation leaves both required settings non-NULL. */
  lemma InitConfigures(t: Table, inputs: seq<string>)
    ensures Init(t, inputs).ok ==> Configured(Init(t, inputs).table)
  {
    var p := PromptRound(Seed(t, Required), BotToken, inputs);
    if p.ok {
      var q := PromptRound(p.table, StatusChannel, inputs[p.used..]);
      assert RetrieveSetting(q.table, BotToken) == RetrieveSetting(p.table, BotToken);
    }
  }

  /**
   * Initialisation changes no value that was already usable: a required
   * setting with a non-NULL value keeps it, and any other setting reads as
   * before.
   */
  lemma InitKeeps(t: Table, inputs: seq<string>, x: string)
    ensures x in Required && !NeedsPrompt(t, x) ==>
      RetrieveSetting(Init(t, inputs).table, x) == RetrieveSetting(t, x)
    ensures x !in Required ==>
      RetrieveSetting(Init(t, inputs).table, x) == RetrieveSetting(t, x)
  {
    var seeded := Seed(t, Required);
    SeedRetrieve(t, Required, x);
    if x in Required && !NeedsPrompt(t, x) {
      SeedPrompts(t, x);
    }
  }

  /** On a configured table initialisation asks nothing and changes nothing. */
  lemma InitConfiguredNoop(t: Table, inputs: seq<string>)
    requires Configured(t)
    ensures Init(t, inputs) == Outcome(t, true, 0)
  {
    assert forall s :: s in Required ==> CheckSetting(t, s);
    SeedPresent(t, Required);
  }

  /** Running initialisation again after it finished asks nothing and changes nothing. */
  lemma InitIdempotent(t: Table, first: seq<string>, again: seq<string>)
    requires Init(t, first).ok
    ensures Init(Init(t, first).table, again) == Outcome(Init(t, first).table, true, 0)
  {
    InitConfigures(t, first);
    InitConfiguredNoop(Init(t, first).table, again);
  }

  /**
   * The token is the first non-empty line typed; without one initialisation
   * fails.
   */
  lemma InitTakesToken(t: Table, inputs: seq<string>)
    requires NeedsPrompt(t, BotToken)
    ensures match FirstNonEmpty(inputs)
      case Some(k) => RetrieveSetting(Init(t, inputs).table, BotToken) == Some(Some(inputs[k]))
      case None => !Init(t, inputs).ok
  {
    SeedPrompts(t, BotToken);
    var p := PromptRound(Seed(t, Required), BotToken, inputs);
    if p.ok {
      var q := PromptRound(p.table, StatusChannel, inputs[p.used..]);
      assert RetrieveSetting(q.table, BotToken) == RetrieveSetting(p.table, BotToken);
    }
  }

  /**
   * When the status channel had to be asked for, the value stored is the last
   * line initialisation read, and it is not empty.
   */
  lemma InitTakesChannel(t: Table, inputs: seq<string>)
    requires NeedsPrompt(t, StatusChannel)
    ensures Init(t, inputs).ok ==>
      var o := Init(t, inputs);
      0 < o.used && inputs[o.used - 1] != "" &&
      RetrieveSetting(o.table, StatusChannel) == Some(Some(inputs[o.used - 1]))
  {
    SeedPrompts(t, StatusChannel);
    ChannelRounds(Seed(t, Required), inputs);
  }

  /** The two prompt rounds of `init_settings` on a table that lacks the status channel */
  lemma ChannelRounds(seeded: Table, inputs: seq<string>)
    requires NeedsPrompt(seeded, StatusChannel)
    ensures var p := PromptRound(seeded, BotToken, inputs);
      p.ok ==>
        var q := PromptRound(p.table, StatusChannel, inputs[p.used..]);
        q.ok ==>
          0 < p.used + q.used && inputs[p.used + q.used - 1] != "" &&
          RetrieveSetting(q.table, StatusChannel) == Some(Some(inputs[p.used + q.used - 1]))
  {
    var p := PromptRound(seeded, BotToken, inputs);
    if p.ok {
      ChannelStillMissing(seeded, inputs);
      ChannelAfter(p.table, inputs, p.used);
    }
  }

  /** Prompting for the status channel on the lines left after `from` stores the last line read. */
  lemma ChannelAfter(t: Table, inputs: seq<string>, from: nat)
    requires from <= |inputs| && NeedsPrompt(t, StatusChannel)
    ensures var q := PromptRound(t, StatusChannel, inputs[from..]);
      q.ok ==>
        0 < from + q.used && inputs[from + q.used - 1] != "" &&
        RetrieveSetting(q.table, StatusChannel) == Some(Some(inputs[from + q.used - 1]))
  {
    var rest := inputs[from..];
    var q := PromptRound(t, StatusChannel, rest);
    if q.ok {
      SliceIndex(inputs, from, q.used - 1);
    }
  }

  /** Prompting for the token leaves a missing status channel missing. */
  lemma ChannelStillMissing(t: Table, inputs: seq<string>)
    requires NeedsPrompt(t, StatusChannel)
    ensures NeedsPrompt(PromptRound(t, BotToken, inputs).table, StatusChannel)
  {
    assert BotToken != StatusChannel;
    var p := PromptRound(t, BotToken, inputs);
    assert RetrieveSetting(p.table, StatusChannel) == RetrieveSetting(t, StatusChannel);
  }

  lemma SliceIndex(inputs: seq<string>, from: nat, j: nat)
    requires from + j < |inputs|
    ensures inputs[from..][j] == inputs[from + j]
  {
  }

  /** The two required settings as `Settings()` hands them out */
  datatype Config = Config(bottoken: string, statuschannelId: string)

  /** The `settings` table behind a `Settings` object */
  class Settings {
    var table: Table

    constructor (existing: Table)
      ensures table == existing
    {
      table := existing;
    }

    /** `update_settings(value, setting)` */
    method UpdateSettings(value: string, setting: string)
      modifies this
      ensures table == Upsert(old(table), setting, value)
    {
      var t := table;
      if !CheckSetting(t, setting) {
        table := t + [SettingRow(setting, Some(value))];
      } else {
        table := seq(|t|, i requires 0 <= i < |t| =>
          if t[i].setting == setting then SettingRow(setting, Some(value)) else t[i]);
      }
    }

    /** The seeding loop of `init_settings` (guppi.py:81-84) */
    method SeedSettings()
      modifies this
      ensures table == Seed(old(table), Required)
    {
      var k := 0;
      while k < |Required|
        invariant 0 <= k <= |Required|
        invariant Seed(table, Required[k..]) == Seed(old(table), Required)
      {
        var s := Required[k];
        if !CheckSetting(table, s) {
          table := table + [SettingRow(s, None)];
        }
        k := k + 1;
      }
    }

    /** The prompt loop for one setting, reading `inputs` line by line */
    method Prompt(s: string, inputs: seq<string>) returns (ok: bool, used: nat)
      modifies this
      ensures Outcome(table, ok, used) == PromptRound(old(table), s, inputs)
    {
      used := 0;
      if !NeedsPrompt(table, s) {
        return true, 0;
      }
      while used < |inputs|
        invariant used <= |inputs|
        invariant table == old(table)
        invariant forall j :: 0 <= j < used ==> inputs[j] == ""
      {
        var val := inputs[used];
        used := used + 1;
        if val == "" {
          continue;
        }
        UpdateSettings(val, s);
        assert FirstNonEmpty(inputs) == Some(used - 1);
        return true, used;
      }
      return false, used;
    }

    /** `init_settings` */
    method InitSettings(inputs: seq<string>) returns (ok: bool, used: nat)
      modifies this
      ensures Outcome(table, ok, used) == Init(old(table), inputs)
    {
      SeedSettings();
      var ok1, u1 := Prompt(BotToken, inputs);
      if !ok1 {
        return false, u1;
      }
      var ok2, u2 := Prompt(StatusChannel, inputs[u1..]);
      ok, used := ok2, u1 + u2;
    }

    /**
     * `Settings()`: initialise, then read back both required settings. On
     * success they are the non-NULL values the table holds; a table that was
     * already configured is handed out unchanged.
     */
    method Open(inputs: seq<string>) returns (r: Option<Config>)
      modifies this
      ensures table == Init(old(table), inputs).table
      ensures r.Some? <==> Init(old(table), inputs).ok
      ensures r.Some? ==> RetrieveSetting(table, BotToken) == Some(Some(r.value.bottoken))
      ensures r.Some? ==> RetrieveSetting(table, StatusChannel) == Some(Some(r.value.statuschannelId))
      ensures Configured(old(table)) ==> r.Some? && table == old(table)
    {
      ghost var before := table;
      var ok, used := InitSettings(inputs);
      if Configured(before) {
        InitConfiguredNoop(before, inputs);
      }
      if !ok {
        return None;
      }
      InitConfigures(before, inputs);
      var token := RetrieveSetting(table, BotToken).value.value;
      var channel := RetrieveSetting(table, StatusChannel).value.value;
      r := Some(Config(token, channel));
    }
  }

  /**
   * A fresh store: seeding adds exactly one NULL row per required setting.
   * The operator then types an empty line, `abc` and `123`: the empty line
   * is asked again, `abc` becomes the token and `123` the status channel,
   * each in the single row of its setting, and all three lines are read.
   */
  lemma FreshStoreTakesInput()
    ensures Seed([], Required) == [SettingRow(BotToken, None), SettingRow(StatusChannel, None)]
    ensures Init([], ["", "abc", "123"]) ==
      Outcome([SettingRow(BotToken, Some("abc")), SettingRow(StatusChannel, Some("123"))], true, 3)
  {
    var inputs := ["", "abc", "123"];
    var two := FreshSeed();
    var one := FreshToken(two, inputs);
    assert inputs[2..] == ["123"];
    FreshChannel(one, inputs[2..]);
  }

  lemma FreshSeed() returns (two: Table)
    ensures two == [SettingRow(BotToken, None), SettingRow(StatusChannel, None)]
    ensures Seed([], Required) == two
  {
    var one := [SettingRow(BotToken, None)];
    two := one + [SettingRow(StatusChannel, None)];
    assert Required[0] == BotToken && Required[1..] == [StatusChannel];
    assert !CheckSetting([], BotToken);
    assert [] + [SettingRow(BotToken, None)] == one;
    assert Seed([], Required) == Seed(one, [StatusChannel]);
    assert !CheckSetting(one, StatusChannel) by {
      assert one[0].setting != StatusChannel;
    }
    assert Seed(one, [StatusChannel]) == Seed(two, []);
  }

  /** Prompting a fresh store for the token skips the empty line and stores `abc`. */
  lemma FreshToken(two: Table, inputs: seq<string>) returns (one: Table)
    requires two == [SettingRow(BotToken, None), SettingRow(StatusChannel, None)]
    requires inputs == ["", "abc", "123"]
    ensures one == [SettingRow(BotToken, Some("abc")), SettingRow(StatusChannel, None)]
    ensures PromptRound(two, BotToken, inputs) == Outcome(one, true, 2)
  {
    FirstRowIs(two, BotToken, 0);
    assert NeedsPrompt(two, BotToken);
    assert inputs[1..] == ["abc", "123"];
    assert FirstNonEmpty(inputs) == Some(1);
    one := Upsert(two, BotToken, "abc");
    assert CheckSetting(two, BotToken);
    assert one[0] == SettingRow(BotToken, Some("abc"));
    assert one[1] == two[1];
  }

  /** Prompting for the status channel next stores `123` in its row. */
  lemma FreshChannel(one: Table, rest: seq<string>)
    requires one == [SettingRow(BotToken, Some("abc")), SettingRow(StatusChannel, None)]
    requires rest == ["123"]
    ensures PromptRound(one, StatusChannel, rest) ==
      Outcome([SettingRow(BotToken, Some("abc")), SettingRow(StatusChannel, Some("123"))], true, 1)
  {
    FirstRowIs(one, StatusChannel, 1);
    assert NeedsPrompt(one, StatusChannel);
    assert FirstNonEmpty(rest) == Some(0);
    var full := Upsert(one, StatusChannel, "123");
    assert CheckSetting(one, StatusChannel);
    assert full[0] == one[0];
    assert full[1] == SettingRow(StatusChannel, Some("123"));
  }

}
