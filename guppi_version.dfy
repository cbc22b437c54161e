/**
 * The version watch of `guppi.py`. The bot's own source starts with a marker
 * line such as `#Version: Alpha 0.0.1`; at start-up the token is captured as
 * `botversion`, and every ten seconds the file is read again and the process
 * re-executes itself once the token has changed.
 */
module VersionWatch {
  import opened Options
  import opened Text

  /** The character set of `strip('#Version: \n')`: not a prefix, a set of characters */
  const MarkerChars: set<char> := {'#', 'V', 'e', 'r', 's', 'i', 'o', 'n', ':', ' ', '\n'}

  /**
   * `f.readlines(1)[0]`: the first line of the file with its newline. An
   * empty file yields no line and the indexing raises, modelled as `None`.
   */
  function FirstLine(source: string): (r: Option<string>)
    ensures r.None? <==> source == []
    ensures r.Some? ==> r.value == Lines(source)[0]
  {
    if source == [] then None
    else match IndexOf(source, '\n')
      case None => Some(source)
      case Some(i) => Some(source[..i + 1])
  }

  /**
   * The version token: the first line stripped of marker characters at both
   * ends. There is one exactly when the file is not empty, and it is a slice
   * of the first line.
   */
  function ReadVersion(source: string): (r: Option<string>)
    ensures r.None? <==> source == []
    ensures r.Some? ==> exists i :: OccursAt(FirstLine(source).value, r.value, i)
  {
    match FirstLine(source)
    case None => None
    case Some(l) =>
      var v := Strip(l, MarkerChars);
      assert OccursAt(l, v, LeftRun(l, MarkerChars));
      Some(v)
  }

  /**
   * The token is the part of the first line left between a leading and a
   * trailing run of marker characters; it neither starts nor ends with one.
   */
  lemma TokenShape(source: string) returns (i: nat)
    requires source != []
    ensures var l := Lines(source)[0];
      var v := ReadVersion(source).value;
      && i + |v| <= |l| && v == l[i..i + |v|]
      && (forall k :: 0 <= k < i ==> l[k] in MarkerChars)
      && (forall k :: i + |v| <= k < |l| ==> l[k] in MarkerChars)
      && (v != [] ==> v[0] !in MarkerChars && v[|v| - 1] !in MarkerChars)
  {
    var l := FirstLine(source).value;
    i := StripSlice(l, MarkerChars);
  }

  /** A file that starts with a complete line has that line first. */
  lemma FirstLineOf(line: string, rest: string)
    requires IsLine(line) && Terminated(line)
    ensures FirstLine(line + rest) == Some(line)
  {
    var source := line + rest;
    assert forall k :: 0 <= k < |line| ==> source[k] == line[k];
    IndexOfFirst(source, '\n', |line| - 1);
    assert source[..|line|] == line;
  }

  /**
   * A first line made of marker characters `p`, the token `m` and marker
   * characters `q` up to and including its newline yields `m`.
   */
  lemma MarkerLineReads(p: string, m: string, q: string, rest: string)
    requires forall k :: 0 <= k < |p| ==> p[k] in MarkerChars && p[k] != '\n'
    requires forall k :: 0 <= k < |m| ==> m[k] != '\n'
    requires m != [] && m[0] !in MarkerChars && m[|m| - 1] !in MarkerChars
    requires q != [] && q[|q| - 1] == '\n'
    requires forall k :: 0 <= k < |q| ==> q[k] in MarkerChars
    requires forall k :: 0 <= k < |q| - 1 ==> q[k] != '\n'
    ensures ReadVersion(p + m + q + rest) == Some(m)
  {
    var line := p + m + q;
    assert IsLine(line) by {
      forall k | 0 <= k < |line| - 1 ensures line[k] != '\n' {
        if k < |p| {
          assert line[k] == p[k];
        } else if k < |p| + |m| {
          assert line[k] == m[k - |p|];
        } else {
          assert line[k] == q[k - |p| - |m|];
        }
      }
    }
    assert Terminated(line);
    FirstLineOf(line, rest);
    StripExact(p, m, q, MarkerChars);
  }

  /** The marker line of `guppi.py` itself yields `Alpha 0.0.1`. */
  lemma ReadsAlpha(rest: string)
    ensures ReadVersion("#Version: Alpha 0.0.1\n" + rest) == Some("Alpha 0.0.1")
  {
    var p, m, q := "#Version: ", "Alpha 0.0.1", "\n";
    assert p + m + q == "#Version: Alpha 0.0.1\n";
    MarkerLineReads(p, m, q, rest);
  }

  /**
   * Because a character set is stripped rather than a prefix, a token ending
   * in marker letters loses them: the line `#Version: Release` yields `Relea`.
   */
  lemma ReleaseLosesLetters(rest: string)
    ensures ReadVersion("#Version: Release\n" + rest) == Some("Relea")
  {
    var p, m, q := "#Version: ", "Relea", "se\n";
    assert p + m + q == "#Version: Release\n";
    MarkerLineReads(p, m, q, rest);
  }

  /** What one run of `version_control` does */
  datatype Tick =
    | NoMarker                          // the file is empty: `l1[0]` raises and the loop stops
    | Unchanged                         // empty token, or the same token as `botversion`
    | Restart(before: string, after: string)  // the token changed: `os.execv`

  /** `version_control`: restart when the freshly read token is non-empty and differs */
  function VersionControl(botversion: string, source: string): (t: Tick)
    ensures t.NoMarker? <==> source == []
    ensures t.Restart? <==>
      (source != [] && ReadVersion(source).value != [] && ReadVersion(source).value != botversion)
    ensures t.Restart? ==> t.before == botversion && t.after == ReadVersion(source).value
  {
    match ReadVersion(source)
    case None => NoMarker
    case Some(version) =>
      if version != [] && botversion != version then Restart(botversion, version)
      else Unchanged
  }

  /**
   * The tokens the bot restarts into while the loop reads the files in
   * `snapshots`, one per tick. After a restart `on_ready` captures the token that
   * caused it as the new `botversion`; an empty file ends the loop. Every
   * restart is into a non-empty token different from the one running, and
   * there is at most one per tick.
   */
  function Watch(botversion: string, snapshots: seq<string>): (r: seq<string>)
    ensures |r| <= |snapshots|
    ensures forall k :: 0 <= k < |r| ==> r[k] != []
    ensures r != [] ==> r[0] != botversion
    ensures forall k :: 0 < k < |r| ==> r[k] != r[k - 1]
    decreases |snapshots|
  {
    if snapshots == [] then []
    else match VersionControl(botversion, snapshots[0])
      case NoMarker => []
      case Unchanged => Watch(botversion, snapshots[1..])
      case Restart(_, after) =>
        var rest := Watch(after, snapshots[1..]);
        var rs := [after] + rest;
        assert forall k :: 0 < k < |rs| ==> rs[k] == rest[k - 1];
        rs
  }

  /** The loop is still running when it reads `snapshots[i]`. */
  predicate Live(snapshots: seq<string>, i: nat) {
    forall j :: 0 <= j < i && j < |snapshots| ==> snapshots[j] != []
  }

  /**
   * Every restart is into a non-empty token different from the one running:
   * the first differs from the captured `botversion`, each later one from
   * the token before it. There are never more restarts than ticks.
   */
  lemma {:induction false} WatchRestartsOnChange(botversion: string, snapshots: seq<string>)
    ensures var rs := Watch(botversion, snapshots);
      && |rs| <= |snapshots|
      && (forall k :: 0 <= k < |rs| ==> rs[k] != [])
      && (rs != [] ==> rs[0] != botversion)
      && (forall k :: 0 < k < |rs| ==> rs[k] != rs[k - 1])
    decreases |snapshots|
  {
    if snapshots != [] {
      var t := VersionControl(botversion, snapshots[0]);
      if t.Unchanged? {
        WatchRestartsOnChange(botversion, snapshots[1..]);
      } else if t.Restart? {
        WatchRestartsOnChange(t.after, snapshots[1..]);
        var rest := Watch(t.after, snapshots[1..]);
        var rs := [t.after] + rest;
        assert forall k :: 0 < k < |rs| ==> rs[k] == rest[k - 1];
      }
    }
  }

  /**
   * No restart happens exactly when every file read while the loop runs
   * carries an empty token or the captured one.
   */
  lemma {:induction false} WatchQuiet(botversion: string, snapshots: seq<string>)
    ensures Watch(botversion, snapshots) == [] <==>
      forall i :: 0 <= i < |snapshots| && Live(snapshots, i) && snapshots[i] != [] ==>
        ReadVersion(snapshots[i]).value == [] || ReadVersion(snapshots[i]).value == botversion
    decreases |snapshots|
  {
    if snapshots != [] {
      var t := VersionControl(botversion, snapshots[0]);
      var tail := snapshots[1..];
      assert forall i :: 1 <= i < |snapshots| ==> snapshots[i] == tail[i - 1];
      if t.Unchanged? {
        WatchQuiet(botversion, tail);
        assert forall i :: 1 <= i < |snapshots| ==> (Live(snapshots, i) <==> Live(tail, i - 1));
      } else if t.NoMarker? {
        assert forall i :: 1 <= i < |snapshots| ==> !Live(snapshots, i);
      } else {
        assert Live(snapshots, 0);
      }
    }
  }
}
