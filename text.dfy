/**
 * The Python string operations the bot relies on, stated over `string`
 * (a sequence of characters): prefix tests, substring search, `str.replace`,
 * `str.strip` with and without a character set, `str.isspace`, `str.lower`
 * and `readlines`.
 */
module Text {
  import opened Options

  /** `s.startswith(p)` */
  predicate StartsWith(s: string, p: string) {
    |p| <= |s| && s[..|p|] == p
  }

  /** `p` occurs in `s` starting at index `i` */
  predicate OccursAt(s: string, p: string, i: int) {
    0 <= i && i + |p| <= |s| && s[i..i + |p|] == p
  }

  lemma OccursAtTail(s: string, p: string)
    requires |s| > 0
    ensures OccursAt(s, p, 0) <==> StartsWith(s, p)
    ensures forall j :: 1 <= j ==> (OccursAt(s, p, j) <==> OccursAt(s[1..], p, j - 1))
  {
    forall j | 1 <= j
      ensures OccursAt(s, p, j) <==> OccursAt(s[1..], p, j - 1)
    {
      if j + |p| <= |s| {
        assert s[1..][j - 1..j - 1 + |p|] == s[j..j + |p|];
      }
    }
  }

  /** Index of the leftmost occurrence of `p` in `s` (`re.search`, `str.find`). */
  function Find(s: string, p: string): (r: Option<nat>)
    ensures r.Some? ==> OccursAt(s, p, r.value)
    ensures r.Some? ==> forall j :: 0 <= j < r.value ==> !OccursAt(s, p, j)
    ensures r.None? ==> forall j :: !OccursAt(s, p, j)
    decreases |s|
  {
    if StartsWith(s, p) then Some(0)
    else if |s| == 0 then None
    else
      OccursAtTail(s, p);
      match Find(s[1..], p)
      case Some(k) => Some(k + 1)
      case None => None
  }

  /** `p in s` */
  predicate Contains(s: string, p: string) {
    Find(s, p).Some?
  }

  lemma ContainsIff(s: string, p: string)
    ensures Contains(s, p) <==> exists i :: OccursAt(s, p, i)
  {
    if Contains(s, p) {
      assert OccursAt(s, p, Find(s, p).value);
    }
  }

  lemma ShorterNotContains(s: string, p: string)
    requires |s| < |p|
    ensures !Contains(s, p)
  {
  }

  /** `r` inserted before every character of `s` and at its end: `s.replace('', r)` */
  function InsertEverywhere(s: string, r: string): (t: string)
    ensures |t| == |s| + (|s| + 1) * |r|
  {
    if s == [] then r else r + [s[0]] + InsertEverywhere(s[1..], r)
  }

  /** `s.replace(p, r)` for a non-empty `p`: leftmost, non-overlapping scan */
  function ReplaceScan(s: string, p: string, r: string): string
    requires p != []
    decreases |s|
  {
    if StartsWith(s, p) then r + ReplaceScan(s[|p|..], p, r)
    else if s == [] then []
    else [s[0]] + ReplaceScan(s[1..], p, r)
  }

  /** Python's `s.replace(p, r)`, replacing every occurrence */
  function ReplaceAll(s: string, p: string, r: string): string {
    if p == [] then InsertEverywhere(s, r) else ReplaceScan(s, p, r)
  }

  /** A string in which `p` does not occur is left as it is. */
  lemma {:induction false} ReplaceAbsent(s: string, p: string, r: string)
    requires p != [] && !Contains(s, p)
    ensures ReplaceAll(s, p, r) == s
    decreases |s|
  {
    assert !OccursAt(s, p, 0);
    if s != [] {
      OccursAtTail(s, p);
      assert !Contains(s[1..], p);
      ReplaceAbsent(s[1..], p, r);
      assert s == [s[0]] + s[1..];
    }
  }

  /** Replacing a pattern by itself changes nothing. */
  lemma {:induction false} ReplaceBySelf(s: string, p: string)
    ensures ReplaceAll(s, p, p) == s
    decreases |s|
  {
    if p == [] {
      InsertEmpty(s);
    } else if StartsWith(s, p) {
      ReplaceBySelf(s[|p|..], p);
      assert s == s[..|p|] + s[|p|..];
    } else if s != [] {
      ReplaceBySelf(s[1..], p);
      assert s == [s[0]] + s[1..];
    }
  }

  lemma {:induction false} InsertEmpty(s: string)
    ensures InsertEverywhere(s, []) == s
    decreases |s|
  {
    if s != [] {
      InsertEmpty(s[1..]);
      assert s == [s[0]] + s[1..];
    }
  }

  /** If no character of `a` starts `p`, the first occurrence in `a + p` is the appended one. */
  lemma {:induction false} ReplaceTrailing(a: string, p: string, r: string)
    requires p != []
    requires forall k :: 0 <= k < |a| ==> a[k] != p[0]
    ensures ReplaceAll(a + p, p, r) == a + r
    decreases |a|
  {
    if a == [] {
      assert [] + p == p;
      assert p[|p|..] == [];
      assert ReplaceScan([], p, r) == [];
      assert ReplaceScan(p, p, r) == r + ReplaceScan([], p, r);
    } else {
      var s := a + p;
      assert s[0] == a[0];
      assert !StartsWith(s, p);
      assert s[1..] == a[1..] + p;
      ReplaceTrailing(a[1..], p, r);
      assert ReplaceScan(s, p, r) == [a[0]] + ReplaceScan(s[1..], p, r);
      assert a == [a[0]] + a[1..];
    }
  }

  /** ASCII lower-casing of one character */
  function LowerChar(c: char): char {
    if 'A' <= c <= 'Z' then (c as int + 32) as char else c
  }

  /**
   * `s.lower()`, restricted to ASCII letters: exactly the capital letters
   * change, no capital is left, and a small letter comes only from a letter.
   */
  function Lower(s: string): (r: string)
    ensures |r| == |s|
    ensures forall i :: 0 <= i < |s| ==> r[i] == LowerChar(s[i])
    ensures forall i :: 0 <= i < |s| ==> (r[i] != s[i] <==> 'A' <= s[i] <= 'Z')
    ensures forall i :: 0 <= i < |s| ==> !('A' <= r[i] <= 'Z')
    ensures forall i :: 0 <= i < |s| ==> ('a' <= r[i] <= 'z' <==> 'a' <= s[i] <= 'z' || 'A' <= s[i] <= 'Z')
  {
    seq(|s|, i requires 0 <= i < |s| => LowerChar(s[i]))
  }

  /** Lower-casing twice is lower-casing once. */
  lemma LowerIdempotent(s: string)
    ensures Lower(Lower(s)) == Lower(s)
  {
  }

  /** Python's `str.isspace` on one character */
  predicate IsWhite(c: char) {
    || ('\t' <= c <= '\r') || ('\U{1c}' <= c <= ' ')
    || c == '\U{85}' || c == '\U{a0}' || c == '\U{1680}'
    || ('\U{2000}' <= c <= '\U{200a}') || c == '\U{2028}' || c == '\U{2029}'
    || c == '\U{202f}' || c == '\U{205f}' || c == '\U{3000}'
  }

  /** The characters for which Python's `str.isspace` holds */
  const Whitespace: set<char> := set c: char | '\t' <= c <= '\U{3000}' && IsWhite(c)

  /** `s.isspace()`: non-empty and made only of whitespace */
  predicate IsSpace(s: string) {
    |s| > 0 && forall i :: 0 <= i < |s| ==> s[i] in Whitespace
  }

  /** How many `cs` characters `s` starts with */
  function LeftRun(s: string, cs: set<char>): (n: nat)
    ensures n <= |s|
    decreases |s|
  {
    if s != [] && s[0] in cs then 1 + LeftRun(s[1..], cs) else 0
  }

  /** How many `cs` characters `s` ends with */
  function RightRun(s: string, cs: set<char>): (n: nat)
    ensures n <= |s|
    decreases |s|
  {
    if s != [] && s[|s| - 1] in cs then 1 + RightRun(s[..|s| - 1], cs) else 0
  }

  /** The leading run is made of `cs` characters, and the character after it is not one. */
  lemma {:induction false} LeftRunShape(s: string, cs: set<char>)
    ensures forall k :: 0 <= k < LeftRun(s, cs) ==> s[k] in cs
    ensures LeftRun(s, cs) < |s| ==> s[LeftRun(s, cs)] !in cs
    decreases |s|
  {
    if s != [] && s[0] in cs {
      LeftRunShape(s[1..], cs);
      assert forall k :: 1 <= k < |s| ==> s[k] == s[1..][k - 1];
    }
  }

  /** The trailing run is made of `cs` characters, and the character before it is not one. */
  lemma {:induction false} RightRunShape(s: string, cs: set<char>)
    ensures forall k :: |s| - RightRun(s, cs) <= k < |s| ==> s[k] in cs
    ensures RightRun(s, cs) < |s| ==> s[|s| - 1 - RightRun(s, cs)] !in cs
    decreases |s|
  {
    if s != [] && s[|s| - 1] in cs {
      RightRunShape(s[..|s| - 1], cs);
      assert forall k :: 0 <= k < |s| - 1 ==> s[k] == s[..|s| - 1][k];
    }
  }

  /** A run of `cs` characters followed by another character is the leading run. */
  lemma LeftRunIs(s: string, cs: set<char>, a: nat)
    requires a <= |s|
    requires forall k :: 0 <= k < a ==> s[k] in cs
    requires a < |s| ==> s[a] !in cs
    ensures LeftRun(s, cs) == a
  {
    LeftRunShape(s, cs);
  }

  /** A run of `cs` characters preceded by another character is the trailing run. */
  lemma RightRunIs(s: string, cs: set<char>, b: nat)
    requires b <= |s|
    requires forall k :: |s| - b <= k < |s| ==> s[k] in cs
    requires b < |s| ==> s[|s| - 1 - b] !in cs
    ensures RightRun(s, cs) == b
  {
    RightRunShape(s, cs);
  }

  /** `s.lstrip(cs)` */
  function StripLeft(s: string, cs: set<char>): string {
    s[LeftRun(s, cs)..]
  }

  /** `s.rstrip(cs)` */
  function StripRight(s: string, cs: set<char>): string {
    s[..|s| - RightRun(s, cs)]
  }

  /** `s.strip(cs)`: the characters of `cs` are removed from both ends */
  function Strip(s: string, cs: set<char>): string {
    StripRight(StripLeft(s, cs), cs)
  }

  /**
   * What `s.strip(cs)` leaves is the slice `s[i..i + |r|]` between a prefix
   * and a suffix made of `cs` characters, and it neither starts nor ends with one.
   */
  lemma StripSlice(s: string, cs: set<char>) returns (i: nat)
    ensures var r := Strip(s, cs);
      && i + |r| <= |s| && r == s[i..i + |r|]
      && (forall k :: 0 <= k < i ==> s[k] in cs)
      && (forall k :: i + |r| <= k < |s| ==> s[k] in cs)
      && (r != [] ==> r[0] !in cs && r[|r| - 1] !in cs)
  {
    i := LeftRun(s, cs);
    LeftRunShape(s, cs);
    RightOfSuffix(s, s[i..], i, cs);
  }

  /** `rstrip` applied to the suffix `l == s[i..]`, restated on `s` */
  lemma RightOfSuffix(s: string, l: string, i: nat, cs: set<char>)
    requires i <= |s| && l == s[i..]
    requires l != [] ==> l[0] !in cs
    ensures var r := StripRight(l, cs);
      && i + |r| <= |s| && r == s[i..i + |r|]
      && (forall k :: i + |r| <= k < |s| ==> s[k] in cs)
      && (r != [] ==> r[0] !in cs && r[|r| - 1] !in cs)
  {
    var r := StripRight(l, cs);
    RightRunShape(l, cs);
    assert r == s[i..i + |r|];
    forall k | i + |r| <= k < |s| ensures s[k] in cs {
      assert s[k] == l[k - i];
    }
    if r != [] {
      assert r[0] == l[0];
      assert r[|r| - 1] == l[|l| - 1 - RightRun(l, cs)];
    }
  }

  /**
   * `strip` removes exactly the run of `cs` characters at each end: stripping
   * `p + m + q`, where `p` and `q` consist of `cs` characters and `m` neither
   * starts nor ends with one, leaves `m`.
   */
  lemma StripExact(p: string, m: string, q: string, cs: set<char>)
    requires forall k :: 0 <= k < |p| ==> p[k] in cs
    requires forall k :: 0 <= k < |q| ==> q[k] in cs
    requires m != [] && m[0] !in cs && m[|m| - 1] !in cs
    ensures Strip(p + m + q, cs) == m
  {
    var s := p + m + q;
    assert forall k :: 0 <= k < |p| ==> s[k] == p[k];
    assert s[|p|] == m[0];
    LeftRunIs(s, cs, |p|);
    var l := m + q;
    assert StripLeft(s, cs) == l;
    assert forall k :: |m| <= k < |l| ==> l[k] == q[k - |m|];
    assert l[|m| - 1] == m[|m| - 1];
    RightRunIs(l, cs, |q|);
    assert l[..|m|] == m;
  }

  /** A character outside `cs` survives the strip. */
  lemma StripKeeps(s: string, cs: set<char>, k: nat)
    requires k < |s| && s[k] !in cs
    ensures s[k] in Strip(s, cs)
  {
    var i := StripSlice(s, cs);
    var r := Strip(s, cs);
    assert r[k - i] == s[k];
  }

  /** A string made only of `cs` characters strips to nothing. */
  lemma StripAllGone(s: string, cs: set<char>)
    requires forall k :: 0 <= k < |s| ==> s[k] in cs
    ensures Strip(s, cs) == []
  {
    LeftRunIs(s, cs, |s|);
  }

  /** The strip splits `s` into a run of `cs` characters, what it leaves, and another run. */
  lemma StripParts(s: string, cs: set<char>) returns (p: string, q: string)
    ensures s == p + Strip(s, cs) + q
    ensures forall k :: 0 <= k < |p| ==> p[k] in cs
    ensures forall k :: 0 <= k < |q| ==> q[k] in cs
    ensures var m := Strip(s, cs); m != [] ==> m[0] !in cs && m[|m| - 1] !in cs
  {
    var m := Strip(s, cs);
    var i := StripSlice(s, cs);
    p, q := s[..i], s[i + |m|..];
    SliceThree(s, i, i + |m|);
    forall k | 0 <= k < |q| ensures q[k] in cs {
      assert q[k] == s[i + |m| + k];
    }
  }

  lemma SliceThree(s: string, i: nat, j: nat)
    requires i <= j <= |s|
    ensures s == s[..i] + s[i..j] + s[j..]
  {
  }

  lemma StripRun(p: string, m: string, q: string, c: char, cs: set<char>)
    requires forall k :: 0 <= k < |p| ==> p[k] in cs
    requires forall k :: 0 <= k < |q| ==> q[k] in cs
    requires c in cs
    requires m != [] && m[0] !in cs && m[|m| - 1] !in cs
    ensures Strip((p + m + q) + [c], cs) == m
  {
    var q' := q + [c];
    forall j | 0 <= j < |q'| ensures q'[j] in cs {
      if j < |q| {
        assert q'[j] == q[j];
      }
    }
    assert (p + m + q) + [c] == p + m + q';
    StripExact(p, m, q', cs);
  }

  /** A trailing `cs` character does not change what the strip leaves. */
  lemma StripDropLast(s: string, c: char, cs: set<char>)
    requires c in cs
    ensures Strip(s + [c], cs) == Strip(s, cs)
  {
    var t := s + [c];
    if forall k :: 0 <= k < |s| ==> s[k] in cs {
      StripAllGone(s, cs);
      StripAllGone(t, cs);
    } else {
      var k :| 0 <= k < |s| && s[k] !in cs;
      StripKeeps(s, cs, k);
      var m := Strip(s, cs);
      var p, q := StripParts(s, cs);
      assert t == (p + m + q) + [c];
      StripRun(p, m, q, c, cs);
    }
  }

  /** `s.strip()`: whitespace removed from both ends */
  function StripSpace(s: string): string {
    Strip(s, Whitespace)
  }

  /** Index of the first occurrence of character `c` */
  function IndexOf(s: string, c: char): (r: Option<nat>)
    ensures r.Some? ==> r.value < |s| && s[r.value] == c
    ensures r.Some? ==> forall k :: 0 <= k < r.value ==> s[k] != c
    ensures r.None? ==> forall k :: 0 <= k < |s| ==> s[k] != c
  {
    if s == [] then None
    else if s[0] == c then Some(0)
    else match IndexOf(s[1..], c)
      case Some(k) => Some(k + 1)
      case None => None
  }

  /** The concatenation of a list of strings (`''.join(ls)`) */
  function Concat(ls: seq<string>): string {
    if ls == [] then [] else ls[0] + Concat(ls[1..])
  }

  lemma {:induction false} ConcatAppend(a: seq<string>, b: seq<string>)
    ensures Concat(a + b) == Concat(a) + Concat(b)
    decreases |a|
  {
    if a != [] {
      assert (a + b)[1..] == a[1..] + b;
      ConcatAppend(a[1..], b);
    } else {
      assert a + b == b;
    }
  }

  /**
   * `readlines()` of a file whose decoded text is `c`: every line keeps
   * its terminating newline; only the last one may lack it.
   */
  function Lines(c: string): (ls: seq<string>)
    decreases |c|
  {
    if c == [] then []
    else match IndexOf(c, '\n')
      case None => [c]
      case Some(i) => [c[..i + 1]] + Lines(c[i + 1..])
  }

  /** A line as `readlines` yields it: non-empty, a newline at most at its end. */
  predicate IsLine(l: string) {
    |l| > 0 && forall k :: 0 <= k < |l| - 1 ==> l[k] != '\n'
  }

  predicate Terminated(l: string) {
    |l| > 0 && l[|l| - 1] == '\n'
  }

  /** What a list of lines looks like when `readlines` produced it */
  predicate LinesShape(ls: seq<string>) {
    && (forall i :: 0 <= i < |ls| ==> IsLine(ls[i]))
    && (forall i :: 0 <= i < |ls| - 1 ==> Terminated(ls[i]))
  }

  /** Reading the lines and joining them gives back the file. */
  lemma {:induction false} LinesConcat(c: string)
    ensures Concat(Lines(c)) == c
    decreases |c|
  {
    if c != [] {
      match IndexOf(c, '\n')
      case None =>
      case Some(i) =>
        LinesConcat(c[i + 1..]);
        assert c == c[..i + 1] + c[i + 1..];
    }
  }

  /** `readlines` always yields lines in that shape. */
  lemma {:induction false} LinesAreShaped(c: string)
    ensures LinesShape(Lines(c))
    decreases |c|
  {
    if c != [] {
      match IndexOf(c, '\n')
      case None =>
      case Some(i) =>
        LinesAreShaped(c[i + 1..]);
        var rest := Lines(c[i + 1..]);
        assert Lines(c) == [c[..i + 1]] + rest;
        if rest != [] {
          assert c[i + 1..] != [];
        }
    }
  }

  /** Joining lines in that shape and reading them again gives the same lines. */
  lemma {:induction false} ConcatLines(ls: seq<string>)
    requires LinesShape(ls)
    ensures Lines(Concat(ls)) == ls
    decreases |ls|
  {
    if ls != [] {
      var l := ls[0];
      var rest := ls[1..];
      assert LinesShape(rest) by {
        assert forall i :: 0 <= i < |rest| ==> rest[i] == ls[i + 1];
      }
      ConcatLines(rest);
      assert Concat(ls) == l + Concat(rest);
      if rest == [] {
        assert l + Concat(rest) == l;
        LineAlone(l);
      } else {
        LineInFront(l, Concat(rest));
      }
    }
  }

  /** A single line reads back as itself. */
  lemma LineAlone(l: string)
    requires IsLine(l)
    ensures Lines(l) == [l]
  {
    if IndexOf(l, '\n').Some? {
      var i := IndexOf(l, '\n').value;
      assert i == |l| - 1;
      assert l[i + 1..] == [];
      assert l[..i + 1] == l;
    }
  }

  /** A terminated line in front of more text is the first line read. */
  lemma LineInFront(l: string, more: string)
    requires IsLine(l) && Terminated(l)
    ensures Lines(l + more) == [l] + Lines(more)
  {
    var c := l + more;
    assert c != [];
    assert IndexOf(c, '\n') == Some(|l| - 1) by {
      assert c[|l| - 1] == '\n';
      assert forall k :: 0 <= k < |l| - 1 ==> c[k] == l[k];
      IndexOfFirst(c, '\n', |l| - 1);
    }
    assert c[..|l|] == l;
    assert c[|l|..] == more;
  }

  /** The lines of a file that is empty or ends with a newline are all terminated. */
  lemma TerminatedLines(c: string)
    requires c == [] || Terminated(c)
    ensures forall i :: 0 <= i < |Lines(c)| ==> Terminated(Lines(c)[i])
  {
    var ls := Lines(c);
    LinesAreShaped(c);
    LinesConcat(c);
    if ls != [] {
      var head := HeadOfShape(ls);
      var last := ls[|ls| - 1];
      assert ls == head + [last];
      LastOfConcat(c, head, last);
      forall i | 0 <= i < |ls| ensures Terminated(ls[i]) {
        if i < |head| {
          assert ls[i] == head[i];
        }
      }
    }
  }

  /** Joining line lists keeps the shape when the first is all terminated. */
  lemma ShapeJoin(a: seq<string>, b: seq<string>)
    requires LinesShape(a) && LinesShape(b)
    requires forall i :: 0 <= i < |a| ==> Terminated(a[i])
    ensures LinesShape(a + b)
  {
    var ab := a + b;
    assert forall i :: 0 <= i < |ab| ==> ab[i] == if i < |a| then a[i] else b[i - |a|];
  }

  /** After a complete last line, the lines of what follows are simply added. */
  lemma LinesJoin(a: string, b: string)
    requires a == [] || Terminated(a)
    ensures Lines(a + b) == Lines(a) + Lines(b)
  {
    var la, lb := Lines(a), Lines(b);
    TerminatedLines(a);
    LinesAreShaped(a);
    LinesAreShaped(b);
    ShapeJoin(la, lb);
    ConcatAppend(la, lb);
    LinesConcat(a);
    LinesConcat(b);
    ConcatLines(la + lb);
  }

  /** A line without a newline is read as that one line. */
  lemma SingleLine(l: string)
    requires IsLine(l) && !Terminated(l)
    ensures Lines(l) == [l]
  {
    assert forall k :: 0 <= k < |l| ==> l[k] != '\n';
    assert IndexOf(l, '\n').None?;
    assert l[|l|..] == [];
  }

  /** A leading newline reads as an empty line of its own. */
  lemma LinesAfterBlank(l: string)
    ensures Lines("\n" + l) == ["\n"] + Lines(l)
  {
    var c := "\n" + l;
    assert c[0] == '\n';
    assert IndexOf(c, '\n') == Some(0);
    assert c[..1] == "\n";
    assert c[1..] == l;
  }

  /** A file not ending with a newline is its terminated lines followed by an open one. */
  lemma OpenTail(c: string) returns (head: seq<string>, last: string)
    requires c != [] && !Terminated(c)
    ensures Lines(c) == head + [last]
    ensures c == Concat(head) + last
    ensures IsLine(last) && !Terminated(last)
    ensures LinesShape(head) && forall i :: 0 <= i < |head| ==> Terminated(head[i])
  {
    var ls := Lines(c);
    LinesAreShaped(c);
    LinesConcat(c);
    assert ls != [];
    var n := |ls| - 1;
    head := HeadOfShape(ls);
    last := ls[n];
    assert ls == head + [last];
    LastOfConcat(c, head, last);
  }

  /** Without its last line, a list of lines in shape is all terminated. */
  lemma HeadOfShape(ls: seq<string>) returns (head: seq<string>)
    requires LinesShape(ls) && ls != []
    ensures head == ls[..|ls| - 1] && IsLine(ls[|ls| - 1])
    ensures LinesShape(head) && forall i :: 0 <= i < |head| ==> Terminated(head[i])
  {
    head := ls[..|ls| - 1];
    assert forall i :: 0 <= i < |head| ==> head[i] == ls[i];
  }

  /** The last line ends the file. */
  lemma LastOfConcat(c: string, head: seq<string>, last: string)
    requires Concat(head + [last]) == c && last != []
    ensures c == Concat(head) + last && c[|c| - 1] == last[|last| - 1]
  {
    ConcatAppend(head, [last]);
    assert Concat([last]) == last + [] by {
      assert [last][1..] == [];
    }
  }

  /** Ending the open last line with a newline completes it and adds no line. */
  lemma ClosedLines(c: string, head: seq<string>, last: string)
    requires c == Concat(head) + last
    requires IsLine(last) && !Terminated(last)
    requires LinesShape(head) && forall i :: 0 <= i < |head| ==> Terminated(head[i])
    ensures Lines(c + "\n") == head + [last + "\n"]
  {
    var done := last + "\n";
    assert IsLine(done) by {
      assert forall k :: 0 <= k < |last| ==> done[k] == last[k];
    }
    assert LinesShape([done]);
    ShapeJoin(head, [done]);
    ClosedConcat(c, head, last);
    ConcatLines(head + [done]);
  }

  lemma ClosedConcat(c: string, head: seq<string>, last: string)
    requires c == Concat(head) + last
    ensures Concat(head + [last + "\n"]) == c + "\n"
  {
    var done := last + "\n";
    ConcatAppend(head, [done]);
    assert Concat([done]) == done + [] by {
      assert [done][1..] == [];
    }
    assert Concat(head) + done == (Concat(head) + last) + "\n";
  }

  lemma IndexOfFirst(s: string, c: char, i: nat)
    requires i < |s| && s[i] == c
    requires forall k :: 0 <= k < i ==> s[k] != c
    ensures IndexOf(s, c) == Some(i)
  {
    var r := IndexOf(s, c);
    if r.Some? {
      assert !(r.value < i) && !(i < r.value);
    }
  }
}
