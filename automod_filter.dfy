/**
 * The per-guild filter file of `cogs/automod.py`. Each line `word-replacement`
 * names a word to censor and what replaces it; lines starting with `#` and
 * lines without a dash are ignored. `load_filter` reads the words in file
 * order and a dictionary from each word to its replacement;
 * `add_filterword` appends a line and `remove_filterword` rewrites the file
 * without the lines that start with the word.
 */
module FilterFile {
  import opened Options
  import opened Text
  import opened Formatting

  /** The test `load_filter` puts a line to: not a comment, and has a dash */
  predicate Keeps(l: string) {
    !StartsWith(l, "#") && '-' in l
  }

  /** Stripping whitespace leaves the dash in place. */
  lemma DashSurvives(l: string)
    requires '-' in l
    ensures '-' in StripSpace(l)
  {
    var k :| 0 <= k < |l| && l[k] == '-';
    StripKeeps(l, Whitespace, k);
  }

  /** `procfilt`: the kept lines, stripped, in file order */
  function Kept(ls: seq<string>): (p: seq<string>)
    ensures |p| <= |ls|
    ensures forall j :: 0 <= j < |p| ==> '-' in p[j]
    decreases |ls|
  {
    if ls == [] then []
    else
      var l := ls[|ls| - 1];
      if Keeps(l) then
        DashSurvives(l);
        Kept(ls[..|ls| - 1]) + [StripSpace(l)]
      else Kept(ls[..|ls| - 1])
  }

  lemma {:induction false} KeptAppend(a: seq<string>, b: seq<string>)
    ensures Kept(a + b) == Kept(a) + Kept(b)
    decreases |b|
  {
    if b == [] {
      assert a + b == a;
    } else {
      var init := b[..|b| - 1];
      assert (a + b)[..|a + b| - 1] == a + init;
      assert (a + b)[|a + b| - 1] == b[|b| - 1];
      KeptAppend(a, init);
    }
  }

  lemma KeptOne(l: string)
    ensures Kept([l]) == if Keeps(l) then [StripSpace(l)] else []
  {
    assert [l][..0] == [];
  }

  /** `l.split('-', 1)`: the text before the first dash and the text after it */
  function SplitDash(l: string): (string, string) {
    match IndexOf(l, '-')
    case None => (l, [])
    case Some(i) => (l[..i], l[i + 1..])
  }

  /** Joining the two halves with a dash gives back the line, and the word has no dash. */
  lemma SplitDashJoin(l: string)
    requires '-' in l
    ensures SplitDash(l).0 + "-" + SplitDash(l).1 == l
    ensures '-' !in SplitDash(l).0
  {
    var i := IndexOf(l, '-').value;
    assert l == l[..i] + [l[i]] + l[i + 1..];
  }

  /** A word without a dash comes back out of its line unchanged. */
  lemma SplitDashOfJoin(w: string, f: string)
    requires '-' !in w
    ensures SplitDash(w + "-" + f) == (w, f)
  {
    var l := w + "-" + f;
    IndexOfFirst(l, '-', |w|);
    assert l[..|w|] == w && l[|w| + 1..] == f;
  }

  /** `swrwrd`: the word of every entry */
  function Keys(p: seq<string>): (ks: seq<string>)
    ensures |ks| == |p|
  {
    seq(|p|, j requires 0 <= j < |p| => SplitDash(p[j]).0)
  }

  /** `replword`: the replacement of every entry */
  function Replacements(p: seq<string>): (vs: seq<string>)
    ensures |vs| == |p|
  {
    seq(|p|, j requires 0 <= j < |p| => SplitDash(p[j]).1)
  }

  /** `dict(zip(ks, vs))`: a later key overwrites an earlier one */
  function ZipMap(ks: seq<string>, vs: seq<string>): (m: map<string, string>)
    requires |ks| == |vs|
    ensures forall k :: k in m <==> k in ks
    decreases |ks|
  {
    if ks == [] then map[]
    else
      var n := |ks| - 1;
      assert forall k :: k in ks <==> k in ks[..n] || k == ks[n] by {
        assert ks == ks[..n] + [ks[n]];
      }
      ZipMap(ks[..n], vs[..n])[ks[n] := vs[n]]
  }

  /** The value a word gets is the one of its last occurrence. */
  lemma {:induction false} ZipMapLastWins(ks: seq<string>, vs: seq<string>, j: nat)
    requires |ks| == |vs| && j < |ks|
    requires forall m :: j < m < |ks| ==> ks[m] != ks[j]
    ensures ZipMap(ks, vs)[ks[j]] == vs[j]
    decreases |ks|
  {
    var n := |ks| - 1;
    var ki, vi := ks[..n], vs[..n];
    assert ZipMap(ks, vs) == ZipMap(ki, vi)[ks[n] := vs[n]];
    if j < n {
      assert ki[j] == ks[j] && vi[j] == vs[j] && ks[j] != ks[n];
      assert forall m :: j < m < n ==> ki[m] == ks[m];
      ZipMapLastWins(ki, vi, j);
    }
  }

  /** The stripped entries of a file */
  function Entries(c: string): seq<string> {
    Kept(Lines(c))
  }

  /** The words `load_filter` returns, in file order and with repetitions */
  function Words(c: string): seq<string> {
    Keys(Entries(c))
  }

  /** The dictionary `load_filter` returns */
  function Filters(c: string): map<string, string> {
    ZipMap(Keys(Entries(c)), Replacements(Entries(c)))
  }

  /**
   * `load_filter` on a file whose content is `content`: the lines are read,
   * filtered and stripped, then split at their first dash.
   */
  method LoadFilter(content: string) returns (filters: map<string, string>, words: seq<string>)
    ensures words == Words(content)
    ensures filters == Filters(content)
  {
    var rawfilt := Lines(content);
    var procfilt: seq<string> := [];
    var i := 0;
    while i < |rawfilt|
      invariant 0 <= i <= |rawfilt|
      invariant procfilt == Kept(rawfilt[..i])
    {
      var l := rawfilt[i];
      KeptStep(rawfilt, i);
      if Keeps(l) {
        procfilt := procfilt + [StripSpace(l)];
      }
      i := i + 1;
    }
    assert rawfilt[..i] == rawfilt;
    var replword: seq<string> := [];
    words := [];
    var j := 0;
    while j < |procfilt|
      invariant 0 <= j <= |procfilt|
      invariant words == Keys(procfilt[..j])
      invariant replword == Replacements(procfilt[..j])
    {
      var tmpl := SplitDash(procfilt[j]);
      SplitStep(procfilt, j);
      replword := replword + [tmpl.1];
      words := words + [tmpl.0];
      j := j + 1;
    }
    assert procfilt[..j] == procfilt;
    filters := ZipMap(words, replword);
  }

  lemma KeptStep(ls: seq<string>, i: nat)
    requires i < |ls|
    ensures Kept(ls[..i + 1]) == Kept(ls[..i]) + if Keeps(ls[i]) then [StripSpace(ls[i])] else []
  {
    assert ls[..i + 1][..i] == ls[..i];
  }

  lemma SplitStep(p: seq<string>, j: nat)
    requires j < |p|
    ensures Keys(p[..j + 1]) == Keys(p[..j]) + [SplitDash(p[j]).0]
    ensures Replacements(p[..j + 1]) == Replacements(p[..j]) + [SplitDash(p[j]).1]
  {
    assert p[..j + 1] == p[..j] + [p[j]];
    SplitSnoc(p[..j], p[j]);
  }

  /**
   * What `load_filter` returns means this: every entry is its word, a dash and
   * its replacement; the dictionary has the words as keys, and a word that
   * appears more than once is mapped to the replacement of its last entry.
   */
  lemma LoadedEntries(c: string, j: nat)
    requires j < |Words(c)|
    requires forall m :: j < m < |Words(c)| ==> Words(c)[m] != Words(c)[j]
    ensures forall k :: k in Filters(c) <==> k in Words(c)
    ensures Entries(c)[j] == Words(c)[j] + "-" + Replacements(Entries(c))[j]
    ensures '-' !in Words(c)[j]
    ensures Filters(c)[Words(c)[j]] == Replacements(Entries(c))[j]
  {
    var p := Entries(c);
    SplitDashJoin(p[j]);
    ZipMapLastWins(Keys(p), Replacements(p), j);
  }

  /**
   * Writing `"\n" + l` at the end of a file that is empty or ends with a
   * newline adds an empty line, which is ignored, and then `l`.
   */
  lemma AppendAfterNewline(c: string, l: string)
    requires c == [] || Terminated(c)
    requires IsLine(l) && !Terminated(l)
    ensures Entries(c + "\n" + l) == Entries(c) + Kept([l])
  {
    NewlineLines(c, l);
    KeptAppend(Lines(c), ["\n", l]);
    KeptAppend(["\n"], [l]);
    KeptOne("\n");
  }

  /** The lines after writing `"\n" + l` behind a complete last line */
  lemma NewlineLines(c: string, l: string)
    requires c == [] || Terminated(c)
    requires IsLine(l) && !Terminated(l)
    ensures Lines(c + "\n" + l) == Lines(c) + ["\n", l]
  {
    assert c + "\n" + l == c + ("\n" + l);
    LinesJoin(c, "\n" + l);
    LinesAfterBlank(l);
    SingleLine(l);
    assert ["\n"] + [l] == ["\n", l];
  }

  /** Completing the open last line with a newline does not change its entry. */
  lemma CloseLine(last: string)
    requires IsLine(last) && !Terminated(last)
    ensures Kept([last + "\n"]) == Kept([last])
  {
    var done := last + "\n";
    CloseLineKeeps(last);
    KeptOne(done);
    KeptOne(last);
    StripDropLast(last, '\n', Whitespace);
  }

  lemma CloseLineKeeps(last: string)
    requires last != []
    ensures Keeps(last + "\n") == Keeps(last)
  {
    var done := last + "\n";
    assert done[..1] == last[..1];
    assert forall k :: 0 <= k < |last| ==> done[k] == last[k];
    assert done[|last|] != '-';
  }

  /** Ending an open last line with a newline keeps the entries of the file. */
  lemma ClosedEntries(c: string)
    requires c != [] && !Terminated(c)
    ensures Entries(c + "\n") == Entries(c)
  {
    var head, last := OpenTail(c);
    ClosedLines(c, head, last);
    CloseLine(last);
    KeptAppend(head, [last + "\n"]);
    KeptAppend(head, [last]);
  }

  /**
   * Writing `"\n" + l` at the end of a file whose last line has no newline
   * completes that line, which then reads as before, and adds `l`.
   */
  lemma AppendAfterOpenLine(c: string, l: string)
    requires c != [] && !Terminated(c)
    requires IsLine(l) && !Terminated(l)
    ensures Entries(c + "\n" + l) == Entries(c) + Kept([l])
  {
    var closed := c + "\n";
    assert Terminated(closed);
    assert c + "\n" + l == closed + l;
    LinesJoin(closed, l);
    SingleLine(l);
    KeptAppend(Lines(closed), [l]);
    ClosedEntries(c);
  }

  /** Appending `"\n" + l` adds the entry of `l`, whatever the file ended with. */
  lemma AppendLine(c: string, l: string)
    requires IsLine(l) && !Terminated(l)
    ensures Entries(c + "\n" + l) == Entries(c) + Kept([l])
  {
    if c == [] || Terminated(c) {
      AppendAfterNewline(c, l);
    } else {
      AppendAfterOpenLine(c, l);
    }
  }

  /** A word and replacement whose line `load_filter` reads back as exactly this pair */
  predicate Storable(w: string, f: string) {
    && '\n' !in w && '\n' !in f && '-' !in w
    && (w != [] ==> w[0] != '#' && w[0] !in Whitespace)
    && (f != [] ==> f[|f| - 1] !in Whitespace)
  }

  /** The line of a storable pair is one open line. */
  lemma EntryIsLine(w: string, f: string)
    requires '\n' !in w && '\n' !in f
    ensures var l := w + "-" + f; IsLine(l) && !Terminated(l)
  {
    var l := w + "-" + f;
    assert '\n' !in l;
    assert l[|l| - 1] in l;
  }

  /** The line of a storable pair is kept as it is: no comment, a dash, no whitespace at its ends. */
  lemma EntryKept(w: string, f: string)
    requires Storable(w, f)
    ensures var l := w + "-" + f; Keeps(l) && StripSpace(l) == l
  {
    var l := w + "-" + f;
    assert l[0] == if w != [] then w[0] else '-';
    assert l[|l| - 1] == if f != [] then f[|f| - 1] else '-';
    assert l[|w|] == '-';
    assert l[..1] != "#";
    assert [] + l + [] == l;
    StripExact([], l, [], Whitespace);
  }

  /** The line of a storable pair is an entry of its own, and splits back into the pair. */
  lemma EntryReadsBack(w: string, f: string)
    requires Storable(w, f)
    ensures var l := w + "-" + f;
      IsLine(l) && !Terminated(l) && Kept([l]) == [l] && SplitDash(l) == (w, f)
  {
    var l := w + "-" + f;
    EntryIsLine(w, f);
    EntryKept(w, f);
    KeptOne(l);
    SplitDashOfJoin(w, f);
  }

  /** The line `f'{word}-{filtered}'` */
  function EntryLine(w: string, f: string): string {
    w + "-" + f
  }

  /**
   * The file after `add_filterword` stored the normalised pair `w`, `f`. The
   * file is opened for appending, so its old content stays in front; it is
   * unchanged exactly when the word is already listed.
   */
  function AddedContent(c: string, w: string, f: string): (r: string)
    ensures c <= r
    ensures r == c <==> w in Words(c)
  {
    if w in Words(c) then c else c + "\n" + EntryLine(w, f)
  }

  /**
   * Adding a storable pair and reading the file back: a word already listed
   * leaves words and dictionary as they were; a new word is appended to the
   * words, and the dictionary maps it to its replacement.
   */
  lemma AddThenLoad(c: string, w: string, f: string)
    requires Storable(w, f)
    ensures Words(AddedContent(c, w, f)) == if w in Words(c) then Words(c) else Words(c) + [w]
    ensures Filters(AddedContent(c, w, f)) == if w in Words(c) then Filters(c) else Filters(c)[w := f]
  {
    if w !in Words(c) {
      var l := EntryLine(w, f);
      AddedEntries(c, w, f);
      var e := Entries(c);
      SplitSnoc(e, l);
      ZipMapSnoc(Keys(e), Replacements(e), w, f);
    }
  }

  /** A new storable pair adds exactly its own line to the entries. */
  lemma AddedEntries(c: string, w: string, f: string)
    requires Storable(w, f) && w !in Words(c)
    ensures Entries(AddedContent(c, w, f)) == Entries(c) + [EntryLine(w, f)]
    ensures SplitDash(EntryLine(w, f)) == (w, f)
  {
    EntryReadsBack(w, f);
    AppendLine(c, EntryLine(w, f));
  }

  lemma SplitSnoc(e: seq<string>, l: string)
    ensures Keys(e + [l]) == Keys(e) + [SplitDash(l).0]
    ensures Replacements(e + [l]) == Replacements(e) + [SplitDash(l).1]
  {
  }

  lemma ZipMapSnoc(ks: seq<string>, vs: seq<string>, k: string, v: string)
    requires |ks| == |vs|
    ensures ZipMap(ks + [k], vs + [v]) == ZipMap(ks, vs)[k := v]
  {
    assert (ks + [k])[..|ks|] == ks && (vs + [v])[..|vs|] == vs;
  }

  /** How `add_filterword` writes a word or a replacement: lower-cased, and escaped unless it holds the emoji marker */
  function Normalise(x: string): (r: string)
    ensures HasCustomEmojiFormat(x) ==> r == Lower(x)
    ensures !HasCustomEmojiFormat(x) ==> Unescape(r) == Lower(x) && |r| == |x| + EscapeCount(Lower(x))
  {
    if HasCustomEmojiFormat(x) then Lower(x)
    else
      UnescapeEscape(Lower(x));
      Escape(Lower(x))
  }

  /** Lower-casing changes letters only, so it keeps newlines, dashes, `#` and whitespace. */
  lemma LowerKeepsMarks(x: string)
    ensures forall k :: 0 <= k < |x| ==>
      && (Lower(x)[k] == '\n' <==> x[k] == '\n')
      && (Lower(x)[k] == '-' <==> x[k] == '-')
      && (Lower(x)[k] == '#' <==> x[k] == '#')
      && (Lower(x)[k] in Whitespace <==> x[k] in Whitespace)
  {
  }

  /** Normalising brings in no newline and no dash. */
  lemma NormaliseNoMark(x: string)
    ensures '\n' !in x ==> '\n' !in Normalise(x)
    ensures '-' !in x ==> '-' !in Normalise(x)
  {
    var lx := Lower(x);
    LowerKeepsMarks(x);
    assert '\n' !in x ==> '\n' !in lx;
    assert '-' !in x ==> '-' !in lx;
    EscapeChars(lx);
  }

  /** A normalised text starts with neither whitespace nor, when it was escaped, `#`. */
  lemma NormaliseStart(x: string)
    requires x != [] ==> x[0] !in Whitespace && (HasCustomEmojiFormat(x) ==> x[0] != '#')
    ensures Normalise(x) != [] ==> Normalise(x)[0] !in Whitespace && Normalise(x)[0] != '#'
  {
    var lx := Lower(x);
    LowerKeepsMarks(x);
    if x != [] && !HasCustomEmojiFormat(x) {
      EscapedNeverComment(lx);
      var r := Escape(lx);
      assert r[0] == '\\' || r[0] == lx[0];
      assert r[..1] != "#";
    }
  }

  /** Normalising keeps the last character, so a text not ending in whitespace still does not. */
  lemma NormaliseEnd(x: string)
    requires x != [] ==> x[|x| - 1] !in Whitespace
    ensures Normalise(x) != [] ==> Normalise(x)[|Normalise(x)| - 1] !in Whitespace
  {
    var lx := Lower(x);
    LowerKeepsMarks(x);
    EscapeChars(lx);
  }

  /**
   * What the command's two arguments must look like for the stored pair to
   * read back as itself: no newline in either, no dash in the word, and no
   * whitespace at the outer ends; an emoji-marked word is stored unescaped and
   * so must not start with `#`.
   */
  lemma NormaliseStorable(word: string, filtered: string)
    requires '\n' !in word && '\n' !in filtered && '-' !in word
    requires word != [] ==> word[0] !in Whitespace && (HasCustomEmojiFormat(word) ==> word[0] != '#')
    requires filtered != [] ==> filtered[|filtered| - 1] !in Whitespace
    ensures Storable(Normalise(word), Normalise(filtered))
  {
    NormaliseNoMark(word);
    NormaliseNoMark(filtered);
    NormaliseStart(word);
    NormaliseEnd(filtered);
  }

  /** A line `remove_filterword` writes back: it does not start with the word and is not blank */
  predicate Rewritten(l: string, word: string) {
    !StartsWith(l, word) && !IsSpace(l)
  }

  /**
   * The lines written back, in order: every line that neither starts with
   * the word nor is blank, and no other line.
   */
  function KeepLines(ls: seq<string>, word: string): (r: seq<string>)
    ensures |r| <= |ls|
    ensures forall j :: 0 <= j < |r| ==> r[j] in ls && Rewritten(r[j], word)
    ensures forall l :: l in ls && Rewritten(l, word) ==> l in r
    decreases |ls|
  {
    if ls == [] then []
    else
      var n := |ls| - 1;
      assert forall x :: x in ls[..n] ==> x in ls;
      assert forall x :: x in ls ==> x in ls[..n] || x == ls[n] by {
        assert ls == ls[..n] + [ls[n]];
      }
      KeepLines(ls[..n], word) + (if Rewritten(ls[n], word) then [ls[n]] else [])
  }

  /** The rewrite works line by line, so the kept lines keep the file's order. */
  lemma {:induction false} KeepLinesAppend(a: seq<string>, b: seq<string>, word: string)
    ensures KeepLines(a + b, word) == KeepLines(a, word) + KeepLines(b, word)
    decreases |b|
  {
    if b == [] {
      assert a + b == a;
    } else {
      var init := b[..|b| - 1];
      assert (a + b)[..|a + b| - 1] == a + init;
      assert (a + b)[|a + b| - 1] == b[|b| - 1];
      KeepLinesAppend(a, init, word);
    }
  }

  /** A single line is written back exactly when it is neither the word's nor blank. */
  lemma KeepLinesOne(l: string, word: string)
    ensures KeepLines([l], word) == if Rewritten(l, word) then [l] else []
  {
    assert [l][..0] == [];
  }

  lemma KeepLinesStep(lines: seq<string>, i: nat, word: string)
    requires i < |lines|
    ensures Concat(KeepLines(lines[..i + 1], word)) ==
      Concat(KeepLines(lines[..i], word)) + (if Rewritten(lines[i], word) then lines[i] else [])
  {
    var l := lines[i];
    assert lines[..i + 1][..i] == lines[..i];
    var kept := if Rewritten(l, word) then [l] else [];
    ConcatAppend(KeepLines(lines[..i], word), kept);
    assert Concat([l]) == l + [] by {
      assert [l][1..] == [];
    }
  }

  /** The file after `remove_filterword(word)`; it is rewritten only when the word is listed */
  function RemovedContent(c: string, word: string): string {
    if word in Words(c) then Concat(KeepLines(Lines(c), word)) else c
  }

  /** Dropping lines keeps the shape: only the last line may lack its newline. */
  lemma {:induction false} KeepLinesShaped(ls: seq<string>, word: string)
    requires LinesShape(ls)
    ensures LinesShape(KeepLines(ls, word))
    decreases |ls|
  {
    if ls != [] {
      var n := |ls| - 1;
      var init := ls[..n];
      assert LinesShape(init);
      KeepLinesShaped(init, word);
      var k := KeepLines(init, word);
      assert forall j :: 0 <= j < |k| ==> Terminated(k[j]) by {
        forall j | 0 <= j < |k| ensures Terminated(k[j]) {
          var x := k[j];
          assert x in init;
          var m :| 0 <= m < n && init[m] == x;
          assert ls[m] == x;
        }
      }
      ShapeJoin(k, if Rewritten(ls[n], word) then [ls[n]] else []);
    }
  }

  /** Reading back the rewritten file gives exactly the lines that were kept. */
  lemma RemoveRereads(c: string, word: string)
    requires word in Words(c)
    ensures Lines(RemovedContent(c, word)) == KeepLines(Lines(c), word)
  {
    LinesAreShaped(c);
    KeepLinesShaped(Lines(c), word);
    ConcatLines(KeepLines(Lines(c), word));
  }

  /**
   * A line of another entry survives the removal: every line that neither
   * starts with the word nor is blank is still a line of the rewritten file.
   */
  lemma RemoveKeepsOthers(c: string, word: string, l: string)
    requires word in Words(c)
    requires l in Lines(c) && Rewritten(l, word)
    ensures l in Lines(RemovedContent(c, word))
  {
    RemoveRereads(c, word);
  }

  /** The entry of an unindented line starts like the line. */
  lemma EntryOfUnindented(l: string)
    requires l != [] && l[0] !in Whitespace && '-' in l
    ensures StartsWith(l, SplitDash(StripSpace(l)).0)
  {
    var r := StripSpace(l);
    var i := StripSlice(l, Whitespace);
    assert i == 0;
    DashSurvives(l);
    var w := SplitDash(r).0;
    SplitDashJoin(r);
    assert r[..|w|] == w;
    assert l[..|w|] == r[..|w|];
  }

  lemma NoEntryStep(p: seq<string>, l: string, word: string)
    requires word !in Keys(p)
    requires Rewritten(l, word) && (l == [] || l[0] !in Whitespace)
    ensures word !in Keys(p + Kept([l]))
  {
    KeptOne(l);
    if Keeps(l) {
      EntryOfUnindented(l);
      var e := StripSpace(l);
      assert Keys(p + [e]) == Keys(p) + [SplitDash(e).0];
    } else {
      assert p + Kept([l]) == p;
    }
  }

  /** No kept line yields an entry for the word, as long as no line is indented. */
  lemma {:induction false} NoEntryFor(ls: seq<string>, word: string)
    requires forall j :: 0 <= j < |ls| ==> Rewritten(ls[j], word)
    requires forall j :: 0 <= j < |ls| ==> ls[j] == [] || ls[j][0] !in Whitespace
    ensures word !in Keys(Kept(ls))
    decreases |ls|
  {
    if ls != [] {
      var n := |ls| - 1;
      var init, l := ls[..n], ls[n];
      NoEntryFor(init, word);
      assert ls == init + [l];
      KeptAppend(init, [l]);
      NoEntryStep(Kept(init), l, word);
    }
  }

  /**
   * After `remove_filterword(word)` the word is no longer listed, provided
   * no line of the file starts with whitespace: an indented entry does not
   * start with the word and is kept.
   */
  lemma RemoveClears(c: string, word: string)
    requires word in Words(c)
    requires forall j :: 0 <= j < |Lines(c)| ==> Lines(c)[j] == [] || Lines(c)[j][0] !in Whitespace
    ensures word !in Words(RemovedContent(c, word))
  {
    RemoveRereads(c, word);
    LinesAreShaped(c);
    var k := KeepLines(Lines(c), word);
    forall j | 0 <= j < |k| ensures k[j] == [] || k[j][0] !in Whitespace {
      var m :| 0 <= m < |Lines(c)| && Lines(c)[m] == k[j];
    }
    NoEntryFor(k, word);
  }

  /**
   * One guild's filter file, `data/guilds/{gid}/filters.txt`: whether it
   * exists, and its text.
   */
  class FilterStore {
    var present: bool
    var content: string

    constructor(present: bool, content: string)
      ensures this.present == present && this.content == content
    {
      this.present := present;
      this.content := content;
    }

    /**
     * `add_filterword`: the normalised word and replacement, and whether
     * the command went through. Without a file the first `load_filter`
     * raises and nothing is written.
     */
    method AddFilterword(word: string, filtered: string) returns (ok: bool, stored: string, replacement: string)
      modifies this
      ensures present == old(present) && ok == present
      ensures stored == Normalise(word) && replacement == Normalise(filtered)
      ensures content == if ok then AddedContent(old(content), stored, replacement) else old(content)
    {
      stored, replacement := Normalise(word), Normalise(filtered);
      if !present {
        return false, stored, replacement;
      }
      var filters, swrwrd := LoadFilter(content);
      if stored !in swrwrd {
        content := content + "\n" + EntryLine(stored, replacement);
      }
      ok := true;
    }

    /**
     * `remove_filterword`: when the word is listed, the file is rewritten
     * without the lines that start with it and without blank lines.
     */
    method RemoveFilterword(word: string) returns (ok: bool)
      modifies this
      ensures present == old(present) && ok == present
      ensures content == if ok then RemovedContent(old(content), word) else old(content)
    {
      if !present {
        return false;
      }
      var filters, swrwrd := LoadFilter(content);
      if word in swrwrd {
        var lines := Lines(content);
        var written := "";
        var i := 0;
        while i < |lines|
          invariant 0 <= i <= |lines|
          invariant written == Concat(KeepLines(lines[..i], word))
          invariant present == old(present)
        {
          var l := lines[i];
          KeepLinesStep(lines, i, word);
          if !StartsWith(l, word) && !IsSpace(l) {
            written := written + l;
          }
          i := i + 1;
        }
        assert lines[..i] == lines;
        content := written;
      }
      ok := true;
    }
  }
}
