/**
 * The string helpers of `cogs/automod.py`: escaping Discord's formatting
 * characters in a filter word, and spotting the custom-emoji marker `<:+:>`.
 */
module Formatting {
  import opened Options
  import opened Text

  /** `formatting_chars` of `escape_formatting_chars` */
  const FormattingChars: set<char> := {'*', '_', '`', '~', '#', '@', '\'', '"', '\\'}

  /** How many characters of `w` get a backslash */
  function EscapeCount(w: string): nat
    decreases |w|
  {
    if w == [] then 0 else (if w[0] in FormattingChars then 1 else 0) + EscapeCount(w[1..])
  }

  /** `escape_formatting_chars(w)`: a backslash before every formatting character */
  function Escape(w: string): (r: string)
    ensures |r| == |w| + EscapeCount(w)
    ensures w != [] && w[0] in FormattingChars ==> r[0] == '\\'
    ensures w != [] && w[0] !in FormattingChars ==> r[0] == w[0]
    decreases |w|
  {
    if w == [] then []
    else (if w[0] in FormattingChars then ['\\', w[0]] else [w[0]]) + Escape(w[1..])
  }

  /** Drop the backslash of every escape pair */
  function Unescape(r: string): string
    decreases |r|
  {
    if r == [] then []
    else if r[0] == '\\' && |r| >= 2 then [r[1]] + Unescape(r[2..])
    else [r[0]] + Unescape(r[1..])
  }

  /** Deleting the inserted backslashes gives back the word. */
  lemma {:induction false} UnescapeEscape(w: string)
    ensures Unescape(Escape(w)) == w
    decreases |w|
  {
    if w != [] {
      UnescapeEscape(w[1..]);
      if w[0] in FormattingChars {
        UnescapePair(w[0], Escape(w[1..]));
      } else {
        UnescapeSingle(w[0], Escape(w[1..]));
      }
      assert w == [w[0]] + w[1..];
    }
  }

  /** An escape pair reads back as its character. */
  lemma UnescapePair(c: char, rest: string)
    ensures Unescape(['\\', c] + rest) == [c] + Unescape(rest)
  {
    var r := ['\\', c] + rest;
    assert r[0] == '\\' && r[1] == c;
    assert r[2..] == rest;
  }

  /** A character other than the backslash reads back as itself. */
  lemma UnescapeSingle(c: char, rest: string)
    requires c != '\\'
    ensures Unescape([c] + rest) == [c] + Unescape(rest)
  {
    var r := [c] + rest;
    assert r[0] == c;
    assert r[1..] == rest;
  }

  /** Escaping adds backslashes and nothing else: characters outside the set are copied. */
  lemma {:induction false} EscapeKeepsPlain(w: string)
    requires forall k :: 0 <= k < |w| ==> w[k] !in FormattingChars
    ensures Escape(w) == w && EscapeCount(w) == 0
    decreases |w|
  {
    if w != [] {
      EscapeKeepsPlain(w[1..]);
      assert w == [w[0]] + w[1..];
    }
  }

  /** Escaping brings in no character but the backslash, and keeps the last character. */
  lemma {:induction false} EscapeChars(w: string)
    ensures forall k :: 0 <= k < |Escape(w)| ==> Escape(w)[k] == '\\' || Escape(w)[k] in w
    ensures w != [] ==> Escape(w)[|Escape(w)| - 1] == w[|w| - 1]
    decreases |w|
  {
    if w != [] {
      var rest := Escape(w[1..]);
      EscapeChars(w[1..]);
      var front := if w[0] in FormattingChars then ['\\', w[0]] else [w[0]];
      var r := front + rest;
      assert r == Escape(w);
      forall k | 0 <= k < |r| ensures r[k] == '\\' || r[k] in w {
        if k >= |front| {
          assert r[k] == rest[k - |front|];
          assert forall x :: x in w[1..] ==> x in w;
        }
      }
      if rest != [] {
        assert w[1..][|w[1..]| - 1] == w[|w| - 1];
      }
    }
  }

  /** An escaped word never starts with `#`, so its filter line is never taken for a comment. */
  lemma EscapedNeverComment(w: string)
    ensures !StartsWith(Escape(w), "#")
  {
    if w != [] {
      assert Escape(w)[0] != '#';
    }
  }

  /** The literal the pattern `\<\:\+:\>` matches */
  const EmojiMarker: string := "<:+:>"

  /** `has_custom_emoji_format`: the marker occurs somewhere. */
  predicate HasCustomEmojiFormat(text: string) {
    Contains(text, EmojiMarker)
  }

  /**
   * `find_custom_emoji`: start and end of the first marker, or
   * `(None, None)` when there is none.
   */
  function FindCustomEmoji(text: string): (r: (Option<nat>, Option<nat>))
    ensures r.0.Some? <==> HasCustomEmojiFormat(text)
    ensures r.0.None? ==> r.1.None?
    ensures r.0.Some? ==>
      && r.1 == Some(r.0.value + |EmojiMarker|)
      && r.0.value + |EmojiMarker| <= |text|
      && text[r.0.value..r.0.value + |EmojiMarker|] == EmojiMarker
      && forall j :: 0 <= j < r.0.value ==> !OccursAt(text, EmojiMarker, j)
  {
    match Find(text, EmojiMarker)
    case Some(i) => (Some(i), Some(i + |EmojiMarker|))
    case None => (None, None)
  }
}
