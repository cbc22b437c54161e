/**
 * `on_message` of `cogs/automod.py`: a message from anyone but the bot, in a
 * guild, is lower-cased and scanned for every filter word in file order; a
 * word found in the text as it stands is replaced everywhere by its
 * replacement. When at least one word was found the original is deleted and
 * the censored text is posted in its place.
 */
module Censor {
  import opened Options
  import opened Text
  import opened Formatting
  import opened FilterFile

  /** Where the scan over the words ends: the text, `send`, and whether it aborted */
  datatype Scan = Scan(text: string, send: bool, aborted: bool)

  /** Every word has a replacement */
  predicate Covered(words: seq<string>, filters: map<string, string>) {
    forall j :: 0 <= j < |words| ==> words[j] in filters
  }

  /**
   * The loop over the words from the current `text` and `send`. A found word
   * whose replacement holds the emoji marker takes the emoji branch, which
   * adds what `get_emoji` returns (never a string) to a string, so the
   * handler raises: the scan aborts. A scan that ends with `send` unset
   * found nothing and left the text alone.
   */
  function CensorLoop(text: string, send: bool, words: seq<string>, filters: map<string, string>): (r: Scan)
    requires Covered(words, filters)
    ensures !r.send ==> !send && !r.aborted && r.text == text
    ensures r.aborted ==> r.send
    decreases |words|
  {
    if words == [] then Scan(text, send, false)
    else
      var w := words[0];
      if !Contains(text, w) then CensorLoop(text, send, words[1..], filters)
      else if FindCustomEmoji(filters[w]).0.Some? then Scan(text, true, true)
      else CensorLoop(ReplaceAll(text, w, filters[w]), true, words[1..], filters)
  }

  /** How the bot reacts to a message */
  datatype Outcome =
    | OwnMessage      // the bot's own message: ignored
    | NoGuild         // a direct message: `msg.guild.id` raises, caught, ignored
    | NoFilterFile    // the guild has no filter file: `load_filter` raises
    | EmojiFailure    // the emoji branch raised; nothing is deleted or posted
    | Clean           // no filter word found: nothing happens
    | Censored(text: string)  // the message is deleted and `text` posted instead

  /** The words of a loaded file all have a replacement. */
  lemma LoadedCovered(c: string)
    ensures Covered(Words(c), Filters(c))
  {
  }

  /**
   * The reaction to a message with this author and content, in `guild`,
   * where `file` is that guild's filter file, if it has one. The guards
   * come in this order: the author, the guild, the file.
   */
  function Reaction(author: nat, botUser: nat, guild: Option<nat>, content: string, file: Option<string>): (r: Outcome)
    ensures r.OwnMessage? <==> author == botUser
    ensures r.NoGuild? <==> author != botUser && guild.None?
    ensures r.NoFilterFile? <==> author != botUser && guild.Some? && file.None?
  {
    if author == botUser then OwnMessage
    else if guild.None? then NoGuild
    else if file.None? then NoFilterFile
    else
      var c := file.value;
      LoadedCovered(c);
      var s := CensorLoop(Lower(content), false, Words(c), Filters(c));
      if s.aborted then EmojiFailure else if !s.send then Clean else Censored(s.text)
  }

  /** `on_message`, given its author, guild, content and the guild's filter file */
  method OnMessage(author: nat, botUser: nat, guild: Option<nat>, content: string, file: Option<string>)
    returns (o: Outcome)
    ensures o == Reaction(author, botUser, guild, content, file)
    ensures author == botUser ==> o == OwnMessage
    ensures author != botUser && guild.None? ==> o == NoGuild
  {
    if author == botUser {
      return OwnMessage;
    }
    if guild.None? {
      return NoGuild;
    }
    if file.None? {
      return NoFilterFile;
    }
    var filters, swrwrd := LoadFilter(file.value);
    LoadedCovered(file.value);
    var s := CensorWords(Lower(content), swrwrd, filters);
    if s.aborted {
      return EmojiFailure;
    }
    if !s.send {
      return Clean;
    }
    return Censored(s.text);
  }

  /** The loop of `on_message` over the words, from the lower-cased message `text` */
  method CensorWords(text: string, swrwrd: seq<string>, filters: map<string, string>) returns (s: Scan)
    requires Covered(swrwrd, filters)
    ensures s == CensorLoop(text, false, swrwrd, filters)
  {
    var t := text;
    var send := false;
    var i := 0;
    assert swrwrd[0..] == swrwrd;
    while i < |swrwrd|
      invariant 0 <= i <= |swrwrd|
      invariant Covered(swrwrd[i..], filters)
      invariant CensorLoop(t, send, swrwrd[i..], filters) == CensorLoop(text, false, swrwrd, filters)
    {
      var wrd := swrwrd[i];
      CensorStep(t, send, swrwrd, filters, i);
      if Contains(t, wrd) {
        var (start, end) := FindCustomEmoji(filters[wrd]);
        if start.Some? {
          return Scan(t, true, true);
        }
        t := ReplaceAll(t, wrd, filters[wrd]);
        send := true;
      }
      i := i + 1;
    }
    return Scan(t, send, false);
  }

  /** One turn of the loop, on the words from index `i` */
  lemma CensorStep(text: string, send: bool, words: seq<string>, filters: map<string, string>, i: nat)
    requires i < |words| && Covered(words[i..], filters)
    ensures Covered(words[i + 1..], filters) && words[i] in filters
    ensures CensorLoop(text, send, words[i..], filters) ==
      if !Contains(text, words[i]) then CensorLoop(text, send, words[i + 1..], filters)
      else if FindCustomEmoji(filters[words[i]]).0.Some? then Scan(text, true, true)
      else CensorLoop(ReplaceAll(text, words[i], filters[words[i]]), true, words[i + 1..], filters)
  {
    var rest := words[i..];
    assert rest[1..] == words[i + 1..];
    assert rest[0] == words[i];
  }

  /** Words that do not occur are skipped: the text and `send` stay as they are. */
  lemma {:induction false} NoMatch(text: string, send: bool, words: seq<string>, filters: map<string, string>)
    requires Covered(words, filters)
    requires forall j :: 0 <= j < |words| ==> !Contains(text, words[j])
    ensures CensorLoop(text, send, words, filters) == Scan(text, send, false)
    decreases |words|
  {
    if words != [] {
      NoMatch(text, send, words[1..], filters);
    }
  }

  /**
   * Until a word is found the text is the lower-cased message itself, so the
   * first word that occurs in it decides: it aborts on the emoji branch, or
   * it is replaced and the scan goes on with `send` set.
   */
  lemma {:induction false} FirstMatchDecides(text: string, send: bool, words: seq<string>, filters: map<string, string>, j: nat)
    requires Covered(words, filters)
    requires j < |words| && Contains(text, words[j])
    requires forall m :: 0 <= m < j ==> !Contains(text, words[m])
    ensures CensorLoop(text, send, words, filters) ==
      if HasCustomEmojiFormat(filters[words[j]]) then Scan(text, true, true)
      else CensorLoop(ReplaceAll(text, words[j], filters[words[j]]), true, words[j + 1..], filters)
    decreases j
  {
    if j > 0 {
      FirstMatchDecides(text, send, words[1..], filters, j - 1);
      assert words[1..][j..] == words[j + 1..];
    }
  }

  /** Once a word was found, `send` stays set, unless the scan aborts. */
  lemma {:induction false} SendSticks(text: string, words: seq<string>, filters: map<string, string>)
    requires Covered(words, filters)
    ensures CensorLoop(text, true, words, filters).send
    decreases |words|
  {
    if words != [] && !Contains(text, words[0]) {
      SendSticks(text, words[1..], filters);
    } else if words != [] && FindCustomEmoji(filters[words[0]]).0.None? {
      SendSticks(ReplaceAll(text, words[0], filters[words[0]]), words[1..], filters);
    }
  }

  /** Without the emoji marker in any replacement the scan never aborts. */
  lemma {:induction false} MarkerFreeNoAbort(text: string, send: bool, words: seq<string>, filters: map<string, string>)
    requires Covered(words, filters)
    requires forall k :: k in filters ==> !HasCustomEmojiFormat(filters[k])
    ensures !CensorLoop(text, send, words, filters).aborted
    decreases |words|
  {
    if words != [] {
      var w := words[0];
      MarkerFreeNoAbort(text, send, words[1..], filters);
      MarkerFreeNoAbort(ReplaceAll(text, w, filters[w]), true, words[1..], filters);
    }
  }

  /**
   * A message that passes the guards in a guild with a filter file is left
   * alone exactly when no filter word occurs in its lower-cased text.
   */
  lemma CleanIffNoWord(author: nat, botUser: nat, gid: nat, content: string, c: string)
    requires author != botUser
    ensures Reaction(author, botUser, Some(gid), content, Some(c)) == Clean <==>
      forall j :: 0 <= j < |Words(c)| ==> !Contains(Lower(content), Words(c)[j])
  {
    var text, words, filters := Lower(content), Words(c), Filters(c);
    LoadedCovered(c);
    if forall j :: 0 <= j < |words| ==> !Contains(text, words[j]) {
      NoMatch(text, false, words, filters);
    } else {
      FoundNotClean(text, words, filters);
    }
  }

  /** When some word occurs, the scan sets `send` or aborts. */
  lemma FoundNotClean(text: string, words: seq<string>, filters: map<string, string>)
    requires Covered(words, filters)
    requires exists j :: 0 <= j < |words| && Contains(text, words[j])
    ensures CensorLoop(text, false, words, filters).send || CensorLoop(text, false, words, filters).aborted
  {
    var j := FirstFound(text, words);
    FirstMatchDecides(text, false, words, filters, j);
    if !HasCustomEmojiFormat(filters[words[j]]) {
      SendSticks(ReplaceAll(text, words[j], filters[words[j]]), words[j + 1..], filters);
    }
  }

  /** The first word that occurs, when one does */
  lemma FirstFound(text: string, words: seq<string>) returns (j: nat)
    requires exists j :: 0 <= j < |words| && Contains(text, words[j])
    ensures j < |words| && Contains(text, words[j])
    ensures forall m :: 0 <= m < j ==> !Contains(text, words[m])
  {
    j := 0;
    while !Contains(text, words[j])
      invariant j < |words|
      invariant forall m :: 0 <= m < j ==> !Contains(text, words[m])
      invariant exists k :: j <= k < |words| && Contains(text, words[k])
      decreases |words| - j
    {
      j := j + 1;
    }
  }

  /**
   * With no emoji marker among the replacements, a message that passes the
   * guards is censored exactly when some filter word occurs in it.
   */
  lemma CensoredIffWord(author: nat, botUser: nat, gid: nat, content: string, c: string)
    requires author != botUser
    requires forall k :: k in Filters(c) ==> !HasCustomEmojiFormat(Filters(c)[k])
    ensures Reaction(author, botUser, Some(gid), content, Some(c)).Censored? <==>
      exists j :: 0 <= j < |Words(c)| && Contains(Lower(content), Words(c)[j])
  {
    MarkerFreeNoAbort(Lower(content), false, Words(c), Filters(c));
    CleanIffNoWord(author, botUser, gid, content, c);
  }

  /** A replacement equal to its word changes nothing in the text. */
  lemma {:induction false} SelfReplacementKeepsText(text: string, send: bool, words: seq<string>, filters: map<string, string>)
    requires Covered(words, filters)
    requires forall k :: k in filters ==> filters[k] == k
    ensures CensorLoop(text, send, words, filters).text == text
    decreases |words|
  {
    if words != [] {
      var w := words[0];
      ReplaceBySelf(text, w);
      SelfReplacementKeepsText(text, send, words[1..], filters);
      SelfReplacementKeepsText(text, true, words[1..], filters);
    }
  }
}
