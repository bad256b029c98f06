/**
 * The argument checks of the `announce` command: a plain-text announcement
 * needs a message, and an embed's colour is read as a hexadecimal number after
 * every `#` is removed, the way Python's `int(s, 16)` reads it.
 */
module Announce {
  import opened Wrappers
  import Numerals

  /** The ASCII characters `int()` skips around an integer literal: space,
      tab, line feed, vertical tab, form feed and carriage return. The
      separators 28-31 count as whitespace for `str.isspace()` but not here. */
  predicate IsSpace(c: char)
  {
    var n := c as int;
    n == 32 || 9 <= n <= 13
  }

  predicate IsHexDigit(c: char)
  {
    Numerals.IsDigit(c, 16)
  }

  /** Some character of `s` is a hexadecimal digit. */
  predicate HasHexDigit(s: string)
  {
    exists i :: 0 <= i < |s| && IsHexDigit(s[i])
  }

  /** `s.replace(c, "")` for a single character `c`. */
  function RemoveChar(s: string, c: char): (r: string)
    ensures forall i :: 0 <= i < |r| ==> r[i] != c
    decreases |s|
  {
    if s == [] then []
    else if s[0] == c then RemoveChar(s[1..], c)
    else [s[0]] + RemoveChar(s[1..], c)
  }

  /** A string without `c` is left as it is. */
  lemma {:induction false} RemoveCharAbsent(s: string, c: char)
    requires forall i :: 0 <= i < |s| ==> s[i] != c
    ensures RemoveChar(s, c) == s
    decreases |s|
  {
    if s != [] {
      RemoveCharAbsent(s[1..], c);
    }
  }

  /** Hexadecimal digits and underscores, with the underscores taken out, are
      hexadecimal digits only. */
  lemma {:induction false} UnderscoresRemoved(s: string)
    requires forall i :: 0 <= i < |s| ==> IsHexDigit(s[i]) || s[i] == '_'
    ensures forall i :: 0 <= i < |RemoveChar(s, '_')| ==> IsHexDigit(RemoveChar(s, '_')[i])
    decreases |s|
  {
    if s != [] {
      UnderscoresRemoved(s[1..]);
    }
  }

  /** Removing a character from a concatenation removes it from each part. */
  lemma {:induction false} RemoveCharAppend(a: string, b: string, c: char)
    ensures RemoveChar(a + b, c) == RemoveChar(a, c) + RemoveChar(b, c)
    decreases |a|
  {
    if a != [] {
      assert (a + b)[0] == a[0];
      assert (a + b)[1..] == a[1..] + b;
      RemoveCharAppend(a[1..], b, c);
    } else {
      assert a + b == b;
    }
  }

  /** `s.lstrip()`, for the ASCII whitespace. */
  function TrimStart(s: string): string
    decreases |s|
  {
    if s != [] && IsSpace(s[0]) then TrimStart(s[1..]) else s
  }

  /** `s.rstrip()`, for the ASCII whitespace. */
  function TrimEnd(s: string): string
    decreases |s|
  {
    if s != [] && IsSpace(s[|s| - 1]) then TrimEnd(s[..|s| - 1]) else s
  }

  /** Hexadecimal digits with single underscores between them: no underscore
      first, last or next to another. */
  predicate Grouped(s: string)
    decreases |s|
  {
    |s| > 0 && IsHexDigit(s[0]) &&
    (|s| == 1 || Grouped(s[1..]) || (s[1] == '_' && Grouped(s[2..])))
  }

  /** A grouped string holds only digits and underscores. */
  lemma {:induction false} GroupedChars(s: string)
    requires Grouped(s)
    ensures forall i :: 0 <= i < |s| ==> IsHexDigit(s[i]) || s[i] == '_'
    decreases |s|
  {
    if |s| > 1 {
      if Grouped(s[1..]) {
        GroupedChars(s[1..]);
        assert forall i :: 1 <= i < |s| ==> s[i] == s[1..][i - 1];
      } else {
        GroupedChars(s[2..]);
        assert forall i :: 2 <= i < |s| ==> s[i] == s[2..][i - 2];
      }
    }
  }

  /** Digits without underscores are grouped. */
  lemma {:induction false} DigitsGrouped(s: string)
    requires |s| > 0 && forall i :: 0 <= i < |s| ==> IsHexDigit(s[i])
    ensures Grouped(s)
    decreases |s|
  {
    if |s| > 1 {
      DigitsGrouped(s[1..]);
    }
  }

  /** What is left after an optional `0x` or `0X` prefix and the one underscore
      allowed straight after it. */
  function AfterPrefix(s: string): string
  {
    if |s| >= 2 && s[0] == '0' && (s[1] == 'x' || s[1] == 'X') then
      if |s| >= 3 && s[2] == '_' then s[3..] else s[2..]
    else s
  }

  /** The prefix is cut off the front: what is left is a suffix. */
  lemma AfterPrefixIsSuffix(s: string)
    ensures |AfterPrefix(s)| <= |s| && AfterPrefix(s) == s[|s| - |AfterPrefix(s)|..]
  {
  }

  /** The value of grouped digits, underscores ignored; `None` for anything else. */
  function GroupedValue(digits: string): Option<nat>
  {
    if Grouped(digits) then
      GroupedChars(digits);
      UnderscoresRemoved(digits);
      Some(Numerals.ValueOf(RemoveChar(digits, '_'), 16))
    else None
  }

  /** `int(s, 16)`: surrounding whitespace, a sign, an optional `0x` prefix and
      underscores between digits are accepted; anything else fails (`None`,
      Python's `ValueError`). */
  function ParseHexInt(s: string): (r: Option<int>)
    ensures r.Some? ==> HasHexDigit(s)
    ensures r.Some? && r.value < 0 ==> '-' in s
  {
    TrimmedIsSlice(s);
    TrimmedNeedsDigit(TrimEnd(TrimStart(s)));
    ParseTrimmed(TrimEnd(TrimStart(s)))
  }

  /** What trimming keeps is a piece of the string: a digit or a sign in it is
      a digit or a sign of the string. */
  lemma TrimmedIsSlice(s: string)
    ensures var t := TrimEnd(TrimStart(s));
      (HasHexDigit(t) ==> HasHexDigit(s)) && (|t| > 0 && t[0] == '-' ==> '-' in s)
  {
    var t0 := TrimStart(s);
    TrimStartIsSuffix(s);
    TrimEndIsPrefix(t0);
    var t := TrimEnd(t0);
    if HasHexDigit(t) {
      var i :| 0 <= i < |t| && IsHexDigit(t[i]);
      assert t[i] == s[|s| - |t0| + i];
    }
    if |t| > 0 && t[0] == '-' {
      assert s[|s| - |t0|] == '-';
    }
  }

  /** `int(t, 16)` once the whitespace is gone: an optional sign, an optional
      prefix, then grouped digits. */
  function ParseTrimmed(t: string): Option<int>
  {
    var signed := |t| > 0 && (t[0] == '+' || t[0] == '-');
    var unsigned := if signed then t[1..] else t;
    match GroupedValue(AfterPrefix(unsigned))
    case None => None
    case Some(value) => Some(if signed && t[0] == '-' then -(value as int) else value)
  }

  /** Digits are read only from the string, and a negative value needs a `-`. */
  lemma TrimmedNeedsDigit(t: string)
    ensures ParseTrimmed(t).Some? ==> HasHexDigit(t)
    ensures ParseTrimmed(t).Some? && ParseTrimmed(t).value < 0 ==> |t| > 0 && t[0] == '-'
  {
    var signed := |t| > 0 && (t[0] == '+' || t[0] == '-');
    var unsigned := if signed then t[1..] else t;
    var digits := AfterPrefix(unsigned);
    if GroupedValue(digits).Some? {
      AfterPrefixIsSuffix(unsigned);
      assert IsHexDigit(t[|t| - |digits|]);
    }
  }

  /** The colour argument: `int(color.replace("#", ""), 16)`. */
  function ParseColour(colour: string): (r: Option<int>)
    ensures r.Some? ==> HasHexDigit(colour)
    ensures r.Some? && r.value < 0 ==> '-' in colour
  {
    RemoveCharKeeps(colour, '#');
    ParseHexInt(RemoveChar(colour, '#'))
  }

  /** Every character left by `RemoveChar` comes from the string. */
  lemma {:induction false} RemoveCharKeeps(s: string, c: char)
    ensures forall x :: x in RemoveChar(s, c) ==> x in s
    ensures HasHexDigit(RemoveChar(s, c)) ==> HasHexDigit(s)
    decreases |s|
  {
    if s != [] {
      RemoveCharKeeps(s[1..], c);
    }
    if HasHexDigit(RemoveChar(s, c)) {
      var i :| 0 <= i < |RemoveChar(s, c)| && IsHexDigit(RemoveChar(s, c)[i]);
      var x := RemoveChar(s, c)[i];
      assert x in RemoveChar(s, c);
      var j :| 0 <= j < |s| && s[j] == x;
    }
  }

  /** A string of hexadecimal digits, and nothing else, reads as its value. */
  lemma PlainHexDigits(s: string)
    requires |s| > 0 && forall i :: 0 <= i < |s| ==> IsHexDigit(s[i])
    ensures forall i :: 0 <= i < |s| ==> Numerals.IsDigit(s[i], 16)
    ensures ParseHexInt(s) == Some(Numerals.ValueOf(s, 16))
  {
    NothingTrimmed(s);
    NoSign(s);
    NoPrefix(s);
    PlainGroupedValue(s);
    assert ParseHexInt(s) == match GroupedValue(s) case None => None case Some(v) => Some(v as int);
  }

  /** Nothing is trimmed from a string that starts and ends with a digit. */
  lemma NothingTrimmed(s: string)
    requires |s| > 0 && IsHexDigit(s[0]) && IsHexDigit(s[|s| - 1])
    ensures TrimEnd(TrimStart(s)) == s
  {
    NotSpace(s[0]);
    NotSpace(s[|s| - 1]);
    assert TrimStart(s) == s;
  }

  lemma NotSpace(c: char)
    requires IsHexDigit(c)
    ensures !IsSpace(c)
  {
  }

  /** No sign is taken from a string that starts with a digit. */
  lemma NoSign(s: string)
    requires |s| > 0 && IsHexDigit(s[0])
    ensures s[0] != '+' && s[0] != '-'
  {
  }

  /** No prefix is skipped when the second character is a digit. */
  lemma NoPrefix(s: string)
    requires |s| > 0 && IsHexDigit(s[0])
    requires |s| >= 2 ==> IsHexDigit(s[1])
    ensures AfterPrefix(s) == s
  {
  }

  lemma PlainGroupedValue(s: string)
    requires |s| > 0 && forall i :: 0 <= i < |s| ==> IsHexDigit(s[i])
    ensures forall i :: 0 <= i < |s| ==> Numerals.IsDigit(s[i], 16)
    ensures GroupedValue(s) == Some(Numerals.ValueOf(s, 16))
  {
    DigitsGrouped(s);
    RemoveCharAbsent(s, '_');
  }

  /** The colour written as `#` followed by its lower-case hexadecimal numeral
      reads back as that colour. */
  lemma ColourRoundTrip(n: nat)
    ensures ParseColour("#" + Numerals.Show(n, 16)) == Some(n)
  {
    var digits := Numerals.Show(n, 16);
    RemoveCharAppend("#", digits, '#');
    assert RemoveChar("#", '#') == [];
    assert forall i :: 0 <= i < |digits| ==> digits[i] != '#' by {
      forall i | 0 <= i < |digits| ensures digits[i] != '#' {
        assert IsHexDigit(digits[i]);
      }
    }
    RemoveCharAbsent(digits, '#');
    assert RemoveChar("#" + digits, '#') == digits;
    PlainHexDigits(digits);
    Numerals.ValueOfShow(n, 16);
  }

  /** A sign in front of the digits passes the check too: `-` followed by a
      numeral reads as the negated number, which no colour is. */
  lemma SignedColourAccepted(n: nat)
    ensures ParseColour("-" + Numerals.Show(n, 16)) == Some(-(n as int))
  {
    var digits := Numerals.Show(n, 16);
    NoHashSign("-" + digits);
    RemoveCharAbsent("-" + digits, '#');
    PlainHexDigits(digits);
    Numerals.ValueOfShow(n, 16);
    MinusNegates(digits);
  }

  /** `-` followed by hexadecimal digits holds no `#`. */
  lemma NoHashSign(s: string)
    requires |s| > 0 && s[0] == '-' && forall i :: 1 <= i < |s| ==> IsHexDigit(s[i])
    ensures forall i :: 0 <= i < |s| ==> s[i] != '#'
  {
  }

  /** A `-` in front of a string that starts and ends with a digit negates
      what the string reads as, and is rejected exactly when the string is. */
  lemma MinusNegates(d: string)
    requires |d| > 0 && IsHexDigit(d[0]) && IsHexDigit(d[|d| - 1])
    ensures ParseHexInt("-" + d).Some? <==> ParseHexInt(d).Some?
    ensures ParseHexInt(d).Some? ==> ParseHexInt("-" + d) == Some(-ParseHexInt(d).value)
  {
    NothingTrimmed(d);
    NoSign(d);
    SignedNothingTrimmed(d);
    ParseUntrimmed(d);
    UnsignedGroup(d);
    NegatedGroup("-" + d);
  }

  /** A string that trimming leaves alone reads as its untrimmed parse. */
  lemma ParseUntrimmed(s: string)
    requires TrimEnd(TrimStart(s)) == s
    ensures ParseHexInt(s) == ParseTrimmed(s)
  {
  }

  /** A trimmed string without a sign reads as the value of its digits. */
  lemma UnsignedGroup(t: string)
    requires |t| > 0 && t[0] != '+' && t[0] != '-'
    ensures ParseTrimmed(t).Some? <==> GroupedValue(AfterPrefix(t)).Some?
    ensures ParseTrimmed(t).Some? ==> ParseTrimmed(t) == Some(GroupedValue(AfterPrefix(t)).value as int)
  {
  }

  /** A trimmed string that starts with `-` reads as the negated value of what
      follows the sign. */
  lemma NegatedGroup(t: string)
    requires |t| > 0 && t[0] == '-'
    ensures ParseTrimmed(t).Some? <==> GroupedValue(AfterPrefix(t[1..])).Some?
    ensures ParseTrimmed(t).Some? ==>
      ParseTrimmed(t) == Some(-(GroupedValue(AfterPrefix(t[1..])).value as int))
  {
  }

  /** Nothing is trimmed from `-` followed by a string that ends with a digit. */
  lemma SignedNothingTrimmed(digits: string)
    requires |digits| > 0 && IsHexDigit(digits[|digits| - 1])
    ensures TrimEnd(TrimStart("-" + digits)) == "-" + digits
    ensures ("-" + digits)[0] == '-' && ("-" + digits)[1..] == digits
    ensures ParseHexInt("-" + digits) == ParseTrimmed("-" + digits)
  {
    NotSpace(digits[|digits| - 1]);
    assert TrimStart("-" + digits) == "-" + digits;
    assert ("-" + digits)[|digits|] == digits[|digits| - 1];
  }

  /** `#` signs anywhere in the colour are ignored. */
  lemma HashSignsIgnored(a: string, b: string)
    ensures ParseColour(a + "#" + b) == ParseColour(a + b)
  {
    RemoveCharAppend(a + "#", b, '#');
    RemoveCharAppend(a, "#", '#');
    RemoveCharAppend(a, b, '#');
    assert RemoveChar("#", '#') == [];
    assert RemoveChar(a + "#" + b, '#') == RemoveChar(a + b, '#');
  }

  /** The example the command's own error message gives reads as pure red. */
  lemma RedExample()
    ensures ParseColour("#FF0000") == Some(0xFF0000)
  {
    RedHashRemoved();
    RedDigits();
    RedValue();
  }

  lemma RedHashRemoved()
    ensures RemoveChar("#FF0000", '#') == "FF0000"
  {
    var digits := "FF0000";
    assert "#FF0000" == "#" + digits;
    RemoveCharAppend("#", digits, '#');
    assert RemoveChar("#", '#') == [];
    RemoveCharAbsent(digits, '#');
  }

  lemma RedDigits()
    ensures forall i :: 0 <= i < |"FF0000"| ==> Numerals.IsDigit("FF0000"[i], 16)
    ensures ParseHexInt("FF0000") == Some(Numerals.ValueOf("FF0000", 16))
  {
    PlainHexDigits("FF0000");
  }

  lemma RedValue()
    ensures Numerals.ValueOf("FF0000", 16) == 0xFF0000
  {
    assert "FF0000"[..5] == "FF000";
    assert "FF000"[..4] == "FF00";
    assert "FF00"[..3] == "FF0";
    assert "FF0"[..2] == "FF";
    assert "FF"[..1] == "F";
    assert "F"[..0] == "";
    assert Numerals.ValueOf("F", 16) == 15;
    assert Numerals.ValueOf("FF", 16) == 0xFF;
    assert Numerals.ValueOf("FF0", 16) == 0xFF0;
    assert Numerals.ValueOf("FF00", 16) == 0xFF00;
    assert Numerals.ValueOf("FF000", 16) == 0xFF000;
  }

  /** A character that is no hexadecimal digit, no whitespace and none of
      `+ - _ x X #` anywhere in the colour makes it invalid. */
  lemma ForeignCharacterRejected(colour: string, k: nat)
    requires k < |colour|
    requires !IsHexDigit(colour[k]) && !IsSpace(colour[k]) && colour[k] !in "+-_xX#"
    ensures ParseColour(colour) == None
  {
    var c := colour[k];
    var j := SurvivesRemoval(colour, k, '#');
    var s := RemoveChar(colour, '#');
    var j0 := SurvivesTrim(s, j);
    var t := TrimEnd(TrimStart(s));
    var signed := |t| > 0 && (t[0] == '+' || t[0] == '-');
    var unsigned := if signed then t[1..] else t;
    var j1 := if signed then j0 - 1 else j0;
    assert 0 <= j1 < |unsigned| && unsigned[j1] == c;
    var j2 := SurvivesPrefix(unsigned, j1);
    ForeignNotGrouped(AfterPrefix(unsigned), j2);
  }

  /** An information separator before the digits is not skipped, so the colour
      is refused. */
  lemma SeparatorPaddingRejected()
    ensures ParseColour("\U{1C}1") == None
  {
    ForeignCharacterRejected("\U{1C}1", 0);
  }

  /** A character other than `c` is still there after `c` is removed. */
  lemma SurvivesRemoval(s: string, k: nat, c: char) returns (j: nat)
    requires k < |s| && s[k] != c
    ensures j < |RemoveChar(s, c)| && RemoveChar(s, c)[j] == s[k]
  {
    var x := s[k];
    assert s == s[..k] + ([x] + s[k + 1..]);
    RemoveCharAppend(s[..k], [x] + s[k + 1..], c);
    RemoveCharAppend([x], s[k + 1..], c);
    assert RemoveChar([x], c) == [x];
    j := |RemoveChar(s[..k], c)|;
  }

  /** A character that is not whitespace is still there after trimming. */
  lemma SurvivesTrim(s: string, j: nat) returns (j0: nat)
    requires j < |s| && !IsSpace(s[j])
    ensures j0 < |TrimEnd(TrimStart(s))| && TrimEnd(TrimStart(s))[j0] == s[j]
  {
    var t0 := TrimStart(s);
    TrimStartIsSuffix(s);
    TrimEndIsPrefix(t0);
    if j < |s| - |t0| {
      TrimStartSkipsSpaces(s, j);
    }
    j0 := j - (|s| - |t0|);
    assert t0[j0] == s[j];
    if j0 >= |TrimEnd(t0)| {
      TrimEndSkipsSpaces(t0, j0);
    }
  }

  /** A character that is none of `0 x X _` is still there after the prefix. */
  lemma SurvivesPrefix(s: string, j: nat) returns (j2: nat)
    requires j < |s| && s[j] !in "0xX_"
    ensures j2 < |AfterPrefix(s)| && AfterPrefix(s)[j2] == s[j]
  {
    j2 := j - (|s| - |AfterPrefix(s)|);
  }

  /** A character that is neither a digit nor an underscore spoils the digits. */
  lemma ForeignNotGrouped(s: string, j: nat)
    requires j < |s| && !IsHexDigit(s[j]) && s[j] != '_'
    ensures GroupedValue(s) == None
  {
    if Grouped(s) {
      GroupedChars(s);
    }
  }

  /** `TrimStart` keeps a suffix of its argument. */
  lemma {:induction false} TrimStartIsSuffix(s: string)
    ensures |TrimStart(s)| <= |s| && TrimStart(s) == s[|s| - |TrimStart(s)|..]
    decreases |s|
  {
    if s != [] && IsSpace(s[0]) {
      TrimStartIsSuffix(s[1..]);
    }
  }

  /** `TrimEnd` keeps a prefix of its argument. */
  lemma {:induction false} TrimEndIsPrefix(s: string)
    ensures |TrimEnd(s)| <= |s| && TrimEnd(s) == s[..|TrimEnd(s)|]
    decreases |s|
  {
    if s != [] && IsSpace(s[|s| - 1]) {
      TrimEndIsPrefix(s[..|s| - 1]);
    }
  }

  /** Everything `TrimStart` drops is whitespace. */
  lemma {:induction false} TrimStartSkipsSpaces(s: string, i: nat)
    requires i < |s| - |TrimStart(s)|
    ensures IsSpace(s[i])
    decreases |s|
  {
    if i > 0 {
      TrimStartSkipsSpaces(s[1..], i - 1);
    }
  }

  /** Everything `TrimEnd` drops is whitespace. */
  lemma {:induction false} TrimEndSkipsSpaces(s: string, i: nat)
    requires |TrimEnd(s)| <= i < |s|
    ensures IsSpace(s[i])
    decreases |s|
  {
    if i < |s| - 1 {
      TrimEndSkipsSpaces(s[..|s| - 1], i);
    }
  }

  /** What ends up in the channel. */
  datatype Post =
    | TextPost(text: string)
    | EmbedPost(title: string, description: string, colour: int, author: Option<string>, footer: Option<string>)

  /** The post sent to the channel, if any, and the follow-up reply to the
      administrator who ran the command. */
  datatype AnnounceOutcome = AnnounceOutcome(post: Option<Post>, reply: string)

  /** In plain-text mode the colour argument is never looked at. */
  lemma TextModeIgnoresColour(channelMention: string, title: Option<string>, description: Option<string>,
                              message: Option<string>, author: Option<string>, footer: Option<string>,
                              colour: Option<string>, otherColour: Option<string>)
    ensures Announce(false, channelMention, title, description, message, author, footer, colour) ==
            Announce(false, channelMention, title, description, message, author, footer, otherColour)
  {
  }

  /** Python truthiness of an optional string: present and non-empty. */
  predicate Given(s: Option<string>)
  {
    s.Some? && s.value != ""
  }

  const NeedMessage := "Please provide a message if you're not using an embed."
  const BadColour := "Invalid hex color. Use format like `#FF0000`."

  /** The colour of an embed without a colour argument. */
  const DefaultColour := 0

  /** `announce`: a plain-text announcement posts the message; an embed posts
      the title (or "Announcement"), the description (or nothing), the colour,
      and the author and footer when given. Without a message in plain-text
      mode, or with a colour that does not read as hexadecimal in embed mode,
      nothing is posted and the reply says why. */
  function Announce(useEmbed: bool, channelMention: string, title: Option<string>, description: Option<string>,
                    message: Option<string>, author: Option<string>, footer: Option<string>,
                    colour: Option<string>): (r: AnnounceOutcome)
    ensures r.post == None <==>
      (!useEmbed && !Given(message)) || (useEmbed && Given(colour) && ParseColour(colour.value) == None)
    ensures !useEmbed && Given(message) ==> r.post == Some(TextPost(message.value))
    ensures r.post.Some? && useEmbed ==>
      r.post.value.EmbedPost? &&
      r.post.value.colour == (if Given(colour) then ParseColour(colour.value).value else DefaultColour)
    ensures r.post.Some? && useEmbed ==>
      r.post.value.title != "" && (Given(title) ==> r.post.value.title == title.value) &&
      (r.post.value.author.Some? <==> Given(author)) && (r.post.value.footer.Some? <==> Given(footer))
    ensures r.post.None? ==> r.reply == if useEmbed then BadColour else NeedMessage
    ensures r.post.Some? ==>
      r.reply == (if useEmbed then "Embed announcement sent to " else "Message sent to ") + channelMention
  {
    if !useEmbed && !Given(message) then AnnounceOutcome(None, NeedMessage)
    else if useEmbed then
      var parsed := if Given(colour) then ParseColour(colour.value) else Some(DefaultColour);
      match parsed
      case None => AnnounceOutcome(None, BadColour)
      case Some(value) =>
        var post := EmbedPost(
          if Given(title) then title.value else "Announcement",
          if Given(description) then description.value else "",
          value,
          if Given(author) then author else None,
          if Given(footer) then footer else None);
        AnnounceOutcome(Some(post), "Embed announcement sent to " + channelMention)
    else AnnounceOutcome(Some(TextPost(message.value)), "Message sent to " + channelMention)
  }
}
