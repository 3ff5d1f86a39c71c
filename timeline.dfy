/**
 * The text helpers of a timeline entry (src/timeline/TimelineItem.cc): the
 * emoji markup of a message body, the sender name shown above it, the
 * letter of the sender's avatar, the format a timestamp is shown in, and
 * the rewriting of emote and multi-line bodies. Strings are sequences of
 * Unicode scalar values, so one `char` is one code point of toUcs4.
 */
module TimelineText {
  import opened Wrappers

  // ---------------------------------------------------------------------------
  // replaceEmoji (src/timeline/TimelineItem.cc:384-403)
  // ---------------------------------------------------------------------------

  /** The decimal digits of n, as QString::arg(int) writes a non-negative number. */
  function Decimal(n: nat): (r: string)
    ensures |r| > 0 && forall i :: 0 <= i < |r| ==> '0' <= r[i] <= '9'
  {
    var last := ('0' as int + n % 10) as char;
    if n < 10 then [last] else Decimal(n / 10) + [last]
  }

  /** The opening tag put in front of an emoji; `emojiSize` is a pixel size from the configuration. */
  function SpanPrefix(emojiSize: nat): (r: string)
    ensures |r| > 0 && r[0] == '<'
  {
    ['<'] + SpanAttributes(emojiSize)
  }

  /**
   * The rest of the opening tag, after its `<`. The literal is written in
   * short pieces because the verifier cannot rule out a `<` in one long
   * string literal, but can in each piece (see SpanPrefixOpensOnce).
   */
  function SpanAttributes(emojiSize: nat): string {
    "span style=\"font-" + "family: Emoji One" + "; font-size: " + Decimal(emojiSize) + "px\">"
  }

  /** The opening tag holds no `<` after its first character. */
  lemma SpanPrefixOpensOnce(emojiSize: nat)
    ensures '<' !in SpanPrefix(emojiSize)[1..]
  {
    var head, family, size := "span style=\"font-", "family: Emoji One", "; font-size: ";
    var digits := Decimal(emojiSize);
    var close := "px\">";
    assert '<' !in head && '<' !in family && '<' !in size && '<' !in close;
    assert '<' !in digits by {
      forall x | x in digits ensures x != '<' {
        var i :| 0 <= i < |digits| && digits[i] == x;
      }
    }
    var tag := SpanAttributes(emojiSize);
    assert '<' !in tag by {
      forall x | x in tag ensures x != '<' {
        assert x in head || x in family || x in size || x in digits || x in close;
      }
    }
    assert SpanPrefix(emojiSize)[1..] == tag;
  }

  const SpanSuffix: string := "</span>"

  /** Code points above 9000 are taken to be emoji. */
  predicate IsEmoji(c: char) {
    c as int > 9000
  }

  /** The body holds no emoji. */
  predicate NoEmoji(s: string) {
    forall i :: 0 <= i < |s| ==> !IsEmoji(s[i])
  }

  /** What one code point of the body becomes. */
  function Rendered(c: char, emojiSize: nat): (r: string)
    ensures |r| >= 1
  {
    if IsEmoji(c) then SpanPrefix(emojiSize) + [c] + SpanSuffix else [c]
  }

  /** The marked-up body: each code point rendered, in order; never shorter than the body. */
  function Emojified(s: string, emojiSize: nat): (r: string)
    ensures |r| >= |s|
  {
    if s == [] then [] else Rendered(s[0], emojiSize) + Emojified(s[1..], emojiSize)
  }

  /** replaceEmoji: appends the rendering of each code point to the result. */
  method ReplaceEmoji(body: string, emojiSize: nat) returns (fmtBody: string)
    ensures fmtBody == Emojified(body, emojiSize)
  {
    fmtBody := "";
    var i := 0;
    while i < |body|
      invariant 0 <= i <= |body|
      invariant fmtBody == Emojified(body[..i], emojiSize)
    {
      var code := body[i];
      EmojifiedSnoc(body[..i], code, emojiSize);
      if code as int > 9000 {
        fmtBody := fmtBody + (SpanPrefix(emojiSize) + [code] + SpanSuffix);
      } else {
        fmtBody := fmtBody + [code];
      }
      assert body[..i + 1] == body[..i] + [code];
      i := i + 1;
    }
    assert body[..|body|] == body;
  }

  /** The markup of a concatenation is the concatenation of the markups. */
  lemma {:induction false} EmojifiedAppend(a: string, b: string, emojiSize: nat)
    ensures Emojified(a + b, emojiSize) == Emojified(a, emojiSize) + Emojified(b, emojiSize)
    decreases |a|
  {
    if a == [] {
      assert a + b == b;
    } else {
      var ab := a + b;
      assert ab[0] == a[0];
      assert ab[1..] == a[1..] + b;
      EmojifiedAppend(a[1..], b, emojiSize);
      calc {
        Emojified(ab, emojiSize);
        Rendered(a[0], emojiSize) + Emojified(a[1..] + b, emojiSize);
        Rendered(a[0], emojiSize) + (Emojified(a[1..], emojiSize) + Emojified(b, emojiSize));
        Rendered(a[0], emojiSize) + Emojified(a[1..], emojiSize) + Emojified(b, emojiSize);
        Emojified(a, emojiSize) + Emojified(b, emojiSize);
      }
    }
  }

  /** The last code point's rendering comes last. */
  lemma EmojifiedSnoc(s: string, c: char, emojiSize: nat)
    ensures Emojified(s + [c], emojiSize) == Emojified(s, emojiSize) + Rendered(c, emojiSize)
  {
    EmojifiedAppend(s, [c], emojiSize);
    assert [c][1..] == [];
    assert Emojified([c], emojiSize) == Rendered(c, emojiSize) + Emojified([], emojiSize);
  }

  /** A body without emoji is left as it is. */
  lemma {:induction false} EmojifiedPlain(s: string, emojiSize: nat)
    requires NoEmoji(s)
    ensures Emojified(s, emojiSize) == s
  {
    if s != [] {
      assert !IsEmoji(s[0]);
      assert NoEmoji(s[1..]) by {
        forall i | 0 <= i < |s[1..]| ensures !IsEmoji(s[1..][i]) { assert s[1..][i] == s[i + 1]; }
      }
      EmojifiedPlain(s[1..], emojiSize);
      assert s == [s[0]] + s[1..];
    }
  }

  /** The markup is longer than the body exactly when the body holds an emoji. */
  lemma {:induction false} EmojifiedLength(s: string, emojiSize: nat)
    ensures |Emojified(s, emojiSize)| == |s| <==> NoEmoji(s)
    decreases |s|
  {
    if s != [] {
      EmojifiedLength(s[1..], emojiSize);
      assert |Rendered(s[0], emojiSize)| == 1 <==> !IsEmoji(s[0]);
      assert |Emojified(s, emojiSize)| == |Rendered(s[0], emojiSize)| + |Emojified(s[1..], emojiSize)|;
      assert NoEmoji(s) <==> !IsEmoji(s[0]) && NoEmoji(s[1..]) by {
        if NoEmoji(s[1..]) {
          forall i | 1 <= i < |s| ensures !IsEmoji(s[i]) { assert s[i] == s[1..][i - 1]; }
        }
        if NoEmoji(s) {
          forall i | 0 <= i < |s[1..]| ensures !IsEmoji(s[1..][i]) { assert s[1..][i] == s[i + 1]; }
        }
      }
    }
  }

  /**
   * Reads a marked-up body back: every span around an emoji gives the emoji,
   * every other character, `<` included, stands for itself.
   */
  function StripEmojiSpans(t: string, emojiSize: nat): string
    decreases |t|
  {
    if t == [] then []
    else
      var p := SpanPrefix(emojiSize);
      var n := |p|;
      if |t| >= n + 8 && t[..n] == p && IsEmoji(t[n]) && t[n + 1..n + 8] == SpanSuffix then
        [t[n]] + StripEmojiSpans(t[n + 8..], emojiSize)
      else
        [t[0]] + StripEmojiSpans(t[1..], emojiSize)
  }

  /**
   * In the markup, a code point above 9000 only ever follows a `<`: it
   * sits inside a span, whose opening tag starts with `<`. So until the
   * first `<`, the markup is the body's own plain text.
   */
  lemma {:induction false} EmojiOnlyInSpans(s: string, emojiSize: nat, i: nat)
    requires i < |Emojified(s, emojiSize)|
    requires '<' !in Emojified(s, emojiSize)[..i]
    ensures !IsEmoji(Emojified(s, emojiSize)[i])
    decreases |s|
  {
    var t := Emojified(s, emojiSize);
    var head := Rendered(s[0], emojiSize);
    var tail := Emojified(s[1..], emojiSize);
    assert t == head + tail;
    if IsEmoji(s[0]) {
      assert t[0] == head[0] == '<';
    } else if i > 0 {
      assert t[i] == tail[i - 1];
      assert tail[..i - 1] == t[1..i];
      assert '<' !in tail[..i - 1] by {
        forall x | x in t[1..i] ensures x != '<' { assert x in t[..i]; }
      }
      EmojiOnlyInSpans(s[1..], emojiSize, i - 1);
    }
  }

  /**
   * The markup loses nothing and keeps the order of the code points: it
   * reads back to exactly the body, whatever markup the body already holds.
   */
  lemma {:induction false} StripEmojiSpansOfEmojified(s: string, emojiSize: nat)
    ensures StripEmojiSpans(Emojified(s, emojiSize), emojiSize) == s
    decreases |s|
  {
    if s != [] {
      var c := s[0];
      var tail := Emojified(s[1..], emojiSize);
      StripEmojiSpansOfEmojified(s[1..], emojiSize);
      var t := Emojified(s, emojiSize);
      var p := SpanPrefix(emojiSize);
      var n := |p|;
      if IsEmoji(c) {
        assert t == p + [c] + SpanSuffix + tail;
        assert t[..n] == p;
        assert t[n] == c;
        assert t[n + 1..n + 8] == SpanSuffix;
        assert t[n + 8..] == tail;
        assert StripEmojiSpans(t, emojiSize) == [c] + s[1..];
      } else {
        assert t == [c] + tail;
        assert t[1..] == tail;
        if |t| >= n + 8 && t[..n] == p {
          // The tag's text after its `<` would have to come from the body
          // itself, and then no emoji can follow it.
          assert tail[..n - 1] == p[1..];
          SpanPrefixOpensOnce(emojiSize);
          EmojiOnlyInSpans(s[1..], emojiSize, n - 1);
          assert t[n] == tail[n - 1];
        }
        assert StripEmojiSpans(t, emojiSize) == [c] + s[1..];
      }
      assert s == [c] + s[1..];
    }
  }

  // ---------------------------------------------------------------------------
  // Sender name (src/timeline/TimelineItem.cc:340-346)
  // ---------------------------------------------------------------------------

  /** QString::split(sep) keeping empty parts: the pieces between the separators. */
  function Split(s: string, sep: char): (r: seq<string>)
    ensures |r| >= 1
  {
    if s == [] then [[]]
    else
      var rest := Split(s[1..], sep);
      if s[0] == sep then [[]] + rest else [[s[0]] + rest[0]] + rest[1..]
  }

  /** The pieces put back together with the separator between them. */
  function Join(pieces: seq<string>, sep: char): string
    requires |pieces| >= 1
  {
    if |pieces| == 1 then pieces[0] else pieces[0] + [sep] + Join(pieces[1..], sep)
  }

  /** The text before the first occurrence of sep, or all of s. */
  function Before(s: string, sep: char): (r: string)
    ensures |r| <= |s| && r == s[..|r|] && sep !in r
    ensures |r| < |s| ==> s[|r|] == sep
  {
    if s == [] || s[0] == sep then [] else [s[0]] + Before(s[1..], sep)
  }

  /** Splitting loses nothing: joining the pieces gives the string back, and no piece holds the separator. */
  lemma {:induction false} JoinSplit(s: string, sep: char)
    ensures Join(Split(s, sep), sep) == s
    ensures forall i :: 0 <= i < |Split(s, sep)| ==> sep !in Split(s, sep)[i]
    decreases |s|
  {
    if s != [] {
      JoinSplit(s[1..], sep);
      var rest := Split(s[1..], sep);
      if s[0] == sep {
        assert Split(s, sep)[1..] == rest;
      } else {
        var r := Split(s, sep);
        assert r[0] == [s[0]] + rest[0];
        assert r[1..] == rest[1..];
        if |rest| > 1 {
          assert Join(rest, sep) == rest[0] + [sep] + Join(rest[1..], sep);
        }
        forall i | 0 <= i < |r| ensures sep !in r[i] {
          if i > 0 { assert r[i] == rest[i]; }
        }
      }
      assert s == [s[0]] + s[1..];
    }
  }

  /** The first piece is the text before the first separator; there is more than one piece exactly when the separator occurs. */
  lemma {:induction false} SplitHead(s: string, sep: char)
    ensures Split(s, sep)[0] == Before(s, sep)
    ensures |Split(s, sep)| > 1 <==> sep in s
    ensures sep in s ==> Split(s, sep)[1..] == Split(s[|Before(s, sep)| + 1..], sep)
    decreases |s|
  {
    if s != [] {
      var rest := Split(s[1..], sep);
      SplitHead(s[1..], sep);
      if s[0] == sep {
        assert Split(s, sep) == [[]] + rest;
        assert Before(s, sep) == [];
        assert s[0] in s;
      } else {
        assert Split(s, sep) == [[s[0]] + rest[0]] + rest[1..];
        assert Before(s, sep) == [s[0]] + Before(s[1..], sep);
        assert sep in s <==> sep in s[1..] by {
          assert s == [s[0]] + s[1..];
        }
        if sep in s[1..] {
          assert s[1..][|Before(s[1..], sep)| + 1..] == s[|Before(s, sep)| + 1..];
        }
      }
    }
  }

  /** Every piece of a split is made of characters of the string, and is no longer than it. */
  lemma {:induction false} PieceOf(s: string, sep: char, i: nat)
    requires i < |Split(s, sep)|
    ensures |Split(s, sep)[i]| <= |s|
    ensures forall x :: x in Split(s, sep)[i] ==> x in s
    decreases |s|
  {
    if s != [] {
      var rest := Split(s[1..], sep);
      if s[0] == sep {
        if i > 0 {
          assert Split(s, sep)[i] == rest[i - 1];
          PieceOf(s[1..], sep, i - 1);
        }
      } else if i == 0 {
        PieceOf(s[1..], sep, 0);
        assert Split(s, sep)[0] == [s[0]] + rest[0];
      } else {
        assert Split(s, sep)[i] == rest[i];
        PieceOf(s[1..], sep, i);
      }
      forall x | x in s[1..] ensures x in s { }
    }
  }

  /**
   * The name shown for a sender: generateBody strips `@` and the server
   * part of a Matrix user id. The name is never longer than the id, and
   * the name shown for a user id holds neither `:` nor `@`.
   */
  function SenderName(userid: string): (r: string)
    ensures |r| <= |userid|
    ensures |userid| > 0 && userid[0] == '@' ==> ':' !in r && '@' !in r
  {
    if |userid| > 0 && userid[0] == '@' then
      var head := Split(userid, ':')[0];
      PieceOf(userid, ':', 0);
      JoinSplit(userid, ':');
      var pieces := Split(head, '@');
      if |pieces| > 1 then
        PieceOf(head, '@', 1);
        JoinSplit(head, '@');
        pieces[1]
      else
        assert false;
        userid
    else userid
  }

  /**
   * For a user id the name is the text after the leading `@` up to the first
   * `:` or further `@`; any other name is shown unchanged. In particular the
   * guard on the number of pieces always holds for a user id.
   */
  lemma SenderNameIsLocalpart(userid: string)
    ensures |userid| > 0 && userid[0] == '@' ==>
              |Split(Split(userid, ':')[0], '@')| > 1
              && SenderName(userid) == Before(Before(userid, ':')[1..], '@')
    ensures !(|userid| > 0 && userid[0] == '@') ==> SenderName(userid) == userid
  {
    if |userid| > 0 && userid[0] == '@' {
      var p := Before(userid, ':');
      SplitHead(userid, ':');
      assert p[0] == '@';
      SplitHead(p, '@');
      assert Before(p, '@') == [];
      SplitHead(p[1..], '@');
    }
  }

  /** `@alice:server` is shown as `alice`. */
  lemma SenderNameOfUserId(localpart: string, server: string)
    requires ':' !in localpart && '@' !in localpart
    ensures SenderName("@" + localpart + ":" + server) == localpart
  {
    var u := "@" + localpart + ":" + server;
    SenderNameIsLocalpart(u);
    BeforeOfPrefix(u, ':', 1 + |localpart|);
    var p := Before(u, ':');
    assert p[1..] == localpart;
    BeforeOfPrefix(localpart, '@', |localpart|);
  }

  /** If s has no sep before position k and sep at k (or k is the end), Before(s, sep) is s[..k]. */
  lemma {:induction false} BeforeOfPrefix(s: string, sep: char, k: nat)
    requires k <= |s| && sep !in s[..k] && (k < |s| ==> s[k] == sep)
    ensures Before(s, sep) == s[..k]
    decreases k
  {
    if k > 0 {
      assert s[0] in s[..k];
      assert s[1..][..k - 1] == s[1..k];
      assert sep !in s[1..k] by {
        forall x | x in s[1..k] ensures x != sep { assert x in s[..k]; }
      }
      BeforeOfPrefix(s[1..], sep, k - 1);
      assert s[..k] == [s[0]] + s[1..k];
    }
  }

  // ---------------------------------------------------------------------------
  // Avatar letter (src/timeline/TimelineItem.cc:411-416)
  // ---------------------------------------------------------------------------

  /** QChar::toUpper, for the ASCII letters. */
  function ToUpper(c: char): (r: char)
    ensures 'a' <= c <= 'z' ==> 'A' <= r <= 'Z' && r as int == c as int - 32
    ensures !('a' <= c <= 'z') ==> r == c
  {
    if 'a' <= c <= 'z' then (c as int - 32) as char else c
  }

  /** The letter on the avatar of a sender with name `userName`. */
  function AvatarLetter(userName: string): (r: char)
    requires |userName| > 0
    ensures !('a' <= r <= 'z')
  {
    if userName[0] == '@' && |userName| > 1 then ToUpper(userName[1]) else ToUpper(userName[0])
  }

  /**
   * The avatar shows the uppercased first letter of the name shown beside
   * it, for every name except the user ids whose localpart is empty.
   */
  lemma AvatarLetterOfSenderName(userName: string)
    requires |userName| > 0
    requires userName[0] == '@' ==> |userName| > 1 && userName[1] != ':' && userName[1] != '@'
    ensures |SenderName(userName)| > 0
    ensures AvatarLetter(userName) == ToUpper(SenderName(userName)[0])
  {
    SenderNameIsLocalpart(userName);
  }

  // ---------------------------------------------------------------------------
  // descriptiveTime (src/timeline/TimelineItem.cc:465-474)
  // ---------------------------------------------------------------------------

  /** The formats a timestamp is shown in: "HH:mm", "Yesterday", "dd/MM", "dd/MM/yy". */
  datatype TimeFormat = TimeOfDay | Yesterday | DayMonth | DayMonthYear

  /** The format for a message `days` days old (negative when its time lies ahead). */
  function DescriptiveTime(days: int): (f: TimeFormat)
    // Each format is chosen for exactly one range of ages; a time that lies ahead shows as "Yesterday".
    ensures f == TimeOfDay <==> days == 0
    ensures f == Yesterday <==> days < 0 || days == 1
    ensures f == DayMonth <==> 2 <= days < 365
    ensures f == DayMonthYear <==> 365 <= days
  {
    if days == 0 then TimeOfDay
    else if days < 2 then Yesterday
    else if days < 365 then DayMonth
    else DayMonthYear
  }

  /** How much of the date a format shows. */
  function Detail(f: TimeFormat): nat {
    match f
    case TimeOfDay => 0
    case Yesterday => 1
    case DayMonth => 2
    case DayMonthYear => 3
  }

  /** An older message never shows less of its date than a newer one. */
  lemma DescriptiveTimeMonotonic(a: int, b: int)
    requires 0 <= a <= b
    ensures Detail(DescriptiveTime(a)) <= Detail(DescriptiveTime(b))
  {
  }

  // ---------------------------------------------------------------------------
  // Body rewriting (src/timeline/TimelineItem.cc:83, 92, 250, 260, 303)
  // ---------------------------------------------------------------------------

  /** QString::replace("\n", "<br/>"): every line feed becomes a line break tag. */
  function BreakLines(s: string): (r: string)
    ensures '\n' !in r
  {
    if s == [] then [] else LineBreak(s[0]) + BreakLines(s[1..])
  }

  /** What one character of the body becomes. */
  function LineBreak(c: char): (r: string)
    ensures '\n' !in r
  {
    if c == '\n' then "<br/>" else [c]
  }

  /** The rewriting works piece by piece. */
  lemma {:induction false} BreakLinesAppend(a: string, b: string)
    ensures BreakLines(a + b) == BreakLines(a) + BreakLines(b)
    decreases |a|
  {
    if a == [] {
      assert a + b == b;
    } else {
      var ab := a + b;
      assert ab[0] == a[0];
      assert ab[1..] == a[1..] + b;
      BreakLinesAppend(a[1..], b);
      var head := LineBreak(a[0]);
      calc {
        BreakLines(ab);
        head + BreakLines(a[1..] + b);
        head + (BreakLines(a[1..]) + BreakLines(b));
        head + BreakLines(a[1..]) + BreakLines(b);
        BreakLines(a) + BreakLines(b);
      }
    }
  }

  /** Text without line feeds is left alone. */
  lemma {:induction false} BreakLinesPlain(s: string)
    requires '\n' !in s
    ensures BreakLines(s) == s
    decreases |s|
  {
    if s != [] {
      assert s[0] in s;
      assert '\n' !in s[1..] by {
        forall x | x in s[1..] ensures x != '\n' { assert x in s; }
      }
      BreakLinesPlain(s[1..]);
      assert s == [s[0]] + s[1..];
    }
  }

  /** The body of an emote: `* <display name> <body>`. */
  function EmoteBody(displayName: string, body: string): (r: string)
    ensures |r| == |displayName| + |body| + 3
    ensures r[..2] == "* " && r[2..2 + |displayName|] == displayName
    ensures r[2 + |displayName|] == ' ' && r[3 + |displayName|..] == body
  {
    "* " + displayName + " " + body
  }

  // QString::arg as the emote constructors use it: QString("* %1 %2").arg(displayName).arg(body).

  /** The number of the place marker `%d` (d a digit from 1 to 9) starting at position i. */
  function MarkerAt(s: string, i: nat): Option<nat>
    requires i < |s|
  {
    if s[i] == '%' && i + 1 < |s| && '1' <= s[i + 1] <= '9' then Some(s[i + 1] as int - '0' as int) else None
  }

  /** The place markers of s. */
  function Markers(s: string): (ms: set<nat>)
    ensures forall m :: m in ms ==> 1 <= m <= 9
    decreases |s|
  {
    if s == [] then {}
    else (if MarkerAt(s, 0).Some? then {MarkerAt(s, 0).value} else {}) + Markers(s[1..])
  }

  /** k is a number of ms, at least d and at most 9, and no smaller such number is in ms. */
  predicate IsLowestFrom(ms: set<nat>, d: nat, k: nat) {
    k in ms && d <= k <= 9 && forall e :: e in ms && d <= e <= 9 ==> k <= e
  }

  /** The smallest of the marker numbers d, d+1, ..., 9 in ms. */
  function LowestFrom(ms: set<nat>, d: nat): (r: Option<nat>)
    ensures r.Some? ==> IsLowestFrom(ms, d, r.value)
    ensures r.None? ==> forall e :: e in ms && d <= e ==> e > 9
    decreases 10 - d
  {
    if d > 9 then None else if d in ms then Some(d) else LowestFrom(ms, d + 1)
  }

  /** Every occurrence of the marker `%d` replaced by a, scanning left to right. */
  function ReplaceMarker(s: string, d: nat, a: string): string
    decreases |s|
  {
    if s == [] then []
    else if MarkerAt(s, 0) == Some(d) then a + ReplaceMarker(s[2..], d, a)
    else [s[0]] + ReplaceMarker(s[1..], d, a)
  }

  /** QString::arg(a): the lowest-numbered place marker of s replaced by a; s unchanged if it has none. */
  function QtArg(s: string, a: string): (r: string)
    ensures Markers(s) == {} ==> r == s
    ensures Markers(s) != {} ==> exists d :: IsLowestFrom(Markers(s), 1, d) && r == ReplaceMarker(s, d, a)
  {
    match LowestFrom(Markers(s), 1)
    case None => s
    case Some(d) => ReplaceMarker(s, d, a)
  }

  /** The emote body as the constructors build it; it starts with `* ` whatever the name and body hold. */
  function EmoteBodyAsWritten(displayName: string, body: string): (r: string)
    ensures |r| >= 2 && r[..2] == "* "
  {
    EmoteFirstArg(displayName);
    assert "* " + displayName + " %2" == "* " + (displayName + " %2");
    QtArgPlainPrefix("* ", displayName + " %2", body);
    QtArg(QtArg("* %1 %2", displayName), body)
  }

  /** arg leaves text without `%` in front of the markers alone. */
  lemma QtArgPlainPrefix(p: string, s: string, a: string)
    requires '%' !in p
    ensures QtArg(p + s, a) == p + QtArg(s, a)
  {
    PlainPrefix(p, s, if LowestFrom(Markers(s), 1).Some? then LowestFrom(Markers(s), 1).value else 0, a);
  }

  /** Text without `%` contributes no marker and is copied unchanged. */
  lemma {:induction false} PlainPrefix(p: string, s: string, d: nat, a: string)
    requires '%' !in p
    ensures Markers(p + s) == Markers(s)
    ensures ReplaceMarker(p + s, d, a) == p + ReplaceMarker(s, d, a)
  {
    PlainPrefixMarkers(p, s);
    PlainPrefixReplaced(p, s, d, a);
  }

  lemma {:induction false} PlainPrefixMarkers(p: string, s: string)
    requires '%' !in p
    ensures Markers(p + s) == Markers(s)
    decreases |p|
  {
    if p == [] {
      assert p + s == s;
    } else {
      var ps := p + s;
      assert ps[0] == p[0] && p[0] in p;
      assert MarkerAt(ps, 0) == None;
      assert ps[1..] == p[1..] + s;
      assert '%' !in p[1..] by {
        forall x | x in p[1..] ensures x != '%' { assert x in p; }
      }
      PlainPrefixMarkers(p[1..], s);
      assert Markers(ps) == Markers(ps[1..]);
    }
  }

  lemma {:induction false} PlainPrefixReplaced(p: string, s: string, d: nat, a: string)
    requires '%' !in p
    ensures ReplaceMarker(p + s, d, a) == p + ReplaceMarker(s, d, a)
    decreases |p|
  {
    if p == [] {
      assert p + s == s;
    } else {
      var ps := p + s;
      assert ps[0] == p[0] && p[0] in p;
      assert MarkerAt(ps, 0) == None;
      assert ps[1..] == p[1..] + s;
      assert '%' !in p[1..] by {
        forall x | x in p[1..] ensures x != '%' { assert x in p; }
      }
      PlainPrefixReplaced(p[1..], s, d, a);
      calc {
        ReplaceMarker(ps, d, a);
        [p[0]] + ReplaceMarker(p[1..] + s, d, a);
        [p[0]] + (p[1..] + ReplaceMarker(s, d, a));
        { assert p == [p[0]] + p[1..]; }
        p + ReplaceMarker(s, d, a);
      }
    }
  }

  /** The markers of the emote template are %1 and %2. */
  lemma TemplateMarkers()
    ensures Markers("%1 %2") == {1, 2}
  {
    assert "%1 %2"[1..] == "1 %2";
    assert "1 %2"[1..] == " %2";
    assert " %2"[1..] == "%2";
    assert "%2"[1..] == "2";
    assert "2"[1..] == [];
    assert MarkerAt("%2", 0) == Some(2);
    assert MarkerAt("%1 %2", 0) == Some(1);
  }

  /** The first arg call puts its argument in place of %1, whatever the argument holds. */
  lemma EmoteFirstArg(a: string)
    ensures QtArg("* %1 %2", a) == "* " + a + " %2"
  {
    assert "* %1 %2" == "* " + "%1 %2";
    PlainPrefix("* ", "%1 %2", 1, a);
    TemplateMarkers();
    assert LowestFrom({1, 2}, 1) == Some(1);
    assert "%1 %2"[2..] == " %2";
    assert ReplaceMarker("%1 %2", 1, a) == a + ReplaceMarker(" %2", 1, a);
    assert " %2" == " " + "%2";
    PlainPrefix(" ", "%2", 1, a);
    assert MarkerAt("%2", 0) == Some(2);
    assert "%2"[1..] == "2";
    assert ReplaceMarker("%2", 1, a) == "%2";
  }

  /** An arg call on text whose only marker is a final %2 appends its argument in place of it. */
  lemma LastArg(p: string, b: string)
    requires '%' !in p
    ensures QtArg(p + "%2", b) == p + b
  {
    PlainPrefix(p, "%2", 2, b);
    assert "%2"[1..] == "2";
    assert MarkerAt("%2", 0) == Some(2);
    assert Markers("%2") == {2};
    assert LowestFrom({2}, 1) == Some(2);
    assert "%2"[2..] == [];
    assert ReplaceMarker("%2", 2, b) == b + ReplaceMarker([], 2, b);
  }

  /** For a display name without `%` the constructors build the intended emote body. */
  lemma EmoteBodyAsWrittenPlain(displayName: string, body: string)
    requires '%' !in displayName
    ensures EmoteBodyAsWritten(displayName, body) == EmoteBody(displayName, body)
  {
    EmoteFirstArg(displayName);
    var p := "* " + displayName + " ";
    assert "* " + displayName + " %2" == p + "%2";
    assert '%' !in p;
    LastArg(p, body);
  }

  /**
   * A display name holding a place marker corrupts the emote: Qt's second
   * arg call replaces the `%1` that the display name brought in, not `%2`.
   * With the body `waves` that gives `* waves %2` instead of `* %1 waves`.
   */
  lemma EmoteBodyAsWrittenCounterexample(body: string)
    ensures EmoteBodyAsWritten("%1", body) == "* " + body + " %2"
    ensures EmoteBody("%1", body) == "* %1 " + body
    ensures body == "waves" ==> EmoteBodyAsWritten("%1", body) != EmoteBody("%1", body)
  {
    EmoteFirstArg("%1");
    assert "* " + "%1" + " %2" == "* %1 %2";
    EmoteFirstArg(body);
    if body == "waves" {
      assert ("* " + body + " %2")[2] == 'w';
      assert ("* %1 " + body)[2] == '%';
    }
  }
}
