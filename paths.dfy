/**
 * Where a cache lives on disk: `<cache-root>/<hex(utf8(userId))>` for the
 * account directory and its `state` subdirectory for the environment files.
 * The encoding is modelled exactly (UTF-8, then lower-case hex as
 * QByteArray::toHex writes it), so that the promise that two accounts never
 * share a directory can be proved: both encodings have a decoder that
 * undoes them.
 */
module CachePaths {
  import opened Wrappers

  type Byte = x: int | 0 <= x < 256

  // ---------------------------------------------------------------------------
  // UTF-8
  // ---------------------------------------------------------------------------

  /** The UTF-8 encoding of one Unicode scalar value. */
  function EncodeChar(c: char): (bs: seq<Byte>)
    ensures 1 <= |bs| <= 4
  {
    var n := c as int;
    var lo := n % 0x40;
    var q1 := n / 0x40;
    var mid := q1 % 0x40;
    var q2 := q1 / 0x40;
    var hi := q2 % 0x40;
    var q3 := q2 / 0x40;
    if n < 0x80 then [n]
    else if n < 0x800 then [0xC0 + q1, 0x80 + lo]
    else if n < 0x10000 then [0xE0 + q2, 0x80 + mid, 0x80 + lo]
    else [0xF0 + q3, 0x80 + hi, 0x80 + mid, 0x80 + lo]
  }

  /** QString::toUtf8: the characters' encodings, one after another. */
  function Utf8(s: string): (bs: seq<Byte>)
    ensures |s| <= |bs| <= 4 * |s|
  {
    if s == [] then [] else EncodeChar(s[0]) + Utf8(s[1..])
  }

  predicate IsContinuation(b: Byte) {
    0x80 <= b < 0xC0
  }

  /** The character with code point n, if n is a Unicode scalar value. */
  function ScalarOf(n: int): (r: Option<char>)
    ensures r.Some? ==> r.value as int == n
  {
    if 0 <= n < 0xD800 || 0xE000 <= n < 0x11_0000 then Some(n as char) else None
  }

  function Tagged(c: Option<char>, width: nat): Option<(char, nat)> {
    if c.Some? then Some((c.value, width)) else None
  }

  /** Reads one character from the front of bs: the character and the number of bytes it took. */
  function DecodeFirst(bs: seq<Byte>): (r: Option<(char, nat)>)
    requires |bs| > 0
    ensures r.Some? ==> 1 <= r.value.1 <= |bs|
  {
    var b0 := bs[0] as int;
    if b0 < 0x80 then
      Tagged(ScalarOf(b0), 1)
    else if 0xC0 <= b0 < 0xE0 && |bs| >= 2 && IsContinuation(bs[1]) then
      Tagged(ScalarOf((b0 - 0xC0) * 0x40 + (bs[1] as int - 0x80)), 2)
    else if 0xE0 <= b0 < 0xF0 && |bs| >= 3 && IsContinuation(bs[1]) && IsContinuation(bs[2]) then
      Tagged(ScalarOf(((b0 - 0xE0) * 0x40 + (bs[1] as int - 0x80)) * 0x40 + (bs[2] as int - 0x80)), 3)
    else if 0xF0 <= b0 < 0xF8 && |bs| >= 4 && IsContinuation(bs[1]) && IsContinuation(bs[2])
                              && IsContinuation(bs[3]) then
      Tagged(ScalarOf((((b0 - 0xF0) * 0x40 + (bs[1] as int - 0x80)) * 0x40 + (bs[2] as int - 0x80)) * 0x40 + (bs[3] as int - 0x80)), 4)
    else
      None
  }

  /** Decodes a whole byte string, or None if it is not UTF-8. */
  function DecodeUtf8(bs: seq<Byte>): Option<string>
    decreases |bs|
  {
    if bs == [] then Some([])
    else
      match DecodeFirst(bs)
      case None => None
      case Some((c, width)) =>
        match DecodeUtf8(bs[width..])
        case None => None
        case Some(rest) => Some([c] + rest)
  }

  lemma DecodeFirstOfEncodeChar(c: char, rest: seq<Byte>)
    ensures DecodeFirst(EncodeChar(c) + rest) == Some((c, |EncodeChar(c)|))
  {
    var n := c as int;
    if n < 0x80 {
    } else if n < 0x800 {
      DecodeTwoBytes(c, rest);
    } else if n < 0x10000 {
      DecodeThreeBytes(c, rest);
    } else {
      DecodeFourBytes(c, rest);
    }
  }

  lemma DecodeTwoBytes(c: char, rest: seq<Byte>)
    requires 0x80 <= c as int < 0x800
    ensures DecodeFirst(EncodeChar(c) + rest) == Some((c, 2))
  {
    var n := c as int;
    var q1 := n / 0x40;
    assert n == q1 * 0x40 + n % 0x40;
    var bs := EncodeChar(c) + rest;
    assert bs[0] == 0xC0 + q1 && bs[1] == 0x80 + n % 0x40;
  }

  lemma DecodeThreeBytes(c: char, rest: seq<Byte>)
    requires 0x800 <= c as int < 0x10000
    ensures DecodeFirst(EncodeChar(c) + rest) == Some((c, 3))
  {
    var n := c as int;
    var lo := n % 0x40;
    var q1 := n / 0x40;
    var mid := q1 % 0x40;
    var q2 := q1 / 0x40;
    assert n == q1 * 0x40 + lo;
    assert q1 == q2 * 0x40 + mid;
    var bs := EncodeChar(c) + rest;
    assert bs[0] == 0xE0 + q2 && bs[1] == 0x80 + mid && bs[2] == 0x80 + lo;
    assert ((bs[0] as int - 0xE0) * 0x40 + (bs[1] as int - 0x80)) * 0x40 + (bs[2] as int - 0x80) == n;
  }

  lemma DecodeFourBytes(c: char, rest: seq<Byte>)
    requires 0x10000 <= c as int
    ensures DecodeFirst(EncodeChar(c) + rest) == Some((c, 4))
  {
    var n := c as int;
    var lo := n % 0x40;
    var q1 := n / 0x40;
    var mid := q1 % 0x40;
    var q2 := q1 / 0x40;
    var hi := q2 % 0x40;
    var q3 := q2 / 0x40;
    assert n == q1 * 0x40 + lo;
    assert q1 == q2 * 0x40 + mid;
    assert q2 == q3 * 0x40 + hi;
    var bs := EncodeChar(c) + rest;
    assert bs[0] == 0xF0 + q3 && bs[1] == 0x80 + hi && bs[2] == 0x80 + mid && bs[3] == 0x80 + lo;
    assert (((bs[0] as int - 0xF0) * 0x40 + (bs[1] as int - 0x80)) * 0x40 + (bs[2] as int - 0x80)) * 0x40 + (bs[3] as int - 0x80) == n;
  }

  /** UTF-8 loses nothing: decoding the encoding gives the string back. */
  lemma {:induction false} DecodeUtf8OfUtf8(s: string)
    ensures DecodeUtf8(Utf8(s)) == Some(s)
  {
    if s != [] {
      var head := EncodeChar(s[0]);
      var bs := Utf8(s);
      assert bs == head + Utf8(s[1..]);
      DecodeFirstOfEncodeChar(s[0], Utf8(s[1..]));
      assert bs[|head|..] == Utf8(s[1..]);
      DecodeUtf8OfUtf8(s[1..]);
      assert s == [s[0]] + s[1..];
    }
  }

  lemma Utf8Injective(a: string, b: string)
    requires Utf8(a) == Utf8(b)
    ensures a == b
  {
    DecodeUtf8OfUtf8(a);
    DecodeUtf8OfUtf8(b);
  }

  // ---------------------------------------------------------------------------
  // Lower-case hexadecimal
  // ---------------------------------------------------------------------------

  function HexDigit(d: int): (c: char)
    requires 0 <= d < 16
  {
    if d < 10 then ('0' as int + d) as char else ('a' as int + d - 10) as char
  }

  function HexValue(c: char): (r: Option<int>)
    ensures r.Some? ==> 0 <= r.value < 16
  {
    if '0' <= c <= '9' then Some(c as int - '0' as int)
    else if 'a' <= c <= 'f' then Some(c as int - 'a' as int + 10)
    else None
  }

  predicate IsHexDigit(c: char) {
    '0' <= c <= '9' || 'a' <= c <= 'f'
  }

  /** QByteArray::toHex: two lower-case digits per byte, high nibble first. */
  function Hex(bs: seq<Byte>): (h: string)
    ensures |h| == 2 * |bs|
    ensures forall i :: 0 <= i < |h| ==> IsHexDigit(h[i])
  {
    if bs == [] then "" else [HexDigit(bs[0] / 16), HexDigit(bs[0] % 16)] + Hex(bs[1..])
  }

  /** The inverse of Hex: pairs of digits back to bytes, or None if h is not hex. */
  function Unhex(h: string): Option<seq<Byte>>
    decreases |h|
  {
    if h == [] then Some([])
    else if |h| == 1 then None
    else
      match (HexValue(h[0]), HexValue(h[1]), Unhex(h[2..]))
      case (Some(hi), Some(lo), Some(rest)) => Some([hi * 16 + lo] + rest)
      case _ => None
  }

  lemma {:induction false} UnhexOfHex(bs: seq<Byte>)
    ensures Unhex(Hex(bs)) == Some(bs)
  {
    if bs != [] {
      var h := Hex(bs);
      assert h[2..] == Hex(bs[1..]);
      UnhexOfHex(bs[1..]);
      assert HexValue(h[0]) == Some(bs[0] / 16);
      assert HexValue(h[1]) == Some(bs[0] % 16);
      assert bs == [bs[0]] + bs[1..];
    }
  }

  // ---------------------------------------------------------------------------
  // Cache directories
  // ---------------------------------------------------------------------------

  /** The directory that holds one account's cache (src/Cache.cc:47-49). */
  function AccountSegment(userId: string): (seg: string)
    ensures '/' !in seg
  {
    var h := Hex(Utf8(userId));
    assert forall i :: 0 <= i < |h| ==> h[i] != '/' by {
      forall i | 0 <= i < |h| ensures h[i] != '/' { assert IsHexDigit(h[i]); }
    }
    h
  }

  /**
   * The account's cache directory (src/Cache.cc:47-49): a direct child of
   * the cache root, named by the account segment.
   */
  function CacheDirectory(cacheRoot: string, userId: string): (dir: string)
    ensures |dir| > |cacheRoot| && dir[..|cacheRoot|] == cacheRoot && dir[|cacheRoot|] == '/'
    ensures dir[|cacheRoot| + 1..] == AccountSegment(userId) && '/' !in dir[|cacheRoot| + 1..]
  {
    var dir := cacheRoot + "/" + AccountSegment(userId);
    assert dir[|cacheRoot| + 1..] == AccountSegment(userId);
    dir
  }

  /**
   * The directory the environment is opened in (src/Cache.cc:43-45): inside
   * the account's cache directory, so removing that directory removes it.
   */
  function StatePath(cacheRoot: string, userId: string): (path: string)
    ensures var dir := CacheDirectory(cacheRoot, userId);
            |path| > |dir| && path[..|dir|] == dir && path[|dir|..] == "/state"
  {
    CacheDirectory(cacheRoot, userId) + "/state"
  }

  /**
   * Different accounts never share a cache directory under the same root:
   * the directory name determines the account.
   */
  lemma DirectoryDeterminesAccount(cacheRoot: string, a: string, b: string)
    ensures CacheDirectory(cacheRoot, a) == CacheDirectory(cacheRoot, b) ==> a == b
    ensures StatePath(cacheRoot, a) == StatePath(cacheRoot, b) ==> a == b
  {
    var da, db := CacheDirectory(cacheRoot, a), CacheDirectory(cacheRoot, b);
    if StatePath(cacheRoot, a) == StatePath(cacheRoot, b) {
      assert |da| == |db|;
    }
    if da == db {
      UnhexOfHex(Utf8(a));
      UnhexOfHex(Utf8(b));
      Utf8Injective(a, b);
    }
  }
}
