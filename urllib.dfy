/**
 * Percent-decoding as Python 2's `urllib.unquote` (re-exported as
 * `urllib2.unquote`) performs it on a byte string, which the HTTPMeta link
 * applies to every request URI.
 *
 * A `%` followed by two hexadecimal digits (upper or lower case) becomes the
 * byte they denote, as section 2.1 of RFC 3986 describes; every other `%` is
 * left where it is. Strings are byte strings: each character stands for one
 * byte, so its code is below 256.
 */
module Urllib {

  /** The digits of `_hexdig` in the library: `0-9`, `A-F` and `a-f`. */
  predicate IsHexDigit(c: char) {
    '0' <= c <= '9' || 'A' <= c <= 'F' || 'a' <= c <= 'f'
  }

  function HexValue(c: char): (v: nat)
    requires IsHexDigit(c)
    ensures v < 16
  {
    if '0' <= c <= '9' then c as int - '0' as int
    else if 'A' <= c <= 'F' then c as int - 'A' as int + 10
    else c as int - 'a' as int + 10
  }

  /** The upper-case digit `quote` writes for a value below 16. */
  function HexDigit(v: nat): (c: char)
    requires v < 16
    ensures IsHexDigit(c) && HexValue(c) == v
  {
    if v < 10 then ('0' as int + v) as char else ('A' as int + v - 10) as char
  }

  /** A Python 2 `str`: every character is one byte. */
  predicate IsByteString(s: string) {
    forall i :: 0 <= i < |s| ==> s[i] as int < 256
  }

  /** The byte denoted by the two hexadecimal digits `hi` and `lo`. */
  function DecodeEscape(hi: char, lo: char): (c: char)
    requires IsHexDigit(hi) && IsHexDigit(lo)
    ensures c as int < 256
  {
    (HexValue(hi) * 16 + HexValue(lo)) as char
  }

  /** True when `s` begins with a well-formed escape `%XX`. */
  predicate StartsWithEscape(s: string) {
    |s| >= 3 && s[0] == '%' && IsHexDigit(s[1]) && IsHexDigit(s[2])
  }

  /**
   * `unquote(s)`, scanning left to right: a well-formed escape becomes one
   * byte, anything else (a lone `%` included) is copied.
   */
  function Unquote(s: string): (r: string)
    ensures |r| <= |s|
    decreases |s|
  {
    if s == [] then []
    else if StartsWithEscape(s) then [DecodeEscape(s[1], s[2])] + Unquote(s[3..])
    else [s[0]] + Unquote(s[1..])
  }

  /** The characters `quote` never escapes (`always_safe` in the library). */
  predicate IsAlwaysSafe(c: char) {
    'A' <= c <= 'Z' || 'a' <= c <= 'z' || '0' <= c <= '9' || c == '_' || c == '.' || c == '-'
  }

  /** `quote(s, safe='')`: every byte outside `always_safe` becomes `%XX`. */
  function Quote(s: string): (r: string)
    requires IsByteString(s)
    ensures '+' !in r
  {
    if s == [] then []
    else
      var c := s[0];
      (if IsAlwaysSafe(c) then [c] else ['%', HexDigit(c as int / 16), HexDigit(c as int % 16)])
      + Quote(s[1..])
  }

  /** Decoding undoes encoding: `unquote(quote(s)) == s` for every byte string. */
  lemma {:induction false} UnquoteQuote(s: string)
    requires IsByteString(s)
    ensures Unquote(Quote(s)) == s
  {
    if s != [] {
      var c := s[0];
      var rest := Quote(s[1..]);
      UnquoteQuote(s[1..]);
      if IsAlwaysSafe(c) {
        assert Quote(s) == [c] + rest;
        assert ([c] + rest)[1..] == rest;
      } else {
        var e := ['%', HexDigit(c as int / 16), HexDigit(c as int % 16)];
        assert Quote(s) == e + rest;
        assert StartsWithEscape(e + rest);
        assert (e + rest)[3..] == rest;
        assert DecodeEscape(e[1], e[2]) == c;
      }
      assert s == [c] + s[1..];
    }
  }

  /** Text without `%` passes through a decode unchanged, whatever follows it. */
  lemma {:induction false} UnquotePlainPrefix(t: string, u: string)
    requires '%' !in t
    ensures Unquote(t + u) == t + Unquote(u)
    decreases |t|
  {
    if t == [] {
      assert t + u == u;
    } else {
      var w := t + u;
      assert w[0] == t[0] && w[0] != '%';
      assert !StartsWithEscape(w);
      assert w[1..] == t[1..] + u;
      UnquotePlainPrefix(t[1..], u);
      calc {
        Unquote(w);
        [t[0]] + Unquote(t[1..] + u);
        [t[0]] + (t[1..] + Unquote(u));
        { assert t == [t[0]] + t[1..]; }
        t + Unquote(u);
      }
    }
  }

  // ---------------------------------------------------------------------
  // The library's own formulation: split on '%', keep the first piece, and
  // for every later piece either decode its first two characters or put the
  // '%' back. `Unquote` above is proved equal to it.

  /** `s.split('%')`. */
  function SplitPercent(s: string): (bits: seq<string>)
    ensures |bits| >= 1
    ensures '%' !in bits[0]
    ensures |bits[0]| <= |s| && bits[0] == s[..|bits[0]|]
    ensures |bits| == 1 <==> '%' !in s
    ensures |bits| == 1 ==> bits[0] == s
    ensures |bits| > 1 ==> |bits[0]| < |s| && s[|bits[0]|] == '%'
    decreases |s|
  {
    if s == [] then [s]
    else if s[0] == '%' then [[]] + SplitPercent(s[1..])
    else
      var tail := SplitPercent(s[1..]);
      assert s == [s[0]] + s[1..];
      [[s[0]] + tail[0]] + tail[1..]
  }

  /** One piece after a '%': `_hextochr[item[:2]] + item[2:]`, or `'%' + item` on a KeyError. */
  function DecodeItem(item: string): string {
    if |item| >= 2 && IsHexDigit(item[0]) && IsHexDigit(item[1])
    then [DecodeEscape(item[0], item[1])] + item[2..]
    else ['%'] + item
  }

  function JoinItems(items: seq<string>): string {
    if items == [] then [] else DecodeItem(items[0]) + JoinItems(items[1..])
  }

  /** `unquote` as the library writes it. */
  function UnquoteBySplit(s: string): string {
    var bits := SplitPercent(s);
    if |bits| == 1 then s else bits[0] + JoinItems(bits[1..])
  }

  /** The split pieces after the first are exactly the split of what follows the first '%'. */
  lemma {:induction false} SplitPercentTail(s: string)
    requires '%' in s
    ensures var bits := SplitPercent(s);
            bits[1..] == SplitPercent(s[|bits[0]| + 1..])
    decreases |s|
  {
    if s[0] != '%' {
      assert s == [s[0]] + s[1..];
      assert '%' in s[1..];
      SplitPercentTail(s[1..]);
      var tail := SplitPercent(s[1..]);
      assert SplitPercent(s) == [[s[0]] + tail[0]] + tail[1..];
      assert s[|tail[0]| + 2..] == s[1..][|tail[0]| + 1..];
    }
  }

  /** The scanning decoder and the library's split-based decoder agree on every string. */
  lemma {:induction false} UnquoteMatchesLibrary(s: string)
    ensures Unquote(s) == UnquoteBySplit(s)
  {
    SplitDecode(s);
  }

  /** One '%' followed by a piece without '%': the piece is decoded as `DecodeItem` does. */
  lemma {:induction false} UnquoteItem(head: string, rest: string)
    requires '%' !in head
    requires rest == [] || rest[0] == '%'
    ensures Unquote(['%'] + head + rest) == DecodeItem(head) + Unquote(rest)
  {
    if |head| >= 2 && IsHexDigit(head[0]) && IsHexDigit(head[1]) {
      UnquoteEscapedItem(head, rest);
    } else {
      UnquoteLonePercent(head, rest);
    }
  }

  lemma {:induction false} UnquoteEscapedItem(head: string, rest: string)
    requires '%' !in head
    requires |head| >= 2 && IsHexDigit(head[0]) && IsHexDigit(head[1])
    ensures Unquote(['%'] + head + rest) == [DecodeEscape(head[0], head[1])] + head[2..] + Unquote(rest)
  {
    var u := ['%'] + head + rest;
    assert u[1] == head[0] && u[2] == head[1];
    assert StartsWithEscape(u);
    assert u[3..] == head[2..] + rest;
    UnquotePlainPrefix(head[2..], rest);
  }

  lemma {:induction false} UnquoteLonePercent(head: string, rest: string)
    requires '%' !in head
    requires rest == [] || rest[0] == '%'
    requires !(|head| >= 2 && IsHexDigit(head[0]) && IsHexDigit(head[1]))
    ensures Unquote(['%'] + head + rest) == ['%'] + head + Unquote(rest)
  {
    var u := ['%'] + head + rest;
    if |head| == 0 {
      assert rest != [] ==> u[1] == rest[0];
    } else if |head| == 1 {
      assert u[1] == head[0];
      assert rest != [] ==> u[2] == rest[0];
    } else {
      assert u[1] == head[0] && u[2] == head[1];
    }
    assert !StartsWithEscape(u);
    assert u[1..] == head + rest;
    UnquotePlainPrefix(head, rest);
  }

  lemma {:induction false} SplitDecode(s: string)
    ensures var bits := SplitPercent(s);
            Unquote(s) == bits[0] + JoinItems(bits[1..])
    decreases |s|
  {
    var bits := SplitPercent(s);
    if '%' !in s {
      assert bits[0] == s && bits[1..] == [];
      UnquotePlainPrefix(s, []);
      assert s + [] == s;
    } else {
      var t := s[|bits[0]| + 1..];
      SplitDecode(t);
      SplitDecodeItem(t);
      SplitDecodeFirst(s);
    }
  }

  /** Before the first '%' nothing is decoded; the rest is decoded from that '%' on. */
  lemma {:induction false} SplitDecodeFirst(s: string)
    requires '%' in s
    ensures var bits := SplitPercent(s);
            var t := s[|bits[0]| + 1..];
            Unquote(s) == bits[0] + Unquote(['%'] + t) && bits[1..] == SplitPercent(t)
  {
    var bits := SplitPercent(s);
    var i := |bits[0]|;
    var t := s[i + 1..];
    assert s == s[..i] + [s[i]] + s[i + 1..];
    assert s == bits[0] + (['%'] + t);
    UnquotePlainPrefix(bits[0], ['%'] + t);
    SplitPercentTail(s);
  }

  /** The decode of a '%' followed by `t` is the split-based decode of the pieces of `t`. */
  lemma {:induction false} SplitDecodeItem(t: string)
    requires var ts := SplitPercent(t); Unquote(t) == ts[0] + JoinItems(ts[1..])
    ensures Unquote(['%'] + t) == JoinItems(SplitPercent(t))
  {
    var ts := SplitPercent(t);
    var head := ts[0];
    var rest := t[|head|..];
    assert t == head + rest;
    assert rest == [] || rest[0] == '%';
    assert Unquote(rest) == JoinItems(ts[1..]) by {
      UnquotePlainPrefix(head, rest);
      assert head + Unquote(rest) == head + JoinItems(ts[1..]);
      assert (head + Unquote(rest))[|head|..] == Unquote(rest);
      assert (head + JoinItems(ts[1..]))[|head|..] == JoinItems(ts[1..]);
    }
    UnquoteItem(head, rest);
    assert ['%'] + t == ['%'] + head + rest;
  }
}
