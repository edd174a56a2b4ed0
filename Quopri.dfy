/**
 * Quoted-printable codec (section 6.7 of RFC 2045), as src/quopri.js does it.
 *
 * `Encode` maps bytes to a string: safe bytes pass through, every other byte
 * and every space or tab that ends a line or the input becomes `=XX` with
 * upper-case hex. No soft line breaks are ever inserted.
 * `Decode` is three rewriting passes over a string: drop one space or tab
 * before each line terminator or the end, drop soft breaks, decode `=XX`.
 */
module Quopri {

  type byte = x: int | 0 <= x < 256

  // ---------------------------------------------------------------------
  // checkRanges
  // ---------------------------------------------------------------------

  /** One entry of a ranges table: a single code `[n]` or an inclusive pair `[lo, hi]`.
      Entries of any other length never match. */
  predicate InRange(nr: int, range: seq<int>)
  {
    || (|range| == 1 && nr == range[0])
    || (|range| == 2 && range[0] <= nr <= range[1])
  }

  predicate InSomeRange(nr: int, ranges: seq<seq<int>>)
  {
    exists i :: 0 <= i < |ranges| && InRange(nr, ranges[i])
  }

  /** Scans the table from its last entry to its first and answers at the first hit. */
  method CheckRanges(nr: int, ranges: seq<seq<int>>) returns (found: bool)
    ensures found <==> InSomeRange(nr, ranges)
  {
    var i := |ranges| - 1;
    while i >= 0
      invariant -1 <= i < |ranges|
      invariant forall j :: i < j < |ranges| ==> !InRange(nr, ranges[j])
    {
      if |ranges[i]| == 0 {
        i := i - 1;
        continue;
      }
      if |ranges[i]| == 1 && nr == ranges[i][0] {
        return true;
      }
      if |ranges[i]| == 2 && nr >= ranges[i][0] && nr <= ranges[i][1] {
        return true;
      }
      i := i - 1;
    }
    return false;
  }

  /** The table of characters that need no encoding. */
  const SafeRanges: seq<seq<int>> := [[0x09], [0x0a], [0x0d], [0x20, 0x3c], [0x3e, 0x7e]]

  /** TAB, LF, CR, SP through `<`, and `>` through `~`: everything printable but `=`. */
  predicate Safe(x: int)
  {
    x == 0x09 || x == 0x0a || x == 0x0d || 0x20 <= x <= 0x3c || 0x3e <= x <= 0x7e
  }

  lemma SafeRangesExact(x: int)
    ensures InSomeRange(x, SafeRanges) <==> Safe(x)
  {
    if Safe(x) {
      var i := if x == 0x09 then 0 else if x == 0x0a then 1 else if x == 0x0d then 2
               else if x <= 0x3c then 3 else 4;
      assert InRange(x, SafeRanges[i]);
    }
  }

  // ---------------------------------------------------------------------
  // encode
  // ---------------------------------------------------------------------

  /** A space or tab that is last in the input or is followed by LF or CR. */
  predicate TrailingWs(b: seq<byte>, i: int)
    requires 0 <= i < |b|
  {
    (b[i] == 0x20 || b[i] == 0x09) && (i == |b| - 1 || b[i + 1] == 0x0a || b[i + 1] == 0x0d)
  }

  /** The byte at `i` is emitted as itself. */
  predicate Kept(b: seq<byte>, i: int)
    requires 0 <= i < |b|
  {
    Safe(b[i]) && !TrailingWs(b, i)
  }

  /** An upper-case hexadecimal digit. */
  function HexDigit(d: int): (c: char)
    requires 0 <= d < 16
    ensures IsUpperHex(c) && HexValue(c) == d
  {
    if d < 10 then (48 + d) as char else (65 + d - 10) as char
  }

  /** The value in upper-case hexadecimal: one digit below 16, two otherwise. */
  function ToHexUpper(x: byte): string
  {
    if x < 16 then [HexDigit(x)] else [HexDigit(x / 16), HexDigit(x % 16)]
  }

  /** `=` and the value in upper-case hexadecimal, with a `0` in front of a single digit. */
  function Escape(x: byte): (r: string)
    ensures r == ['=', HexDigit(x / 16), HexDigit(x % 16)]
  {
    "=" + (if x < 0x10 then "0" else "") + ToHexUpper(x)
  }

  /** What the byte at index `i` contributes to the output. */
  function Token(b: seq<byte>, i: int): string
    requires 0 <= i < |b|
  {
    if Kept(b, i) then [b[i] as char] else Escape(b[i])
  }

  /** The encoding of `b[i..]`, its tokens concatenated in order. */
  function EncodeFrom(b: seq<byte>, i: int): string
    requires 0 <= i <= |b|
    decreases |b| - i
  {
    if i == |b| then [] else Token(b, i) + EncodeFrom(b, i + 1)
  }

  /** The reference definition of the encoder's output. */
  function Encoding(b: seq<byte>): string
  {
    EncodeFrom(b, 0)
  }

  lemma ConcatAssoc(a: string, b: string, c: string)
    ensures (a + b) + c == a + (b + c)
  {
  }

  /** One loop step: moving the token at `i` from the pending encoding into the output. */
  lemma AppendToken(b: seq<byte>, i: int, acc: string)
    requires 0 <= i < |b|
    ensures acc + EncodeFrom(b, i) == (acc + Token(b, i)) + EncodeFrom(b, i + 1)
  {
    ConcatAssoc(acc, Token(b, i), EncodeFrom(b, i + 1));
  }

  /** The `for` loop of `encode`, appending one token per byte. */
  method Encode(buffer: seq<byte>) returns (result: string)
    ensures result == Encoding(buffer)
  {
    result := "";
    var i, len := 0, |buffer|;
    while i < len
      invariant 0 <= i <= len
      invariant result + EncodeFrom(buffer, i) == Encoding(buffer)
    {
      var ord := buffer[i];
      var inRange := CheckRanges(ord, SafeRanges);
      SafeRangesExact(ord);
      AppendToken(buffer, i, result);
      if inRange && !((ord == 0x20 || ord == 0x09) && (i == len - 1 || buffer[i + 1] == 0x0a || buffer[i + 1] == 0x0d)) {
        result := result + [ord as char];
        i := i + 1;
        continue;
      }
      result := result + ("=" + (if ord < 0x10 then "0" else "") + ToHexUpper(ord));
      i := i + 1;
    }
  }

  // ---------------------------------------------------------------------
  // decode
  // ---------------------------------------------------------------------

  predicate IsWs(c: char)
  {
    c == ' ' || c == '\t'
  }

  /** What `$` under the `m` flag stops before: LF, CR, LINE SEPARATOR, PARAGRAPH SEPARATOR. */
  predicate IsLineTerminator(c: char)
  {
    c == '\n' || c == '\r' || c == '\U{2028}' || c == '\U{2029}'
  }

  predicate IsHex(c: char)
  {
    '0' <= c <= '9' || 'a' <= c <= 'f' || 'A' <= c <= 'F'
  }

  predicate IsUpperHex(c: char)
  {
    '0' <= c <= '9' || 'A' <= c <= 'F'
  }

  /** The value of one hexadecimal digit of either case. */
  function HexValue(c: char): (v: int)
    requires IsHex(c)
    ensures 0 <= v < 16
  {
    if '0' <= c <= '9' then c as int - 48
    else if 'a' <= c <= 'f' then c as int - 97 + 10
    else c as int - 65 + 10
  }

  /** Pass 1, the pattern `/[\t\x20]$/gm` replaced by nothing: a space or tab
      directly before a line terminator or the end of the input is deleted. */
  function StripLineEndWs(s: string): (r: string)
    ensures |r| <= |s|
    decreases |s|
  {
    if s == [] then []
    else if IsWs(s[0]) && (|s| == 1 || IsLineTerminator(s[1])) then StripLineEndWs(s[1..])
    else [s[0]] + StripLineEndWs(s[1..])
  }

  /** Pass 2, the pattern `/=(?:\r\n?|\n|$)/g` replaced by nothing: `=` followed
      by CRLF, CR, LF or the end of the input is deleted together with the break. */
  function RemoveSoftBreaks(s: string): (r: string)
    ensures |r| <= |s|
    decreases |s|
  {
    if s == [] then []
    else if s[0] != '=' then [s[0]] + RemoveSoftBreaks(s[1..])
    else if |s| == 1 then []
    else if s[1] == '\r' then
      (if |s| >= 3 && s[2] == '\n' then RemoveSoftBreaks(s[3..]) else RemoveSoftBreaks(s[2..]))
    else if s[1] == '\n' then RemoveSoftBreaks(s[2..])
    else [s[0]] + RemoveSoftBreaks(s[1..])
  }

  /** Pass 3, the pattern `/=([a-fA-F0-9]{2})/g`: `=XX` becomes the character with code XX. */
  function DecodeEscapes(s: string): (r: string)
    ensures |r| <= |s|
    decreases |s|
  {
    if |s| >= 3 && s[0] == '=' && IsHex(s[1]) && IsHex(s[2]) then
      [(16 * HexValue(s[1]) + HexValue(s[2])) as char] + DecodeEscapes(s[3..])
    else if s == [] then []
    else [s[0]] + DecodeEscapes(s[1..])
  }

  /** The decoder: the three passes in order. */
  function Decode(input: string): (r: string)
    ensures |r| <= |input|
  {
    DecodeEscapes(RemoveSoftBreaks(StripLineEndWs(input)))
  }

  /** Bytes read as code units 0-255. */
  function Chars(b: seq<byte>): (r: string)
    ensures |r| == |b|
    ensures forall k :: 0 <= k < |b| ==> r[k] as int == b[k]
  {
    if b == [] then [] else [b[0] as char] + Chars(b[1..])
  }

  // ---------------------------------------------------------------------
  // Properties of the encoder
  // ---------------------------------------------------------------------

  /** A byte is emitted as itself exactly when it is kept; otherwise it becomes `=`
      and two upper-case hex digits, zero-padded. */
  lemma TokenRule(b: seq<byte>, i: int)
    requires 0 <= i < |b|
    ensures Token(b, i) == [b[i] as char] <==> Kept(b, i)
    ensures !Kept(b, i) ==> Token(b, i) == ['=', HexDigit(b[i] / 16), HexDigit(b[i] % 16)]
    ensures 1 <= |Token(b, i)| && Token(b, i)[0] == (if Kept(b, i) then b[i] as char else '=')
  {
  }

  /** `=` is always escaped as `=3D`. */
  lemma EqualsSignEscaped(b: seq<byte>, i: int)
    requires 0 <= i < |b| && b[i] == 0x3D
    ensures Token(b, i) == "=3D"
  {
  }

  /** A space or tab at the end of the input or before CR or LF is escaped. */
  lemma TrailingWsEscaped(b: seq<byte>, i: int)
    requires 0 <= i < |b| && (b[i] == 0x20 || b[i] == 0x09)
    requires i == |b| - 1 || b[i + 1] == 0x0a || b[i + 1] == 0x0d
    ensures Token(b, i) == (if b[i] == 0x20 then "=20" else "=09")
  {
  }

  /** Number of escaped bytes in `b[i..]`. */
  function EscapedFrom(b: seq<byte>, i: int): nat
    requires 0 <= i <= |b|
    decreases |b| - i
  {
    if i == |b| then 0 else (if Kept(b, i) then 0 else 1) + EscapedFrom(b, i + 1)
  }

  /** Output length is input length plus two per escaped byte. */
  lemma {:induction false} EncodeFromLength(b: seq<byte>, i: int)
    requires 0 <= i <= |b|
    ensures |EncodeFrom(b, i)| == (|b| - i) + 2 * EscapedFrom(b, i)
    decreases |b| - i
  {
    if i < |b| {
      EncodeFromLength(b, i + 1);
    }
  }

  lemma EncodingLength(b: seq<byte>)
    ensures |Encoding(b)| == |b| + 2 * EscapedFrom(b, 0)
  {
    EncodeFromLength(b, 0);
  }

  predicate Printable(c: char)
  {
    c == '\t' || c == '\n' || c == '\r' || ' ' <= c <= '~'
  }

  /** Every output character is TAB, LF, CR or in 0x20-0x7E. */
  lemma {:induction false} EncodeFromPrintable(b: seq<byte>, i: int)
    requires 0 <= i <= |b|
    ensures forall k :: 0 <= k < |EncodeFrom(b, i)| ==> Printable(EncodeFrom(b, i)[k])
    decreases |b| - i
  {
    if i < |b| {
      EncodeFromPrintable(b, i + 1);
      var t := Token(b, i);
      assert forall k :: 0 <= k < |t| ==> Printable(t[k]);
    }
  }

  lemma EncodingPrintable(b: seq<byte>)
    ensures forall k :: 0 <= k < |Encoding(b)| ==> Printable(Encoding(b)[k])
  {
    EncodeFromPrintable(b, 0);
  }

  /** Every `=` in `s` starts a complete upper-case escape: in particular none is a soft
      line break, whatever the line length. */
  predicate EscapesComplete(s: string)
  {
    forall k :: 0 <= k < |s| && s[k] == '=' ==> k + 2 < |s| && IsUpperHex(s[k + 1]) && IsUpperHex(s[k + 2])
  }

  lemma {:induction false} EncodeFromEscapesComplete(b: seq<byte>, i: int)
    requires 0 <= i <= |b|
    ensures EscapesComplete(EncodeFrom(b, i))
    decreases |b| - i
  {
    if i < |b| {
      EncodeFromEscapesComplete(b, i + 1);
      var t, rest := Token(b, i), EncodeFrom(b, i + 1);
      var s := t + rest;
      forall k | 0 <= k < |s| && s[k] == '='
        ensures k + 2 < |s| && IsUpperHex(s[k + 1]) && IsUpperHex(s[k + 2])
      {
        if k >= |t| {
          assert rest[k - |t|] == '=';
        }
      }
    }
  }

  lemma NoSoftBreaks(b: seq<byte>)
    ensures EscapesComplete(Encoding(b))
  {
    EncodeFromEscapesComplete(b, 0);
  }

  lemma {:induction false} NoneEscapedFrom(b: seq<byte>, i: int, j: int)
    requires 0 <= i <= j < |b| && EscapedFrom(b, i) == 0
    ensures Kept(b, j)
    decreases j - i
  {
    if i < j {
      NoneEscapedFrom(b, i + 1, j);
    }
  }

  lemma {:induction false} AllKeptFrom(b: seq<byte>, i: int)
    requires 0 <= i <= |b|
    requires forall j :: i <= j < |b| ==> Kept(b, j)
    ensures EncodeFrom(b, i) == Chars(b[i..])
    decreases |b| - i
  {
    if i < |b| {
      AllKeptFrom(b, i + 1);
      assert b[i..][1..] == b[i + 1..];
    }
  }

  /** Encoding is the identity exactly on inputs all of whose bytes are kept. */
  lemma IdentityOnSafeInput(b: seq<byte>)
    ensures Encoding(b) == Chars(b) <==> forall i :: 0 <= i < |b| ==> Kept(b, i)
  {
    if forall i :: 0 <= i < |b| ==> Kept(b, i) {
      AllKeptFrom(b, 0);
      assert b[0..] == b;
    }
    if Encoding(b) == Chars(b) {
      EncodingLength(b);
      forall j | 0 <= j < |b| ensures Kept(b, j) {
        NoneEscapedFrom(b, 0, j);
      }
    }
  }

  // ---------------------------------------------------------------------
  // Properties of the decoder
  // ---------------------------------------------------------------------

  predicate NoLineTerminator(l: string)
  {
    forall k :: 0 <= k < |l| ==> !IsLineTerminator(l[k])
  }

  /** `l` without its last character when that is a space or tab. */
  function DropLastWs(l: string): string
  {
    if l != [] && IsWs(l[|l| - 1]) then l[..|l| - 1] else l
  }

  /** Pass 1 works line by line: of each line only one final space or tab goes,
      leading spaces stay. */
  lemma {:induction false} StripLine(l: string, rest: string)
    requires NoLineTerminator(l)
    requires rest == [] || IsLineTerminator(rest[0])
    ensures StripLineEndWs(l + rest) == DropLastWs(l) + StripLineEndWs(rest)
    decreases |l|
  {
    if l != [] {
      var s := l + rest;
      assert s[0] == l[0];
      assert s[1..] == l[1..] + rest;
      if |l| == 1 {
        assert s[1..] == rest;
        assert |s| == 1 || IsLineTerminator(s[1]);
      } else {
        assert s[1] == l[1] && !IsLineTerminator(s[1]);
        assert NoLineTerminator(l[1..]);
        StripLine(l[1..], rest);
        assert l[1..][..|l[1..]| - 1] == l[1..|l| - 1];
        assert DropLastWs(l) == [l[0]] + DropLastWs(l[1..]);
        calc {
          StripLineEndWs(s);
          [l[0]] + StripLineEndWs(l[1..] + rest);
          [l[0]] + (DropLastWs(l[1..]) + StripLineEndWs(rest));
          { ConcatAssoc([l[0]], DropLastWs(l[1..]), StripLineEndWs(rest)); }
          DropLastWs(l) + StripLineEndWs(rest);
        }
      }
    } else {
      assert l + rest == rest;
    }
  }

  /** Characters other than `=` pass through pass 2. */
  lemma {:induction false} SoftBreaksPlain(l: string, rest: string)
    requires '=' !in l
    ensures RemoveSoftBreaks(l + rest) == l + RemoveSoftBreaks(rest)
    decreases |l|
  {
    if l != [] {
      var s := l + rest;
      assert s[0] == l[0] && s[0] != '=';
      assert s[1..] == l[1..] + rest;
      assert '=' !in l[1..];
      SoftBreaksPlain(l[1..], rest);
      calc {
        RemoveSoftBreaks(s);
        [l[0]] + RemoveSoftBreaks(l[1..] + rest);
        [l[0]] + (l[1..] + RemoveSoftBreaks(rest));
        { ConcatAssoc([l[0]], l[1..], RemoveSoftBreaks(rest)); assert [l[0]] + l[1..] == l; }
        l + RemoveSoftBreaks(rest);
      }
    } else {
      assert l + rest == rest;
    }
  }

  /** Pass 2 deletes `=` with the CRLF, CR or LF after it, or at the end of the input. */
  lemma SoftBreakRemoved(l: string, brk: string, rest: string)
    requires '=' !in l
    requires brk == "\r\n" || brk == "\n" || (brk == "\r" && (rest == [] || rest[0] != '\n'))
             || (brk == [] && rest == [])
    ensures RemoveSoftBreaks(l + "=" + brk + rest) == l + RemoveSoftBreaks(rest)
  {
    SoftBreaksPlain(l, "=" + brk + rest);
    assert l + "=" + brk + rest == l + ("=" + brk + rest);
    var s := "=" + brk + rest;
    assert s[|brk| + 1..] == rest;
  }

  /** Characters other than `=` pass through pass 3. */
  lemma {:induction false} EscapesPlain(l: string, rest: string)
    requires '=' !in l
    ensures DecodeEscapes(l + rest) == l + DecodeEscapes(rest)
    decreases |l|
  {
    if l != [] {
      var s := l + rest;
      assert s[0] == l[0] && s[0] != '=';
      assert s[1..] == l[1..] + rest;
      assert '=' !in l[1..];
      EscapesPlain(l[1..], rest);
      calc {
        DecodeEscapes(s);
        [l[0]] + DecodeEscapes(l[1..] + rest);
        [l[0]] + (l[1..] + DecodeEscapes(rest));
        { ConcatAssoc([l[0]], l[1..], DecodeEscapes(rest)); assert [l[0]] + l[1..] == l; }
        l + DecodeEscapes(rest);
      }
    } else {
      assert l + rest == rest;
    }
  }

  /** Pass 1 only deletes: it adds no character, and text without spaces or tabs passes unchanged. */
  lemma {:induction false} StripOnlyDeletes(s: string)
    ensures forall c :: c in StripLineEndWs(s) ==> c in s
    ensures (forall k :: 0 <= k < |s| ==> !IsWs(s[k])) ==> StripLineEndWs(s) == s
    decreases |s|
  {
    if s != [] {
      StripOnlyDeletes(s[1..]);
      assert forall c :: c in s[1..] ==> c in s;
    }
  }

  /** Text without `=` is only stripped of the spaces and tabs that end its lines; text
      that also has no space or tab comes out of `decode` unchanged. */
  lemma DecodePlain(input: string)
    requires '=' !in input
    ensures Decode(input) == StripLineEndWs(input)
    ensures (forall k :: 0 <= k < |input| ==> !IsWs(input[k])) ==> Decode(input) == input
  {
    var stripped := StripLineEndWs(input);
    StripOnlyDeletes(input);
    SoftBreaksPlain(stripped, []);
    assert stripped + [] == stripped;
    EscapesPlain(stripped, []);
  }

  /** Pass 3 replaces `=XX`, hex of either case, by the character of that code. */
  lemma EscapeDecoded(h: char, l: char, rest: string)
    requires IsHex(h) && IsHex(l)
    ensures DecodeEscapes(['=', h, l] + rest) == [(16 * HexValue(h) + HexValue(l)) as char] + DecodeEscapes(rest)
  {
    assert (['=', h, l] + rest)[3..] == rest;
  }

  /** A lower-case hexadecimal digit. */
  function LowerHexDigit(d: int): (c: char)
    requires 0 <= d < 16
    ensures IsHex(c) && HexValue(c) == d
  {
    if d < 10 then (48 + d) as char else (97 + d - 10) as char
  }

  /** Every digit the pattern accepts is the upper- or the lower-case digit of its value. */
  lemma HexDigitCases(c: char)
    requires IsHex(c)
    ensures c == HexDigit(HexValue(c)) || c == LowerHexDigit(HexValue(c))
  {
  }

  /** `=` followed by the two digits of byte `x`, each in either case, decodes to `x`. */
  lemma EscapeOfByteDecoded(x: byte, upperHigh: bool, upperLow: bool, rest: string)
    ensures var h := if upperHigh then HexDigit(x / 16) else LowerHexDigit(x / 16);
            var l := if upperLow then HexDigit(x % 16) else LowerHexDigit(x % 16);
            DecodeEscapes(['=', h, l] + rest) == [x as char] + DecodeEscapes(rest)
  {
    var h := if upperHigh then HexDigit(x / 16) else LowerHexDigit(x / 16);
    var l := if upperLow then HexDigit(x % 16) else LowerHexDigit(x % 16);
    EscapeDecoded(h, l, rest);
  }

  // ---------------------------------------------------------------------
  // Round trip
  // ---------------------------------------------------------------------

  lemma StripCons(c: char, t: string)
    requires !IsWs(c) || (t != [] && !IsLineTerminator(t[0]))
    ensures StripLineEndWs([c] + t) == [c] + StripLineEndWs(t)
  {
    assert ([c] + t)[1..] == t;
  }

  lemma SoftCons(c: char, t: string)
    requires c != '=' || (t != [] && t[0] != '\r' && t[0] != '\n')
    ensures RemoveSoftBreaks([c] + t) == [c] + RemoveSoftBreaks(t)
  {
    assert ([c] + t)[1..] == t;
  }

  /** Pass 1 steps over an escape unchanged. */
  lemma StripEscape(x: byte, rest: string)
    ensures StripLineEndWs(Escape(x) + rest) == Escape(x) + StripLineEndWs(rest)
  {
    var e := Escape(x);
    StripCons(e[2], rest);
    StripCons(e[1], [e[2]] + rest);
    StripCons(e[0], [e[1]] + ([e[2]] + rest));
    assert e + rest == [e[0]] + ([e[1]] + ([e[2]] + rest));
  }

  /** Pass 2 steps over `=` and two upper-case digits unchanged. */
  lemma SoftDigits(h: char, l: char, rest: string)
    requires IsUpperHex(h) && IsUpperHex(l)
    ensures RemoveSoftBreaks(['=', h, l] + rest) == ['=', h, l] + RemoveSoftBreaks(rest)
  {
    var tail := [h] + ([l] + rest);
    SoftCons(l, rest);
    SoftCons(h, [l] + rest);
    SoftCons('=', tail);
    assert ['=', h, l] + rest == ['='] + tail;
    assert ['=', h, l] + RemoveSoftBreaks(rest) == ['='] + ([h] + ([l] + RemoveSoftBreaks(rest)));
  }

  /** Pass 2 steps over an escape unchanged. */
  lemma SoftEscape(x: byte, rest: string)
    ensures RemoveSoftBreaks(Escape(x) + rest) == Escape(x) + RemoveSoftBreaks(rest)
  {
    SoftDigits(HexDigit(x / 16), HexDigit(x % 16), rest);
  }

  /** Encoder output has no space or tab before a line end: pass 1 leaves it alone. */
  lemma {:induction false} StripKeepsEncoding(b: seq<byte>, i: int)
    requires 0 <= i <= |b|
    ensures StripLineEndWs(EncodeFrom(b, i)) == EncodeFrom(b, i)
    decreases |b| - i
  {
    if i < |b| {
      StripKeepsEncoding(b, i + 1);
      var rest := EncodeFrom(b, i + 1);
      if Kept(b, i) {
        if IsWs(b[i] as char) {
          TokenRule(b, i + 1);
        }
        StripCons(b[i] as char, rest);
      } else {
        StripEscape(b[i], rest);
      }
    }
  }

  /** Encoder output has no soft break: pass 2 leaves it alone. */
  lemma {:induction false} SoftKeepsEncoding(b: seq<byte>, i: int)
    requires 0 <= i <= |b|
    ensures RemoveSoftBreaks(EncodeFrom(b, i)) == EncodeFrom(b, i)
    decreases |b| - i
  {
    if i < |b| {
      SoftKeepsEncoding(b, i + 1);
      var rest := EncodeFrom(b, i + 1);
      if Kept(b, i) {
        SoftCons(b[i] as char, rest);
      } else {
        SoftEscape(b[i], rest);
      }
    }
  }

  /** Pass 3 turns each token back into the byte it came from. */
  lemma {:induction false} EscapesDecodeEncoding(b: seq<byte>, i: int)
    requires 0 <= i <= |b|
    ensures DecodeEscapes(EncodeFrom(b, i)) == Chars(b[i..])
    decreases |b| - i
  {
    if i < |b| {
      EscapesDecodeEncoding(b, i + 1);
      var rest := EncodeFrom(b, i + 1);
      assert b[i..][1..] == b[i + 1..];
      if Kept(b, i) {
        EscapesPlain([b[i] as char], rest);
      } else {
        var x := b[i];
        EscapeDecoded(HexDigit(x / 16), HexDigit(x % 16), rest);
      }
    }
  }

  /** Decoding the encoding of a buffer gives the buffer back, read as code units 0-255. */
  lemma RoundTrip(b: seq<byte>)
    ensures Decode(Encoding(b)) == Chars(b)
  {
    StripKeepsEncoding(b, 0);
    SoftKeepsEncoding(b, 0);
    EscapesDecodeEncoding(b, 0);
    assert b[0..] == b;
  }

  // ---------------------------------------------------------------------
  // The examples of the test suite
  // ---------------------------------------------------------------------

  lemma EncodeExamples()
    ensures Encoding([0x20, 0x3D, 0x20]) == " =3D=20"
  {
    var b: seq<byte> := [0x20, 0x3D, 0x20];
    assert EncodeFrom(b, 2) == "=20";
    assert EncodeFrom(b, 1) == "=3D" + "=20";
    assert EncodeFrom(b, 0) == " " + ("=3D" + "=20");
  }

  lemma EncodeTrailingTabExample()
    ensures Encoding([0x66, 0x6F, 0x6F, 0x09]) == "foo=09"
  {
    var b: seq<byte> := [0x66, 0x6F, 0x6F, 0x09];
    assert EncodeFrom(b, 3) == "=09";
    assert EncodeFrom(b, 2) == "o" + "=09";
    assert EncodeFrom(b, 1) == "o" + ("o" + "=09");
    assert EncodeFrom(b, 0) == "f" + ("o" + ("o" + "=09"));
  }
}
