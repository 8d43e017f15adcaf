/** `encodeHTML`: the six replacements applied to a commit subject before it
    is written into the changelog, and what they guarantee about the text
    that comes out. */
module Escape {
  import opened Text

  // ---------------------------------------------------------------- the six passes

  /** Every occurrence of the character `c` replaced by `rep` (a global
      replace of a one-character pattern). */
  function ReplaceAll(s: string, c: char, rep: string): (r: string)
    ensures c !in s ==> r == s
    ensures c !in rep ==> c !in r
    ensures |rep| > 0 ==> |r| >= |s|
  {
    if s == [] then [] else (if s[0] == c then rep else [s[0]]) + ReplaceAll(s[1..], c, rep)
  }

  /** A backslash at the very end of the text becomes two; no other
      backslash is touched. */
  function DoubleTrailingBackslash(s: string): string
  {
    if s != [] && s[|s| - 1] == '\\' then s[..|s| - 1] + "\\\\" else s
  }

  /** A `]` follows in `t` before the end of the line: what the lookahead
      `.*]` finds, `.` not crossing a line terminator. */
  predicate BracketAhead(t: string)
  {
    t != [] && !IsLineTerminator(t[0]) && (t[0] == ']' || BracketAhead(t[1..]))
  }

  /** The lookahead succeeds exactly when some `]` in `t` has no line
      terminator before it. */
  lemma {:induction false} BracketAheadMeans(t: string)
    ensures BracketAhead(t) <==>
      exists k :: 0 <= k < |t| && t[k] == ']' && forall m :: 0 <= m < k ==> !IsLineTerminator(t[m])
  {
    if t != [] && !IsLineTerminator(t[0]) && t[0] != ']' {
      BracketAheadMeans(t[1..]);
      if BracketAhead(t) {
        var k :| 0 <= k < |t[1..]| && t[1..][k] == ']'
                 && forall m :: 0 <= m < k ==> !IsLineTerminator(t[1..][m]);
        assert t[k + 1] == ']';
        assert forall m :: 0 <= m < k + 1 ==> !IsLineTerminator(t[m]) by {
          forall m | 0 <= m < k + 1 ensures !IsLineTerminator(t[m]) {
            if m > 0 { assert t[m] == t[1..][m - 1]; }
          }
        }
      } else {
        forall k | 0 <= k < |t| && t[k] == ']'
          ensures exists m :: 0 <= m < k && IsLineTerminator(t[m])
        {
          assert k > 0 && t[1..][k - 1] == ']';
          var m :| 0 <= m < k - 1 && IsLineTerminator(t[1..][m]);
          assert t[m + 1] == t[1..][m];
        }
      }
    }
  }

  /** Each `[` with no `]` after it on the same line (a negative lookahead
      for `]`) becomes the entity `&#91;`; the lookahead reads the string as it is
      before this pass. */
  function EncodeLeftBrackets(s: string): string
  {
    if s == [] then []
    else (if s[0] == '[' && !BracketAhead(s[1..]) then "&#91;" else [s[0]]) + EncodeLeftBrackets(s[1..])
  }

  /** `encodeHTML(subject)`, the replacements in the source's order. */
  function EncodeHTML(subject: string): string
  {
    var amp := ReplaceAll(subject, '&', "&amp;");
    var lt := ReplaceAll(amp, '<', "&lt;");
    var bs := DoubleTrailingBackslash(lt);
    var rb := ReplaceAll(bs, ']', "\\]");
    var lb := EncodeLeftBrackets(rb);
    ReplaceAll(lb, '`', "\\`")
  }

  // ---------------------------------------------------------------- one character at a time

  /** What a single character of the subject becomes, given the characters
      after it. */
  function Escaped(c: char, rest: string): string
  {
    if c == '&' then "&amp;"
    else if c == '<' then "&lt;"
    else if c == '\\' then (if rest == [] then "\\\\" else "\\")
    else if c == ']' then "\\]"
    else if c == '[' then (if BracketAhead(rest) then "[" else "&#91;")
    else if c == '`' then "\\`"
    else [c]
  }

  /** The encoding as a left-to-right translation of characters. */
  function EscapeEach(s: string): string
  {
    if s == [] then [] else Escaped(s[0], s[1..]) + EscapeEach(s[1..])
  }

  lemma {:induction false} ReplaceAllAppend(a: string, b: string, c: char, rep: string)
    ensures ReplaceAll(a + b, c, rep) == ReplaceAll(a, c, rep) + ReplaceAll(b, c, rep)
  {
    if a == [] {
      assert a + b == b;
    } else {
      assert (a + b)[1..] == a[1..] + b;
      ReplaceAllAppend(a[1..], b, c, rep);
    }
  }

  /** The first four passes (ampersands, less-than signs, trailing backslash,
      right brackets). */
  function FirstFour(s: string): string
  {
    ReplaceAll(DoubleTrailingBackslash(ReplaceAll(ReplaceAll(s, '&', "&amp;"), '<', "&lt;")), ']', "\\]")
  }

  /** What one character becomes under the first two passes. */
  function EntityChar(c: char): string
  {
    if c == '&' then "&amp;" else if c == '<' then "&lt;" else [c]
  }

  /** ... under the first three passes; `last` says whether it ends the text. */
  function BackslashChar(c: char, last: bool): string
  {
    if c == '\\' && last then "\\\\" else EntityChar(c)
  }

  /** ... under the first four passes. */
  function FirstFourChar(c: char, rest: string): string
  {
    if c == ']' then "\\]" else BackslashChar(c, rest == [])
  }

  lemma ReplaceAllCons(x: char, rest: string, c: char, rep: string)
    ensures ReplaceAll([x] + rest, c, rep) == (if x == c then rep else [x]) + ReplaceAll(rest, c, rep)
  {
    assert ([x] + rest)[0] == x && ([x] + rest)[1..] == rest;
  }

  lemma ReplaceAllOne(x: char, c: char, rep: string)
    ensures ReplaceAll([x], c, rep) == if x == c then rep else [x]
  {
    ReplaceAllCons(x, [], c, rep);
    assert [x] + [] == [x];
  }

  /** The trailing-backslash pass only looks at the last piece. */
  lemma TrailingAppend(x: string, y: string)
    requires y != []
    ensures DoubleTrailingBackslash(x + y) == x + DoubleTrailingBackslash(y)
  {
    assert (x + y)[|x + y| - 1] == y[|y| - 1];
    assert (x + y)[..|x + y| - 1] == x + y[..|y| - 1];
  }

  lemma EntityCharStep(c: char)
    ensures ReplaceAll(if c == '&' then "&amp;" else [c], '<', "&lt;") == EntityChar(c)
  {
    if c != '&' { ReplaceAllOne(c, '<', "&lt;"); }
  }

  lemma BackslashCharStep(c: char)
    ensures DoubleTrailingBackslash(EntityChar(c)) == BackslashChar(c, true)
  {
  }

  lemma RightBracketCharStep(c: char, rest: string)
    ensures ReplaceAll(BackslashChar(c, rest == []), ']', "\\]") == FirstFourChar(c, rest)
  {
    if c == ']' {
      ReplaceAllOne(c, ']', "\\]");
    } else if c == '&' || c == '<' {
      assert ']' !in EntityChar(c);
    } else if c == '\\' {
      assert ']' !in BackslashChar(c, rest == []);
    } else {
      assert BackslashChar(c, rest == []) == [c];
    }
  }

  lemma FirstFourCons(c: char, rest: string)
    ensures FirstFour([c] + rest) == FirstFourChar(c, rest) + FirstFour(rest)
  {
    var y1 := ReplaceAll(rest, '&', "&amp;");
    var y2 := ReplaceAll(y1, '<', "&lt;");
    var x1 := if c == '&' then "&amp;" else [c];
    ReplaceAllCons(c, rest, '&', "&amp;");
    ReplaceAllAppend(x1, y1, '<', "&lt;");
    EntityCharStep(c);
    var x2 := EntityChar(c);
    var x3 := BackslashChar(c, rest == []);
    assert DoubleTrailingBackslash(x2 + y2) == x3 + DoubleTrailingBackslash(y2) by {
      if rest == [] {
        assert y2 == [] && x2 + y2 == x2;
        BackslashCharStep(c);
      } else {
        TrailingAppend(x2, y2);
      }
    }
    ReplaceAllAppend(x3, DoubleTrailingBackslash(y2), ']', "\\]");
    RightBracketCharStep(c, rest);
  }

  /** Text that neither holds a `]` nor ends a line leaves the lookahead's
      answer to what follows it. */
  lemma {:induction false} BracketAheadSkip(a: string, b: string)
    requires forall i :: 0 <= i < |a| ==> a[i] != ']' && !IsLineTerminator(a[i])
    ensures BracketAhead(a + b) == BracketAhead(b)
  {
    if a != [] {
      assert (a + b)[0] == a[0] && (a + b)[1..] == a[1..] + b;
      BracketAheadSkip(a[1..], b);
    } else {
      assert a + b == b;
    }
  }

  lemma BracketAheadCons(c: char, y: string)
    ensures BracketAhead([c] + y) == (!IsLineTerminator(c) && (c == ']' || BracketAhead(y)))
  {
    assert ([c] + y)[0] == c && ([c] + y)[1..] == y;
  }

  /** The lookahead reads the image of a character as it reads the character. */
  lemma BracketAheadPiece(c: char, rest: string, y: string)
    ensures BracketAhead(FirstFourChar(c, rest) + y) == (!IsLineTerminator(c) && (c == ']' || BracketAhead(y)))
  {
    var x := FirstFourChar(c, rest);
    if c == ']' {
      assert x + y == ['\\'] + ([']'] + y);
      BracketAheadCons('\\', [']'] + y);
      BracketAheadCons(']', y);
    } else if c == '&' || c == '<' || c == '\\' {
      assert x == "&amp;" || x == "&lt;" || x == "\\" || x == "\\\\";
      BracketAheadSkip(x, y);
    } else {
      assert x == [c];
      BracketAheadCons(c, y);
    }
  }

  lemma {:induction false} BracketAheadFirstFour(s: string)
    ensures BracketAhead(FirstFour(s)) == BracketAhead(s)
  {
    if s != [] {
      var c, rest := s[0], s[1..];
      assert s == [c] + rest;
      FirstFourCons(c, rest);
      BracketAheadFirstFour(rest);
      BracketAheadPiece(c, rest, FirstFour(rest));
      BracketAheadCons(c, rest);
    }
  }

  lemma {:induction false} LeftBracketsSkip(a: string, b: string)
    requires '[' !in a
    ensures EncodeLeftBrackets(a + b) == a + EncodeLeftBrackets(b)
  {
    if a == [] {
      assert a + b == b;
    } else {
      assert (a + b)[0] == a[0] && (a + b)[1..] == a[1..] + b;
      LeftBracketsSkip(a[1..], b);
    }
  }

  /** What one character becomes under the first five passes. */
  function LeftBracketChar(c: char, rest: string): string
  {
    if c == '[' then (if BracketAhead(rest) then "[" else "&#91;") else FirstFourChar(c, rest)
  }

  lemma LeftBracketPiece(c: char, rest: string, y: string)
    requires BracketAhead(y) == BracketAhead(rest)
    ensures EncodeLeftBrackets(FirstFourChar(c, rest) + y) == LeftBracketChar(c, rest) + EncodeLeftBrackets(y)
  {
    var x := FirstFourChar(c, rest);
    if c == '[' {
      assert x == [c];
      assert (x + y)[0] == '[' && (x + y)[1..] == y;
    } else {
      assert '[' !in x;
      LeftBracketsSkip(x, y);
    }
  }

  lemma BacktickPiece(c: char, rest: string)
    ensures ReplaceAll(LeftBracketChar(c, rest), '`', "\\`") == Escaped(c, rest)
  {
    if c == '`' {
      assert LeftBracketChar(c, rest) == [c];
      ReplaceAllOne(c, '`', "\\`");
    } else if c == '[' || c == ']' || c == '&' || c == '<' || c == '\\' {
      assert '`' !in LeftBracketChar(c, rest);
    } else {
      assert LeftBracketChar(c, rest) == [c];
      ReplaceAllOne(c, '`', "\\`");
    }
  }

  /** The chain of six replacements is the same as escaping each character
      of the subject on its own, looking only at what follows it. */
  lemma {:induction false} EncodeHTMLPerChar(subject: string)
    ensures EncodeHTML(subject) == EscapeEach(subject)
  {
    if subject != [] {
      var c, rest := subject[0], subject[1..];
      assert subject == [c] + rest;
      FirstFourCons(c, rest);
      var y := FirstFour(rest);
      BracketAheadFirstFour(rest);
      LeftBracketPiece(c, rest, y);
      var lx := LeftBracketChar(c, rest);
      ReplaceAllAppend(lx, EncodeLeftBrackets(y), '`', "\\`");
      BacktickPiece(c, rest);
      EncodeHTMLPerChar(rest);
    }
  }

  // ---------------------------------------------------------------- decoding

  /** Reads escaped text back: each entity and backslash escape the encoder
      writes stands for the character it replaced. */
  function Decode(t: string): string
    decreases |t|
  {
    if t == [] then []
    else if t == "\\\\" then "\\"
    else if StartsWith(t, "&amp;") then "&" + Decode(t[5..])
    else if StartsWith(t, "&lt;") then "<" + Decode(t[4..])
    else if StartsWith(t, "&#91;") then "[" + Decode(t[5..])
    else if StartsWith(t, "\\]") then "]" + Decode(t[2..])
    else if StartsWith(t, "\\`") then "`" + Decode(t[2..])
    else [t[0]] + Decode(t[1..])
  }

  /** The escaped form of a non-empty string never starts with a bare `]` or
      backtick, and is never a single backslash. */
  lemma {:induction false} EscapeEachHead(s: string)
    ensures EscapedTail(s, EscapeEach(s))
  {
    if s != [] {
      var t := EscapeEach(s);
      assert t == Escaped(s[0], s[1..]) + EscapeEach(s[1..]);
      if s[0] == '\\' && s[1..] != [] {
        EscapeEachHead(s[1..]);
        assert |t| >= 2;
      }
    }
  }

  /** Decoding undoes the encoding: no two subjects are written the same. */
  lemma {:induction false} DecodeEncode(subject: string)
    ensures Decode(EncodeHTML(subject)) == subject
  {
    EncodeHTMLPerChar(subject);
    DecodeEscapeEach(subject);
  }

  /** The escaper writes no line break of its own: what it adds is a
      backslash or the characters of an entity. */
  lemma {:induction false} EscapeEachNoBreak(s: string)
    requires '\n' !in s
    ensures '\n' !in EscapeEach(s)
  {
    if s != [] {
      assert s[0] != '\n';
      assert '\n' !in Escaped(s[0], s[1..]);
      assert s[1..] == s[1..];
      EscapeEachNoBreak(s[1..]);
    }
  }

  /** A subject on one line is escaped to a text on one line. */
  lemma EncodeHTMLNoBreak(subject: string)
    requires '\n' !in subject
    ensures '\n' !in EncodeHTML(subject)
  {
    EncodeHTMLPerChar(subject);
    EscapeEachNoBreak(subject);
  }

  /** A character the escaper never rewrites. */
  predicate Plain(c: char)
  {
    c != '&' && c != '<' && c != '\\' && c != ']' && c != '[' && c != '`'
  }

  lemma {:induction false} EscapeEachPlain(s: string)
    requires forall k :: 0 <= k < |s| ==> Plain(s[k])
    ensures EscapeEach(s) == s
  {
    if s != [] {
      assert Plain(s[0]);
      EscapeEachPlain(s[1..]);
    }
  }

  /** A subject without any character the escaper rewrites is kept as is. */
  lemma EncodeHTMLPlain(subject: string)
    requires forall k :: 0 <= k < |subject| ==> Plain(subject[k])
    ensures EncodeHTML(subject) == subject
  {
    EncodeHTMLPerChar(subject);
    EscapeEachPlain(subject);
  }

  lemma {:induction false} DecodeEscapeEach(s: string)
    ensures Decode(EscapeEach(s)) == s
  {
    if s != [] {
      var c, rest := s[0], s[1..];
      EscapeEachHead(rest);
      DecodePiece(c, rest, EscapeEach(rest));
      DecodeEscapeEach(rest);
      assert s == [c] + rest;
    }
  }

  /** What may follow the image of a character: the escaped rest of the text. */
  predicate EscapedTail(rest: string, e: string)
  {
    (rest == [] <==> e == []) && (e != [] ==> e[0] != ']' && e[0] != '`') && e != "\\"
  }

  lemma DecodePiece(c: char, rest: string, e: string)
    requires EscapedTail(rest, e)
    ensures Decode(Escaped(c, rest) + e) == [c] + Decode(e)
  {
    if c == '&' {
      DecodeEntity("&amp;", e);
    } else if c == '<' {
      DecodeEntity("&lt;", e);
    } else if c == '[' && !BracketAhead(rest) {
      DecodeEntity("&#91;", e);
    } else if c == ']' || c == '`' {
      DecodeEscape(c, e);
    } else if c == '\\' {
      DecodeBackslash(rest, e);
    } else {
      DecodePlain(c, e);
    }
  }

  lemma DecodeEntity(entity: string, e: string)
    requires entity == "&amp;" || entity == "&lt;" || entity == "&#91;"
    ensures Decode(entity + e) == [if entity == "&amp;" then '&' else if entity == "&lt;" then '<' else '['] + Decode(e)
  {
    var t := entity + e;
    assert t[..|entity|] == entity && t[|entity|..] == e;
    assert t[0] == '&' && t[1] == entity[1];
    if entity == "&#91;" {
      assert t[..4] != "&lt;" by { assert t[1] == '#'; }
    }
  }

  lemma DecodeEscape(c: char, e: string)
    requires c == ']' || c == '`'
    ensures Decode(['\\', c] + e) == [c] + Decode(e)
  {
    var t := ['\\', c] + e;
    assert t[..2] == ['\\', c] && t[2..] == e;
    assert t[0] == '\\' && t[1] == c;
    assert t != "\\\\" by {
      assert "\\\\"[1] == '\\';
    }
    assert !StartsWith(t, "&amp;") && !StartsWith(t, "&lt;") && !StartsWith(t, "&#91;") by {
      assert "&amp;"[0] == '&' && "&lt;"[0] == '&' && "&#91;"[0] == '&';
    }
    assert StartsWith(t, ['\\', c]);
  }

  lemma DecodeBackslash(rest: string, e: string)
    requires EscapedTail(rest, e)
    ensures Decode(Escaped('\\', rest) + e) == "\\" + Decode(e)
  {
    if rest == [] {
      assert Escaped('\\', rest) + e == "\\\\";
    } else {
      assert Escaped('\\', rest) == "\\";
      DecodeLoneBackslash(e);
    }
  }

  lemma DecodeLoneBackslash(e: string)
    requires e != [] && e[0] != ']' && e[0] != '`' && e != "\\"
    ensures Decode("\\" + e) == "\\" + Decode(e)
  {
    var t := "\\" + e;
    assert t[0] == '\\' && t[1..] == e && t[1] == e[0];
    assert t != "\\\\";
    assert !StartsWith(t, "&amp;") && !StartsWith(t, "&lt;") && !StartsWith(t, "&#91;") by {
      assert "&amp;"[0] == '&' && "&lt;"[0] == '&' && "&#91;"[0] == '&';
    }
    assert !StartsWith(t, "\\]") && !StartsWith(t, "\\`") by {
      assert "\\]"[1] == ']' && "\\`"[1] == '`';
    }
  }

  lemma DecodePlain(c: char, e: string)
    requires c != '&' && c != '\\'
    ensures Decode([c] + e) == [c] + Decode(e)
  {
    var t := [c] + e;
    assert t[0] == c && t[1..] == e;
    assert t != "\\\\";
    assert !StartsWith(t, "&amp;") && !StartsWith(t, "&lt;") && !StartsWith(t, "&#91;") by {
      assert "&amp;"[0] == '&' && "&lt;"[0] == '&' && "&#91;"[0] == '&';
    }
    assert !StartsWith(t, "\\]") && !StartsWith(t, "\\`") by {
      assert "\\]"[0] == '\\' && "\\`"[0] == '\\';
    }
  }

  // ---------------------------------------------------------------- what the escaped text guarantees

  /** An ampersand at `i` starts one of the entities the encoder writes. */
  predicate EntityAt(t: string, i: nat)
    requires i <= |t|
  {
    StartsWith(t[i..], "&amp;") || StartsWith(t[i..], "&lt;") || StartsWith(t[i..], "&#91;")
  }

  predicate AmpersandsEncoded(t: string)
  {
    forall i :: 0 <= i < |t| && t[i] == '&' ==> EntityAt(t, i)
  }

  /** Every `]` and every backtick comes right after a backslash. */
  predicate ClosersEscaped(t: string)
  {
    forall i :: 0 <= i < |t| && (t[i] == ']' || t[i] == '`') ==> 0 < i && t[i - 1] == '\\'
  }

  /** Every `[` left in the text has a `]` after it on the same line. */
  predicate OpenersClosed(t: string)
  {
    forall i :: 0 <= i < |t| && t[i] == '[' ==> BracketAhead(t[i + 1..])
  }

  lemma EscapedBracketAheadPiece(c: char, rest: string, y: string)
    ensures BracketAhead(Escaped(c, rest) + y) == (!IsLineTerminator(c) && (c == ']' || BracketAhead(y)))
  {
    var x := Escaped(c, rest);
    if c == ']' || c == '`' {
      assert x + y == ['\\'] + ([c] + y);
      BracketAheadCons('\\', [c] + y);
      BracketAheadCons(c, y);
    } else if c == '&' || c == '<' || c == '\\' || c == '[' {
      assert x == "&amp;" || x == "&lt;" || x == "\\" || x == "\\\\" || x == "[" || x == "&#91;";
      BracketAheadSkip(x, y);
    } else {
      assert x == [c];
      BracketAheadCons(c, y);
    }
  }

  lemma {:induction false} BracketAheadEscaped(s: string)
    ensures BracketAhead(EscapeEach(s)) == BracketAhead(s)
  {
    if s != [] {
      var c, rest := s[0], s[1..];
      assert s == [c] + rest;
      BracketAheadEscaped(rest);
      EscapedBracketAheadPiece(c, rest, EscapeEach(rest));
      BracketAheadCons(c, rest);
    }
  }

  lemma {:induction false} NoLessThanEach(s: string)
    ensures '<' !in EscapeEach(s)
  {
    if s != [] {
      NoLessThanEach(s[1..]);
      assert '<' !in Escaped(s[0], s[1..]);
    }
  }

  lemma AmpersandPiece(c: char, rest: string)
    ensures forall i :: 0 <= i < |Escaped(c, rest)| && Escaped(c, rest)[i] == '&' ==>
              i == 0 && (Escaped(c, rest) == "&amp;" || Escaped(c, rest) == "&lt;" || Escaped(c, rest) == "&#91;")
  {
  }

  lemma {:induction false} AmpersandsEach(s: string)
    ensures AmpersandsEncoded(EscapeEach(s))
  {
    if s != [] {
      var p, e := Escaped(s[0], s[1..]), EscapeEach(s[1..]);
      var t := p + e;
      AmpersandsEach(s[1..]);
      AmpersandPiece(s[0], s[1..]);
      forall i | 0 <= i < |t| && t[i] == '&' ensures EntityAt(t, i) {
        if i < |p| {
          assert i == 0 && t[..|p|] == p;
          assert t[0..] == t;
        } else {
          assert t[i..] == e[i - |p|..] && t[i] == e[i - |p|];
        }
      }
    }
  }

  lemma CloserPiece(c: char, rest: string)
    ensures forall i :: 0 <= i < |Escaped(c, rest)| && (Escaped(c, rest)[i] == ']' || Escaped(c, rest)[i] == '`') ==>
              i == 1 && Escaped(c, rest)[0] == '\\'
  {
  }

  lemma {:induction false} ClosersEach(s: string)
    ensures ClosersEscaped(EscapeEach(s))
  {
    if s != [] {
      var p, e := Escaped(s[0], s[1..]), EscapeEach(s[1..]);
      var t := p + e;
      ClosersEach(s[1..]);
      CloserPiece(s[0], s[1..]);
      EscapeEachHead(s[1..]);
      forall i | 0 <= i < |t| && (t[i] == ']' || t[i] == '`') ensures 0 < i && t[i - 1] == '\\' {
        if i < |p| {
          assert t[i] == p[i] && t[0] == p[0];
        } else {
          assert t[i] == e[i - |p|];
          assert i > |p| && t[i - 1] == e[i - 1 - |p|];
        }
      }
    }
  }

  lemma OpenerPiece(c: char, rest: string)
    ensures forall i :: 0 <= i < |Escaped(c, rest)| && Escaped(c, rest)[i] == '[' ==>
              i == 0 && Escaped(c, rest) == "[" && BracketAhead(rest)
  {
  }

  lemma {:induction false} OpenersEach(s: string)
    ensures OpenersClosed(EscapeEach(s))
  {
    if s != [] {
      var p, e := Escaped(s[0], s[1..]), EscapeEach(s[1..]);
      var t := p + e;
      OpenersEach(s[1..]);
      OpenerPiece(s[0], s[1..]);
      BracketAheadEscaped(s[1..]);
      forall i | 0 <= i < |t| && t[i] == '[' ensures BracketAhead(t[i + 1..]) {
        if i < |p| {
          assert t[i] == p[i];
          assert t[1..] == e;
        } else {
          assert t[i] == e[i - |p|] && t[i + 1..] == e[i - |p| + 1..];
        }
      }
    }
  }

  lemma {:induction false} TrailingBackslashEach(s: string)
    ensures (s != [] && s[|s| - 1] == '\\') <==> (EscapeEach(s) != [] && EscapeEach(s)[|EscapeEach(s)| - 1] == '\\')
    ensures s != [] && s[|s| - 1] == '\\' ==>
              |EscapeEach(s)| >= 2 && EscapeEach(s)[|EscapeEach(s)| - 2..] == "\\\\"
  {
    if s != [] {
      var p, e := Escaped(s[0], s[1..]), EscapeEach(s[1..]);
      var t := p + e;
      TrailingBackslashEach(s[1..]);
      EscapeEachHead(s[1..]);
      if s[1..] == [] {
        assert t == p && s[|s| - 1] == s[0];
      } else {
        assert s[|s| - 1] == s[1..][|s[1..]| - 1];
        assert t[|t| - 1] == e[|e| - 1];
        if s[|s| - 1] == '\\' {
          assert t[|t| - 2..] == e[|e| - 2..];
        }
      }
    }
  }

  /** What `encodeHTML` promises about its output: no raw `<`; every `&`
      starts `&amp;`, `&lt;` or `&#91;`; every `]` and backtick is
      backslash-escaped; and a `[` is kept only when a `]` follows it on the
      same line. */
  lemma EncodeHTMLSafe(subject: string)
    ensures '<' !in EncodeHTML(subject)
    ensures AmpersandsEncoded(EncodeHTML(subject))
    ensures ClosersEscaped(EncodeHTML(subject))
    ensures OpenersClosed(EncodeHTML(subject))
  {
    EncodeHTMLPerChar(subject);
    NoLessThanEach(subject);
    AmpersandsEach(subject);
    ClosersEach(subject);
    OpenersEach(subject);
  }

  /** The text ends in a backslash exactly when the subject did, and that
      last backslash is doubled. */
  lemma EncodeHTMLTrailingBackslash(subject: string)
    ensures (subject != [] && subject[|subject| - 1] == '\\') <==>
              (EncodeHTML(subject) != [] && EncodeHTML(subject)[|EncodeHTML(subject)| - 1] == '\\')
    ensures subject != [] && subject[|subject| - 1] == '\\' ==>
              |EncodeHTML(subject)| >= 2 && EncodeHTML(subject)[|EncodeHTML(subject)| - 2..] == "\\\\"
  {
    EncodeHTMLPerChar(subject);
    TrailingBackslashEach(subject);
  }
}
