/** The split pattern of the qwen tokenizers as a backtracking matcher, and exactly when the hand-written
    scanner of c/src/tokenizer.c ends a piece where the pattern does. */
module PretokenPattern {
  import opened Options
  import opened ByteForms
  import opened Pretoken
  import Json
  import JsonText
  import Tokenizer

  // ----- patterns

  datatype Chars = Quote | Letter(c: char) | Newline | NoNewlineLetterDigit | LetterOrMark | Digit | Blank | Other | Space

  /** The character at p is one of the set. */
  predicate In(cs: Chars, cls: Classes, s: Bytes, len: nat, p: nat)
    requires p < len <= |s| && AreBytes(s)
  {
    var c := ClassAt(cls, s, len, p);
    match cs
    case Quote => s[p] == 0x27
    case Letter(l) => s[p] == l as int || s[p] == l as int - 0x20
    case Newline => s[p] == 0x0A || s[p] == 0x0D
    case NoNewlineLetterDigit => s[p] != 0x0A && s[p] != 0x0D && !c.letter && !c.digit
    case LetterOrMark => c.letter || c.mark
    case Digit => c.digit
    case Blank => s[p] == 0x20
    case Other => !c.space && !c.letter && !c.mark && !c.digit
    case Space => c.space
  }

  /** One character, any number of them, at most one, and the look-ahead (?!\S): what follows each. */
  datatype Pattern =
    | Empty
    | One(cs: Chars, rest: Pattern)
    | Any(cs: Chars, rest: Pattern)
    | Maybe(cs: Chars, rest: Pattern)
    | NoWordAhead(rest: Pattern)

  function Or(a: Option<nat>, b: Option<nat>): Option<nat> {
    if a.Some? then a else b
  }

  /** Where the match at p ends: greedy, and back by one character at a time when the rest fails. */
  function Match(re: Pattern, cls: Classes, s: Bytes, len: nat, p: nat): Option<nat>
    requires p <= len <= |s| && AreBytes(s)
    decreases re, len - p
  {
    match re
    case Empty => Some(p)
    case One(cs, rest) =>
      if p < len && In(cs, cls, s, len, p) then Match(rest, cls, s, len, NextCp(s, len, p)) else None
    case Any(cs, rest) =>
      Or(if p < len && In(cs, cls, s, len, p) then Match(re, cls, s, len, NextCp(s, len, p)) else None, Match(rest, cls, s, len, p))
    case Maybe(cs, rest) =>
      Or(if p < len && In(cs, cls, s, len, p) then Match(rest, cls, s, len, NextCp(s, len, p)) else None, Match(rest, cls, s, len, p))
    case NoWordAhead(rest) =>
      if p < len && !In(Space, cls, s, len, p) then None else Match(rest, cls, s, len, p)
  }

  function Suffix1(a: char): Pattern { One(Quote, One(Letter(a), Empty)) }

  function Suffix2(a: char, b: char): Pattern { One(Quote, One(Letter(a), One(Letter(b), Empty))) }

  function Words(): Pattern { Maybe(NoNewlineLetterDigit, One(LetterOrMark, Any(LetterOrMark, Empty))) }

  function Number(): Pattern { One(Digit, Empty) }

  function Symbols(): Pattern { Maybe(Blank, One(Other, Any(Other, Any(Newline, Empty)))) }

  function Lines(): Pattern { Any(Space, One(Newline, Any(Newline, Empty))) }

  function SpaceBeforeSpace(): Pattern { One(Space, Any(Space, NoWordAhead(Empty))) }

  function SpaceRun(): Pattern { One(Space, Any(Space, Empty)) }

  /** (?i:'s|'t|'re|'ve|'m|'ll|'d) */
  function SuffixEnd(cls: Classes, s: Bytes, len: nat, p: nat): Option<nat>
    requires p <= len <= |s| && AreBytes(s)
  {
    Or(Match(Suffix1('s'), cls, s, len, p), Or(Match(Suffix1('t'), cls, s, len, p), Or(Match(Suffix2('r', 'e'), cls, s, len, p),
      Or(Match(Suffix2('v', 'e'), cls, s, len, p), Or(Match(Suffix1('m'), cls, s, len, p),
        Or(Match(Suffix2('l', 'l'), cls, s, len, p), Match(Suffix1('d'), cls, s, len, p)))))))
  }

  /** \s*[\r\n]+|\s+(?!\S)|\s+ */
  function SpacesEnd(cls: Classes, s: Bytes, len: nat, p: nat): Option<nat>
    requires p <= len <= |s| && AreBytes(s)
  {
    Or(Match(Lines(), cls, s, len, p), Or(Match(SpaceBeforeSpace(), cls, s, len, p), Match(SpaceRun(), cls, s, len, p)))
  }

  /** The whole pattern: the first alternative that matches at p. */
  function PatternEnd(cls: Classes, s: Bytes, len: nat, p: nat): Option<nat>
    requires p <= len <= |s| && AreBytes(s)
  {
    Or(SuffixEnd(cls, s, len, p), Or(Match(Words(), cls, s, len, p), Or(Match(Number(), cls, s, len, p),
      Or(Match(Symbols(), cls, s, len, p), SpacesEnd(cls, s, len, p)))))
  }

  // ----- characters

  lemma TwoBytes(s: Bytes, len: nat, p: nat)
    requires p + 2 <= len <= |s| && AreBytes(s) && 0xC0 <= s[p] < 0xE0 && Continuation(s[p + 1])
    ensures CodeAt(s, len, p) == (s[p] - 0xC0) * 0x40 + (s[p + 1] - 0x80) && NextCp(s, len, p) == p + 2
  {
    var cp := s[p] % 64;
    assert Fold(s, len, p + 1, 1, cp) == Fold(s, len, p + 2, 0, cp * 64 + s[p + 1] % 64);
  }

  lemma ThreeBytes(s: Bytes, len: nat, p: nat)
    requires p + 3 <= len <= |s| && AreBytes(s) && 0xE0 <= s[p] < 0xF0 && Continuation(s[p + 1]) && Continuation(s[p + 2])
    ensures CodeAt(s, len, p) == (s[p] - 0xE0) * 0x1000 + (s[p + 1] - 0x80) * 0x40 + (s[p + 2] - 0x80)
    ensures NextCp(s, len, p) == p + 3
  {
    var cp := s[p] % 32;
    var cq := cp * 64 + s[p + 1] % 64;
    assert Fold(s, len, p + 1, 2, cp) == Fold(s, len, p + 2, 1, cq) == Fold(s, len, p + 3, 0, cq * 64 + s[p + 2] % 64);
  }

  lemma FourBytes(s: Bytes, len: nat, p: nat)
    requires p + 4 <= len <= |s| && AreBytes(s) && 0xF0 <= s[p] < 0xF8
    requires Continuation(s[p + 1]) && Continuation(s[p + 2]) && Continuation(s[p + 3])
    ensures CodeAt(s, len, p) ==
            (s[p] - 0xF0) * 0x4_0000 + (s[p + 1] - 0x80) * 0x1000 + (s[p + 2] - 0x80) * 0x40 + (s[p + 3] - 0x80)
    ensures NextCp(s, len, p) == p + 4
  {
    var cp := s[p] % 16;
    var cq := cp * 64 + s[p + 1] % 64;
    var cr := cq * 64 + s[p + 2] % 64;
    assert Fold(s, len, p + 1, 3, cp) == Fold(s, len, p + 2, 2, cq) == Fold(s, len, p + 3, 1, cr);
    assert Fold(s, len, p + 3, 1, cr) == Fold(s, len, p + 4, 0, cr * 64 + s[p + 3] % 64);
  }

  /** The bytes of a code point are read as that code point, and the next character follows them. */
  lemma CodePointAt(s: Bytes, len: nat, p: nat, cp: nat, u: seq<nat>)
    requires cp < 0x11_0000 && u == Json.Utf8(cp) && p + |u| <= len <= |s| && AreBytes(s)
    requires forall i :: 0 <= i < |u| ==> s[p + i] == u[i]
    ensures CodeAt(s, len, p) == cp && NextCp(s, len, p) == p + |u|
  {
    JsonText.Utf8Bits(cp);
    assert s[p + 0] == u[0];
    if |u| == 2 {
      assert s[p + 1] == u[1];
      TwoBytes(s, len, p);
    } else if |u| == 3 {
      assert s[p + 1] == u[1] && s[p + 2] == u[2];
      ThreeBytes(s, len, p);
    } else if |u| == 4 {
      assert s[p + 1] == u[1] && s[p + 2] == u[2] && s[p + 3] == u[3];
      FourBytes(s, len, p);
    }
  }

  /** From p on every character starts with a byte that continues none and goes on with bytes that do. */
  ghost predicate Aligned(s: Bytes, len: nat, p: nat)
    requires p <= len <= |s|
    decreases len - p
  {
    p < len ==>
      var q := NextCp(s, len, p);
      !Continuation(s[p]) && (forall j :: p < j < q ==> Continuation(s[j])) && Aligned(s, len, q)
  }

  /** The code points stand in UTF-8 in s from p to end. */
  ghost predicate Spelled(s: Bytes, p: nat, cps: seq<nat>, end: nat)
    decreases |cps|
  {
    if cps == [] then p == end
    else
      && cps[0] < 0x11_0000 && p + |Json.Utf8(cps[0])| <= end <= |s|
      && (forall i :: 0 <= i < |Json.Utf8(cps[0])| ==> s[p + i] == Json.Utf8(cps[0])[i])
      && Spelled(s, p + |Json.Utf8(cps[0])|, cps[1..], end)
  }

  /** UTF-8 text is aligned. */
  lemma {:induction false} SpelledAligned(s: Bytes, p: nat, cps: seq<nat>, len: nat)
    requires p <= len <= |s| && AreBytes(s) && Spelled(s, p, cps, len)
    ensures Aligned(s, len, p)
    decreases |cps|
  {
    if cps == [] {
    } else {
      var u := Json.Utf8(cps[0]);
      CodePointAt(s, len, p, cps[0], u);
      JsonText.Utf8Bits(cps[0]);
      assert s[p + 0] == u[0];
      forall j | p < j < p + |u| ensures Continuation(s[j]) {
        assert s[p + (j - p)] == u[j - p];
      }
      SpelledAligned(s, p + |u|, cps[1..], len);
    }
  }

  ghost predicate PlainSpaces(cls: Classes) {
    cls(0x20).space && cls(0x0A).space && cls(0x0D).space
  }

  // ----- greedy runs

  function SetOf(kind: Kind): Chars {
    match kind case Letters => LetterOrMark case Punctuation => Other case Spaces => Space
  }

  lemma {:induction false} AnyIsRun(kind: Kind, cls: Classes, s: Bytes, len: nat, p: nat)
    requires p <= len <= |s| && AreBytes(s)
    ensures Match(Any(SetOf(kind), Empty), cls, s, len, p) == Some(RunEnd(cls, kind, s, len, p))
    decreases len - p
  {
    if p < len && InRun(kind, ClassAt(cls, s, len, p)) {
      AnyIsRun(kind, cls, s, len, NextCp(s, len, p));
    } else {
      assert Match(Empty, cls, s, len, p) == Some(p);
    }
  }

  lemma {:induction false} NewlinesMatch(cls: Classes, s: Bytes, len: nat, p: nat)
    requires p <= len <= |s| && AreBytes(s)
    ensures Match(Any(Newline, Empty), cls, s, len, p) == Some(NewlinesEnd(s, len, p))
    decreases len - p
  {
    if p < len && IsNewline(s[p]) {
      NewlinesMatch(cls, s, len, p + 1);
    } else {
      assert Match(Empty, cls, s, len, p) == Some(p);
    }
  }

  lemma {:induction false} SymbolsMatch(cls: Classes, s: Bytes, len: nat, p: nat)
    requires p <= len <= |s| && AreBytes(s)
    ensures Match(Any(Other, Any(Newline, Empty)), cls, s, len, p) ==
            Some(NewlinesEnd(s, len, RunEnd(cls, Punctuation, s, len, p)))
    decreases len - p
  {
    if p < len && InRun(Punctuation, ClassAt(cls, s, len, p)) {
      SymbolsMatch(cls, s, len, NextCp(s, len, p));
    } else {
      NewlinesMatch(cls, s, len, p);
    }
  }

  /** The last newlines of the run are found from the left and from the right. */
  lemma {:induction false} LinesMatch(cls: Classes, s: Bytes, len: nat, p: nat, last: nat)
    requires p <= len <= |s| && AreBytes(s) && PlainSpaces(cls)
    ensures LastNewlineEnd(cls, s, len, p, last) ==
              var m := Match(Lines(), cls, s, len, p); if m.Some? then m.value else last
    decreases len - p
  {
    var tail := One(Newline, Any(Newline, Empty));
    if p == len || !ClassAt(cls, s, len, p).space {
      assert Match(tail, cls, s, len, p) == None;
    } else if IsNewline(s[p]) {
      var r := NewlinesEnd(s, len, p);
      NewlinesMatch(cls, s, len, p + 1);
      assert Match(tail, cls, s, len, p) == Some(r);
      LinesMatch(cls, s, len, p + 1, r);
      LinesMatch(cls, s, len, r, r);
    } else {
      assert Match(tail, cls, s, len, p) == None;
      LinesMatch(cls, s, len, NextCp(s, len, p), last);
    }
  }

  // ----- the whitespace before the last character of a run

  /** Where the last character of the whitespace run from p starts. */
  function LastStart(cls: Classes, s: Bytes, len: nat, p: nat): (k: nat)
    requires p < len <= |s| && AreBytes(s)
    ensures p <= k < len
    decreases len - p
  {
    var q := NextCp(s, len, p);
    if q < len && ClassAt(cls, s, len, q).space then LastStart(cls, s, len, q) else p
  }

  /** Whitespace up to the end of the text, or else all but its last character. */
  lemma {:induction false} BeforeSpace(cls: Classes, s: Bytes, len: nat, p: nat)
    requires p < len <= |s| && AreBytes(s) && ClassAt(cls, s, len, p).space
    ensures var e := RunEnd(cls, Spaces, s, len, p);
            Match(Any(Space, NoWordAhead(Empty)), cls, s, len, p) == Some(if e == len then len else LastStart(cls, s, len, p))
    decreases len - p
  {
    var q := NextCp(s, len, p);
    assert Match(NoWordAhead(Empty), cls, s, len, p) == Match(Empty, cls, s, len, p) == Some(p);
    if q < len && ClassAt(cls, s, len, q).space {
      BeforeSpace(cls, s, len, q);
    } else {
      assert RunEnd(cls, Spaces, s, len, p) == RunEnd(cls, Spaces, s, len, q) == q;
      AfterSpaces(cls, s, len, q);
    }
  }

  /** At the end of a run: nothing more when the text ends, no match before another character. */
  lemma AfterSpaces(cls: Classes, s: Bytes, len: nat, q: nat)
    requires q <= len <= |s| && AreBytes(s) && (q < len ==> !ClassAt(cls, s, len, q).space)
    ensures Match(Any(Space, NoWordAhead(Empty)), cls, s, len, q) == if q == len then Some(len) else None
  {
    assert Match(NoWordAhead(Empty), cls, s, len, q) == if q == len then Match(Empty, cls, s, len, q) else None;
    assert Match(Empty, cls, s, len, q) == Some(q);
  }

  /** The last character of a run, and the bytes that continue it. */
  lemma {:induction false} LastCharacter(cls: Classes, s: Bytes, len: nat, p: nat)
    requires p < len <= |s| && AreBytes(s) && Aligned(s, len, p) && ClassAt(cls, s, len, p).space
    ensures var k, e := LastStart(cls, s, len, p), RunEnd(cls, Spaces, s, len, p);
            k < e && !Continuation(s[k]) && forall j :: k < j < e ==> Continuation(s[j])
    ensures LastStart(cls, s, len, p) == p <==> RunEnd(cls, Spaces, s, len, p) == NextCp(s, len, p)
    decreases len - p
  {
    var q := NextCp(s, len, p);
    if q < len && ClassAt(cls, s, len, q).space {
      LastCharacter(cls, s, len, q);
    } else {
      assert RunEnd(cls, Spaces, s, len, p) == RunEnd(cls, Spaces, s, len, q) == q;
    }
  }

  lemma {:induction false} BackUpStops(s: Bytes, i: nat, k: nat, m: nat)
    requires i <= k <= m < |s| && !Continuation(s[k]) && forall j :: k < j <= m ==> Continuation(s[j])
    ensures BackUp(s, i, m) == k
    decreases m
  {
    if m == k {
    } else {
      BackUpStops(s, i, k, m - 1);
    }
  }

  // ----- one alternative at a time

  lemma SuffixesMatch(cls: Classes, s: Bytes, len: nat, i: nat)
    requires i < len <= |s| && AreBytes(s)
    ensures SuffixEnd(cls, s, len, i) == if Contraction(s, len, i) == 0 then None else Some(i + Contraction(s, len, i))
  {
    Suffix1Match(cls, s, len, i, 's');
    Suffix1Match(cls, s, len, i, 't');
    Suffix1Match(cls, s, len, i, 'm');
    Suffix1Match(cls, s, len, i, 'd');
    Suffix2Match(cls, s, len, i, 'r', 'e');
    Suffix2Match(cls, s, len, i, 'v', 'e');
    Suffix2Match(cls, s, len, i, 'l', 'l');
  }

  predicate LetterAt(s: Bytes, len: nat, p: nat, c: char)
    requires len <= |s|
  {
    p < len && (s[p] == c as int || s[p] == c as int - 0x20)
  }

  lemma LetterMatch(cls: Classes, s: Bytes, len: nat, p: nat, c: char, rest: Pattern)
    requires p <= len <= |s| && AreBytes(s) && 'a' <= c <= 'z'
    ensures LetterAt(s, len, p, c) ==> p + 1 <= len && Match(One(Letter(c), rest), cls, s, len, p) == Match(rest, cls, s, len, p + 1)
    ensures !LetterAt(s, len, p, c) ==> Match(One(Letter(c), rest), cls, s, len, p) == None
  {
  }

  lemma Suffix1Match(cls: Classes, s: Bytes, len: nat, i: nat, a: char)
    requires i < len <= |s| && AreBytes(s) && 'a' <= a <= 'z'
    ensures Match(Suffix1(a), cls, s, len, i) == if s[i] == 0x27 && LetterAt(s, len, i + 1, a) then Some(i + 2) else None
  {
    var rest := One(Letter(a), Empty);
    if s[i] == 0x27 {
      assert Match(Suffix1(a), cls, s, len, i) == Match(rest, cls, s, len, i + 1);
      LetterMatch(cls, s, len, i + 1, a, Empty);
      if LetterAt(s, len, i + 1, a) {
        assert Match(Empty, cls, s, len, i + 2) == Some(i + 2);
      }
    }
  }

  lemma Suffix2Match(cls: Classes, s: Bytes, len: nat, i: nat, a: char, b: char)
    requires i < len <= |s| && AreBytes(s) && 'a' <= a <= 'z' && 'a' <= b <= 'z'
    ensures Match(Suffix2(a, b), cls, s, len, i) ==
              if s[i] == 0x27 && LetterAt(s, len, i + 1, a) && LetterAt(s, len, i + 2, b) then Some(i + 3) else None
  {
    var last := One(Letter(b), Empty);
    var rest := One(Letter(a), last);
    if s[i] == 0x27 {
      assert Match(Suffix2(a, b), cls, s, len, i) == Match(rest, cls, s, len, i + 1);
      LetterMatch(cls, s, len, i + 1, a, last);
      if LetterAt(s, len, i + 1, a) {
        LetterMatch(cls, s, len, i + 2, b, Empty);
        if LetterAt(s, len, i + 2, b) {
          assert Match(Empty, cls, s, len, i + 3) == Some(i + 3);
        }
      }
    }
  }

  lemma LettersMatch(cls: Classes, s: Bytes, len: nat, p: nat)
    requires p <= len <= |s| && AreBytes(s)
    ensures Match(One(LetterOrMark, Any(LetterOrMark, Empty)), cls, s, len, p) ==
            if p < len && InRun(Letters, ClassAt(cls, s, len, p)) then Some(RunEnd(cls, Letters, s, len, p)) else None
  {
    if p < len {
      AnyIsRun(Letters, cls, s, len, NextCp(s, len, p));
    }
  }

  lemma WordsMatch(cls: Classes, s: Bytes, len: nat, i: nat)
    requires i < len <= |s| && AreBytes(s)
    ensures var c := ClassAt(cls, s, len, i);
            Match(Words(), cls, s, len, i) ==
            if c.letter || c.mark then Some(RunEnd(cls, Letters, s, len, i))
            else if LeadsLetters(cls, s, len, i) then Some(RunEnd(cls, Letters, s, len, NextCp(s, len, i)))
            else None
  {
    LettersMatch(cls, s, len, i);
    LettersMatch(cls, s, len, NextCp(s, len, i));
    assert In(NoNewlineLetterDigit, cls, s, len, i) <==>
      !IsNewline(s[i]) && !ClassAt(cls, s, len, i).letter && !ClassAt(cls, s, len, i).digit;
  }

  lemma NumberMatch(cls: Classes, s: Bytes, len: nat, i: nat)
    requires i < len <= |s| && AreBytes(s)
    ensures Match(Number(), cls, s, len, i) == if ClassAt(cls, s, len, i).digit then Some(NextCp(s, len, i)) else None
  {
    assert Match(Empty, cls, s, len, NextCp(s, len, i)) == Some(NextCp(s, len, i));
  }

  lemma SymbolsFrom(cls: Classes, s: Bytes, len: nat, p: nat)
    requires p <= len <= |s| && AreBytes(s)
    ensures var q := RunEnd(cls, Punctuation, s, len, p);
            Match(One(Other, Any(Other, Any(Newline, Empty))), cls, s, len, p) == if q > p then Some(NewlinesEnd(s, len, q)) else None
  {
    if p < len && InRun(Punctuation, ClassAt(cls, s, len, p)) {
      SymbolsMatch(cls, s, len, NextCp(s, len, p));
    }
  }

  lemma SymbolsEnd(cls: Classes, s: Bytes, len: nat, i: nat)
    requires i < len <= |s| && AreBytes(s) && PlainSpaces(cls)
    ensures Match(Symbols(), cls, s, len, i) ==
            if PunctuationEnd(cls, s, len, i) > 0 then Some(PunctuationEnd(cls, s, len, i)) else None
  {
    SymbolsFrom(cls, s, len, i);
    if s[i] == 0x20 {
      assert NextCp(s, len, i) == i + 1 && ClassAt(cls, s, len, i).space;
      SymbolsFrom(cls, s, len, i + 1);
    }
  }

  // ----- the whole pattern

  /** \s+(?!\S) */
  lemma SpaceBeforeSpaceMatch(cls: Classes, s: Bytes, len: nat, i: nat)
    requires i < len <= |s| && AreBytes(s) && ClassAt(cls, s, len, i).space
    ensures var e, k := RunEnd(cls, Spaces, s, len, i), LastStart(cls, s, len, i);
            Match(SpaceBeforeSpace(), cls, s, len, i) == if e == len then Some(e) else if k == i then None else Some(k)
  {
    var q := NextCp(s, len, i);
    assert RunEnd(cls, Spaces, s, len, i) == RunEnd(cls, Spaces, s, len, q);
    assert Match(SpaceBeforeSpace(), cls, s, len, i) == Match(Any(Space, NoWordAhead(Empty)), cls, s, len, q);
    if q < len && ClassAt(cls, s, len, q).space {
      BeforeSpace(cls, s, len, q);
      assert LastStart(cls, s, len, i) == LastStart(cls, s, len, q) > i;
    } else {
      AfterSpaces(cls, s, len, q);
    }
  }

  /** \s+ */
  lemma SpaceRunMatch(cls: Classes, s: Bytes, len: nat, i: nat)
    requires i < len <= |s| && AreBytes(s) && ClassAt(cls, s, len, i).space
    ensures Match(SpaceRun(), cls, s, len, i) == Some(RunEnd(cls, Spaces, s, len, i))
  {
    AnyIsRun(Spaces, cls, s, len, NextCp(s, len, i));
  }

  lemma SpacesMatch(cls: Classes, s: Bytes, len: nat, i: nat)
    requires i < len <= |s| && AreBytes(s) && PlainSpaces(cls) && ClassAt(cls, s, len, i).space
    ensures var e, k := RunEnd(cls, Spaces, s, len, i), LastStart(cls, s, len, i);
            SpacesEnd(cls, s, len, i) ==
            Some(if LastNewlineEnd(cls, s, len, i, 0) > 0 then LastNewlineEnd(cls, s, len, i, 0)
                 else if e == len || k == i then e else k)
  {
    LinesMatch(cls, s, len, i, 0);
    LinesMatch(cls, s, len, i, len + 1);
    SpaceBeforeSpaceMatch(cls, s, len, i);
    SpaceRunMatch(cls, s, len, i);
  }

  /** The scanner on whitespace. */
  lemma SpaceScan(cls: Classes, s: Bytes, len: nat, i: nat)
    requires i < len <= |s| && AreBytes(s) && Aligned(s, len, i) && ClassAt(cls, s, len, i).space
    ensures var e, k := RunEnd(cls, Spaces, s, len, i), LastStart(cls, s, len, i);
            SpaceEnd(cls, s, len, i) == if e == len then e else if e - i > 1 then k else 0
  {
    var e, k := RunEnd(cls, Spaces, s, len, i), LastStart(cls, s, len, i);
    LastCharacter(cls, s, len, i);
    if e < len && e - i > 1 {
      BackUpStops(s, i, k, e - 1);
    }
  }

  /** Only the last alternative, \s+, matches at p: a single whitespace character before another one. */
  predicate LastAlternative(cls: Classes, s: Bytes, len: nat, p: nat)
    requires p <= len <= |s| && AreBytes(s)
  {
    && SuffixEnd(cls, s, len, p).None? && Match(Words(), cls, s, len, p).None? && Match(Number(), cls, s, len, p).None?
    && Match(Symbols(), cls, s, len, p).None? && Match(Lines(), cls, s, len, p).None?
    && Match(SpaceBeforeSpace(), cls, s, len, p).None?
  }

  /** A piece ends where the pattern ends its match, unless the last alternative takes a character of
      several bytes inside the text: there, and only there, the scanner stands still. */
  lemma PieceIsMatch(cls: Classes, s: Bytes, len: nat, i: nat)
    requires i < len <= |s| && AreBytes(s) && Aligned(s, len, i) && PlainSpaces(cls)
    ensures var m := PatternEnd(cls, s, len, i);
            && m.Some? && i < m.value <= len
            && Tokenizer.PieceEnd(cls, s, len, i) ==
               if LastAlternative(cls, s, len, i) && i > 0 && m.value > i + 1 then i else m.value
  {
    SuffixesMatch(cls, s, len, i);
    WordsMatch(cls, s, len, i);
    NumberMatch(cls, s, len, i);
    SymbolsEnd(cls, s, len, i);
    if ClassAt(cls, s, len, i).space {
      LinesMatch(cls, s, len, i, 0);
      LinesMatch(cls, s, len, i, len + 1);
      SpaceBeforeSpaceMatch(cls, s, len, i);
      SpacesMatch(cls, s, len, i);
      SpaceScan(cls, s, len, i);
      LastCharacter(cls, s, len, i);
    }
  }
}
