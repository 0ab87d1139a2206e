/** Pre-tokenization in c/src/tokenizer.c: where the next piece of a text ends. Character classes
    are an arbitrary function of the code point, in place of ICU. */
module Pretoken {
  import opened ByteForms

  datatype CClass = CClass(letter: bool, mark: bool, digit: bool, space: bool)

  type Classes = nat -> CClass

  predicate Continuation(b: int) {
    0x80 <= b < 0xC0
  }

  /** The continuation bytes folded into a code point by `cls_at`. */
  function Fold(s: Bytes, len: nat, p: nat, n: nat, cp: nat): nat
    requires len <= |s| && AreBytes(s)
    decreases n
  {
    if n == 0 || p >= len then cp else Fold(s, len, p + 1, n - 1, cp * 64 + s[p] % 64)
  }

  /** The code point `cls_at` decodes at p: a lead byte not followed by a continuation byte
      stands for itself. */
  function CodeAt(s: Bytes, len: nat, p: nat): nat
    requires p < len <= |s| && AreBytes(s)
  {
    var b := s[p];
    if 0xC0 <= b < 0xF8 && p + 1 < len && Continuation(s[p + 1]) then
      if b >= 0xF0 then Fold(s, len, p + 1, 3, b % 16)
      else if b >= 0xE0 then Fold(s, len, p + 1, 2, b % 32)
      else Fold(s, len, p + 1, 1, b % 64)
    else b
  }

  function ClassAt(cls: Classes, s: Bytes, len: nat, p: nat): CClass
    requires p < len <= |s| && AreBytes(s)
  {
    cls(CodeAt(s, len, p))
  }

  function NextCp(s: Bytes, len: nat, p: nat): (q: nat)
    requires p < len <= |s|
    ensures p < q <= len
  {
    var b := s[p];
    var q := p + (if b >= 0xF0 then 4 else if b >= 0xE0 then 3 else if b >= 0xC0 then 2 else 1);
    if q > len then len else q
  }

  datatype Kind = Letters | Punctuation | Spaces

  predicate InRun(kind: Kind, c: CClass) {
    match kind
    case Letters => c.letter || c.mark
    case Punctuation => !(c.space || c.letter || c.mark || c.digit)
    case Spaces => c.space
  }

  /** `letter_run`, `punct_run` and `space_run`. */
  function RunEnd(cls: Classes, kind: Kind, s: Bytes, len: nat, p: nat): (q: nat)
    requires p <= len <= |s| && AreBytes(s)
    ensures p <= q <= len
    ensures p < len && InRun(kind, ClassAt(cls, s, len, p)) ==> p < q
    decreases len - p
  {
    if p < len && InRun(kind, ClassAt(cls, s, len, p)) then RunEnd(cls, kind, s, len, NextCp(s, len, p)) else p
  }

  predicate IsNewline(b: int) {
    b == 0x0A || b == 0x0D
  }

  function NewlinesEnd(s: Bytes, len: nat, q: nat): (r: nat)
    requires q <= len <= |s|
    ensures q <= r <= len && (q < len && IsNewline(s[q]) ==> q < r)
    decreases len - q
  {
    if q < len && IsNewline(s[q]) then NewlinesEnd(s, len, q + 1) else q
  }

  /** The end of the last newlines of a whitespace run from q, or last when it has none. */
  function LastNewlineEnd(cls: Classes, s: Bytes, len: nat, q: nat, last: nat): (r: nat)
    requires q <= len <= |s| && AreBytes(s)
    ensures r == last || q < r <= len
    decreases len - q
  {
    if q == len || !ClassAt(cls, s, len, q).space then last
    else if IsNewline(s[q]) then
      var r := NewlinesEnd(s, len, q);
      LastNewlineEnd(cls, s, len, r, r)
    else LastNewlineEnd(cls, s, len, NextCp(s, len, q), last)
  }

  function Lower(b: int): int {
    if 'A' as int <= b <= 'Z' as int then b + 32 else b
  }

  /** The length of an English contraction at i, or 0. */
  function Contraction(s: Bytes, len: nat, i: nat): (n: nat)
    requires i < len <= |s|
    ensures n == 0 || (n >= 2 && i + n <= len)
  {
    if s[i] != '\'' as int || i + 1 >= len then 0
    else
      var a := Lower(s[i + 1]);
      if a == 's' as int || a == 't' as int || a == 'm' as int || a == 'd' as int then 2
      else if i + 2 >= len then 0
      else
        var b := Lower(s[i + 2]);
        if (a == 'r' as int && b == 'e' as int) || (a == 'v' as int && b == 'e' as int) || (a == 'l' as int && b == 'l' as int)
        then 3 else 0
  }

  /** Back from k to a byte that starts a character, but not below i. */
  function BackUp(s: Bytes, i: nat, k: nat): (r: nat)
    requires i <= k < |s|
    ensures i <= r <= k
    ensures r == i <==> k == i || forall j :: i < j <= k ==> Continuation(s[j])
    decreases k - i
  {
    if k > i && Continuation(s[k]) then BackUp(s, i, k - 1) else k
  }

  /** The last alternative: whitespace without newlines, all but its last character. */
  function SpaceEnd(cls: Classes, s: Bytes, len: nat, i: nat): (e: nat)
    requires i < len <= |s| && AreBytes(s)
    ensures e == 0 || i <= e <= len
  {
    var e := RunEnd(cls, Spaces, s, len, i);
    if e >= len then e else if e - i > 1 then BackUp(s, i, e - 1) else 0
  }

  /** No alternative before the last one matches at i. */
  predicate OnlySpaces(cls: Classes, s: Bytes, len: nat, i: nat)
    requires i < len <= |s| && AreBytes(s)
  {
    var c := ClassAt(cls, s, len, i);
    && Contraction(s, len, i) == 0
    && !(c.letter || c.mark)
    && !LeadsLetters(cls, s, len, i)
    && !c.digit
    && PunctuationEnd(cls, s, len, i) == 0
    && c.space
    && LastNewlineEnd(cls, s, len, i, 0) == 0
  }

  /** A character other than a newline, letter or digit, followed by a letter. */
  predicate LeadsLetters(cls: Classes, s: Bytes, len: nat, i: nat)
    requires i < len <= |s| && AreBytes(s)
  {
    var c := ClassAt(cls, s, len, i);
    var next := NextCp(s, len, i);
    !IsNewline(s[i]) && !c.letter && !c.digit && next < len && InRun(Letters, ClassAt(cls, s, len, next))
  }

  /** An optional space, punctuation and newlines, or 0. */
  function PunctuationEnd(cls: Classes, s: Bytes, len: nat, i: nat): (e: nat)
    requires i < len <= |s| && AreBytes(s)
    ensures e == 0 || i < e <= len
  {
    var p := if s[i] == ' ' as int then i + 1 else i;
    var q := RunEnd(cls, Punctuation, s, len, p);
    if q > p then NewlinesEnd(s, len, q) else 0
  }

  /** `pretoken_end`: the end of the piece that starts at i, or 0 when no alternative matches. */
  function PretokenEnd(cls: Classes, s: Bytes, len: nat, i: nat): (e: nat)
    requires i < len <= |s| && AreBytes(s)
    ensures e == 0 || i <= e <= len
  {
    var c := ClassAt(cls, s, len, i);
    if Contraction(s, len, i) > 0 then i + Contraction(s, len, i)
    else if c.letter || c.mark then RunEnd(cls, Letters, s, len, i)
    else if LeadsLetters(cls, s, len, i) then RunEnd(cls, Letters, s, len, NextCp(s, len, i))
    else if c.digit then NextCp(s, len, i)
    else if PunctuationEnd(cls, s, len, i) > 0 then PunctuationEnd(cls, s, len, i)
    else if !c.space then 0
    else if LastNewlineEnd(cls, s, len, i, 0) > 0 then LastNewlineEnd(cls, s, len, i, 0)
    else SpaceEnd(cls, s, len, i)
  }

  /** A piece ends where it starts exactly when it is a run of whitespace, without newlines and
      not at the end, whose bytes after the first all continue a character. */
  ghost predicate Stuck(cls: Classes, s: Bytes, len: nat, i: nat)
    requires i < len <= |s| && AreBytes(s)
  {
    var e := RunEnd(cls, Spaces, s, len, i);
    i > 0 && OnlySpaces(cls, s, len, i) && i + 1 < e < len && forall j :: i < j < e ==> Continuation(s[j])
  }

  lemma StuckExactly(cls: Classes, s: Bytes, len: nat, i: nat)
    requires 0 < i < len <= |s| && AreBytes(s)
    ensures PretokenEnd(cls, s, len, i) == i <==> Stuck(cls, s, len, i)
  {
  }

  lemma SecondSpace(cls: Classes, s: Bytes, len: nat, i: nat)
    requires i < len <= |s| && AreBytes(s) && ClassAt(cls, s, len, i).space
    requires forall p :: 0 <= p < len && ClassAt(cls, s, len, p).space ==> s[p] < 0x80
    ensures i + 1 < RunEnd(cls, Spaces, s, len, i) ==> !Continuation(s[i + 1])
  {
    assert NextCp(s, len, i) == i + 1;
    assert RunEnd(cls, Spaces, s, len, i) == RunEnd(cls, Spaces, s, len, i + 1);
  }

  /** Whitespace of one ASCII byte never gets stuck. */
  lemma AsciiSpacesAdvance(cls: Classes, s: Bytes, len: nat, i: nat)
    requires i < len <= |s| && AreBytes(s)
    requires forall p :: 0 <= p < len && ClassAt(cls, s, len, p).space ==> s[p] < 0x80
    ensures PretokenEnd(cls, s, len, i) == 0 || PretokenEnd(cls, s, len, i) > i
  {
    if i > 0 {
      StuckExactly(cls, s, len, i);
      if ClassAt(cls, s, len, i).space {
        SecondSpace(cls, s, len, i);
      }
    }
  }
}
