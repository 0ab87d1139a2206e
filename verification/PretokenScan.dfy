/** The loops of `pretoken_end` in c/src/tokenizer.c, proved against module Pretoken. */
module PretokenScan {
  import opened ByteForms
  import opened Pretoken

  /** `cls_at`: one code point is decoded and classified. */
  method ClassOf(cls: Classes, s: Bytes, len: nat, p: nat) returns (c: CClass)
    requires p < len <= |s| && AreBytes(s)
    ensures c == ClassAt(cls, s, len, p)
  {
    var b := s[p];
    var cp: nat := b;
    if 0xC0 <= b < 0xF8 && p + 1 < len && Continuation(s[p + 1]) {
      var n := if b >= 0xF0 then 3 else if b >= 0xE0 then 2 else 1;
      cp := if n == 3 then b % 16 else if n == 2 then b % 32 else b % 64;
      var k := 1;
      while k <= n && p + k < len
        invariant 1 <= k <= n + 1
        invariant Fold(s, len, p + k, n + 1 - k, cp) == CodeAt(s, len, p)
      {
        cp := cp * 64 + s[p + k] % 64;
        k := k + 1;
      }
    }
    c := cls(cp);
  }

  /** `letter_run`, `punct_run` and `space_run`. */
  method FindRun(cls: Classes, kind: Kind, s: Bytes, len: nat, p: nat) returns (q: nat)
    requires p <= len <= |s| && AreBytes(s)
    ensures q == RunEnd(cls, kind, s, len, p)
  {
    q := p;
    while q < len
      invariant q <= len && RunEnd(cls, kind, s, len, q) == RunEnd(cls, kind, s, len, p)
      decreases len - q
    {
      var c := ClassOf(cls, s, len, q);
      if !InRun(kind, c) {
        return;
      }
      q := NextCp(s, len, q);
    }
  }

  method SkipNewlines(s: Bytes, len: nat, p: nat) returns (q: nat)
    requires p <= len <= |s|
    ensures q == NewlinesEnd(s, len, p)
  {
    q := p;
    while q < len && (s[q] == 0x0D || s[q] == 0x0A)
      invariant q <= len && NewlinesEnd(s, len, q) == NewlinesEnd(s, len, p)
    {
      q := q + 1;
    }
  }

  /** The loop over a whitespace run that remembers the end of its last newlines. */
  method FindLastNewline(cls: Classes, s: Bytes, len: nat, p: nat) returns (last: nat)
    requires p <= len <= |s| && AreBytes(s)
    ensures last == LastNewlineEnd(cls, s, len, p, 0)
  {
    last := 0;
    var q := p;
    while q < len
      invariant q <= len && LastNewlineEnd(cls, s, len, q, last) == LastNewlineEnd(cls, s, len, p, 0)
      decreases len - q
    {
      var c := ClassOf(cls, s, len, q);
      if !c.space {
        return;
      }
      if s[q] == 0x0D || s[q] == 0x0A {
        q := SkipNewlines(s, len, q);
        last := q;
      } else {
        q := NextCp(s, len, q);
      }
    }
  }

  /** Whitespace without newlines: all of it at the end of the text, otherwise all but its last character. */
  method ScanSpaces(cls: Classes, s: Bytes, len: nat, i: nat) returns (e: nat)
    requires i < len <= |s| && AreBytes(s)
    ensures e == SpaceEnd(cls, s, len, i)
  {
    e := FindRun(cls, Spaces, s, len, i);
    if e >= len {
      return;
    }
    if e - i <= 1 {
      return 0;
    }
    var k := e - 1;
    while k > i && Continuation(s[k])
      invariant i <= k < e && BackUp(s, i, k) == BackUp(s, i, e - 1)
    {
      k := k - 1;
    }
    e := k;
  }

  /** An optional space, punctuation, and the newlines after it. */
  method ScanPunctuation(cls: Classes, s: Bytes, len: nat, i: nat) returns (e: nat)
    requires i < len <= |s| && AreBytes(s)
    ensures e == PunctuationEnd(cls, s, len, i)
  {
    var p := i;
    if s[p] == 0x20 {
      p := p + 1;
    }
    var q := FindRun(cls, Punctuation, s, len, p);
    if q <= p {
      return 0;
    }
    e := SkipNewlines(s, len, q);
  }

  /** `pretoken_end`. */
  method ScanPiece(cls: Classes, s: Bytes, len: nat, i: nat) returns (e: nat)
    requires i < len <= |s| && AreBytes(s)
    ensures e == PretokenEnd(cls, s, len, i)
  {
    var c := ClassOf(cls, s, len, i);
    var n := Contraction(s, len, i);
    if n > 0 {
      return i + n;
    }
    if c.letter || c.mark {
      e := FindRun(cls, Letters, s, len, i);
      return;
    }
    if !IsNewline(s[i]) && !c.letter && !c.digit {
      var next := NextCp(s, len, i);
      if next < len {
        var d := ClassOf(cls, s, len, next);
        if d.letter || d.mark {
          e := FindRun(cls, Letters, s, len, next);
          return;
        }
      }
    }
    if c.digit {
      return NextCp(s, len, i);
    }
    e := ScanPunctuation(cls, s, len, i);
    if e > 0 || !c.space {
      return;
    }
    e := FindLastNewline(cls, s, len, i);
    if e == 0 {
      e := ScanSpaces(cls, s, len, i);
    }
  }
}
