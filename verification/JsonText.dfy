/** The grammar of JSON text (RFC 8259): the parser of module Json accepts exactly its values, and the
    string reader gives the bytes that were meant. */
module JsonText {
  import opened Options
  import opened Json

  /** Names a place of a text: Gap is used only at places named. */
  ghost predicate At(i: int) {
    true
  }

  // ----- UTF-8 (section 3 of RFC 3629)

  lemma SixBits(cp: nat)
    ensures cp == cp / 64 * 64 + cp % 64 && cp / 64 == cp / 4096 * 64 + cp / 64 % 64 && cp / 4096 == cp / 262144 * 64 + cp / 4096 % 64
  {
  }

  /** The bytes of a code point carry its bits six by six, after the marks of its length. */
  lemma Utf8Bits(cp: nat)
    requires cp < 0x11_0000
    ensures var r := Utf8(cp);
            if cp < 0x80 then r == [cp]
            else if cp < 0x800 then
              |r| == 2 && 0xC2 <= r[0] <= 0xDF && 0x80 <= r[1] <= 0xBF && cp == (r[0] - 0xC0) * 0x40 + (r[1] - 0x80)
            else if cp < 0x1_0000 then
              && |r| == 3 && 0xE0 <= r[0] <= 0xEF && 0x80 <= r[1] <= 0xBF && 0x80 <= r[2] <= 0xBF
              && cp == (r[0] - 0xE0) * 0x1000 + (r[1] - 0x80) * 0x40 + (r[2] - 0x80)
            else
              && |r| == 4 && 0xF0 <= r[0] <= 0xF4 && 0x80 <= r[1] <= 0xBF && 0x80 <= r[2] <= 0xBF && 0x80 <= r[3] <= 0xBF
              && cp == (r[0] - 0xF0) * 0x4_0000 + (r[1] - 0x80) * 0x1000 + (r[2] - 0x80) * 0x40 + (r[3] - 0x80)
  {
    SixBits(cp);
  }

  // ----- hexadecimal

  /** The decimal digits, and the letters of either case. */
  predicate Digit(c: char, v: nat) {
    if v < 10 then c as int == '0' as int + v
    else v < 16 && (c as int == 'a' as int + (v - 10) || c as int == 'A' as int + (v - 10))
  }

  lemma HexDigits(c: char, v: nat)
    ensures IsHex(c) && HexValue(c) == v <==> Digit(c, v)
  {
  }

  /** A code unit in four digits. */
  predicate FourDigits(s: string, p: nat, v: nat) {
    && v < 0x1_0000 && p + 4 <= |s|
    && Digit(s[p], v / 0x1000) && Digit(s[p + 1], v / 0x100 % 0x10) && Digit(s[p + 2], v / 0x10 % 0x10) && Digit(s[p + 3], v % 0x10)
  }

  lemma DigitsOf(v: nat, a: nat, b: nat, c: nat, d: nat)
    requires a < 16 && b < 16 && c < 16 && d < 16
    ensures v == a * 0x1000 + b * 0x100 + c * 0x10 + d <==>
            a == v / 0x1000 && b == v / 0x100 % 0x10 && c == v / 0x10 % 0x10 && d == v % 0x10
  {
    var x, y := v / 0x10, v / 0x100;
    assert v == x * 0x10 + v % 0x10;
    assert y == x / 0x10 && x == y * 0x10 + x % 0x10;
    assert v / 0x1000 == y / 0x10 && y == y / 0x10 * 0x10 + y % 0x10;
  }

  /** Four digits are read as the code unit they write. */
  lemma HexReads(s: string, p: nat, v: nat)
    ensures FourHex(s, p) && CodeUnit(s, p) == v <==> FourDigits(s, p, v)
  {
    if p + 4 <= |s| {
      HexDigits(s[p], v / 0x1000);
      HexDigits(s[p + 1], v / 0x100 % 0x10);
      HexDigits(s[p + 2], v / 0x10 % 0x10);
      HexDigits(s[p + 3], v % 0x10);
      if FourHex(s, p) {
        DigitsOf(v, HexValue(s[p]), HexValue(s[p + 1]), HexValue(s[p + 2]), HexValue(s[p + 3]));
      }
    }
  }

  // ----- strings

  /** The ways to write in a string: a character as itself, a short escape, a \\u escape, or two of them
      for a code point above U+FFFF. */
  datatype Sign = Plain(c: char) | Short(e: char) | Escape(cp: nat) | Pair(cp: nat)

  predicate SignOk(g: Sign) {
    match g
    case Plain(c) => c != '"' && c != '\\'
    case Short(e) => e in ['"', '\\', '/', 'b', 'f', 'n', 'r', 't']
    case Escape(cp) => cp < 0x1_0000
    case Pair(cp) => 0x1_0000 <= cp < 0x11_0000
  }

  function Width(g: Sign): nat {
    match g
    case Plain(_) => 1
    case Short(_) => 2
    case Escape(_) => 6
    case Pair(_) => 12
  }

  /** The two code units of a code point above U+FFFF. */
  predicate Surrogates(cp: nat, high: nat, low: nat) {
    0xD800 <= high < 0xDC00 && 0xDC00 <= low < 0xE000 && cp == 0x1_0000 + (high - 0xD800) * 0x400 + (low - 0xDC00)
  }

  predicate EscapeAt(s: string, p: nat, v: nat) {
    p + 6 <= |s| && s[p] == '\\' && s[p + 1] == 'u' && FourDigits(s, p + 2, v)
  }

  /** The sign stands in s at p. */
  ghost predicate SignAt(s: string, p: nat, g: Sign) {
    match g
    case Plain(c) => p < |s| && s[p] == c
    case Short(e) => p + 2 <= |s| && s[p] == '\\' && s[p + 1] == e
    case Escape(cp) => EscapeAt(s, p, cp)
    case Pair(cp) => exists high, low :: Surrogates(cp, high, low) && EscapeAt(s, p, high) && EscapeAt(s, p + 6, low)
  }

  function Meant(g: Sign): seq<nat>
    requires SignOk(g)
  {
    match g
    case Plain(c) => [c as int]
    case Short(e) => [(match e case 'b' => 0x08 case 'f' => 0x0C case 'n' => 0x0A case 'r' => 0x0D case 't' => 0x09 case c => c as int)]
    case Escape(cp) => Utf8(cp)
    case Pair(cp) => Utf8(cp)
  }

  /** Two escapes that together mean one code point are not two signs. */
  predicate Apart(gs: seq<Sign>) {
    |gs| > 1 && gs[0].Escape? && gs[1].Escape? && 0xD800 <= gs[0].cp < 0xDC00 ==> !(0xDC00 <= gs[1].cp < 0xE000)
  }

  /** The signs and the closing quote stand in s from p to e. */
  ghost predicate SignsAt(s: string, p: nat, gs: seq<Sign>, e: nat)
    decreases |gs|
  {
    if gs == [] then p < |s| && s[p] == '"' && e == p + 1
    else SignOk(gs[0]) && SignAt(s, p, gs[0]) && Apart(gs) && SignsAt(s, p + Width(gs[0]), gs[1..], e)
  }

  function MeantAll(gs: seq<Sign>): seq<nat> {
    if gs == [] then [] else (if SignOk(gs[0]) then Meant(gs[0]) else []) + MeantAll(gs[1..])
  }

  lemma PairReads(s: string, p: nat, cp: nat, high: nat, low: nat)
    requires Surrogates(cp, high, low) && EscapeAt(s, p, high) && EscapeAt(s, p + 6, low) && cp < 0x11_0000
    ensures PieceAt(s, p) == Some(Piece(p + 12, Utf8(cp)))
  {
    HexReads(s, p + 2, high);
    HexReads(s, p + 8, low);
  }

  /** After the first half of a pair no second half is written. */
  lemma NoLowHalf(s: string, p: nat, gs: seq<Sign>, e: nat)
    requires gs != [] && SignsAt(s, p, gs, e) && gs[0].Escape? && 0xD800 <= gs[0].cp < 0xDC00
    ensures !LowSurrogate(s, p + 6)
  {
    if LowSurrogate(s, p + 6) {
      var low := CodeUnit(s, p + 8);
      HexReads(s, p + 8, low);
      assert SignsAt(s, p + 6, gs[1..], e) && gs[1..] != [];
      match gs[1] {
        case Plain(_) =>
        case Short(_) =>
        case Escape(cp) => HexReads(s, p + 8, cp);
        case Pair(cp) =>
          var high, l :| Surrogates(cp, high, l) && EscapeAt(s, p + 6, high) && EscapeAt(s, p + 12, l);
          HexReads(s, p + 8, high);
      }
    }
  }

  lemma SignReads(s: string, p: nat, gs: seq<Sign>, e: nat)
    requires gs != [] && SignsAt(s, p, gs, e)
    ensures p < |s| && s[p] != '"' && PieceAt(s, p) == Some(Piece(p + Width(gs[0]), Meant(gs[0])))
  {
    match gs[0]
    case Plain(c) =>
    case Short(e) =>
    case Escape(cp) =>
      HexReads(s, p + 2, cp);
      if 0xD800 <= cp < 0xDC00 {
        NoLowHalf(s, p, gs, e);
      }
    case Pair(cp) =>
      var high, low :| Surrogates(cp, high, low) && EscapeAt(s, p, high) && EscapeAt(s, p + 6, low);
      PairReads(s, p, cp, high, low);
  }

  /** A written string is read up to its closing quote, and gives the bytes that were meant. */
  lemma {:induction false} StringReads(s: string, p: nat, gs: seq<Sign>, e: nat)
    requires SignsAt(s, p, gs, e)
    ensures p <= |s| && StringFrom(s, p) == Some(Piece(e, MeantAll(gs)))
    decreases |gs|
  {
    if gs == [] {
    } else {
      SignReads(s, p, gs, e);
      StringReads(s, p + Width(gs[0]), gs[1..], e);
    }
  }

  /** What is read at a place is a sign, and no half of a pair whose other half follows. */
  lemma PieceIsSign(s: string, p: nat) returns (g: Sign)
    requires p < |s| && s[p] != '"' && PieceAt(s, p).Some?
    ensures SignOk(g) && SignAt(s, p, g) && PieceAt(s, p).value == Piece(p + Width(g), Meant(g))
    ensures g.Escape? && 0xD800 <= g.cp < 0xDC00 ==> !LowSurrogate(s, p + 6)
  {
    if s[p] != '\\' {
      g := Plain(s[p]);
    } else if s[p + 1] != 'u' {
      g := Short(s[p + 1]);
    } else {
      var v := CodeUnit(s, p + 2);
      HexReads(s, p + 2, v);
      if 0xD800 <= v < 0xDC00 && LowSurrogate(s, p + 6) {
        var low := CodeUnit(s, p + 8);
        HexReads(s, p + 8, low);
        g := Pair(0x1_0000 + (v - 0xD800) * 0x400 + (low - 0xDC00));
        assert Surrogates(g.cp, v, low);
      } else {
        g := Escape(v);
      }
    }
  }

  /** Whatever is read as a string was written in signs. */
  lemma {:induction false} ReadIsSigns(s: string, p: nat) returns (gs: seq<Sign>)
    requires p <= |s| && StringFrom(s, p).Some?
    ensures SignsAt(s, p, gs, StringFrom(s, p).value.next) && MeantAll(gs) == StringFrom(s, p).value.bytes
    decreases |s| - p
  {
    if s[p] == '"' {
      gs := [];
    } else {
      var g := PieceIsSign(s, p);
      var rest := ReadIsSigns(s, p + Width(g));
      gs := [g] + rest;
      assert gs[1..] == rest;
      if !Apart(gs) {
        HexReads(s, p + 8, gs[1].cp);
      }
    }
  }

  /** The reader accepts exactly the strings written in signs, and gives the bytes that were meant. */
  lemma StringExactly(s: string, p: nat, e: nat, bytes: seq<nat>)
    requires p <= |s|
    ensures StringFrom(s, p) == Some(Piece(e, bytes)) <==> exists gs :: SignsAt(s, p, gs, e) && MeantAll(gs) == bytes
  {
    if StringFrom(s, p) == Some(Piece(e, bytes)) {
      var gs := ReadIsSigns(s, p);
    }
    forall gs | SignsAt(s, p, gs, e) ensures StringFrom(s, p) == Some(Piece(e, MeantAll(gs))) {
      StringReads(s, p, gs, e);
    }
  }

  // ----- values (section 2 of RFC 8259): derivations with the offsets of their parts

  /** A value from offset to offset; the mark after an element or a member is a comma or the closing
      bracket. */
  datatype Tree =
    | Scalar(from: nat, to: nat)
    | List(from: nat, to: nat, items: Trees)
    | Record(from: nat, to: nat, members: Members)

  datatype Trees = Nil | Cons(head: Tree, mark: nat, tail: Trees)

  datatype Members = NoMember | Member(key: nat, colon: nat, value: Tree, mark: nat, rest: Members)

  /** The whitespace of isspace in C: that of section 2 of RFC 8259, vertical tab and form feed. */
  predicate Blank(c: char) {
    c as int in [0x20, 0x09, 0x0A, 0x0B, 0x0C, 0x0D]
  }

  lemma BlankIsSpace(c: char)
    ensures Blank(c) <==> IsSpace(c)
  {
  }

  /** Only whitespace from p to q. */
  ghost predicate Gap(s: string, p: nat, q: nat) {
    p <= q <= |s| && forall i {:trigger At(i)} :: At(i) && p <= i < q ==> Blank(s[i])
  }

  ghost predicate IsText(s: string, p: nat, q: nat) {
    p < |s| && s[p] == '"' && StringFrom(s, p + 1).Some? && StringFrom(s, p + 1).value.next == q
  }

  ghost predicate IsWord(s: string, p: nat, q: nat, word: string) {
    q == p + |word| <= |s| && s[p..q] == word
  }

  ghost predicate IsNumber(s: string, number: nat -> nat, p: nat, q: nat) {
    p < q <= |s| && (s[p] == '-' || '0' <= s[p] <= '9') && number(p) == q
  }

  /** A string, one of the three words, or a number. */
  ghost predicate IsScalar(s: string, number: nat -> nat, p: nat, q: nat) {
    IsText(s, p, q) || IsWord(s, p, q, "true") || IsWord(s, p, q, "false") || IsWord(s, p, q, "null") || IsNumber(s, number, p, q)
  }

  /** The tree is a value of the grammar in s after whitespace from p on. */
  ghost predicate Derives(s: string, number: nat -> nat, p: nat, t: Tree)
    decreases t
  {
    Gap(s, p, t.from) && t.from < |s| &&
    match t
    case Scalar(from, to) => IsScalar(s, number, from, to)
    case List(from, to, items) =>
      s[from] == '[' && if items.Nil? then to > 0 && Gap(s, from + 1, to - 1) && to - 1 < |s| && s[to - 1] == ']'
                        else DeriveItems(s, number, from + 1, items, to)
    case Record(from, to, members) =>
      s[from] == '{' && if members.NoMember? then to > 0 && Gap(s, from + 1, to - 1) && to - 1 < |s| && s[to - 1] == '}'
                        else DeriveMembers(s, number, from + 1, members, to)
  }

  /** One element or more, and the closing bracket before end. */
  ghost predicate DeriveItems(s: string, number: nat -> nat, p: nat, ts: Trees, end: nat)
    requires ts.Cons?
    decreases ts
  {
    && Derives(s, number, p, ts.head) && Gap(s, ts.head.to, ts.mark) && ts.mark < |s|
    && if ts.tail.Nil? then s[ts.mark] == ']' && end == ts.mark + 1
       else s[ts.mark] == ',' && DeriveItems(s, number, ts.mark + 1, ts.tail, end)
  }

  /** A string and a colon, with whitespace before each. */
  ghost predicate IsKey(s: string, p: nat, key: nat, colon: nat) {
    && Gap(s, p, key) && key < |s| && s[key] == '"' && StringFrom(s, key + 1).Some?
    && Gap(s, StringFrom(s, key + 1).value.next, colon) && colon < |s| && s[colon] == ':'
  }

  /** A key, a colon and a value; one such member or more, and the closing brace before end. */
  ghost predicate DeriveMembers(s: string, number: nat -> nat, p: nat, ms: Members, end: nat)
    requires ms.Member?
    decreases ms
  {
    && IsKey(s, p, ms.key, ms.colon) && Derives(s, number, ms.colon + 1, ms.value)
    && Gap(s, ms.value.to, ms.mark) && ms.mark < |s|
    && if ms.rest.NoMember? then s[ms.mark] == '}' && end == ms.mark + 1
       else s[ms.mark] == ',' && DeriveMembers(s, number, ms.mark + 1, ms.rest, end)
  }

  lemma {:induction false} GapSkipped(s: string, p: nat, q: nat)
    requires Gap(s, p, q) && q < |s| && !IsSpace(s[q])
    ensures SkipWs(s, p) == q
    decreases q - p
  {
    if p == q {
    } else {
      assert At(p);
      BlankIsSpace(s[p]);
      GapSkipped(s, p + 1, q);
    }
  }

  lemma SkippedGap(s: string, p: nat)
    requires p <= |s|
    ensures Gap(s, p, SkipWs(s, p)) && (SkipWs(s, p) < |s| ==> !IsSpace(s[SkipWs(s, p)]))
  {
    SkipWsSkips(s, p);
    forall i | At(i) && p <= i < SkipWs(s, p) ensures Blank(s[i]) {
      BlankIsSpace(s[i]);
    }
  }

  // ----- the loops of the parser, one round at a time

  /** Names an answer of the parser: the predicates below are used only where one is named. */
  ghost predicate Named(r: Option<nat>) {
    true
  }

  /** A value that starts after whitespace at p is accepted and ends at end. */
  ghost predicate ValueTo(s: string, number: nat -> nat, p: nat, end: nat) {
    p <= |s| && forall r {:trigger Named(r)} :: Named(r) && r == ValueEnd(s, number, p) ==> r == Some(end)
  }

  ghost predicate ItemsTo(s: string, number: nat -> nat, p: nat, end: nat) {
    p <= |s| && forall r {:trigger Named(r)} :: Named(r) && r == ElementsEnd(s, number, p) ==> r == Some(end)
  }

  ghost predicate MembersTo(s: string, number: nat -> nat, p: nat, end: nat) {
    p <= |s| && forall r {:trigger Named(r)} :: Named(r) && r == MembersEnd(s, number, p) ==> r == Some(end)
  }

  lemma SameValue(s: string, number: nat -> nat, p: nat, q: nat, end: nat)
    requires Gap(s, p, q) && q < |s| && !IsSpace(s[q])
    ensures ValueTo(s, number, p, end) <==> ValueTo(s, number, q, end)
  {
    GapSkipped(s, p, q);
    assert SkipWs(s, q) == q;
    assert ValueEnd(s, number, p) == ValueEnd(s, number, q);
    assert Named(ValueEnd(s, number, p)) && Named(ValueEnd(s, number, q));
  }

  lemma SameItems(s: string, number: nat -> nat, p: nat, q: nat)
    requires Gap(s, p, q) && q < |s| && !IsSpace(s[q])
    ensures ElementsEnd(s, number, p) == ElementsEnd(s, number, q)
  {
    GapSkipped(s, p, q);
    assert SkipWs(s, q) == q;
    assert ValueEnd(s, number, p) == ValueEnd(s, number, q);
  }

  lemma SameMembers(s: string, number: nat -> nat, p: nat, q: nat)
    requires Gap(s, p, q) && q < |s| && !IsSpace(s[q])
    ensures MembersEnd(s, number, p) == MembersEnd(s, number, q)
  {
    GapSkipped(s, p, q);
    assert SkipWs(s, q) == q;
    assert MemberEnd(s, number, p) == MemberEnd(s, number, q);
  }

  /** Scalars. */
  lemma ScalarExactly(s: string, number: nat -> nat, q: nat, end: nat)
    requires q < |s| && !IsSpace(s[q]) && s[q] != '[' && s[q] != '{'
    ensures ValueTo(s, number, q, end) <==> IsScalar(s, number, q, end)
  {
    assert SkipWs(s, q) == q;
    assert Named(ValueEnd(s, number, q));
    if s[q] == 't' {
      WordAt(s, q, end, "true");
    } else if s[q] == 'f' {
      WordAt(s, q, end, "false");
    } else if s[q] == 'n' {
      WordAt(s, q, end, "null");
    }
    if s[q] != 't' {
      OtherWord(s, q, end, "true");
    }
    if s[q] != 'f' {
      OtherWord(s, q, end, "false");
    }
    if s[q] != 'n' {
      OtherWord(s, q, end, "null");
    }
  }

  lemma WordAt(s: string, q: nat, end: nat, word: string)
    requires q <= |s|
    ensures IsWord(s, q, end, word) <==> Literal(s, q, word) && end == q + |word|
  {
  }

  lemma OtherWord(s: string, q: nat, end: nat, word: string)
    requires q < |s| && word != [] && s[q] != word[0]
    ensures !IsWord(s, q, end, word)
  {
    assert q + |word| <= |s| ==> s[q..q + |word|][0] == s[q];
  }

  /** An opening bracket, and then the closing one or elements. */
  lemma ListExactly(s: string, number: nat -> nat, q: nat, first: nat, end: nat)
    requires q < |s| && s[q] == '[' && Gap(s, q + 1, first) && first < |s| && !IsSpace(s[first])
    ensures ValueTo(s, number, q, end) <==> if s[first] == ']' then end == first + 1 else ItemsTo(s, number, q + 1, end)
  {
    assert SkipWs(s, q) == q;
    GapSkipped(s, q + 1, first);
    SameItems(s, number, q + 1, first);
    assert Named(ValueEnd(s, number, q)) && Named(ElementsEnd(s, number, q + 1));
  }

  lemma RecordExactly(s: string, number: nat -> nat, q: nat, first: nat, end: nat)
    requires q < |s| && s[q] == '{' && Gap(s, q + 1, first) && first < |s| && !IsSpace(s[first])
    ensures ValueTo(s, number, q, end) <==> if s[first] == '}' then end == first + 1 else MembersTo(s, number, q + 1, end)
  {
    assert SkipWs(s, q) == q;
    GapSkipped(s, q + 1, first);
    SameMembers(s, number, q + 1, first);
    assert Named(ValueEnd(s, number, q)) && Named(MembersEnd(s, number, q + 1));
  }

  /** A value, and then a comma and more elements or the closing bracket. */
  lemma ItemsExactly(s: string, number: nat -> nat, p: nat, v: nat, mark: nat, end: nat)
    requires ValueTo(s, number, p, v) && Gap(s, v, mark) && mark < |s| && !IsSpace(s[mark])
    ensures ItemsTo(s, number, p, end) <==>
              (s[mark] == ',' && ItemsTo(s, number, mark + 1, end)) || (s[mark] == ']' && end == mark + 1)
  {
    GapSkipped(s, v, mark);
    assert Named(ValueEnd(s, number, p)) && Named(ElementsEnd(s, number, p));
    assert Named(ElementsEnd(s, number, mark + 1));
  }

  lemma KeyThenValue(s: string, number: nat -> nat, p: nat, key: nat, colon: nat)
    requires IsKey(s, p, key, colon)
    ensures MemberEnd(s, number, p) == ValueEnd(s, number, colon + 1)
  {
    GapSkipped(s, p, key);
    GapSkipped(s, StringFrom(s, key + 1).value.next, colon);
  }

  lemma MembersExactly(s: string, number: nat -> nat, p: nat, key: nat, colon: nat, v: nat, mark: nat, end: nat)
    requires IsKey(s, p, key, colon) && ValueTo(s, number, colon + 1, v)
    requires Gap(s, v, mark) && mark < |s| && !IsSpace(s[mark])
    ensures MembersTo(s, number, p, end) <==>
              (s[mark] == ',' && MembersTo(s, number, mark + 1, end)) || (s[mark] == '}' && end == mark + 1)
  {
    KeyThenValue(s, number, p, key, colon);
    GapSkipped(s, v, mark);
    assert Named(ValueEnd(s, number, colon + 1)) && Named(MembersEnd(s, number, p));
    assert Named(MembersEnd(s, number, mark + 1));
  }

  // ----- the parser accepts every derivation

  /** What stands at the start of a value is no whitespace and no closing bracket. */
  lemma DerivesStarts(s: string, number: nat -> nat, p: nat, t: Tree)
    requires Derives(s, number, p, t)
    ensures t.from < |s| && !IsSpace(s[t.from]) && s[t.from] != ']' && s[t.from] != '}'
    ensures t.Scalar? ==> s[t.from] != '[' && s[t.from] != '{'
  {
    if t.Scalar? && !IsText(s, t.from, t.to) && !IsNumber(s, number, t.from, t.to) {
      assert s[t.from..t.to][0] == s[t.from];
    }
  }

  /** Every value of the grammar is accepted, and ends where the derivation says. */
  lemma {:induction false} DerivedIsAccepted(s: string, number: nat -> nat, p: nat, t: Tree)
    requires Derives(s, number, p, t)
    ensures ValueTo(s, number, p, t.to)
    decreases t, 2
  {
    DerivesStarts(s, number, p, t);
    match t {
      case Scalar(from, to) => ScalarExactly(s, number, from, to);
      case List(from, to, items) => ListAccepted(s, number, p, t);
      case Record(from, to, members) => RecordAccepted(s, number, p, t);
    }
    SameValue(s, number, p, t.from, t.to);
  }

  lemma {:induction false} ListAccepted(s: string, number: nat -> nat, p: nat, t: Tree)
    requires t.List? && Derives(s, number, p, t)
    ensures ValueTo(s, number, t.from, t.to)
    decreases t, 1
  {
    if t.items.Nil? {
      ListExactly(s, number, t.from, t.to - 1, t.to);
    } else {
      DerivesStarts(s, number, t.from + 1, t.items.head);
      ItemsAccepted(s, number, t.from + 1, t.items, t.to);
      ListExactly(s, number, t.from, t.items.head.from, t.to);
    }
  }

  lemma {:induction false} ItemsAccepted(s: string, number: nat -> nat, p: nat, ts: Trees, end: nat)
    requires ts.Cons? && DeriveItems(s, number, p, ts, end)
    ensures ItemsTo(s, number, p, end)
    decreases ts, 1
  {
    DerivedIsAccepted(s, number, p, ts.head);
    if ts.tail.Cons? {
      ItemsAccepted(s, number, ts.mark + 1, ts.tail, end);
    }
    ItemsExactly(s, number, p, ts.head.to, ts.mark, end);
  }

  lemma {:induction false} RecordAccepted(s: string, number: nat -> nat, p: nat, t: Tree)
    requires t.Record? && Derives(s, number, p, t)
    ensures ValueTo(s, number, t.from, t.to)
    decreases t, 1
  {
    if t.members.NoMember? {
      RecordExactly(s, number, t.from, t.to - 1, t.to);
    } else {
      MembersAccepted(s, number, t.from + 1, t.members, t.to);
      RecordExactly(s, number, t.from, t.members.key, t.to);
    }
  }

  lemma {:induction false} MembersAccepted(s: string, number: nat -> nat, p: nat, ms: Members, end: nat)
    requires ms.Member? && DeriveMembers(s, number, p, ms, end)
    ensures MembersTo(s, number, p, end)
    decreases ms, 1
  {
    DerivedIsAccepted(s, number, ms.colon + 1, ms.value);
    if ms.rest.NoMember? {
      LastMember(s, number, p, ms, end);
    } else {
      MembersAccepted(s, number, ms.mark + 1, ms.rest, end);
      MoreMembers(s, number, p, ms, end);
    }
  }

  lemma LastMember(s: string, number: nat -> nat, p: nat, ms: Members, end: nat)
    requires ms.Member? && ms.rest.NoMember? && DeriveMembers(s, number, p, ms, end)
    requires ValueTo(s, number, ms.colon + 1, ms.value.to)
    ensures MembersTo(s, number, p, end)
  {
    MembersExactly(s, number, p, ms.key, ms.colon, ms.value.to, ms.mark, end);
  }

  lemma MoreMembers(s: string, number: nat -> nat, p: nat, ms: Members, end: nat)
    requires ms.Member? && ms.rest.Member? && DeriveMembers(s, number, p, ms, end)
    requires ValueTo(s, number, ms.colon + 1, ms.value.to) && MembersTo(s, number, ms.mark + 1, end)
    ensures MembersTo(s, number, p, end)
  {
    MembersExactly(s, number, p, ms.key, ms.colon, ms.value.to, ms.mark, end);
  }

  // ----- the parser accepts nothing else

  /** Where an accepted value starts. */
  lemma ValueParts(s: string, number: nat -> nat, p: nat, end: nat) returns (q: nat)
    requires ValueTo(s, number, p, end)
    ensures Gap(s, p, q) && q < |s| && !IsSpace(s[q]) && q < end <= |s|
  {
    assert Named(ValueEnd(s, number, p));
    q := SkipWs(s, p);
    SkippedGap(s, p);
    SkipWsTwice(s, p);
    assert ValueEnd(s, number, q) == ValueEnd(s, number, p);
  }

  lemma BracketParts(s: string, number: nat -> nat, q: nat, end: nat) returns (first: nat)
    requires q < |s| && (s[q] == '[' || s[q] == '{') && ValueTo(s, number, q, end)
    ensures Gap(s, q + 1, first) && first < |s| && !IsSpace(s[first])
  {
    assert Named(ValueEnd(s, number, q));
    assert SkipWs(s, q) == q;
    first := SkipWs(s, q + 1);
    SkippedGap(s, q + 1);
    SkipWsTwice(s, q + 1);
  }

  lemma ItemsParts(s: string, number: nat -> nat, p: nat, end: nat) returns (v: nat, mark: nat)
    requires ItemsTo(s, number, p, end)
    ensures ValueTo(s, number, p, v) && p < v && Gap(s, v, mark) && mark < |s| && !IsSpace(s[mark])
  {
    assert Named(ElementsEnd(s, number, p));
    v := ValueEnd(s, number, p).value;
    mark := SkipWs(s, v);
    SkippedGap(s, v);
  }

  lemma KeyParts(s: string, number: nat -> nat, p: nat) returns (key: nat, colon: nat)
    requires p <= |s| && MemberEnd(s, number, p).Some?
    ensures IsKey(s, p, key, colon) && MemberEnd(s, number, p) == ValueEnd(s, number, colon + 1)
  {
    key := SkipWs(s, p);
    SkippedGap(s, p);
    SkippedGap(s, StringFrom(s, key + 1).value.next);
    colon := SkipWs(s, StringFrom(s, key + 1).value.next);
  }

  lemma MembersParts(s: string, number: nat -> nat, p: nat, end: nat) returns (key: nat, colon: nat, v: nat, mark: nat)
    requires MembersTo(s, number, p, end)
    ensures IsKey(s, p, key, colon) && ValueTo(s, number, colon + 1, v) && colon < v
    ensures Gap(s, v, mark) && mark < |s| && !IsSpace(s[mark])
  {
    assert Named(MembersEnd(s, number, p));
    key, colon := KeyParts(s, number, p);
    v := ValueEnd(s, number, colon + 1).value;
    mark := SkipWs(s, v);
    SkippedGap(s, v);
  }

  /** Whatever is accepted is a value of the grammar, with a derivation that ends at the same offset. */
  lemma {:induction false} AcceptedIsDerived(s: string, number: nat -> nat, p: nat, end: nat) returns (t: Tree)
    requires ValueTo(s, number, p, end)
    ensures Derives(s, number, p, t) && t.to == end
    decreases |s| - p, 2
  {
    var q := ValueParts(s, number, p, end);
    SameValue(s, number, p, q, end);
    if s[q] == '[' {
      var items := AcceptedList(s, number, q, end);
      t := List(q, end, items);
    } else if s[q] == '{' {
      var members := AcceptedRecord(s, number, q, end);
      t := Record(q, end, members);
    } else {
      ScalarExactly(s, number, q, end);
      t := Scalar(q, end);
    }
  }

  lemma {:induction false} AcceptedList(s: string, number: nat -> nat, q: nat, end: nat) returns (items: Trees)
    requires q < |s| && s[q] == '[' && ValueTo(s, number, q, end)
    ensures if items.Nil? then end > 0 && Gap(s, q + 1, end - 1) && end - 1 < |s| && s[end - 1] == ']'
            else DeriveItems(s, number, q + 1, items, end)
    decreases |s| - q, 1
  {
    var first := BracketParts(s, number, q, end);
    ListExactly(s, number, q, first, end);
    if s[first] == ']' {
      items := Nil;
    } else {
      items := AcceptedItems(s, number, q + 1, end);
    }
  }

  lemma {:induction false} AcceptedItems(s: string, number: nat -> nat, p: nat, end: nat) returns (ts: Trees)
    requires ItemsTo(s, number, p, end)
    ensures ts.Cons? && DeriveItems(s, number, p, ts, end)
    decreases |s| - p, 3
  {
    var v, mark := ItemsParts(s, number, p, end);
    ItemsExactly(s, number, p, v, mark, end);
    var head := AcceptedIsDerived(s, number, p, v);
    var tail := Nil;
    if s[mark] == ',' {
      tail := AcceptedItems(s, number, mark + 1, end);
    }
    ts := Cons(head, mark, tail);
  }

  lemma {:induction false} AcceptedRecord(s: string, number: nat -> nat, q: nat, end: nat) returns (members: Members)
    requires q < |s| && s[q] == '{' && ValueTo(s, number, q, end)
    ensures if members.NoMember? then end > 0 && Gap(s, q + 1, end - 1) && end - 1 < |s| && s[end - 1] == '}'
            else DeriveMembers(s, number, q + 1, members, end)
    decreases |s| - q, 1
  {
    var first := BracketParts(s, number, q, end);
    RecordExactly(s, number, q, first, end);
    if s[first] == '}' {
      members := NoMember;
    } else {
      members := AcceptedMembers(s, number, q + 1, end);
    }
  }

  lemma {:induction false} AcceptedMembers(s: string, number: nat -> nat, p: nat, end: nat) returns (ms: Members)
    requires MembersTo(s, number, p, end)
    ensures ms.Member? && DeriveMembers(s, number, p, ms, end)
    decreases |s| - p, 3
  {
    var key, colon, v, mark := MembersParts(s, number, p, end);
    MembersExactly(s, number, p, key, colon, v, mark, end);
    var value := AcceptedIsDerived(s, number, colon + 1, v);
    if s[mark] == ',' {
      var rest := AcceptedMembers(s, number, mark + 1, end);
      ms := Member(key, colon, value, mark, rest);
    } else {
      ms := Member(key, colon, value, mark, NoMember);
    }
  }

  /** The parser accepts exactly the values of the grammar, up to where they end. */
  lemma AcceptsExactly(s: string, number: nat -> nat, p: nat, end: nat)
    requires p <= |s|
    ensures ValueEnd(s, number, p) == Some(end) <==> exists t :: Derives(s, number, p, t) && t.to == end
  {
    if ValueEnd(s, number, p) == Some(end) {
      var t := AcceptedIsDerived(s, number, p, end);
    }
    forall t | Derives(s, number, p, t) ensures ValueEnd(s, number, p) == Some(t.to) {
      DerivedIsAccepted(s, number, p, t);
      assert Named(ValueEnd(s, number, p));
    }
  }
}
