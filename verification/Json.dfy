/** JSON text: the recursive parser of c/src/json.c, and the flat skipper and string reader that
    c/src/tokenizer.c uses instead of it. A cursor is an offset into the text. */
module Json {
  import opened Options

  // ----- characters

  /** C `isspace` in the default locale. */
  predicate IsSpace(c: char) {
    c == ' ' || ('\t' <= c <= '\r')
  }

  predicate IsHex(c: char) {
    '0' <= c <= '9' || 'a' <= c <= 'f' || 'A' <= c <= 'F'
  }

  function HexValue(c: char): (v: nat)
    requires IsHex(c)
    ensures v < 16
  {
    if '0' <= c <= '9' then c as int - '0' as int
    else if 'a' <= c <= 'f' then c as int - 'a' as int + 10
    else c as int - 'A' as int + 10
  }

  /** Characters that open, close or separate values. */
  predicate IsStructural(c: char) {
    c in ['"', '{', '}', '[', ']', ',']
  }

  function SkipWs(s: string, p: nat): (q: nat)
    requires p <= |s|
    ensures p <= q <= |s|
    decreases |s| - p
  {
    if p < |s| && IsSpace(s[p]) then SkipWs(s, p + 1) else p
  }

  lemma {:induction false} SkipWsSkips(s: string, p: nat)
    requires p <= |s|
    ensures var q := SkipWs(s, p); (q < |s| ==> !IsSpace(s[q])) && forall i :: p <= i < q ==> IsSpace(s[i])
    decreases |s| - p
  {
    if p < |s| && IsSpace(s[p]) {
      SkipWsSkips(s, p + 1);
    }
  }

  // ----- strings

  predicate FourHex(s: string, p: nat) {
    p + 4 <= |s| && IsHex(s[p]) && IsHex(s[p + 1]) && IsHex(s[p + 2]) && IsHex(s[p + 3])
  }

  function CodeUnit(s: string, p: nat): (v: nat)
    requires FourHex(s, p)
    ensures v < 0x1_0000
  {
    HexValue(s[p]) * 0x1000 + HexValue(s[p + 1]) * 0x100 + HexValue(s[p + 2]) * 0x10 + HexValue(s[p + 3])
  }

  /** The second half of a surrogate pair at p: `\u` and a code unit in DC00-DFFF. */
  predicate LowSurrogate(s: string, p: nat) {
    p + 6 <= |s| && s[p] == '\\' && s[p + 1] == 'u' && FourHex(s, p + 2) && 0xDC00 <= CodeUnit(s, p + 2) <= 0xDFFF
  }

  /** The bytes of a code point, in 1 to 4 bytes by its size. */
  function Utf8(cp: nat): (r: seq<nat>)
    requires cp < 0x11_0000
    ensures 1 <= |r| <= 4 && forall i :: 0 <= i < |r| ==> r[i] < 256
  {
    if cp < 0x80 then [cp]
    else if cp < 0x800 then [0xC0 + cp / 64, 0x80 + cp % 64]
    else if cp < 0x1_0000 then [0xE0 + cp / 4096, 0x80 + cp / 64 % 64, 0x80 + cp % 64]
    else [0xF0 + cp / 262144, 0x80 + cp / 4096 % 64, 0x80 + cp / 64 % 64, 0x80 + cp % 64]
  }

  function SimpleEscape(e: char): Option<nat> {
    match e
    case '"' => Some(0x22)
    case '\\' => Some(0x5C)
    case '/' => Some(0x2F)
    case 'b' => Some(0x08)
    case 'f' => Some(0x0C)
    case 'n' => Some(0x0A)
    case 'r' => Some(0x0D)
    case 't' => Some(0x09)
    case _ => None
  }

  /** What the characters at a place of a string stand for, and where the next ones begin. */
  datatype Piece = Piece(next: nat, bytes: seq<nat>)

  /** One character or one escape of a string, surrogate pairs together. */
  function PieceAt(s: string, p: nat): (r: Option<Piece>)
    requires p < |s|
    ensures r.Some? ==> p < r.value.next <= |s|
  {
    if s[p] != '\\' then Some(Piece(p + 1, [s[p] as int]))
    else if p + 1 == |s| then None
    else if s[p + 1] == 'u' then
      if !FourHex(s, p + 2) then None
      else
        var cp := CodeUnit(s, p + 2);
        if 0xD800 <= cp <= 0xDBFF && LowSurrogate(s, p + 6)
        then Some(Piece(p + 12, Utf8(0x1_0000 + (cp - 0xD800) * 1024 + (CodeUnit(s, p + 8) - 0xDC00))))
        else Some(Piece(p + 6, Utf8(cp)))
    else
      var e := SimpleEscape(s[p + 1]);
      if e.Some? then Some(Piece(p + 2, [e.value])) else None
  }

  /** The rest of a string from p: the offset after its closing quote and its bytes. */
  function StringFrom(s: string, p: nat): (r: Option<Piece>)
    requires p <= |s|
    ensures r.Some? ==> p < r.value.next <= |s| && s[r.value.next - 1] == '"'
    decreases |s| - p
  {
    if p == |s| then None
    else if s[p] == '"' then Some(Piece(p + 1, []))
    else
      match PieceAt(s, p)
      case None => None
      case Some(piece) =>
        match StringFrom(s, piece.next)
        case None => None
        case Some(rest) => Some(Piece(rest.next, piece.bytes + rest.bytes))
  }

  // ----- values

  /** A number scanner stands for `strtod`: number(p) is where the number at p ends, p itself when
      there is none. Numbers contain no whitespace and no structural character (section 6 of
      RFC 8259, and strtod's other forms). */
  ghost predicate NumberScanner(s: string, number: nat -> nat) {
    forall p :: 0 <= p < |s| ==>
      p <= number(p) <= |s| && forall i :: p <= i < number(p) ==> !IsSpace(s[i]) && !IsStructural(s[i])
  }

  predicate Literal(s: string, p: nat, word: string) {
    p + |word| <= |s| && s[p..p + |word|] == word
  }

  /** `jparse_value` from p: the offset where the value ends, or None when it is rejected. */
  function ValueEnd(s: string, number: nat -> nat, p: nat): (r: Option<nat>)
    requires p <= |s|
    ensures r.Some? ==> p < r.value <= |s|
    decreases |s| - p, 0
  {
    var q := SkipWs(s, p);
    if q == |s| then None
    else
      match s[q]
      case '{' =>
        var first := SkipWs(s, q + 1);
        if first < |s| && s[first] == '}' then Some(first + 1) else MembersEnd(s, number, first)
      case '[' =>
        var first := SkipWs(s, q + 1);
        if first < |s| && s[first] == ']' then Some(first + 1) else ElementsEnd(s, number, first)
      case '"' =>
        var str := StringFrom(s, q + 1);
        if str.Some? then Some(str.value.next) else None
      case 't' => if Literal(s, q, "true") then Some(q + 4) else None
      case 'f' => if Literal(s, q, "false") then Some(q + 5) else None
      case 'n' => if Literal(s, q, "null") then Some(q + 4) else None
      case c =>
        if (c == '-' || '0' <= c <= '9') && q < number(q) <= |s| then Some(number(q)) else None
  }

  /** The array loop: a value, then a comma and more, or the closing bracket. */
  function ElementsEnd(s: string, number: nat -> nat, p: nat): (r: Option<nat>)
    requires p <= |s|
    ensures r.Some? ==> p < r.value <= |s|
    decreases |s| - p, 1
  {
    match ValueEnd(s, number, p)
    case None => None
    case Some(v) =>
      var q := SkipWs(s, v);
      if q == |s| then None
      else if s[q] == ',' then ElementsEnd(s, number, q + 1)
      else if s[q] == ']' then Some(q + 1)
      else None
  }

  /** The colon after a key whose quote is at k. */
  function ColonAfter(s: string, k: nat): (r: Option<nat>)
    requires k < |s|
    ensures r.Some? ==> k < r.value < |s| && s[r.value] == ':'
  {
    match StringFrom(s, k + 1)
    case None => None
    case Some(key) =>
      var colon := SkipWs(s, key.next);
      if colon < |s| && s[colon] == ':' then Some(colon) else None
  }

  /** One member of an object: a string, a colon and a value. */
  function MemberEnd(s: string, number: nat -> nat, p: nat): (r: Option<nat>)
    requires p <= |s|
    ensures r.Some? ==> p < r.value <= |s|
    decreases |s| - p, 1
  {
    var k := SkipWs(s, p);
    if k == |s| || s[k] != '"' then None
    else
      match ColonAfter(s, k)
      case None => None
      case Some(colon) => ValueEnd(s, number, colon + 1)
  }

  /** The object loop: a member, then a comma and more, or the closing brace. */
  function MembersEnd(s: string, number: nat -> nat, p: nat): (r: Option<nat>)
    requires p <= |s|
    ensures r.Some? ==> p < r.value <= |s|
    decreases |s| - p, 2
  {
    match MemberEnd(s, number, p)
    case None => None
    case Some(v) =>
      var q := SkipWs(s, v);
      if q == |s| then None
      else if s[q] == ',' then MembersEnd(s, number, q + 1)
      else if s[q] == '}' then Some(q + 1)
      else None
  }

  // ----- the flat skipper

  /** The inner loop over a string: the offset of its closing quote, or the end of the text. */
  function QuoteFrom(s: string, p: nat): (q: nat)
    requires p <= |s|
    ensures p <= q <= |s| && (q < |s| ==> s[q] == '"')
    decreases |s| - p
  {
    if p == |s| || s[p] == '"' then p
    else if s[p] == '\\' && p + 1 < |s| then QuoteFrom(s, p + 2)
    else QuoteFrom(s, p + 1)
  }

  /** The depth-counting loop from p at a depth. */
  function FlatFrom(s: string, p: nat, depth: int): (r: Option<nat>)
    requires p <= |s|
    ensures r.Some? ==> p < r.value <= |s|
    decreases |s| - p
  {
    if p == |s| then None
    else
      match s[p]
      case '"' =>
        var q := QuoteFrom(s, p + 1);
        if q == |s| then None else FlatFrom(s, q + 1, depth)
      case '{' => FlatFrom(s, p + 1, depth + 1)
      case '[' => FlatFrom(s, p + 1, depth + 1)
      case '}' => if depth == 1 then Some(p + 1) else FlatFrom(s, p + 1, depth - 1)
      case ']' => if depth == 1 then Some(p + 1) else FlatFrom(s, p + 1, depth - 1)
      case _ => FlatFrom(s, p + 1, depth)
  }

  predicate EndsScalar(c: char) {
    c == ',' || c == '}' || c == ']' || IsSpace(c)
  }

  function ScalarFrom(s: string, p: nat): (q: nat)
    requires p <= |s|
    ensures p <= q <= |s|
    decreases |s| - p
  {
    if p == |s| || EndsScalar(s[p]) then p else ScalarFrom(s, p + 1)
  }

  /** `js_skip_value` from p. */
  function SkipEnd(s: string, p: nat): Option<nat>
    requires p <= |s|
  {
    var q := SkipWs(s, p);
    if q == |s| then None
    else if s[q] == '"' then
      var e := QuoteFrom(s, q + 1);
      if e == |s| then None else Some(e + 1)
    else if s[q] == '{' || s[q] == '[' then FlatFrom(s, q, 0)
    else Some(ScalarFrom(s, q))
  }

  // ----- the skipper stops where the parser does

  /** Characters that are neither quotes nor backslashes are stepped over one by one. */
  lemma {:induction false} QuoteSteps(s: string, p: nat, q: nat)
    requires p <= q <= |s| && forall i :: p <= i < q ==> s[i] != '"' && s[i] != '\\'
    ensures QuoteFrom(s, p) == QuoteFrom(s, q)
    decreases q - p
  {
    if p == q {
    } else {
      QuoteSteps(s, p + 1, q);
    }
  }

  lemma QuoteStepsPiece(s: string, p: nat)
    requires p < |s| && s[p] != '"' && PieceAt(s, p).Some?
    ensures QuoteFrom(s, p) == QuoteFrom(s, PieceAt(s, p).value.next)
  {
    if s[p] == '\\' && s[p + 1] == 'u' {
      QuoteSteps(s, p + 2, p + 6);
      if PieceAt(s, p).value.next == p + 12 {
        assert QuoteFrom(s, p + 6) == QuoteFrom(s, p + 8);
        QuoteSteps(s, p + 8, p + 12);
      }
    }
  }

  lemma {:induction false} QuoteAgrees(s: string, p: nat)
    requires p <= |s| && StringFrom(s, p).Some?
    ensures QuoteFrom(s, p) == StringFrom(s, p).value.next - 1
    decreases |s| - p
  {
    if s[p] != '"' {
      QuoteStepsPiece(s, p);
      QuoteAgrees(s, PieceAt(s, p).value.next);
    }
  }

  lemma {:induction false} FlatSteps(s: string, p: nat, q: nat, depth: int)
    requires p <= q <= |s| && forall i :: p <= i < q ==> s[i] !in ['"', '{', '}', '[', ']']
    ensures FlatFrom(s, p, depth) == FlatFrom(s, q, depth)
    decreases q - p
  {
    if p == q {
    } else {
      assert s[p] !in ['"', '{', '}', '[', ']'];
      FlatSteps(s, p + 1, q, depth);
    }
  }

  lemma FlatStepsSpace(s: string, p: nat, depth: int)
    requires p <= |s|
    ensures FlatFrom(s, p, depth) == FlatFrom(s, SkipWs(s, p), depth)
  {
    SkipWsSkips(s, p);
    FlatSteps(s, p, SkipWs(s, p), depth);
  }

  lemma FlatStepsString(s: string, p: nat, depth: int)
    requires p < |s| && s[p] == '"' && StringFrom(s, p + 1).Some?
    ensures FlatFrom(s, p, depth) == FlatFrom(s, StringFrom(s, p + 1).value.next, depth)
  {
    QuoteAgrees(s, p + 1);
  }

  lemma FlatStepsLiteral(s: string, p: nat, word: string, depth: int)
    requires Literal(s, p, word) && word in ["true", "false", "null"]
    ensures FlatFrom(s, p, depth) == FlatFrom(s, p + |word|, depth)
    ensures forall i :: p <= i < p + |word| ==> !EndsScalar(s[i])
  {
    forall i | p <= i < p + |word| ensures s[i] == word[i - p] {
      assert s[p..p + |word|][i - p] == s[i];
    }
    FlatSteps(s, p, p + |word|, depth);
  }

  /** Where the loop goes on after a container closes. */
  function Closing(s: string, q: nat, depth: int): Option<nat>
    requires q <= |s|
  {
    if depth == 1 then Some(q) else FlatFrom(s, q, depth - 1)
  }

  lemma FlatStepsMark(s: string, q: nat, depth: int)
    requires q < |s|
    ensures s[q] == ',' ==> FlatFrom(s, q, depth) == FlatFrom(s, q + 1, depth)
    ensures s[q] == '}' || s[q] == ']' ==> FlatFrom(s, q, depth) == Closing(s, q + 1, depth)
  {
  }

  lemma FlatStepsKey(s: string, k: nat, depth: int)
    requires k < |s| && s[k] == '"' && ColonAfter(s, k).Some?
    ensures FlatFrom(s, k, depth) == FlatFrom(s, ColonAfter(s, k).value + 1, depth)
  {
    FlatStepsString(s, k, depth);
    FlatStepsSpace(s, StringFrom(s, k + 1).value.next, depth);
  }

  /** Strings, literals and numbers leave the depth alone. */
  lemma FlatStepsPlain(s: string, number: nat -> nat, p: nat, depth: int)
    requires NumberScanner(s, number) && p <= |s| && ValueEnd(s, number, p).Some?
    requires SkipWs(s, p) == p && s[p] != '{' && s[p] != '['
    ensures FlatFrom(s, p, depth) == FlatFrom(s, ValueEnd(s, number, p).value, depth)
  {
    match s[p]
    case '"' => FlatStepsString(s, p, depth);
    case 't' => FlatStepsLiteral(s, p, "true", depth);
    case 'f' => FlatStepsLiteral(s, p, "false", depth);
    case 'n' => FlatStepsLiteral(s, p, "null", depth);
    case _ => FlatSteps(s, p, number(p), depth);
  }

  /** Inside a container the flat loop passes over a whole value; at depth 0 it stops after it. */
  lemma {:induction false} FlatStepsValue(s: string, number: nat -> nat, p: nat, depth: int)
    requires NumberScanner(s, number) && p <= |s| && depth >= 0 && ValueEnd(s, number, p).Some?
    requires depth == 0 ==> var q := SkipWs(s, p); s[q] == '{' || s[q] == '['
    ensures FlatFrom(s, p, depth) == Closing(s, ValueEnd(s, number, p).value, depth + 1)
    decreases |s| - p, 0
  {
    var q := SkipWs(s, p);
    FlatStepsSpace(s, p, depth);
    SkipWsTwice(s, p);
    assert ValueEnd(s, number, p) == ValueEnd(s, number, q);
    if s[q] == '{' || s[q] == '[' {
      FlatStepsContainer(s, number, q, depth);
    } else {
      FlatStepsPlain(s, number, q, depth);
    }
  }

  lemma SkipWsTwice(s: string, p: nat)
    requires p <= |s|
    ensures SkipWs(s, SkipWs(s, p)) == SkipWs(s, p)
  {
    SkipWsSkips(s, p);
  }

  /** Opening a container raises the depth. */
  lemma FlatStepsOpen(s: string, q: nat, depth: int)
    requires q < |s| && (s[q] == '{' || s[q] == '[')
    ensures FlatFrom(s, q, depth) == FlatFrom(s, SkipWs(s, q + 1), depth + 1)
  {
    FlatStepsSpace(s, q + 1, depth + 1);
  }

  lemma {:induction false} FlatStepsContainer(s: string, number: nat -> nat, q: nat, depth: int)
    requires NumberScanner(s, number) && q < |s| && depth >= 0 && ValueEnd(s, number, q).Some?
    requires s[q] == '{' || s[q] == '['
    ensures FlatFrom(s, q, depth) == Closing(s, ValueEnd(s, number, q).value, depth + 1)
    decreases |s| - q - 1, 3
  {
    var first := SkipWs(s, q + 1);
    FlatStepsOpen(s, q, depth);
    assert SkipWs(s, q) == q;
    if first < |s| && s[first] == (if s[q] == '{' then '}' else ']') {
      FlatStepsMark(s, first, depth + 1);
    } else if s[q] == '{' {
      assert ValueEnd(s, number, q) == MembersEnd(s, number, first);
      FlatStepsMembers(s, number, first, depth + 1);
    } else {
      assert ValueEnd(s, number, q) == ElementsEnd(s, number, first);
      FlatStepsElements(s, number, first, depth + 1);
    }
  }

  lemma {:induction false} FlatStepsElements(s: string, number: nat -> nat, p: nat, depth: int)
    requires NumberScanner(s, number) && p <= |s| && depth >= 1 && ElementsEnd(s, number, p).Some?
    ensures FlatFrom(s, p, depth) == Closing(s, ElementsEnd(s, number, p).value, depth)
    decreases |s| - p, 1
  {
    FlatStepsValue(s, number, p, depth);
    var v := ValueEnd(s, number, p).value;
    FlatStepsSpace(s, v, depth);
    var q := SkipWs(s, v);
    FlatStepsMark(s, q, depth);
    if s[q] == ',' {
      FlatStepsElements(s, number, q + 1, depth);
    }
  }

  lemma {:induction false} FlatStepsMember(s: string, number: nat -> nat, p: nat, depth: int)
    requires NumberScanner(s, number) && p <= |s| && depth >= 1 && MemberEnd(s, number, p).Some?
    ensures FlatFrom(s, p, depth) == FlatFrom(s, MemberEnd(s, number, p).value, depth)
    decreases |s| - p, 1
  {
    var k := SkipWs(s, p);
    FlatStepsSpace(s, p, depth);
    FlatStepsKey(s, k, depth);
    FlatStepsValue(s, number, ColonAfter(s, k).value + 1, depth);
  }

  lemma {:induction false} FlatStepsMembers(s: string, number: nat -> nat, p: nat, depth: int)
    requires NumberScanner(s, number) && p <= |s| && depth >= 1 && MembersEnd(s, number, p).Some?
    ensures FlatFrom(s, p, depth) == Closing(s, MembersEnd(s, number, p).value, depth)
    decreases |s| - p, 2
  {
    FlatStepsMember(s, number, p, depth);
    var v := MemberEnd(s, number, p).value;
    FlatStepsSpace(s, v, depth);
    var q := SkipWs(s, v);
    FlatStepsMark(s, q, depth);
    if s[q] == ',' {
      FlatStepsMembers(s, number, q + 1, depth);
    }
  }

  /** For every string, array or object the parser accepts, the flat skipper stops at exactly
      the offset where the parser stops. */
  lemma SkipAgreesOnContainers(s: string, number: nat -> nat, p: nat)
    requires NumberScanner(s, number) && p <= |s| && ValueEnd(s, number, p).Some?
    requires s[SkipWs(s, p)] in ['"', '[', '{']
    ensures SkipEnd(s, p) == ValueEnd(s, number, p)
  {
    var q := SkipWs(s, p);
    if s[q] == '"' {
      QuoteAgrees(s, q + 1);
    } else {
      FlatStepsValue(s, number, p, 0);
      FlatStepsSpace(s, p, 0);
    }
  }

  lemma {:induction false} ScalarStops(s: string, p: nat, v: nat)
    requires p <= v <= |s| && forall i :: p <= i < v ==> !EndsScalar(s[i])
    ensures ScalarFrom(s, p) == v <==> v == |s| || EndsScalar(s[v])
    decreases v - p
  {
    if p == v {
    } else {
      ScalarStops(s, p + 1, v);
    }
  }

  /** For a literal or a number the two stop at the same offset exactly when the value is
      followed by whitespace, a comma, a closing bracket, or the end of the text. */
  lemma SkipAgreesOnScalars(s: string, number: nat -> nat, p: nat)
    requires NumberScanner(s, number) && p <= |s| && ValueEnd(s, number, p).Some?
    requires s[SkipWs(s, p)] !in ['"', '[', '{']
    ensures var v := ValueEnd(s, number, p).value;
            SkipEnd(s, p) == Some(v) <==> v == |s| || EndsScalar(s[v])
  {
    var q := SkipWs(s, p);
    var v := ValueEnd(s, number, p).value;
    if s[q] in ['t', 'f', 'n'] {
      FlatStepsLiteral(s, q, if s[q] == 't' then "true" else if s[q] == 'f' then "false" else "null", 0);
    }
    ScalarStops(s, q, v);
  }

  /** It does not stop at a colon: after the number of "1:" the parser stops, the skipper goes on. */
  lemma SkipPassesColon(number: nat -> nat)
    requires NumberScanner("1:", number) && number(0) == 1
    ensures ValueEnd("1:", number, 0) == Some(1) && SkipEnd("1:", 0) == Some(2)
  {
    assert SkipWs("1:", 0) == 0;
    assert ScalarFrom("1:", 0) == ScalarFrom("1:", 1) == ScalarFrom("1:", 2) == 2;
  }

  /** The skipper does not check what it skips: it accepts text the parser rejects. */
  lemma SkipAcceptsMore(number: nat -> nat)
    ensures SkipEnd("[}", 0) == Some(2) && ValueEnd("[}", number, 0) == None
  {
    assert SkipWs("[}", 0) == 0 && SkipWs("[}", 1) == 1;
    assert ValueEnd("[}", number, 1) == None;
  }

  // ----- the loops

  function Prepend(bytes: seq<nat>, r: Option<Piece>): Option<Piece> {
    if r.Some? then Some(Piece(r.value.next, bytes + r.value.bytes)) else None
  }

  lemma PrependNothing(r: Option<Piece>)
    ensures Prepend([], r) == r
  {
    if r.Some? {
      assert [] + r.value.bytes == r.value.bytes;
    }
  }

  /** The string from start is what was read plus the string from p. */
  ghost predicate ReadSoFar(s: string, start: nat, p: nat, bytes: seq<nat>)
    requires start <= |s| && p <= |s|
  {
    StringFrom(s, start) == Prepend(bytes, StringFrom(s, p))
  }

  lemma ReadStep(s: string, start: nat, p: nat, bytes: seq<nat>)
    requires start <= |s| && p < |s| && ReadSoFar(s, start, p, bytes) && s[p] != '"' && PieceAt(s, p).Some?
    ensures ReadSoFar(s, start, PieceAt(s, p).value.next, bytes + PieceAt(s, p).value.bytes)
  {
    var piece := PieceAt(s, p).value;
    var rest := StringFrom(s, piece.next);
    if rest.Some? {
      assert bytes + (piece.bytes + rest.value.bytes) == (bytes + piece.bytes) + rest.value.bytes;
    }
  }

  /** The cursor of both readers. */
  class Cursor {
    const text: string
    var p: nat
    var failed: bool

    ghost predicate Valid()
      reads this
    {
      p <= |text|
    }

    constructor (text: string)
      ensures Valid() && this.text == text && p == 0 && !failed
    {
      this.text, p, failed := text, 0, false;
    }

    /** `js_skip_ws` and `jskipws`. */
    method SkipSpaces()
      requires Valid()
      modifies this`p
      ensures Valid() && p == SkipWs(text, old(p))
    {
      while p < |text| && IsSpace(text[p])
        invariant Valid() && SkipWs(text, p) == SkipWs(text, old(p))
      {
        p := p + 1;
      }
    }

    /** The loop over a string that is being skipped, from after its opening quote. */
    method SkipToQuote()
      requires Valid()
      modifies this`p
      ensures Valid() && p == QuoteFrom(text, old(p))
    {
      while p < |text| && text[p] != '"'
        invariant Valid() && QuoteFrom(text, p) == QuoteFrom(text, old(p))
      {
        if text[p] == '\\' && p + 1 < |text| {
          p := p + 1;
        }
        p := p + 1;
      }
    }

    /** `js_skip_value`. */
    method SkipValue() returns (ok: bool)
      requires Valid()
      modifies this
      ensures Valid()
      ensures if ok then SkipEnd(text, old(p)) == Some(p) && failed == old(failed) else SkipEnd(text, old(p)) == None && failed
    {
      SkipSpaces();
      if p >= |text| {
        failed := true;
        return false;
      }
      if text[p] == '"' {
        p := p + 1;
        SkipToQuote();
        if p >= |text| {
          failed := true;
          return false;
        }
        p := p + 1;
        return true;
      }
      if text[p] == '{' || text[p] == '[' {
        ok := SkipContainer();
        return;
      }
      ghost var start := p;
      while p < |text| && !EndsScalar(text[p])
        invariant Valid() && failed == old(failed) && ScalarFrom(text, p) == ScalarFrom(text, start)
      {
        p := p + 1;
      }
      return true;
    }

    /** The depth-counting loop of `js_skip_value`. */
    method SkipContainer() returns (ok: bool)
      requires Valid()
      modifies this
      ensures Valid()
      ensures if ok then FlatFrom(text, old(p), 0) == Some(p) && failed == old(failed) else FlatFrom(text, old(p), 0) == None && failed
    {
      var depth := 0;
      while p < |text|
        invariant Valid() && failed == old(failed)
        invariant FlatFrom(text, p, depth) == FlatFrom(text, old(p), 0)
        decreases |text| - p
      {
        var c := text[p];
        if c == '"' {
          p := p + 1;
          SkipToQuote();
          if p >= |text| {
            break;
          }
        } else if c == '{' || c == '[' {
          depth := depth + 1;
        } else if c == '}' || c == ']' {
          depth := depth - 1;
          if depth == 0 {
            p := p + 1;
            return true;
          }
        }
        p := p + 1;
      }
      failed := true;
      return false;
    }

    /** The body of a string, read into out. `jparse_string` grows its buffer; `js_string_raw`
        answers -1 when the bytes would exceed its capacity. */
    method ReadString(capacity: Option<nat>) returns (out: Option<seq<nat>>)
      requires Valid()
      modifies this`p
      ensures Valid()
      ensures var r := StringFrom(text, old(p));
              if r.Some? && (capacity.None? || |r.value.bytes| <= capacity.value)
              then out == Some(r.value.bytes) && p == r.value.next
              else out.None?
    {
      var bytes: seq<nat> := [];
      ghost var start := p;
      assert ReadSoFar(text, start, p, bytes) by {
        PrependNothing(StringFrom(text, p));
      }
      while p < |text|
        invariant Valid() && (capacity.Some? ==> |bytes| <= capacity.value)
        invariant ReadSoFar(text, start, p, bytes)
        decreases |text| - p
      {
        if text[p] == '"' {
          assert bytes + [] == bytes;
          p := p + 1;
          return Some(bytes);
        }
        var piece := PieceAt(text, p);
        if piece.None? {
          return None;
        }
        ReadStep(text, start, p, bytes);
        if capacity.Some? && |bytes| + |piece.value.bytes| > capacity.value {
          return None;
        }
        bytes := bytes + piece.value.bytes;
        p := piece.value.next;
      }
      return None;
    }

    /** `jparse_value`: whether the value is accepted, and the cursor after it. */
    method ParseValue(number: nat -> nat) returns (ok: bool)
      requires Valid()
      modifies this`p
      ensures Valid() && (ok <==> ValueEnd(text, number, old(p)).Some?)
      ensures ok ==> ValueEnd(text, number, old(p)) == Some(p)
      decreases |text| - p, 0
    {
      SkipSpaces();
      if p >= |text| {
        return false;
      }
      var c := text[p];
      if c == '{' {
        p := p + 1;
        SkipSpaces();
        if p < |text| && text[p] == '}' {
          p := p + 1;
          return true;
        }
        ok := ParseMembers(number);
      } else if c == '[' {
        p := p + 1;
        SkipSpaces();
        if p < |text| && text[p] == ']' {
          p := p + 1;
          return true;
        }
        ok := ParseElements(number);
      } else if c == '"' {
        p := p + 1;
        var str := ReadString(None);
        ok := str.Some?;
      } else if c == 't' || c == 'f' || c == 'n' {
        var word := if c == 't' then "true" else if c == 'f' then "false" else "null";
        ok := Literal(text, p, word);
        if ok {
          p := p + |word|;
        }
      } else {
        ok := (c == '-' || '0' <= c <= '9') && p < number(p) <= |text|;
        if ok {
          p := number(p);
        }
      }
    }

    /** The array loop of `jparse_value`. */
    method ParseElements(number: nat -> nat) returns (ok: bool)
      requires Valid()
      modifies this`p
      ensures Valid() && (ok <==> ElementsEnd(text, number, old(p)).Some?)
      ensures ok ==> ElementsEnd(text, number, old(p)) == Some(p)
      decreases |text| - p, 1
    {
      ghost var start := p;
      while true
        invariant Valid() && start <= p && ElementsEnd(text, number, p) == ElementsEnd(text, number, start)
        decreases |text| - p
      {
        ok := ParseValue(number);
        if !ok {
          return;
        }
        SkipSpaces();
        if p >= |text| {
          return false;
        }
        if text[p] == ',' {
          p := p + 1;
          continue;
        }
        if text[p] == ']' {
          p := p + 1;
          return true;
        }
        return false;
      }
    }

    /** The object loop of `jparse_value`. */
    method ParseMembers(number: nat -> nat) returns (ok: bool)
      requires Valid()
      modifies this`p
      ensures Valid() && (ok <==> MembersEnd(text, number, old(p)).Some?)
      ensures ok ==> MembersEnd(text, number, old(p)) == Some(p)
      decreases |text| - p, 2
    {
      ghost var start := p;
      while true
        invariant Valid() && start <= p && MembersEnd(text, number, p) == MembersEnd(text, number, start)
        decreases |text| - p
      {
        ok := ParseMember(number);
        if !ok {
          return;
        }
        SkipSpaces();
        if p >= |text| {
          return false;
        }
        if text[p] == ',' {
          p := p + 1;
          continue;
        }
        if text[p] == '}' {
          p := p + 1;
          return true;
        }
        return false;
      }
    }

    /** One member: a string, a colon and a value. */
    method ParseMember(number: nat -> nat) returns (ok: bool)
      requires Valid()
      modifies this`p
      ensures Valid() && (ok <==> MemberEnd(text, number, old(p)).Some?)
      ensures ok ==> MemberEnd(text, number, old(p)) == Some(p)
      decreases |text| - p, 1
    {
      SkipSpaces();
      if p >= |text| || text[p] != '"' {
        return false;
      }
      p := p + 1;
      var key := ReadString(None);
      if key.None? {
        return false;
      }
      SkipSpaces();
      if p >= |text| || text[p] != ':' {
        return false;
      }
      p := p + 1;
      ok := ParseValue(number);
    }
  }
}
