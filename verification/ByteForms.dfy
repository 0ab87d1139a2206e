/** The reversible byte alphabet of c/src/tokenizer.c: every byte has a form of one or two bytes,
    printable bytes as themselves and the others as code points from U+0100 in byte order, and
    vocabulary keys are strings of forms. */
module ByteForms {
  import opened Options
  import ProbeTable

  type Bytes = seq<int>

  ghost predicate AreBytes(s: Bytes) {
    forall i :: 0 <= i < |s| ==> 0 <= s[i] < 256
  }

  predicate Printable(b: int) {
    0x21 <= b <= 0x7E || 0xA1 <= b <= 0xAC || 0xAE <= b <= 0xFF
  }

  /** How many bytes below b are not printable. */
  function Skipped(b: nat): (n: nat)
    ensures n <= b
  {
    if b == 0 then 0 else Skipped(b - 1) + (if Printable(b - 1) then 0 else 1)
  }

  function CodePoint(b: nat): nat {
    if Printable(b) then b else 256 + Skipped(b)
  }

  /** What byte_to_unicode writes for a code point below U+0800: one or two bytes. */
  function ShortUtf8(cp: nat): Bytes {
    if cp < 0x80 then [cp] else [0xC0 + cp / 64, 0x80 + cp % 64]
  }

  function Form(b: nat): Bytes {
    ShortUtf8(CodePoint(b))
  }

  /** Not printable are the bytes up to the space, those from DEL to the no-break space, and the soft
      hyphen. */
  lemma {:induction false} SkippedIs(b: nat)
    requires b <= 256
    ensures Skipped(b) == if b <= 0x21 then b else if b <= 0x7F then 0x21 else if b <= 0xA1 then b - 0x5E
                          else if b <= 0xAD then 0x43 else 0x44
  {
    if b == 0 {
    } else {
      SkippedIs(b - 1);
    }
  }

  /** The whole table: the space is U+0120, the newline U+010A, and so on. */
  lemma FormExactly(b: nat)
    requires b < 256
    ensures Form(b) == if b <= 0x20 then [0xC4, 0x80 + b]
                       else if b <= 0x7E then [b]
                       else if b <= 0x9D then [0xC4, b + 0x22]
                       else if b <= 0xA0 then [0xC5, b - 0x1E]
                       else if b == 0xAD then [0xC5, 0x83]
                       else if b <= 0xBF then [0xC2, b]
                       else [0xC3, b - 0x40]
  {
    SkippedIs(b);
  }

  // ----- forms can be told apart

  lemma {:induction false} SkippedGrows(a: nat, b: nat)
    requires a < b && !Printable(a)
    ensures Skipped(a) < Skipped(b)
    decreases b - a
  {
    if a + 1 < b {
      SkippedLeast(a + 1, b);
    }
  }

  lemma {:induction false} SkippedLeast(a: nat, b: nat)
    requires a <= b
    ensures Skipped(a) <= Skipped(b)
    decreases b - a
  {
    if a == b {
    } else {
      SkippedLeast(a, b - 1);
    }
  }

  lemma CodePointsDiffer(a: nat, b: nat)
    requires a < 256 && b < 256 && a != b
    ensures CodePoint(a) != CodePoint(b)
  {
    if !Printable(a) && !Printable(b) {
      if a < b {
        SkippedGrows(a, b);
      } else {
        SkippedGrows(b, a);
      }
    }
  }

  lemma ShortUtf8Reads(a: nat)
    ensures if a < 0x80 then ShortUtf8(a) == [a]
            else |ShortUtf8(a)| == 2 && a == (ShortUtf8(a)[0] - 0xC0) * 64 + ShortUtf8(a)[1] - 0x80
  {
  }

  /** Different bytes have different forms. */
  lemma FormsDiffer(a: nat, b: nat)
    requires a < 256 && b < 256 && a != b
    ensures Form(a) != Form(b)
  {
    CodePointsDiffer(a, b);
    ShortUtf8Reads(CodePoint(a));
    ShortUtf8Reads(CodePoint(b));
  }

  /** The first byte of a form tells its length, and a form of one byte is the byte itself: no
      form is a prefix of another. */
  lemma FormShape(b: nat)
    requires b < 256
    ensures |Form(b)| == (if Form(b)[0] < 0x80 then 1 else 2)
    ensures |Form(b)| == 1 ==> Form(b) == [b]
    ensures AreBytes(Form(b))
  {
    SkippedLeast(b, 256);
  }

  /** The byte a form stands for. */
  ghost function ByteOf(form: Bytes): (r: Option<int>)
    ensures r.Some? ==> 0 <= r.value < 256 && form == Form(r.value)
  {
    if exists b: nat :: b < 256 && form == Form(b) then
      var b: nat :| b < 256 && form == Form(b);
      Some(b)
    else None
  }

  lemma ByteOfForm(b: nat)
    requires b < 256
    ensures ByteOf(Form(b)) == Some(b)
  {
    if ByteOf(Form(b)).value != b {
      FormsDiffer(b, ByteOf(Form(b)).value);
    }
  }

  // ----- the map from forms to bytes

  /** The map after the forms of the first n bytes were put. */
  function FormsBelow(n: nat): map<Bytes, int> {
    if n == 0 then map[] else FormsBelow(n - 1)[Form(n - 1) := n - 1]
  }

  lemma {:induction false} FormsBelowContents(n: nat)
    requires n <= 256
    ensures forall b: nat :: b < n ==> Form(b) in FormsBelow(n) && FormsBelow(n)[Form(b)] == b
    ensures forall f :: f in FormsBelow(n) ==> 0 <= FormsBelow(n)[f] < n && f == Form(FormsBelow(n)[f])
  {
    if n == 0 {
    } else {
      FormsBelowContents(n - 1);
      forall b: nat | b < n - 1 ensures Form(b) != Form(n - 1) {
        FormsDiffer(b, n - 1);
      }
    }
  }

  /** The map tells the byte of every form and nothing else. */
  ghost predicate UniOk(m: map<Bytes, int>) {
    forall f :: Lookup(m, f) == ByteOf(f)
  }

  lemma AllFormsBelow(n: nat)
    requires n == 256
    ensures UniOk(FormsBelow(n))
  {
    FormsBelowContents(n);
    forall f ensures Lookup(FormsBelow(n), f) == ByteOf(f) {
      if f in FormsBelow(n) {
        ByteOfForm(FormsBelow(n)[f]);
      }
    }
  }

  // ----- spelling and reading

  /** The forms of a byte string. */
  function Spell(s: Bytes): Bytes
    requires AreBytes(s)
  {
    if s == [] then [] else Form(s[0]) + Spell(s[1..])
  }

  /** The inner loop of tokenizer_decode over one key: forms back to bytes, and bytes that are no
      form as themselves. */
  ghost function Read(key: Bytes): Bytes
    decreases |key|
  {
    if key == [] then []
    else
      var len := if key[0] < 0x80 || |key| < 2 then 1 else 2;
      var raw := ByteOf(key[..len]);
      [if raw.Some? then raw.value else key[0]] + Read(key[len..])
  }

  lemma ReadForm(b: nat, rest: Bytes)
    requires b < 256
    ensures Read(Form(b) + rest) == [b] + Read(rest)
  {
    FormShape(b);
    ByteOfForm(b);
    var key := Form(b) + rest;
    var len := |Form(b)|;
    assert key[..len] == Form(b) && key[len..] == rest;
  }

  /** Reading a spelled string gives it back. */
  lemma {:induction false} ReadSpelled(s: Bytes)
    requires AreBytes(s)
    ensures Read(Spell(s)) == s
  {
    if s == [] {
    } else {
      ReadForm(s[0], Spell(s[1..]));
      ReadSpelled(s[1..]);
    }
  }

  /** Spelling is a homomorphism: the forms of a concatenation are the forms of its parts. */
  lemma {:induction false} SpellConcat(a: Bytes, b: Bytes)
    requires AreBytes(a) && AreBytes(b)
    ensures AreBytes(a + b) && Spell(a + b) == Spell(a) + Spell(b)
  {
    if a == [] {
      assert a + b == b;
    } else {
      assert (a + b)[1..] == a[1..] + b;
      SpellConcat(a[1..], b);
    }
  }

  /** Hence spelling loses nothing. */
  lemma SpellingDiffers(a: Bytes, b: Bytes)
    requires AreBytes(a) && AreBytes(b) && a != b
    ensures Spell(a) != Spell(b)
  {
    ReadSpelled(a);
    ReadSpelled(b);
  }

  ghost predicate IsAscii(s: Bytes) {
    forall i :: 0 <= i < |s| ==> 0 <= s[i] < 0x80
  }

  lemma AsciiByte(b: nat)
    requires b < 0x80
    ensures ByteOf([b]).None? || ByteOf([b]) == Some(b)
  {
    var r := ByteOf([b]);
    if r.Some? {
      FormShape(r.value);
    }
  }

  /** ASCII strings that are not spelled read as themselves. */
  lemma {:induction false} ReadAscii(s: Bytes)
    requires IsAscii(s)
    ensures Read(s) == s
  {
    if s == [] {
    } else {
      ReadAscii(s[1..]);
      AsciiByte(s[0]);
      assert s[..1] == [s[0]];
      assert Read(s) == [s[0]] + Read(s[1..]);
    }
  }

  // ----- the loops

  /** `byte_to_unicode`. */
  method ByteToUnicode() returns (form: array<Bytes>)
    ensures form.Length == 256 && fresh(form) && forall b :: 0 <= b < 256 ==> form[b] == Form(b)
  {
    form := new Bytes[256](_ => []);
    var n := 0;
    for b := 0 to 256
      invariant n == Skipped(b)
      invariant forall x :: 0 <= x < b ==> form[x] == Form(x)
    {
      var cp;
      if (b >= 0x21 && b <= 0x7E) || (b >= 0xA1 && b <= 0xAC) || (b >= 0xAE && b <= 0xFF) {
        cp := b;
      } else {
        cp := 256 + n;
        n := n + 1;
      }
      form[b] := if cp < 0x80 then [cp] else [0xC0 + cp / 64, 0x80 + cp % 64];
    }
  }

  /** The loop of tokenizer_load that fills the map from forms to bytes. */
  method FillUni(form: array<Bytes>, uni: ProbeTable.Table<Bytes, int>)
    requires form.Length == 256 && forall b :: 0 <= b < 256 ==> form[b] == Form(b)
    requires uni.Valid() && uni.entries == map[] && uni.slots.Length >= 4
    modifies uni, uni.slots
    ensures uni.Valid() && UniOk(uni.entries)
  {
    for b := 0 to form.Length
      invariant uni.Valid() && uni.slots.Length >= 4 && (uni.slots == old(uni.slots) || fresh(uni.slots))
      invariant uni.entries == FormsBelow(b)
      invariant forall x :: 0 <= x < 256 ==> form[x] == Form(x)
    {
      uni.Put(form[b], b);
    }
    AllFormsBelow(form.Length);
  }
}
