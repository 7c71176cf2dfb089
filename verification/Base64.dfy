/** The dashboard's base64 (section 4 of RFC 4648, with padding), which carries
    arbitrary bytes through JSON. */
module Base64 {
  import opened Prelude

  const PAD: byte := 61

  type Sextet = x: int | 0 <= x < 64

  /** The alphabet: A-Z, a-z, 0-9, +, /. */
  function Symbol(v: Sextet): byte {
    if v < 26 then 65 + v
    else if v < 52 then 97 + (v - 26)
    else if v < 62 then 48 + (v - 52)
    else if v == 62 then 43
    else 47
  }

  function SextetOf(c: byte): Option<Sextet> {
    if 65 <= c <= 90 then Some(c - 65)
    else if 97 <= c <= 122 then Some(c - 97 + 26)
    else if 48 <= c <= 57 then Some(c - 48 + 52)
    else if c == 43 then Some(62)
    else if c == 47 then Some(63)
    else None
  }

  predicate IsSpace(c: byte) {
    c == 32 || c == 9 || c == 10 || c == 12 || c == 13
  }

  lemma SymbolSextet(v: Sextet)
    ensures SextetOf(Symbol(v)) == Some(v) && Symbol(v) != PAD && !IsSpace(Symbol(v))
  {
  }

  lemma SextetSymbol(c: byte)
    requires SextetOf(c).Some?
    ensures Symbol(SextetOf(c).value) == c
  {
  }

  /** The alphabet of table 1 of RFC 4648. */
  lemma SymbolIs(v: Sextet)
    ensures v < 26 ==> Symbol(v) == 'A' as int + v
    ensures 26 <= v < 52 ==> Symbol(v) == 'a' as int + (v - 26)
    ensures 52 <= v < 62 ==> Symbol(v) == '0' as int + (v - 52)
    ensures v == 62 ==> Symbol(v) == '+' as int
    ensures v == 63 ==> Symbol(v) == '/' as int
  {
  }

  // ---- One group: one to three bytes, four symbols ----

  function ByteAt(c: Bytes, i: nat): byte {
    if i < |c| then c[i] else 0
  }

  function Packed(c: Bytes): nat {
    ByteAt(c, 0) * 65536 + ByteAt(c, 1) * 256 + ByteAt(c, 2)
  }

  function EncodeGroup(c: Bytes): (q: Bytes)
    ensures |q| == 4
  {
    var n := Packed(c);
    Spell(n / 262144 % 64, n / 4096 % 64, n / 64 % 64, n % 64, |c|)
  }

  /** Four sextets in symbols, padded where `len` bytes do not reach. */
  function Spell(v0: Sextet, v1: Sextet, v2: Sextet, v3: Sextet, len: nat): (q: Bytes)
    ensures |q| == 4
  {
    [Symbol(v0), Symbol(v1), if len > 1 then Symbol(v2) else PAD, if len > 2 then Symbol(v3) else PAD]
  }

  function Pads(q: Bytes): nat {
    if q == [] then 0 else Pads(q[..|q| - 1]) + if q[|q| - 1] == PAD then 1 else 0
  }

  /** The number a group spells, padding counting as zero. */
  function Spelled(q: Bytes): Option<nat> {
    if q == [] then Some(0)
    else
      var c := q[|q| - 1];
      match Spelled(q[..|q| - 1])
      case None => None
      case Some(n) =>
        if c == PAD then Some(n * 64)
        else if SextetOf(c) == None then None
        else Some(n * 64 + SextetOf(c).value)
  }

  /** Padding is counted wherever it stands in the group. */
  function DecodeGroup(q: Bytes): Option<Bytes> {
    if Pads(q) > 2 || Spelled(q) == None then None else Some(Unpacked(Spelled(q).value, Pads(q)))
  }

  function Unpacked(n: nat, pads: nat): Bytes {
    [n / 65536 % 256] + (if pads < 2 then [n / 256 % 256] else []) + (if pads < 1 then [n % 256] else [])
  }

  lemma PadsOfFour(q: Bytes)
    requires |q| == 4
    ensures Pads(q) == One(q[0]) + One(q[1]) + One(q[2]) + One(q[3])
  {
    Prefixes(q);
    assert Pads(q[..1]) == One(q[0]);
    assert Pads(q[..3]) == One(q[0]) + One(q[1]) + One(q[2]);
  }

  lemma Prefixes(q: Bytes)
    requires |q| == 4
    ensures q[..3][..2] == q[..2] && q[..2][..1] == q[..1] && q[..1][..0] == []
  {
  }

  function One(c: byte): nat {
    if c == PAD then 1 else 0
  }

  function Digit(c: byte): Option<Sextet> {
    if c == PAD then Some(0) else SextetOf(c)
  }

  lemma SpelledFour(q: Bytes)
    requires |q| == 4
    ensures Spelled(q).Some? <==> Digit(q[0]).Some? && Digit(q[1]).Some? && Digit(q[2]).Some? && Digit(q[3]).Some?
    ensures Spelled(q).Some? ==>
              Spelled(q).value == Digit(q[0]).value * 262144 + Digit(q[1]).value * 4096
                                  + Digit(q[2]).value * 64 + Digit(q[3]).value
  {
    Prefixes(q);
    assert Spelled(q[..1]) == if Digit(q[0]) == None then None else Some(Digit(q[0]).value);
    assert Spelled(q[..2]) == if Spelled(q[..1]) == None || Digit(q[1]) == None then None
                              else Some(Spelled(q[..1]).value * 64 + Digit(q[1]).value);
    assert Spelled(q[..3]) == if Spelled(q[..2]) == None || Digit(q[2]) == None then None
                              else Some(Spelled(q[..2]).value * 64 + Digit(q[2]).value);
  }

  /** The four sextets of a packed group, and the group back from it. */
  lemma Sextets(b0: byte, b1: byte, b2: byte)
    ensures var n := b0 * 65536 + b1 * 256 + b2;
            && n / 262144 % 64 == b0 / 4
            && n / 4096 % 64 == b0 % 4 * 16 + b1 / 16
            && n / 64 % 64 == b1 % 16 * 4 + b2 / 64
            && n % 64 == b2 % 64
  {
    var n := b0 * 65536 + b1 * 256 + b2;
    Split(n, 262144, b0 / 4, b0 % 4 * 65536 + b1 * 256 + b2);
    Split(n, 4096, b0 * 16 + b1 / 16, b1 % 16 * 256 + b2);
    Split(b0 * 16 + b1 / 16, 64, b0 / 4, b0 % 4 * 16 + b1 / 16);
    Split(n, 64, b0 * 1024 + b1 * 4 + b2 / 64, b2 % 64);
    Split(b0 * 1024 + b1 * 4 + b2 / 64, 64, b0 * 16 + b1 / 16, b1 % 16 * 4 + b2 / 64);
  }

  lemma BytesBack(b0: byte, b1: byte, b2: byte)
    ensures var n := b0 * 65536 + b1 * 256 + b2;
            n / 65536 % 256 == b0 && n / 256 % 256 == b1 && n % 256 == b2
  {
    var n := b0 * 65536 + b1 * 256 + b2;
    Split(n, 65536, b0, b1 * 256 + b2);
    Split(n, 256, b0 * 256 + b1, b2);
    Split(b0 * 256 + b1, 256, b0, b1);
  }

  lemma Split(n: nat, d: nat, q: nat, r: nat)
    requires r < d && n == q * d + r
    ensures n / d == q && n % d == r
  {
    QuotientIsUnique(d, n / d, n % d, q, r);
  }

  lemma SpellReads(v0: Sextet, v1: Sextet, v2: Sextet, v3: Sextet, len: nat)
    requires 1 <= len <= 3 && (len < 2 ==> v2 == 0) && (len < 3 ==> v3 == 0)
    ensures Pads(Spell(v0, v1, v2, v3, len)) == 3 - len
    ensures Spelled(Spell(v0, v1, v2, v3, len)) == Some(v0 * 262144 + v1 * 4096 + v2 * 64 + v3)
  {
    SymbolSextet(v0);
    SymbolSextet(v1);
    SymbolSextet(v2);
    SymbolSextet(v3);
    PadsOfFour(Spell(v0, v1, v2, v3, len));
    SpelledFour(Spell(v0, v1, v2, v3, len));
  }

  lemma GroupReads(c: Bytes)
    requires 1 <= |c| <= 3
    ensures Pads(EncodeGroup(c)) == 3 - |c| && Spelled(EncodeGroup(c)) == Some(Packed(c))
  {
    hide Spell, Pads, Spelled;
    var n, b0, b1, b2 := Packed(c), ByteAt(c, 0), ByteAt(c, 1), ByteAt(c, 2);
    Sextets(b0, b1, b2);
    SpellReads(b0 / 4, b0 % 4 * 16 + b1 / 16, b1 % 16 * 4 + b2 / 64, b2 % 64, |c|);
  }

  lemma GroupRoundTrip(c: Bytes)
    requires 1 <= |c| <= 3
    ensures DecodeGroup(EncodeGroup(c)) == Some(c)
  {
    GroupReads(c);
    BytesBack(ByteAt(c, 0), ByteAt(c, 1), ByteAt(c, 2));
    assert Unpacked(Packed(c), 3 - |c|) == c;
  }

  // ---- Whole strings ----

  function Encode(x: Bytes): Bytes {
    if x == [] then [] else EncodeGroup(x[..Min(3, |x|)]) + Encode(x[Min(3, |x|)..])
  }

  function Groups(b: Bytes): Option<Bytes> {
    if |b| < 4 then Some([])
    else
      match DecodeGroup(b[..4])
      case None => None
      case Some(head) => Prefixed(head, Groups(b[4..]))
  }

  function Prefixed(out: Bytes, r: Option<Bytes>): Option<Bytes> {
    if r == None then None else Some(out + r.value)
  }

  function Stripped(s: Bytes): Bytes {
    if s == [] then []
    else if IsSpace(s[|s| - 1]) then Stripped(s[..|s| - 1])
    else Stripped(s[..|s| - 1]) + [s[|s| - 1]]
  }

  function Decode(s: Bytes): Option<Bytes> {
    if |Stripped(s)| % 4 != 0 then None else Groups(Stripped(s))
  }

  lemma {:induction false} EncodeLength(x: Bytes)
    ensures |Encode(x)| == (|x| + 2) / 3 * 4
  {
    if x != [] {
      EncodeLength(x[Min(3, |x|)..]);
    }
  }

  lemma EncodeWhole(x: Bytes)
    ensures |Encode(x)| % 4 == 0
  {
    EncodeLength(x);
    Split(|Encode(x)|, 4, (|x| + 2) / 3, 0);
  }

  lemma {:induction false} GroupsOfEncode(x: Bytes)
    ensures Groups(Encode(x)) == Some(x)
  {
    if x != [] {
      var head, tail := x[..Min(3, |x|)], x[Min(3, |x|)..];
      GroupsOfEncode(tail);
      GroupRoundTrip(head);
      assert Encode(x)[..4] == EncodeGroup(head) && Encode(x)[4..] == Encode(tail);
      assert head + tail == x;
    }
  }

  lemma GroupHasNoSpace(c: Bytes, i: nat)
    requires i < 4
    ensures !IsSpace(EncodeGroup(c)[i])
  {
    var n := Packed(c);
    SymbolSextet(n / 262144 % 64);
    SymbolSextet(n / 4096 % 64);
    SymbolSextet(n / 64 % 64);
    SymbolSextet(n % 64);
  }

  lemma {:induction false} EncodeHasNoSpace(x: Bytes, i: nat)
    requires i < |Encode(x)|
    ensures !IsSpace(Encode(x)[i])
  {
    if i < 4 {
      GroupHasNoSpace(x[..Min(3, |x|)], i);
    } else {
      EncodeHasNoSpace(x[Min(3, |x|)..], i - 4);
    }
  }

  lemma {:induction false} NothingToStrip(s: Bytes)
    requires forall i :: 0 <= i < |s| ==> !IsSpace(s[i])
    ensures Stripped(s) == s
  {
    if s != [] {
      NothingToStrip(s[..|s| - 1]);
    }
  }

  lemma NothingToStripInEncode(x: Bytes)
    ensures Stripped(Encode(x)) == Encode(x)
  {
    forall i | 0 <= i < |Encode(x)|
      ensures !IsSpace(Encode(x)[i])
    {
      EncodeHasNoSpace(x, i);
    }
    NothingToStrip(Encode(x));
  }

  /** Every byte string survives, and so it does with white space strewn in. */
  lemma RoundTrip(x: Bytes, s: Bytes)
    ensures Decode(Encode(x)) == Some(x)
    ensures Stripped(s) == Encode(x) ==> Decode(s) == Some(x)
  {
    NothingToStripInEncode(x);
    EncodeWhole(x);
    GroupsOfEncode(x);
  }

  /** The vectors of section 10 of RFC 4648 for one to three bytes. */
  lemma Vectors()
    ensures Encode(Ascii("f")) == Ascii("Zg==")
    ensures Encode(Ascii("fo")) == Ascii("Zm8=")
    ensures Encode(Ascii("foo")) == Ascii("Zm9v")
  {
    hide Encode, EncodeGroup;
    OneGroup(Ascii("f"));
    OneGroup(Ascii("fo"));
    OneGroup(Ascii("foo"));
    GroupIs(Ascii("f"), 25, 32, 0, 0);
    GroupIs(Ascii("fo"), 25, 38, 60, 0);
    GroupIs(Ascii("foo"), 25, 38, 61, 47);
  }

  lemma GroupIs(c: Bytes, v0: Sextet, v1: Sextet, v2: Sextet, v3: Sextet)
    requires Packed(c) == v0 * 262144 + v1 * 4096 + v2 * 64 + v3
    ensures EncodeGroup(c) == Spell(v0, v1, v2, v3, |c|)
  {
    SextetsBack(v0, v1, v2, v3);
  }

  lemma OneGroup(c: Bytes)
    requires 1 <= |c| <= 3
    ensures Encode(c) == EncodeGroup(c)
  {
    hide EncodeGroup;
    assert c[..|c|] == c && c[|c|..] == [];
    assert Encode([]) == [];
    assert EncodeGroup(c) + [] == EncodeGroup(c);
  }

  /** White space is space, tab, line feed, form feed and carriage return. */
  lemma SpaceIs(c: byte)
    ensures IsSpace(c) <==> c == ' ' as int || c == '\t' as int || c == '\n' as int || c == 12 || c == '\r' as int
  {
  }

  /** A group is refused exactly for a byte outside the alphabet or for more than
      two pads; otherwise it gives three bytes less one per pad. */
  lemma GroupRefused(q: Bytes)
    requires |q| == 4
    ensures DecodeGroup(q) == None <==>
            (exists i :: 0 <= i < 4 && q[i] != '=' as int && SextetOf(q[i]) == None) ||
            One(q[0]) + One(q[1]) + One(q[2]) + One(q[3]) > 2
    ensures DecodeGroup(q).Some? ==> |DecodeGroup(q).value| == 3 - (One(q[0]) + One(q[1]) + One(q[2]) + One(q[3]))
  {
    PadsOfFour(q);
    SpelledFour(q);
    assert forall i :: 0 <= i < 4 ==> (Digit(q[i]) == None <==> q[i] != '=' as int && SextetOf(q[i]) == None);
  }

  /** Group `g` of `b` is refused. */
  predicate BadGroup(b: Bytes, g: nat) {
    4 * g + 4 <= |b| && DecodeGroup(b[4 * g..4 * g + 4]) == None
  }

  /** A text is refused exactly for a length that is no multiple of four, white
      space not counted, or for one of its groups. */
  lemma TextRefused(s: Bytes)
    ensures Decode(s) == None <==> |Stripped(s)| % 4 != 0 || exists g: nat :: BadGroup(Stripped(s), g)
  {
    hide Stripped, Groups, BadGroup;
    if |Stripped(s)| % 4 == 0 {
      GroupsRefused(Stripped(s), |Stripped(s)| / 4);
    }
  }

  lemma BadGroupShifts(b: Bytes, g: nat)
    requires 4 <= |b|
    ensures BadGroup(b, g + 1) <==> BadGroup(b[4..], g)
    ensures BadGroup(b, 0) <==> DecodeGroup(b[..4]) == None
  {
    hide DecodeGroup;
    if 4 * g + 8 <= |b| {
      var i := 4 * g;
      assert b[i + 4..i + 8] == b[4..][i..i + 4];
      assert 4 * (g + 1) == i + 4;
    }
    assert b[4 * 0..4 * 0 + 4] == b[..4];
  }

  lemma {:induction false} GroupsRefused(b: Bytes, groups: nat)
    requires |b| == 4 * groups
    ensures Groups(b) == None <==> exists g: nat :: BadGroup(b, g)
    decreases groups
  {
    hide DecodeGroup;
    if groups > 0 {
      hide BadGroup;
      GroupsRefused(b[4..], groups - 1);
      BadGroupShifts(b, 0);
      if g: nat :| BadGroup(b[4..], g) {
        BadGroupShifts(b, g);
      }
      if g: nat :| BadGroup(b, g) {
        if g > 0 {
          BadGroupShifts(b, g - 1);
        }
      }
    }
  }

  // ---- What the decoder accepts beyond that ----

  /** Padding only at the end of the group, and no stray bits before it. */
  predicate StrictGroup(q: Bytes, last: bool)
    requires |q| == 4
  {
    match Pads(q)
    case 0 => true
    case 1 => last && q[3] == PAD && SextetOf(q[2]).Some? && SextetOf(q[2]).value % 4 == 0
    case 2 => last && q[2] == PAD && q[3] == PAD && SextetOf(q[1]).Some? && SextetOf(q[1]).value % 16 == 0
    case _ => false
  }

  /** Each group strict, and only the last one padded. */
  predicate Strict(b: Bytes) {
    |b| < 4 || (StrictGroup(b[..4], |b| == 4) && Strict(b[4..]))
  }

  lemma StrictGroupEncodes(q: Bytes)
    requires |q| == 4 && DecodeGroup(q).Some? && StrictGroup(q, true)
    ensures |DecodeGroup(q).value| == 3 - Pads(q)
    ensures EncodeGroup(DecodeGroup(q).value) == q
  {
    PadsOfFour(q);
    SpelledFour(q);
    var v0, v1, v2, v3 := Digit(q[0]).value, Digit(q[1]).value, Digit(q[2]).value, Digit(q[3]).value;
    var d := DecodeGroup(q).value;
    Regrouped(v0, v1, v2, v3);
    SextetsBack(v0, v1, v2, v3);
    assert Packed(d) == Spelled(q).value;
    forall i | 0 <= i < 4 && q[i] != PAD
      ensures Symbol(SextetOf(q[i]).value) == q[i]
    {
      SextetSymbol(q[i]);
    }
  }

  lemma Regrouped(v0: Sextet, v1: Sextet, v2: Sextet, v3: Sextet)
    ensures var n := v0 * 262144 + v1 * 4096 + v2 * 64 + v3;
            && n / 65536 % 256 == v0 * 4 + v1 / 16
            && n / 256 % 256 == v1 % 16 * 16 + v2 / 4
            && n % 256 == v2 % 4 * 64 + v3
  {
    var n := v0 * 262144 + v1 * 4096 + v2 * 64 + v3;
    Split(n, 65536, v0 * 4 + v1 / 16, v1 % 16 * 4096 + v2 * 64 + v3);
    Split(n, 256, v0 * 1024 + v1 * 16 + v2 / 4, v2 % 4 * 64 + v3);
    Split(v0 * 1024 + v1 * 16 + v2 / 4, 256, v0 * 4 + v1 / 16, v1 % 16 * 16 + v2 / 4);
  }

  lemma SextetsBack(v0: Sextet, v1: Sextet, v2: Sextet, v3: Sextet)
    ensures var n := v0 * 262144 + v1 * 4096 + v2 * 64 + v3;
            n / 262144 % 64 == v0 && n / 4096 % 64 == v1 && n / 64 % 64 == v2 && n % 64 == v3
  {
    var n := v0 * 262144 + v1 * 4096 + v2 * 64 + v3;
    Split(n, 262144, v0, v1 * 4096 + v2 * 64 + v3);
    Split(n, 4096, v0 * 64 + v1, v2 * 64 + v3);
    Split(v0 * 64 + v1, 64, v0, v1);
    Split(n, 64, v0 * 4096 + v1 * 64 + v2, v3);
    Split(v0 * 4096 + v1 * 64 + v2, 64, v0 * 64 + v1, v2);
  }

  lemma EncodeStep(head: Bytes, tail: Bytes)
    requires 1 <= |head| <= 3 && (tail != [] ==> |head| == 3)
    ensures Encode(head + tail) == EncodeGroup(head) + Encode(tail)
  {
    var x := head + tail;
    assert x[..Min(3, |x|)] == head && x[Min(3, |x|)..] == tail;
  }

  lemma {:induction false} StrictIsEncoded(b: Bytes, groups: nat)
    requires |b| == 4 * groups && Groups(b).Some? && Strict(b)
    ensures Encode(Groups(b).value) == b
    decreases groups
  {
    if groups > 0 {
      var q, rest := b[..4], b[4..];
      var head, tail := DecodeGroup(q).value, Groups(rest).value;
      StrictGroupEncodes(q);
      StrictIsEncoded(rest, groups - 1);
      EncodeStep(head, tail);
      assert b == q + rest;
    }
  }

  lemma SpellIsStrict(v0: Sextet, v1: Sextet, v2: Sextet, v3: Sextet, len: nat, last: bool)
    requires 1 <= len <= 3 && (!last ==> len == 3)
    requires len < 2 ==> v1 % 16 == 0 && v2 == 0
    requires len < 3 ==> v2 % 4 == 0 && v3 == 0
    ensures StrictGroup(Spell(v0, v1, v2, v3, len), last)
  {
    SpellReads(v0, v1, v2, v3, len);
    SymbolSextet(v1);
    SymbolSextet(v2);
  }

  lemma EncodedGroupIsStrict(c: Bytes, last: bool)
    requires 1 <= |c| <= 3 && (!last ==> |c| == 3)
    ensures StrictGroup(EncodeGroup(c), last)
  {
    hide StrictGroup, Spell;
    var b0, b1, b2 := ByteAt(c, 0), ByteAt(c, 1), ByteAt(c, 2);
    Sextets(b0, b1, b2);
    SpellIsStrict(b0 / 4, b0 % 4 * 16 + b1 / 16, b1 % 16 * 4 + b2 / 64, b2 % 64, |c|, last);
  }

  lemma {:induction false} EncodedIsStrict(x: Bytes)
    ensures Strict(Encode(x))
  {
    if x != [] {
      var head, tail := x[..Min(3, |x|)], x[Min(3, |x|)..];
      EncodedIsStrict(tail);
      EncodedGroupIsStrict(head, tail == []);
      assert Encode(x)[..4] == EncodeGroup(head) && Encode(x)[4..] == Encode(tail);
    }
  }

  /** What decodes to `x` is the encoding of `x` exactly when it is strict; the
      decoder itself does not insist on that. */
  lemma DecodedIsEncodedIffStrict(s: Bytes, x: Bytes)
    requires Decode(s) == Some(x)
    ensures Encode(x) == Stripped(s) <==> Strict(Stripped(s))
  {
    EncodedIsStrict(x);
    if Strict(Stripped(s)) {
      StrictIsEncoded(Stripped(s), |Stripped(s)| / 4);
    }
  }

  /** A padded group written twice decodes, though nothing encodes to it. */
  lemma PaddingMidwayDecodes(q: Bytes, x: Bytes)
    requires |q| == 4 && DecodeGroup(q).Some? && Pads(q) > 0
    ensures Decode(q + q) == Some(DecodeGroup(q).value + DecodeGroup(q).value)
    ensures Encode(x) != q + q
  {
    var s := q + q;
    SpelledFour(q);
    NothingToStrip(s);
    assert s[..4] == q && s[4..] == q && q[..4] == q && q[4..] == [];
    assert DecodeGroup(q).value + [] == DecodeGroup(q).value;
    assert Groups(q) == Some(DecodeGroup(q).value);
    assert Groups(s) == Some(DecodeGroup(q).value + Groups(q).value);
    EncodedIsStrict(x);
  }

  /** "QQ==QQ==" is one such string. */
  lemma PaddedGroupExists()
    ensures DecodeGroup([81, 81, PAD, PAD]) == Some([65]) && Pads([81, 81, PAD, PAD]) == 2
  {
    var q: Bytes := [81, 81, PAD, PAD];
    PadsOfFour(q);
    SpelledFour(q);
    assert Unpacked(16 * 262144 + 16 * 4096, 2) == [65];
  }

  // ---- The loops ----

  method EncodeBytes(input: Bytes) returns (out: Bytes)
    ensures out == Encode(input)
  {
    out := [];
    var i := 0;
    assert input[0..] == input;
    while i < |input|
      invariant 0 <= i <= |input|
      invariant Encode(input) == out + Encode(input[i..])
    {
      ghost var rest := input[i..];
      var len := Min(3, |input| - i);
      assert rest[..len] == input[i..i + len] && rest[len..] == input[i + len..];
      var group := EncodeGroup(input[i..i + len]);
      assert out + (group + Encode(rest[len..])) == out + group + Encode(rest[len..]);
      out := out + group;
      i := i + len;
    }
  }

  method SpellGroup(q: Bytes) returns (n: Option<nat>)
    ensures n == Spelled(q)
  {
    var sum: nat := 0;
    for i := 0 to |q|
      invariant Spelled(q[..i]) == Some(sum)
    {
      assert q[..i + 1][..i] == q[..i];
      if q[i] == PAD {
        sum := sum * 64;
      } else {
        var v := SextetOf(q[i]);
        if v == None {
          SpelledPrefix(q, i + 1);
          return None;
        }
        sum := sum * 64 + v.value;
      }
    }
    assert q[..|q|] == q;
    return Some(sum);
  }

  lemma {:induction false} SpelledPrefix(q: Bytes, i: nat)
    requires i <= |q| && Spelled(q[..i]) == None
    ensures Spelled(q) == None
  {
    if i == |q| {
      assert q[..i] == q;
    } else {
      assert q[..|q| - 1][..i] == q[..i];
      SpelledPrefix(q[..|q| - 1], i);
    }
  }

  method DecodeGroupLoop(q: Bytes) returns (r: Option<Bytes>)
    ensures r == DecodeGroup(q)
  {
    var pads := Pads(q);
    if pads > 2 {
      return None;
    }
    var n := SpellGroup(q);
    if n == None {
      return None;
    }
    return Some(Unpacked(n.value, pads));
  }

  method DecodeBytes(s: Bytes) returns (r: Option<Bytes>)
    ensures r == Decode(s)
  {
    hide Standing, Groups, DecodeGroup, Stripped;
    var bytes := Stripped(s);
    if |bytes| % 4 != 0 {
      return None;
    }
    var out: Bytes, i := [], 0;
    StandingStarts(bytes);
    while i < |bytes|
      invariant i <= |bytes| && (|bytes| - i) % 4 == 0 && Standing(bytes, out, i)
    {
      StandingNext(bytes, out, i);
      var group := DecodeGroupLoop(bytes[i..i + 4]);
      if group == None {
        return None;
      }
      out, i := out + group.value, i + 4;
    }
    StandingEnds(bytes, out);
    return Some(out);
  }

  lemma StandingEnds(bytes: Bytes, out: Bytes)
    requires Standing(bytes, out, |bytes|)
    ensures Groups(bytes) == Some(out)
  {
    assert out + [] == out;
  }

  ghost predicate Standing(bytes: Bytes, out: Bytes, i: nat) {
    i <= |bytes| && Groups(bytes) == Prefixed(out, Groups(bytes[i..]))
  }

  lemma StandingStarts(bytes: Bytes)
    ensures Standing(bytes, [], 0)
  {
    assert bytes[0..] == bytes;
    assert Groups(bytes).Some? ==> [] + Groups(bytes).value == Groups(bytes).value;
  }

  lemma StandingNext(bytes: Bytes, out: Bytes, i: nat)
    requires Standing(bytes, out, i) && i + 4 <= |bytes|
    ensures match DecodeGroup(bytes[i..i + 4])
            case None => Groups(bytes) == None
            case Some(more) => Standing(bytes, out + more, i + 4)
  {
    var rest := bytes[i..];
    assert rest[..4] == bytes[i..i + 4] && rest[4..] == bytes[i + 4..];
    if DecodeGroup(rest[..4]).Some? {
      PrefixedTwice(out, DecodeGroup(rest[..4]).value, Groups(rest[4..]));
    }
  }

  lemma PrefixedTwice(out: Bytes, more: Bytes, r: Option<Bytes>)
    ensures Prefixed(out, Prefixed(more, r)) == Prefixed(out + more, r)
  {
    if r.Some? {
      assert out + (more + r.value) == out + more + r.value;
    }
  }
}
