/**
 * The hand-written base64 encoder and decoder of application.js (section 4 of RFC 4648), and
 * the round trip of a string through UTF-8 and base64.
 */
module Base64 {
  import opened JsBits
  import opened Utf8

  // ------------------------------------------------------------------ the table

  const ALPHABET := "ABCDEFGHIJKLMNOPQRSTUVWXYZ" + "abcdefghijklmnopqrstuvwxyz" + "0123456789+/="

  const PAD: Unit := 61

  lemma TableCode(i: nat)
    requires i <= 64
    ensures |ALPHABET| == 65
    ensures ALPHABET[i] as int ==
      if i < 26 then 65 + i else if i < 52 then 97 + (i - 26) else if i < 62 then 48 + (i - 52)
      else if i == 62 then 43 else if i == 63 then 47 else 61
  {
    if i < 26 {
      assert ALPHABET[i] == "ABCDEFGHIJKLMNOPQRSTUVWXYZ"[i];
    } else if i < 52 {
      assert ALPHABET[i] == "abcdefghijklmnopqrstuvwxyz"[i - 26];
    } else {
      assert ALPHABET[i] == "0123456789+/="[i - 52];
    }
  }

  /** charAt in the table of 65 characters, the last of them the padding. */
  function CharAt(i: nat): (u: Unit)
    requires i <= 64
  {
    TableCode(i);
    ALPHABET[i] as int
  }

  /** indexOf in the table: the first position of the code unit, or -1. */
  function IndexFrom(u: Unit, i: nat): int
    requires i <= 65
    decreases 65 - i
  {
    if i == 65 then -1 else if CharAt(i) == u then i else IndexFrom(u, i + 1)
  }

  lemma {:induction false} IndexOfChar(i: nat, k: nat)
    requires k <= i <= 64
    ensures IndexFrom(CharAt(i), k) == i
    decreases i - k
  {
    if k == i {
    } else {
      TableCode(i);
      TableCode(k);
      IndexOfChar(i, k + 1);
    }
  }

  lemma {:induction false} IndexRange(u: Unit, i: nat)
    requires i <= 65
    ensures -1 <= IndexFrom(u, i) <= 64
    decreases 65 - i
  {
    if i == 65 {
    } else {
      IndexRange(u, i + 1);
    }
  }

  predicate InTable(u: Unit) {
    IndexFrom(u, 0) >= 0
  }

  predicate AllInTable(t: JsString) {
    forall i :: 0 <= i < |t| ==> InTable(t[i])
  }

  // ------------------------------------------------------------------ encoding

  function FourChars(i0: nat, i1: nat, i2: nat, i3: nat): (r: JsString)
    requires i0 <= 64 && i1 <= 64 && i2 <= 64 && i3 <= 64
  {
    [CharAt(i0), CharAt(i1), CharAt(i2), CharAt(i3)]
  }

  /** Three octets, or fewer followed by zeros, as four table positions. */
  function Quartet(b: nat, c: nat, d: nat): JsString
    requires b < 256 && c < 256 && d < 256
  {
    FourChars(b / 4, b % 4 * 16 + c / 16, c % 16 * 4 + d / 64, d % 64)
  }

  predicate Octets(s: JsString) {
    forall i :: 0 <= i < |s| ==> s[i] < 256
  }

  function Tail(s: JsString, j: nat): (t: JsString)
    ensures Octets(s) ==> Octets(t)
  {
    if j <= |s| then s[j..] else []
  }

  function Head(s: JsString): (h: JsString)
    ensures Octets(s) ==> Octets(h)
    ensures |h| == if |s| <= 3 then |s| else 3
  {
    if |s| <= 3 then s else s[..3]
  }

  /** How many characters at the end stand for no octet. */
  function Missing(s: JsString): nat {
    if |s| % 3 == 1 then 2 else if |s| % 3 == 2 then 1 else 0
  }

  function Padding(n: nat): JsString {
    if n == 2 then [PAD, PAD] else if n == 1 then [PAD] else []
  }

  /** A group of one to three octets: one character more than octets, then padding up to four. */
  function GroupText(h: JsString): (r: JsString)
    requires Octets(h) && 1 <= |h| <= 3
    ensures |r| == 4
  {
    Quartet(h[0], At(h, 1), At(h, 2))[..|h| + 1] + Padding(3 - |h|)
  }

  /** The base64 form of octets, group by group. */
  function Base64(s: JsString): JsString
    requires Octets(s)
    decreases |s|
  {
    if s == [] then [] else GroupText(Head(s)) + Base64(Tail(s, 3))
  }

  method Group24(b: Unit, c: Unit, d: Unit) returns (e: nat)
    requires b < 256 && c < 256 && d < 256
    ensures e == b * 65536 + c * 256 + d
  {
    Powers();
    OrDisjoint(b, c * 256, 16);
    OrDisjoint(b * 256 + c, d, 8);
    e := Or(Or(Shl(b, 16), Shl(c, 8)), d);
  }

  /** e >> k & 63 */
  method Sextet(e: nat, k: nat, ghost p: nat) returns (i: nat)
    requires p == Pow2(k)
    ensures i < 64 && i == e / p % 64
  {
    Powers();
    AndMask(Shr(e, k), 6);
    i := And(Shr(e, k), 63);
  }

  lemma Divide(x: nat, m: nat, q: nat, r: nat)
    requires m >= 1 && x == q * m + r && r < m
    ensures x / m == q && x % m == r
  {
    ModUnique(x, m, q, r);
  }

  lemma GroupParts(b: nat, c: nat, d: nat)
    requires b < 256 && c < 256 && d < 256
    ensures var e := b * 65536 + c * 256 + d;
      e / 262144 % 64 == b / 4 && e / 4096 % 64 == b % 4 * 16 + c / 16 &&
      e / 64 % 64 == c % 16 * 4 + d / 64 && e % 64 == d % 64
  {
    var e := b * 65536 + c * 256 + d;
    Divide(e, 262144, b / 4, b % 4 * 65536 + c * 256 + d);
    Divide(e, 4096, b * 16 + c / 16, c % 16 * 256 + d);
    Divide(b * 16 + c / 16, 64, b / 4, b % 4 * 16 + c / 16);
    Divide(e, 64, b * 1024 + c * 4 + d / 64, d % 64);
    Divide(b * 1024 + c * 4 + d / 64, 64, b * 16 + c / 16, c % 16 * 4 + d / 64);
  }

  /** The shifts and masks over the 24 bits of a group. */
  method Sextets(b: Unit, c: Unit, d: Unit) returns (i0: nat, i1: nat, i2: nat, i3: nat)
    requires b < 256 && c < 256 && d < 256
    ensures i0 == b / 4 < 64 && i1 == b % 4 * 16 + c / 16 < 64
    ensures i2 == c % 16 * 4 + d / 64 < 64 && i3 == d % 64 < 64
  {
    var e := Group24(b, c, d);
    Powers();
    GroupParts(b, c, d);
    i0 := Sextet(e, 18, 262144);
    i1 := Sextet(e, 12, 4096);
    i2 := Sextet(e, 6, 64);
    i3 := Sextet(e, 0, 1);
  }

  lemma DigitsNumber(b: nat, c: nat, d: nat)
    requires b < 256 && c < 256 && d < 256
    ensures b / 4 * 262144 + (b % 4 * 16 + c / 16) * 4096 + (c % 16 * 4 + d / 64) * 64 + d % 64 ==
      b * 65536 + c * 256 + d
  {
  }

  /** A quartet has, first digit first, the digits to base 64 of the number that the octets are to base 256. */
  lemma QuartetNumber(b: nat, c: nat, d: nat) returns (i0: nat, i1: nat, i2: nat, i3: nat)
    requires b < 256 && c < 256 && d < 256
    ensures i0 < 64 && i1 < 64 && i2 < 64 && i3 < 64
    ensures Quartet(b, c, d) == [CharAt(i0), CharAt(i1), CharAt(i2), CharAt(i3)]
    ensures i0 * 262144 + i1 * 4096 + i2 * 64 + i3 == b * 65536 + c * 256 + d
  {
    DigitsNumber(b, c, d);
    i0, i1, i2, i3 := b / 4, b % 4 * 16 + c / 16, c % 16 * 4 + d / 64, d % 64;
  }

  method EncodeGroup(b: Unit, c: Unit, d: Unit) returns (k: JsString)
    requires b < 256 && c < 256 && d < 256
    ensures k == Quartet(b, c, d)
  {
    var i0, i1, i2, i3 := Sextets(b, c, d);
    k := FourChars(i0, i1, i2, i3);
  }

  /** The quartets of a string whose length is rounded up with zero octets. */
  function Quartets(s: JsString): (r: JsString)
    requires Octets(s)
    decreases |s|
  {
    if s == [] then [] else Quartet(s[0], At(s, 1), At(s, 2)) + Quartets(Tail(s, 3))
  }

  lemma DropEnd(first: JsString, rest: JsString, m: nat)
    requires m <= |rest|
    ensures (first + rest)[..|first + rest| - m] == first + rest[..|rest| - m]
  {
  }

  lemma ShortQuartets(s: JsString)
    requires Octets(s) && 1 <= |s| <= 3
    ensures Quartets(s) == Quartet(s[0], At(s, 1), At(s, 2))
  {
    assert Tail(s, 3) == [];
  }

  lemma ShortBase64(s: JsString)
    requires Octets(s) && 1 <= |s| <= 3
    ensures Base64(s) == GroupText(s)
  {
    assert Tail(s, 3) == [];
  }

  lemma ShortMissing(s: JsString)
    requires 1 <= |s| <= 3
    ensures Missing(s) == 3 - |s|
  {
  }

  lemma ShortPadded(s: JsString)
    requires Octets(s) && 1 <= |s| <= 3
    ensures |Quartets(s)| == 4 && Base64(s) == Quartets(s)[..4 - Missing(s)] + Padding(Missing(s))
  {
    ShortQuartets(s);
    ShortBase64(s);
    ShortMissing(s);
  }

  lemma FullGroup(h: JsString)
    requires Octets(h) && |h| == 3
    ensures GroupText(h) == Quartet(h[0], h[1], h[2])
  {
  }

  lemma LongPadded(s: JsString)
    requires Octets(s) && |s| > 3
    ensures var first := Quartet(s[0], s[1], s[2]);
      Quartets(s) == first + Quartets(s[3..]) && Base64(s) == first + Base64(s[3..])
  {
    FullGroup(Head(s));
  }

  lemma SameMissing(s: JsString)
    requires |s| > 3
    ensures Missing(s[3..]) == Missing(s)
  {
  }

  lemma Regrouped(first: JsString, rest: JsString, m: nat)
    requires m <= |rest|
    ensures first + (rest[..|rest| - m] + Padding(m)) == first + rest[..|rest| - m] + Padding(m)
  {
  }

  lemma LaterPadding(first: JsString, rest: JsString, m: nat)
    requires m <= |rest|
    ensures first + (rest[..|rest| - m] + Padding(m)) == (first + rest)[..|first + rest| - m] + Padding(m)
  {
    DropEnd(first, rest, m);
    Regrouped(first, rest, m);
  }

  lemma ExtendPadded(first: JsString, quartets: JsString, text: JsString, m: nat)
    requires m <= 2 && |quartets| >= 4 && text == quartets[..|quartets| - m] + Padding(m)
    ensures first + text == (first + quartets)[..|first + quartets| - m] + Padding(m)
  {
    LaterPadding(first, quartets, m);
  }

  lemma {:induction false} PaddedQuartets(s: JsString)
    requires Octets(s) && s != []
    ensures |Quartets(s)| >= 4
    ensures Base64(s) == Quartets(s)[..|Quartets(s)| - Missing(s)] + Padding(Missing(s))
    decreases |s|
  {
    if |s| <= 3 {
      ShortPadded(s);
    } else {
      var first, rest := Quartet(s[0], s[1], s[2]), s[3..];
      LongPadded(s);
      PaddedQuartets(rest);
      SameMissing(s);
      ExtendPadded(first, Quartets(rest), Base64(rest), Missing(s));
    }
  }

  lemma QuartetsStep(s: JsString, j: nat)
    requires Octets(s) && j < |s|
    ensures Quartets(Tail(s, j)) == Quartet(s[j], At(s, j + 1), At(s, j + 2)) + Quartets(Tail(s, j + 3))
  {
    var rest := Tail(s, j);
    assert rest[0] == s[j] && At(rest, 1) == At(s, j + 1) && At(rest, 2) == At(s, j + 2);
    assert Tail(rest, 3) == Tail(s, j + 3);
  }

  lemma StepOn(k: JsString, group: JsString, rest: JsString)
    ensures k + (group + rest) == k + group + rest
  {
  }

  /** One pass of the loop: three octets, or what is left of them, become a quartet. */
  method EncodeNext(s: JsString, j: nat, k: JsString) returns (k': JsString)
    requires Octets(s) && j < |s|
    ensures k' + Quartets(Tail(s, j + 3)) == k + Quartets(Tail(s, j))
  {
    QuartetsStep(s, j);
    var group := EncodeGroup(s[j], At(s, j + 1), At(s, j + 2));
    StepOn(k, group, Quartets(Tail(s, j + 3)));
    k' := k + group;
  }

  /** The do-while loop of the encoder: one quartet for every three octets begun. */
  method EncodeGroups(s: JsString) returns (k: JsString)
    requires Octets(s) && s != []
    ensures k == Quartets(s)
  {
    k := [];
    var j := 0;
    while true
      invariant j < |s| && k + Quartets(Tail(s, j)) == Quartets(s)
      decreases |s| - j
    {
      k := EncodeNext(s, j, k);
      j := j + 3;
      if !(j < |s|) {
        break;
      }
    }
    assert Tail(s, j) == [];
  }

  lemma PaddingCases(k: JsString, m: nat)
    requires m <= 2 && |k| >= 4
    ensures k[..|k| - m] + Padding(m) ==
      if m == 2 then k[..|k| - 2] + [PAD, PAD] else if m == 1 then k[..|k| - 1] + [PAD] else k
  {
    assert k[..|k|] + [] == k;
  }

  /** What encode_base64 returns. */
  function EncodedText(s: JsString): JsString {
    if s == [] then [] else Base64(Encoded(Normalised(s)))
  }

  /** hbl.util.encode_base64 */
  method EncodeBase64(a: JsString) returns (k: JsString)
    ensures k == EncodedText(a)
  {
    if a == [] {
      return a;
    }
    var s := HblEncode(a);
    NormalisedNonEmpty(a);
    k := EncodeGroups(s);
    PaddedQuartets(s);
    PaddingCases(k, Missing(s));
    if |s| % 3 == 1 {
      k := k[..|k| - 2] + [PAD, PAD];
    } else if |s| % 3 == 2 {
      k := k[..|k| - 1] + [PAD];
    }
  }

  // ------------------------------------------------------------------ decoding

  /** replace(/[^A-Za-z0-9\+\/\=]/g, ""): only characters of the table stay. */
  function Filter(a: JsString): (r: JsString)
    ensures AllInTable(r)
  {
    if a == [] then [] else (if InTable(a[0]) then [a[0]] else []) + Filter(a[1..])
  }

  /** indexOf(charAt(i)); past the end charAt gives the empty string, which is found at 0. */
  function IndexAt(t: JsString, i: nat): (x: nat)
    requires AllInTable(t)
    ensures x <= 64
  {
    if i < |t| then
      assert InTable(t[i]);
      IndexRange(t[i], 0);
      IndexFrom(t[i], 0)
    else 0
  }

  /** The one to three characters that four table positions stand for. */
  function Group(d: nat, e: nat, l: nat, k: nat): seq<nat> {
    [Or(Shl(d, 2), Shr(e, 4))] +
    (if l != 64 then [Or(Shl(And(e, 15), 4), Shr(l, 2))] else []) +
    (if k != 64 then [Or(Shl(And(l, 3), 6), k)] else [])
  }

  predicate FirstIs(d: nat, e: nat, x: nat) {
    Or(Shl(d, 2), Shr(e, 4)) == x
  }

  predicate SecondIs(e: nat, l: nat, x: nat) {
    Or(Shl(And(e, 15), 4), Shr(l, 2)) == x
  }

  predicate ThirdIs(l: nat, k: nat, x: nat) {
    Or(Shl(And(l, 3), 6), k) == x
  }

  lemma GroupIs(d: nat, e: nat, l: nat, k: nat, x: nat, y: nat, z: nat)
    requires FirstIs(d, e, x)
    requires l < 64 ==> SecondIs(e, l, y)
    requires k < 64 ==> ThirdIs(l, k, z)
    ensures l < 64 && k < 64 ==> Group(d, e, l, k) == [x, y, z]
    ensures l < 64 && k == 64 ==> Group(d, e, l, k) == [x, y]
    ensures l == 64 && k < 64 ==> Group(d, e, l, k) == [x, z]
    ensures l == k == 64 ==> Group(d, e, l, k) == [x]
  {
  }

  lemma FirstArithmetic(d: nat, e: nat)
    requires e < 64
    ensures FirstIs(d, e, d * 4 + e / 16)
  {
    Powers();
    OrDisjoint(d, e / 16, 2);
  }

  lemma SecondArithmetic(e: nat, l: nat)
    requires l < 64
    ensures SecondIs(e, l, e % 16 * 16 + l / 4)
  {
    Powers();
    AndMask(e, 4);
    OrDisjoint(e % 16, l / 4, 4);
  }

  lemma ThirdArithmetic(l: nat, k: nat)
    requires k < 64
    ensures ThirdIs(l, k, l % 4 * 64 + k)
  {
    Powers();
    AndMask(l, 2);
    OrDisjoint(l % 4, k, 6);
  }

  /**
   * What a group of four positions decodes to, also where the padding stands in the middle: the
   * second and the third octet are each left out exactly if their own last position is padding.
   */
  lemma GroupArithmetic(d: nat, e: nat, l: nat, k: nat)
    requires d < 64 && e < 64 && l <= 64 && k <= 64
    ensures Group(d, e, l, k) ==
      [d * 4 + e / 16] +
      (if l == 64 then [] else [e % 16 * 16 + l / 4]) + (if k == 64 then [] else [l % 4 * 64 + k])
  {
    var x, y, z := d * 4 + e / 16, e % 16 * 16 + l / 4, l % 4 * 64 + k;
    assert FirstIs(d, e, x) by {
      FirstArithmetic(d, e);
    }
    assert l < 64 ==> SecondIs(e, l, y) by {
      if l < 64 { SecondArithmetic(e, l); }
    }
    assert k < 64 ==> ThirdIs(l, k, z) by {
      if k < 64 { ThirdArithmetic(l, k); }
    }
    GroupIs(d, e, l, k, x, y, z);
  }

  lemma FirstByte(b: nat, low: nat)
    requires b < 256 && low < 16
    ensures FirstIs(b / 4, b % 4 * 16 + low, b)
  {
    Powers();
    Divide(b % 4 * 16 + low, 16, b % 4, low);
    OrDisjoint(b / 4, b % 4, 2);
  }

  lemma SecondByte(c: nat, high: nat, low: nat)
    requires c < 256 && high < 4 && low < 4
    ensures SecondIs(high * 16 + c / 16, c % 16 * 4 + low, c)
  {
    Powers();
    AndMask(high * 16 + c / 16, 4);
    Divide(high * 16 + c / 16, 16, high, c / 16);
    Divide(c % 16 * 4 + low, 4, c % 16, low);
    OrDisjoint(c / 16, c % 16, 4);
  }

  lemma ThirdByte(d: nat, high: nat)
    requires d < 256 && high < 16
    ensures ThirdIs(high * 4 + d / 64, d % 64, d)
  {
    Powers();
    AndMask(high * 4 + d / 64, 2);
    Divide(high * 4 + d / 64, 4, high, d / 64);
    OrDisjoint(d / 64, d % 64, 6);
  }

  /** What the do-while loop makes of the filtered text: at least one group, even of an empty text. */
  function DecodedGroups(t: JsString): seq<nat>
    requires AllInTable(t)
    decreases |t|
  {
    Group(IndexAt(t, 0), IndexAt(t, 1), IndexAt(t, 2), IndexAt(t, 3)) + if |t| <= 4 then [] else DecodedGroups(t[4..])
  }

  function DecodedBase64(a: JsString): seq<nat> {
    DecodedGroups(Filter(a))
  }

  /** The characters that one pass of the do-while loop appends. */
  method DecodeGroup(c: seq<nat>, d: nat, e: nat, l: nat, k: nat) returns (c': seq<nat>)
    ensures c' == c + Group(d, e, l, k)
  {
    c' := c + [Or(Shl(d, 2), Shr(e, 4))];
    if l != 64 {
      c' := c' + [Or(Shl(And(e, 15), 4), Shr(l, 2))];
    }
    if k != 64 {
      c' := c' + [Or(Shl(And(l, 3), 6), k)];
    }
  }

  /** What the loop still has to append when it stands at m. */
  function Remaining(s: JsString, m: nat): seq<nat>
    requires AllInTable(s)
  {
    if m < |s| || m == 0 then DecodedGroups(s[m..]) else []
  }

  lemma RemainingStep(s: JsString, m: nat)
    requires AllInTable(s) && (m < |s| || m == 0)
    ensures Remaining(s, m) ==
      Group(IndexAt(s, m), IndexAt(s, m + 1), IndexAt(s, m + 2), IndexAt(s, m + 3)) + Remaining(s, m + 4)
  {
    var t := s[m..];
    assert IndexAt(t, 0) == IndexAt(s, m) && IndexAt(t, 1) == IndexAt(s, m + 1);
    assert IndexAt(t, 2) == IndexAt(s, m + 2) && IndexAt(t, 3) == IndexAt(s, m + 3);
    if |s| > m + 4 { assert t[4..] == s[m + 4..]; }
  }

  lemma Associative(c: seq<nat>, group: seq<nat>, rest: seq<nat>)
    ensures c + (group + rest) == c + group + rest
  {
  }

  /** The groups before m have been decoded. */
  ghost predicate DecodedUpTo(c: seq<nat>, s: JsString, m: nat) {
    AllInTable(s) && (m < |s| || m == 0) && c + Remaining(s, m) == DecodedGroups(s)
  }

  /** One pass of the loop: four characters are looked up and their group appended. */
  method DecodeNext(s: JsString, m: nat, c: seq<nat>) returns (c': seq<nat>)
    requires DecodedUpTo(c, s, m)
    ensures if m + 4 < |s| then DecodedUpTo(c', s, m + 4) else c' == DecodedGroups(s)
  {
    RemainingStep(s, m);
    var d, e, l, k := IndexAt(s, m), IndexAt(s, m + 1), IndexAt(s, m + 2), IndexAt(s, m + 3);
    Associative(c, Group(d, e, l, k), Remaining(s, m + 4));
    c' := DecodeGroup(c, d, e, l, k);
  }

  lemma StartOfText(s: JsString)
    requires AllInTable(s)
    ensures DecodedUpTo([], s, 0)
  {
    assert s[0..] == s;
  }

  /** The do-while loop of the decoder, over the filtered text. */
  method DecodeGroups(s: JsString) returns (c: seq<nat>)
    requires AllInTable(s)
    ensures c == DecodedGroups(s)
  {
    c := [];
    var m := 0;
    StartOfText(s);
    while true
      invariant DecodedUpTo(c, s, m)
      decreases |s| - m
    {
      c := DecodeNext(s, m, c);
      m := m + 4;
      if !(m < |s|) {
        break;
      }
    }
  }

  /** hbl.util.decode_base64 without window.atob and eval. */
  method DecodeBase64(a: JsString) returns (c: seq<nat>)
    ensures c == DecodedBase64(a)
  {
    c := DecodeGroups(Filter(a));
  }

  // ------------------------------------------------------------------ any text

  lemma {:induction false} IndexFound(u: Unit, k: nat)
    requires k <= 65 && IndexFrom(u, k) >= 0
    ensures k <= IndexFrom(u, k) <= 64 && CharAt(IndexFrom(u, k)) == u
    decreases 65 - k
  {
    if CharAt(k) == u {
    } else {
      IndexFound(u, k + 1);
    }
  }

  lemma {:induction false} IndexNotNegative(u: Unit, i: nat, k: nat)
    requires k <= i <= 64 && CharAt(i) == u
    ensures IndexFrom(u, k) >= 0
    decreases i - k
  {
    if CharAt(k) == u {
    } else {
      IndexNotNegative(u, i, k + 1);
    }
  }

  /** The characters of the regular expression: letters, digits, plus, slash and the equals sign. */
  predicate Kept(u: Unit) {
    65 <= u <= 90 || 97 <= u <= 122 || 48 <= u <= 57 || u == 43 || u == 47 || u == 61
  }

  lemma InTableIffKept(u: Unit)
    ensures InTable(u) <==> Kept(u)
  {
    if InTable(u) {
      IndexFound(u, 0);
      TableCode(IndexFrom(u, 0));
    }
    if Kept(u) {
      var i := if 65 <= u <= 90 then u - 65 else if 97 <= u <= 122 then u - 71 else if 48 <= u <= 57 then u + 4
      else if u == 43 then 62 else if u == 47 then 63 else 64;
      TableCode(i);
      IndexNotNegative(u, i, 0);
    }
  }

  lemma {:induction false} FilterConcat(x: JsString, y: JsString)
    ensures Filter(x + y) == Filter(x) + Filter(y)
  {
    if x == [] {
      assert x + y == y;
    } else {
      assert (x + y)[1..] == x[1..] + y;
      FilterConcat(x[1..], y);
    }
  }

  lemma ForeignAlone(u: Unit)
    requires !Kept(u)
    ensures Filter([u]) == []
  {
    InTableIffKept(u);
    assert [u][1..] == [];
  }

  lemma ForeignFiltered(x: JsString, u: Unit, y: JsString)
    requires !Kept(u)
    ensures Filter(x + [u] + y) == Filter(x + y)
  {
    FilterConcat(x + [u], y);
    FilterConcat(x, [u]);
    FilterConcat(x, y);
    ForeignAlone(u);
    assert Filter(x) + [] == Filter(x);
  }

  /** A character that is not of base64 makes no difference, wherever it stands. */
  lemma ForeignSkipped(x: JsString, u: Unit, y: JsString)
    requires !Kept(u)
    ensures DecodedBase64(x + [u] + y) == DecodedBase64(x + y)
  {
    ForeignFiltered(x, u, y);
  }

  /** t is text with foreign characters put in anywhere. */
  ghost predicate Around(t: JsString, text: JsString) {
    if t == [] then text == []
    else if Kept(t[0]) then text != [] && text[0] == t[0] && Around(t[1..], text[1..])
    else Around(t[1..], text)
  }

  lemma {:induction false} AroundFilters(t: JsString, text: JsString)
    requires Around(t, text)
    ensures Filter(t) == text
  {
    if t == [] {
    } else {
      InTableIffKept(t[0]);
      if Kept(t[0]) {
        AroundFilters(t[1..], text[1..]);
      } else {
        AroundFilters(t[1..], text);
      }
    }
  }

  lemma {:induction false} AroundItself(text: JsString)
    requires forall i :: 0 <= i < |text| ==> Kept(text[i])
    ensures Around(text, text)
  {
    if text == [] {
    } else {
      AroundItself(text[1..]);
    }
  }

  /** The group that the decoder finds at the front of a text. */
  function FirstGroup(t: JsString): seq<nat>
    requires AllInTable(t)
  {
    Group(IndexAt(t, 0), IndexAt(t, 1), IndexAt(t, 2), IndexAt(t, 3))
  }

  lemma FirstIsA()
    ensures IndexFrom(65, 0) == 0
  {
    TableCode(0);
  }

  /** The first group of a cut-off text is that of the text with one more "A". */
  lemma SameFirstGroup(t: JsString)
    requires AllInTable(t) && AllInTable(t + [65]) && |t| != 4
    ensures FirstGroup(t + [65]) == FirstGroup(t)
  {
    var t' := t + [65];
    FirstIsA();
    assert forall i :: 0 <= i < 4 && i < |t| ==> t'[i] == t[i];
    assert IndexAt(t', 0) == IndexAt(t, 0) && IndexAt(t', 1) == IndexAt(t, 1);
    assert IndexAt(t', 2) == IndexAt(t, 2) && IndexAt(t', 3) == IndexAt(t, 3);
  }

  /** A text that ends inside a group, and the empty text too, is read as if filled up with "A". */
  lemma {:induction false} CutOffGroup(t: JsString)
    requires AllInTable(t) && (|t| % 4 != 0 || t == [])
    ensures AllInTable(t + [65]) && DecodedGroups(t) == DecodedGroups(t + [65])
    decreases |t|
  {
    var t' := t + [65];
    InTableIffKept(65);
    SameFirstGroup(t);
    if |t| <= 4 {
    } else {
      assert t'[4..] == t[4..] + [65];
      CutOffGroup(t[4..]);
    }
  }

  // ------------------------------------------------------------------ round trip

  lemma PadInTable()
    ensures IndexFrom(PAD, 0) == 64
  {
    TableCode(64);
    IndexOfChar(64, 0);
  }

  lemma CharInTable(i: nat)
    requires i <= 64
    ensures InTable(CharAt(i)) && IndexFrom(CharAt(i), 0) == i
  {
    IndexOfChar(i, 0);
  }

  lemma QuartetInTable(b: nat, c: nat, d: nat)
    requires b < 256 && c < 256 && d < 256
    ensures AllInTable(Quartet(b, c, d))
  {
    CharInTable(b / 4);
    CharInTable(b % 4 * 16 + c / 16);
    CharInTable(c % 16 * 4 + d / 64);
    CharInTable(d % 64);
  }

  lemma JoinInTable(t: JsString, t': JsString)
    requires AllInTable(t) && AllInTable(t')
    ensures AllInTable(t + t')
  {
  }

  lemma GroupInTable(h: JsString)
    requires Octets(h) && 1 <= |h| <= 3
    ensures AllInTable(GroupText(h))
  {
    QuartetInTable(h[0], At(h, 1), At(h, 2));
    PadInTable();
    JoinInTable(Quartet(h[0], At(h, 1), At(h, 2))[..|h| + 1], Padding(3 - |h|));
  }

  lemma {:induction false} Base64InTable(s: JsString)
    requires Octets(s)
    ensures AllInTable(Base64(s))
    decreases |s|
  {
    if s == [] {
    } else {
      GroupInTable(Head(s));
      Base64InTable(Tail(s, 3));
      JoinInTable(GroupText(Head(s)), Base64(Tail(s, 3)));
    }
  }

  lemma CharPosition(t: JsString, i: nat, n: nat)
    requires AllInTable(t) && i < |t| && n <= 64 && t[i] == CharAt(n)
    ensures IndexAt(t, i) == n
  {
    CharInTable(n);
  }

  lemma GroupChars(h: JsString, t: JsString)
    requires Octets(h) && 1 <= |h| <= 3 && |t| >= 4 && t[..4] == GroupText(h)
    ensures t[0] == CharAt(h[0] / 4) && t[1] == CharAt(h[0] % 4 * 16 + At(h, 1) / 16)
    ensures t[2] == if |h| == 1 then PAD else CharAt(At(h, 1) % 16 * 4 + At(h, 2) / 64)
    ensures t[3] == if |h| <= 2 then PAD else CharAt(At(h, 2) % 64)
  {
    var g := GroupText(h);
    assert t[0] == g[0] && t[1] == g[1] && t[2] == g[2] && t[3] == g[3];
  }

  /** Four positions that stand for the octets of h. */
  predicate StandFor(h: JsString, d: nat, e: nat, l: nat, k: nat)
    requires Octets(h) && 1 <= |h| <= 3
  {
    && FirstIs(d, e, h[0])
    && (if |h| == 1 then l == 64 else l < 64 && SecondIs(e, l, h[1]))
    && (if |h| <= 2 then k == 64 else k < 64 && ThirdIs(l, k, h[2]))
  }

  lemma StandForGroup(h: JsString, d: nat, e: nat, l: nat, k: nat)
    requires Octets(h) && 1 <= |h| <= 3 && StandFor(h, d, e, l, k)
    ensures Group(d, e, l, k) == h
  {
    GroupIs(d, e, l, k, h[0], At(h, 1), At(h, 2));
    assert |h| == 1 ==> h == [h[0]];
    assert |h| == 2 ==> h == [h[0], h[1]];
    assert |h| == 3 ==> h == [h[0], h[1], h[2]];
  }

  lemma OneStandsFor(h: JsString)
    requires Octets(h) && |h| == 1
    ensures StandFor(h, h[0] / 4, h[0] % 4 * 16, 64, 64)
  {
    FirstByte(h[0], 0);
  }

  lemma TwoStandFor(h: JsString)
    requires Octets(h) && |h| == 2
    ensures StandFor(h, h[0] / 4, h[0] % 4 * 16 + h[1] / 16, h[1] % 16 * 4, 64)
  {
    var d, e, l := h[0] / 4, h[0] % 4 * 16 + h[1] / 16, h[1] % 16 * 4;
    assert FirstIs(d, e, h[0]) by {
      FirstByte(h[0], h[1] / 16);
    }
    assert SecondIs(e, l, h[1]) by {
      SecondByte(h[1], h[0] % 4, 0);
    }
    assert l < 64;
  }

  lemma SextetBounds(c: nat, d: nat)
    requires c < 256 && d < 256
    ensures c % 16 * 4 + d / 64 < 64 && d / 64 < 4 && d % 64 < 64 && c / 16 < 16
  {
  }

  lemma ThreeStandFor(h: JsString)
    requires Octets(h) && |h| == 3
    ensures StandFor(h, h[0] / 4, h[0] % 4 * 16 + h[1] / 16, h[1] % 16 * 4 + h[2] / 64, h[2] % 64)
  {
    var d, e, l, k := h[0] / 4, h[0] % 4 * 16 + h[1] / 16, h[1] % 16 * 4 + h[2] / 64, h[2] % 64;
    assert FirstIs(d, e, h[0]) by {
      FirstByte(h[0], h[1] / 16);
    }
    assert SecondIs(e, l, h[1]) by {
      SecondByte(h[1], h[0] % 4, h[2] / 64);
    }
    assert ThirdIs(l, k, h[2]) by {
      ThirdByte(h[2], h[1] % 16);
    }
    assert l < 64 && k < 64 by {
      SextetBounds(h[1], h[2]);
    }
  }

  lemma GroupPositions(h: JsString, t: JsString)
    requires Octets(h) && 1 <= |h| <= 3 && |t| >= 4 && t[..4] == GroupText(h) && AllInTable(t)
    ensures IndexAt(t, 0) == h[0] / 4 && IndexAt(t, 1) == h[0] % 4 * 16 + At(h, 1) / 16
    ensures IndexAt(t, 2) == if |h| == 1 then 64 else At(h, 1) % 16 * 4 + At(h, 2) / 64
    ensures IndexAt(t, 3) == if |h| <= 2 then 64 else At(h, 2) % 64
  {
    GroupChars(h, t);
    TableCode(64);
    CharPosition(t, 0, h[0] / 4);
    CharPosition(t, 1, h[0] % 4 * 16 + At(h, 1) / 16);
    CharPosition(t, 2, if |h| == 1 then 64 else At(h, 1) % 16 * 4 + At(h, 2) / 64);
    CharPosition(t, 3, if |h| <= 2 then 64 else At(h, 2) % 64);
  }

  lemma PositionsStandFor(h: JsString, d: nat, e: nat, l: nat, k: nat)
    requires Octets(h) && 1 <= |h| <= 3 && d == h[0] / 4 && e == h[0] % 4 * 16 + At(h, 1) / 16
    requires l == if |h| == 1 then 64 else At(h, 1) % 16 * 4 + At(h, 2) / 64
    requires k == if |h| <= 2 then 64 else At(h, 2) % 64
    ensures StandFor(h, d, e, l, k)
  {
    if |h| == 1 {
      OneStandsFor(h);
      assert e == h[0] % 4 * 16;
    } else if |h| == 2 {
      TwoStandFor(h);
      assert l == h[1] % 16 * 4;
    } else {
      ThreeStandFor(h);
    }
  }

  /** A group of four characters gives back the one to three octets that it was made from. */
  lemma GroupRoundTrip(h: JsString, t: JsString)
    requires Octets(h) && 1 <= |h| <= 3 && |t| >= 4 && t[..4] == GroupText(h) && AllInTable(t)
    ensures FirstGroup(t) == h
  {
    GroupPositions(h, t);
    PositionsStandFor(h, IndexAt(t, 0), IndexAt(t, 1), IndexAt(t, 2), IndexAt(t, 3));
    StandForGroup(h, IndexAt(t, 0), IndexAt(t, 1), IndexAt(t, 2), IndexAt(t, 3));
  }

  lemma SplitAtFour(x: JsString, y: JsString)
    requires |x| == 4
    ensures (x + y)[..4] == x && (x + y)[4..] == y
  {
  }

  lemma HeadTail(s: JsString)
    ensures s == Head(s) + Tail(s, 3)
  {
  }

  lemma Base64Split(s: JsString)
    requires Octets(s) && s != []
    ensures |Base64(s)| >= 4 && Base64(s)[..4] == GroupText(Head(s)) && Base64(s)[4..] == Base64(Tail(s, 3))
  {
    SplitAtFour(GroupText(Head(s)), Base64(Tail(s, 3)));
  }

  lemma {:induction false} GroupsRoundTrip(s: JsString)
    requires Octets(s) && s != [] && AllInTable(Base64(s))
    ensures DecodedGroups(Base64(s)) == s
    decreases |s|
  {
    var t, rest := Base64(s), Tail(s, 3);
    Base64Split(s);
    HeadTail(s);
    GroupRoundTrip(Head(s), t);
    if rest == [] {
    } else {
      Base64InTable(rest);
      GroupsRoundTrip(rest);
    }
  }

  lemma {:induction false} AllKept(t: JsString)
    requires AllInTable(t)
    ensures forall i :: 0 <= i < |t| ==> Kept(t[i])
  {
    forall i | 0 <= i < |t|
      ensures Kept(t[i])
    {
      InTableIffKept(t[i]);
    }
  }

  lemma EncodedTextIsClean(s: JsString)
    ensures Around(EncodedText(s), EncodedText(s))
  {
    if s == [] {
    } else {
      Base64InTable(Encoded(Normalised(s)));
      AllKept(EncodedText(s));
      AroundItself(EncodedText(s));
    }
  }

  lemma DecodedOctets(octets: JsString)
    requires Octets(octets) && octets != []
    ensures DecodedGroups(Filter(Base64(octets))) == octets
  {
    Base64InTable(octets);
    AllKept(Base64(octets));
    AroundItself(Base64(octets));
    AroundFilters(Base64(octets), Base64(octets));
    GroupsRoundTrip(octets);
  }

  /**
   * Base64 decoding gives back the UTF-8 form of what was encoded, and UTF-8 decoding then the
   * string itself with its line ends normalised, whatever foreign characters were put into the
   * encoded text on its way; only the empty string comes back as something else.
   */
  lemma CodecRoundTrip(s: JsString, t: JsString)
    ensures Around(EncodedText(s), EncodedText(s))
    ensures Around(t, EncodedText(s)) ==> (DecodedBase64(t) == Encoded(Normalised(s)) <==> s != [])
    ensures s != [] ==> DecodedFrom(Encoded(Normalised(s)), 0) == Normalised(s)
  {
    NormalisedNonEmpty(s);
    EncodedTextIsClean(s);
    DecodeInverts(Normalised(s));
    if Around(t, EncodedText(s)) {
      AroundFilters(t, EncodedText(s));
      AroundFilters(EncodedText(s), EncodedText(s));
      if s == [] {
        assert |DecodedGroups([])| >= 1;
      } else {
        DecodedOctets(Encoded(Normalised(s)));
      }
    }
  }
}
