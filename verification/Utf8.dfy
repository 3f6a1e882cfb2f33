/**
 * The two UTF-8 encoders and the decoder of application.js. All three work on UTF-16 code
 * units, one to three bytes each, in the formats of section 3 of RFC 3629.
 */
module Utf8 {
  import opened JsBits
  import opened Options

  // ------------------------------------------------------------------ one code unit

  /** The formats 0xxxxxxx, 110xxxxx 10xxxxxx and 1110xxxx 10xxxxxx 10xxxxxx. */
  function Bytes(l: Unit): (bytes: JsString)
    ensures 1 <= |bytes| <= 3 && forall i :: 0 <= i < |bytes| ==> bytes[i] < 256
  {
    if l < 0x80 then [l]
    else if l < 0x800 then [0xC0 + l / 64, 0x80 + l % 64]
    else [0xE0 + l / 4096, 0x80 + l / 64 % 64, 0x80 + l % 64]
  }

  method LeadOfTwo(l: Unit) returns (b: Unit)
    requires l < 0x800
    ensures b == 0xC0 + l / 64
  {
    Powers();
    OrDisjoint(3, l / 64, 6);
    b := Or(Shr(l, 6), 192);
  }

  method LeadOfThree(l: Unit) returns (b: Unit)
    ensures b == 0xE0 + l / 4096
  {
    Powers();
    OrDisjoint(14, l / 4096, 4);
    b := Or(Shr(l, 12), 224);
  }

  /** x & 63 | 128 */
  method Continuation(x: nat) returns (b: Unit)
    ensures b == 0x80 + x % 64
  {
    Powers();
    AndMask(x, 6);
    OrDisjoint(2, x % 64, 6);
    b := Or(And(x, 63), 128);
  }

  method MiddleByte(l: Unit) returns (b: Unit)
    ensures b == 0x80 + l / 64 % 64
  {
    Powers();
    b := Continuation(Shr(l, 6));
  }

  method LastByte(l: Unit) returns (b: Unit)
    ensures b == 0x80 + l % 64
  {
    b := Continuation(l);
  }

  method UnitOfTwo(l: Unit, l': Unit) returns (u: Unit)
    ensures u == l % 32 * 64 + l' % 64
  {
    Powers();
    AndMask(l, 5);
    AndMask(l', 6);
    OrDisjoint(l % 32, l' % 64, 6);
    u := Or(Shl(And(l, 31), 6), And(l', 63));
  }

  method UnitOfThree(l: Unit, l': Unit, l'': Unit) returns (u: Unit)
    ensures u == l % 16 * 4096 + l' % 64 * 64 + l'' % 64
  {
    Powers();
    AndMask(l, 4);
    AndMask(l', 6);
    AndMask(l'', 6);
    OrDisjoint(l % 16, l' % 64 * 64, 12);
    OrDisjoint(l % 16 * 64 + l' % 64, l'' % 64, 6);
    u := Or(Or(Shl(And(l, 15), 12), Shl(And(l', 63), 6)), And(l'', 63));
  }

  // ------------------------------------------------------------------ whole strings

  /** The UTF-8 form of a string, code unit by code unit. */
  function Encoded(s: JsString): (r: JsString)
    ensures forall i :: 0 <= i < |r| ==> r[i] < 256
    ensures |r| >= |s|
  {
    if s == [] then [] else Encoded(s[..|s| - 1]) + Bytes(s[|s| - 1])
  }

  /** The code unit that the format at position c carries, and how many bytes it takes. */
  function UnitAt(a: JsString, c: nat): (r: (Unit, nat))
    requires c < |a|
    ensures 1 <= r.1 <= 3
  {
    var l := a[c];
    if l < 128 then (l, 1)
    else if l > 191 && l < 224 then (l % 32 * 64 + At(a, c + 1) % 64, 2)
    else (l % 16 * 4096 + At(a, c + 1) % 64 * 64 + At(a, c + 2) % 64, 3)
  }

  function DecodedFrom(a: JsString, c: nat): JsString
    decreases |a| - c
  {
    if c >= |a| then [] else [UnitAt(a, c).0] + DecodedFrom(a, c + UnitAt(a, c).1)
  }

  /** The three branches of the decoder: the code unit to append and how far to move on. */
  method DecodeUnit(a: JsString, c: nat) returns (u: Unit, step: nat)
    requires c < |a|
    ensures (u, step) == UnitAt(a, c)
  {
    var l := a[c];
    if l < 128 {
      u, step := l, 1;
    } else if l > 191 && l < 224 {
      u := UnitOfTwo(l, At(a, c + 1));
      step := 2;
    } else {
      u := UnitOfThree(l, At(a, c + 1), At(a, c + 2));
      step := 3;
    }
  }

  lemma DecodedNext(b: JsString, a: JsString, c: nat)
    requires c < |a|
    ensures b + DecodedFrom(a, c) == b + [UnitAt(a, c).0] + DecodedFrom(a, c + UnitAt(a, c).1)
  {
  }

  /** The decoder of the browser module, on any string. */
  method Decode(a: JsString) returns (b: JsString)
    ensures b == DecodedFrom(a, 0)
  {
    b := [];
    var c := 0;
    while c < |a|
      invariant b + DecodedFrom(a, c) == DecodedFrom(a, 0)
      decreases |a| - c
    {
      DecodedNext(b, a, c);
      var u, step := DecodeUnit(a, c);
      b := b + [u];
      c := c + step;
    }
  }

  lemma Marker(base: nat, x: nat, m: nat)
    requires (m == 16 && base == 0xE0) || (m == 64 && base == 0x80)
    requires x < m
    ensures (base + x) % m == x
  {
  }

  lemma ThreeDigits(l: Unit)
    ensures l == l / 4096 * 4096 + l / 64 % 64 * 64 + l % 64 && l / 4096 < 16
  {
  }

  lemma ThreeParts(l: Unit)
    requires l >= 0x800
    ensures (0xE0 + l / 4096) % 16 * 4096 + (0x80 + l / 64 % 64) % 64 * 64 + (0x80 + l % 64) % 64 == l
    ensures 0xE0 + l / 4096 >= 224
  {
    ThreeDigits(l);
    Marker(0xE0, l / 4096, 16);
    Marker(0x80, l / 64 % 64, 64);
    Marker(0x80, l % 64, 64);
  }

  lemma TwoParts(l: Unit)
    requires 0x80 <= l < 0x800
    ensures (0xC0 + l / 64) % 32 * 64 + (0x80 + l % 64) % 64 == l && 191 < 0xC0 + l / 64 < 224
  {
  }

  lemma BytesAt(a: JsString, c: nat, l: Unit)
    requires c + |Bytes(l)| <= |a| && a[c..c + |Bytes(l)|] == Bytes(l)
    ensures UnitAt(a, c) == (l, |Bytes(l)|)
  {
    var bytes := a[c..c + |Bytes(l)|];
    assert a[c] == bytes[0];
    if 0x80 <= l < 0x800 {
      assert At(a, c + 1) == bytes[1];
      TwoParts(l);
    } else if l >= 0x800 {
      assert At(a, c + 1) == bytes[1] && At(a, c + 2) == bytes[2];
      ThreeParts(l);
    }
  }

  lemma EncodedLast(s: JsString, l: Unit)
    ensures Encoded(s + [l]) == Encoded(s) + Bytes(l)
  {
    assert (s + [l])[..|s|] == s;
  }

  lemma Regroup(x: JsString, y: JsString, z: JsString)
    ensures x + y + z == x + (y + z)
  {
  }

  lemma {:induction false} EncodedAppend(s: JsString, t: JsString)
    ensures Encoded(s + t) == Encoded(s) + Encoded(t)
    decreases |t|
  {
    if t == [] {
      assert s + t == s;
    } else {
      var front, l := t[..|t| - 1], t[|t| - 1];
      assert t == front + [l];
      EncodedAppend(s, front);
      Regroup(s, front, [l]);
      EncodedLast(s + front, l);
      Regroup(Encoded(s), Encoded(front), Bytes(l));
    }
  }

  lemma EncodedSplit(s: JsString, i: nat)
    requires i < |s|
    ensures var c := |Encoded(s[..i])|;
      |Encoded(s[..i + 1])| == c + |Bytes(s[i])| <= |Encoded(s)| &&
      Encoded(s)[c..c + |Bytes(s[i])|] == Bytes(s[i])
  {
    assert s[..i + 1][..i] == s[..i];
    EncodedAppend(s[..i + 1], s[i + 1..]);
    assert s == s[..i + 1] + s[i + 1..];
  }

  lemma DecodedStep(a: JsString, c: nat, l: Unit, n: nat)
    requires c < |a| && UnitAt(a, c) == (l, n)
    ensures DecodedFrom(a, c) == [l] + DecodedFrom(a, c + n)
  {
  }

  /** The decoder that stands where the code unit i starts reads it and moves on to i + 1. */
  lemma DecodesNext(s: JsString, i: nat)
    requires i < |s|
    ensures var a := Encoded(s);
      DecodedFrom(a, |Encoded(s[..i])|) == [s[i]] + DecodedFrom(a, |Encoded(s[..i + 1])|)
  {
    EncodedSplit(s, i);
    BytesAt(Encoded(s), |Encoded(s[..i])|, s[i]);
    DecodedStep(Encoded(s), |Encoded(s[..i])|, s[i], |Bytes(s[i])|);
  }

  lemma {:induction false} DecodesFrom(s: JsString, i: nat)
    requires i <= |s|
    ensures DecodedFrom(Encoded(s), |Encoded(s[..i])|) == s[i..]
    decreases |s| - i
  {
    if i == |s| {
      assert s[..i] == s;
    } else {
      DecodesNext(s, i);
      DecodesFrom(s, i + 1);
    }
  }

  /** Decoding undoes encoding, for every string of code units, surrogates included. */
  lemma DecodeInverts(s: JsString)
    ensures DecodedFrom(Encoded(s), 0) == s
  {
    DecodesFrom(s, 0);
    assert s[..0] == [] && s[0..] == s;
  }

  // ------------------------------------------------------------------ the format

  /** The lengths and byte ranges of UTF-8; no code unit has an overlong form. */
  lemma BytesShape(l: Unit)
    ensures |Bytes(l)| == if l < 0x80 then 1 else if l < 0x800 then 2 else 3
    ensures |Bytes(l)| == 1 ==> Bytes(l)[0] < 0x80
    ensures |Bytes(l)| == 2 ==> 0xC2 <= Bytes(l)[0] <= 0xDF
    ensures |Bytes(l)| == 3 ==> 0xE0 <= Bytes(l)[0] <= 0xEF && (Bytes(l)[0] == 0xE0 ==> Bytes(l)[1] >= 0xA0)
    ensures forall i :: 1 <= i < |Bytes(l)| ==> 0x80 <= Bytes(l)[i] <= 0xBF
  {
  }

  /** a comes before b in the lexicographic order of bytes, and not because it is a prefix. */
  predicate Before(a: JsString, b: JsString) {
    exists i :: 0 <= i < |a| && i < |b| && a[..i] == b[..i] && a[i] < b[i]
  }

  lemma DifferAt(a: JsString, b: JsString, i: nat)
    requires i < |a| && i < |b| && a[..i] == b[..i] && a[i] < b[i]
    ensures Before(a, b)
  {
  }

  lemma TwoOrdered(l: Unit, l': Unit)
    requires 0x80 <= l < l' < 0x800
    ensures Before(Bytes(l), Bytes(l'))
  {
    var i := if l / 64 < l' / 64 then 0 else 1;
    assert Bytes(l)[..i] == Bytes(l')[..i];
    DifferAt(Bytes(l), Bytes(l'), i);
  }

  lemma ThreeOrdered(l: Unit, l': Unit)
    requires 0x800 <= l < l'
    ensures Before(Bytes(l), Bytes(l'))
  {
    var i := if l / 4096 < l' / 4096 then 0 else if l / 64 % 64 < l' / 64 % 64 then 1 else 2;
    ThreeDigits(l);
    ThreeDigits(l');
    assert Bytes(l)[..i] == Bytes(l')[..i];
    DifferAt(Bytes(l), Bytes(l'), i);
  }

  /** The order of bytes is the order of code units; with the byte ranges this determines every form. */
  lemma BytesOrdered(l: Unit, l': Unit)
    requires l < l'
    ensures Before(Bytes(l), Bytes(l'))
  {
    if 0x80 <= l && l' < 0x800 {
      TwoOrdered(l, l');
    } else if 0x800 <= l {
      ThreeOrdered(l, l');
    } else {
      DifferAt(Bytes(l), Bytes(l'), 0);
    }
  }

  lemma SameUnit(x: JsString, y: JsString, c: nat)
    requires c < |y|
    ensures UnitAt(x + y, |x| + c) == UnitAt(y, c)
  {
    assert (x + y)[|x| + c] == y[c];
    assert At(x + y, |x| + c + 1) == At(y, c + 1) && At(x + y, |x| + c + 2) == At(y, c + 2);
  }

  lemma {:induction false} DecodedSuffix(x: JsString, y: JsString, c: nat)
    ensures DecodedFrom(x + y, |x| + c) == DecodedFrom(y, c)
    decreases |y| - c
  {
    if c >= |y| {
    } else {
      var (l, n) := UnitAt(y, c);
      SameUnit(x, y, c);
      DecodedSuffix(x, y, c + n);
      DecodedStep(y, c, l, n);
      DecodedStep(x + y, |x| + c, l, n);
    }
  }

  /** What the decoder makes of the front of any text, well-formed or not. */
  lemma DecodesFront(l: Unit, m: Unit, n: Unit, y: JsString)
    ensures l < 0x80 ==> DecodedFrom([l] + y, 0) == [l] + DecodedFrom(y, 0)
    ensures 0xC0 <= l < 0xE0 ==> DecodedFrom([l, m] + y, 0) == [l % 32 * 64 + m % 64] + DecodedFrom(y, 0)
    ensures 0x80 <= l < 0xC0 || l >= 0xE0 ==>
      DecodedFrom([l, m, n] + y, 0) == [l % 16 * 4096 + m % 64 * 64 + n % 64] + DecodedFrom(y, 0)
  {
    DecodedSuffix([l], y, 0);
    DecodedSuffix([l, m], y, 0);
    DecodedSuffix([l, m, n], y, 0);
  }

  /** A text that ends inside a character is read as if zeros followed. */
  lemma DecodesCutOff(l: Unit, m: Unit)
    requires l >= 0x80
    ensures 0xC0 <= l < 0xE0 ==> DecodedFrom([l], 0) == DecodedFrom([l, 0], 0)
    ensures l < 0xC0 || l >= 0xE0 ==>
      DecodedFrom([l], 0) == DecodedFrom([l, 0, 0], 0) && DecodedFrom([l, m], 0) == DecodedFrom([l, m, 0], 0)
  {
  }

  // ------------------------------------------------------------------ line ends

  const LF: Unit := 10
  const CR: Unit := 13

  /** replace(/\r\n/g, "\n") */
  function CrLfToLf(a: JsString): JsString {
    if a == [] then []
    else if |a| >= 2 && a[0] == CR && a[1] == LF then [LF] + CrLfToLf(a[2..])
    else [a[0]] + CrLfToLf(a[1..])
  }

  /** replace(/\r/g, "\n") */
  function CrToLf(a: JsString): (r: JsString)
    ensures |r| == |a|
  {
    seq(|a|, i requires 0 <= i < |a| => if a[i] == CR then LF else a[i])
  }

  /** What hbl.util.utf8_encode makes of line ends before it encodes. */
  function Normalised(a: JsString): JsString {
    CrToLf(CrLfToLf(a))
  }

  lemma {:induction false} NormalisedNonEmpty(a: JsString)
    ensures a == [] <==> Normalised(a) == []
  {
  }

  lemma {:induction false} CleanPrefix(x: JsString, z: JsString)
    requires CR !in x
    ensures CrLfToLf(x + z) == x + CrLfToLf(z)
  {
    if x == [] {
      assert x + z == z;
    } else {
      assert (x + z)[1..] == x[1..] + z;
      CleanPrefix(x[1..], z);
    }
  }

  lemma CrToLfConcat(x: JsString, z: JsString)
    ensures CrToLf(x + z) == CrToLf(x) + CrToLf(z)
  {
  }

  lemma CrToLfClean(x: JsString)
    requires CR !in x
    ensures CrToLf(x) == x
  {
  }

  /** CR-free text in front makes no difference to what comes after it. */
  lemma NormalisedAfter(x: JsString, z: JsString)
    requires CR !in x
    ensures Normalised(x + z) == x + Normalised(z)
  {
    CleanPrefix(x, z);
    CrToLfConcat(x, CrLfToLf(z));
    CrToLfClean(x);
  }

  lemma FirstLineEnd(y: JsString)
    ensures Normalised([CR, LF] + y) == [LF] + Normalised(y)
    ensures y == [] || y[0] != LF ==> Normalised([CR] + y) == [LF] + Normalised(y)
  {
    assert ([CR, LF] + y)[2..] == y && ([CR] + y)[1..] == y;
    CrToLfConcat([LF], CrLfToLf(y));
    CrToLfConcat([CR], CrLfToLf(y));
    assert CrToLf([LF]) == [LF] && CrToLf([CR]) == [LF];
  }

  lemma Apart(x: JsString, e: JsString, y: JsString)
    ensures x + e + y == x + (e + y)
  {
  }

  /** CR-free text stays, and after it each CR LF, and each CR without LF, becomes one LF. */
  lemma LineEnds(x: JsString, y: JsString)
    requires CR !in x
    ensures Normalised(x) == x
    ensures Normalised(x + [CR, LF] + y) == x + [LF] + Normalised(y)
    ensures y == [] || y[0] != LF ==> Normalised(x + [CR] + y) == x + [LF] + Normalised(y)
  {
    NormalisedAfter(x, []);
    assert x + [] == x && Normalised([]) == [];
    FirstLineEnd(y);
    Apart(x, [CR, LF], y);
    Apart(x, [CR], y);
    Apart(x, [LF], Normalised(y));
    NormalisedAfter(x, [CR, LF] + y);
    NormalisedAfter(x, [CR] + y);
  }

  lemma BrowserAfter(x: JsString, z: JsString)
    requires CR !in x
    ensures Encoded(CrLfToLf(x + z)) == Encoded(x) + Encoded(CrLfToLf(z))
  {
    CleanPrefix(x, z);
    EncodedAppend(x, CrLfToLf(z));
  }

  lemma FirstBrowserLineEnd(y: JsString)
    ensures CrLfToLf([CR, LF] + y) == [LF] + CrLfToLf(y)
    ensures y == [] || y[0] != LF ==> CrLfToLf([CR] + y) == [CR] + CrLfToLf(y)
  {
    assert ([CR, LF] + y)[2..] == y && ([CR] + y)[1..] == y;
  }

  lemma OneByte(l: Unit, s: JsString)
    requires l < 0x80
    ensures Encoded([l] + s) == [l] + Encoded(s)
  {
    EncodedAppend([l], s);
    EncodedLast([], l);
    assert [] + [l] == [l];
  }

  /**
   * The bytes of the browser module's encoder: CR-free text is encoded as it is; after it a CR LF
   * becomes the one byte of LF, and a CR that no LF follows stays.
   */
  lemma BrowserLineEnds(x: JsString, y: JsString)
    requires CR !in x
    ensures Encoded(CrLfToLf(x)) == Encoded(x)
    ensures Encoded(CrLfToLf(x + [CR, LF] + y)) == Encoded(x) + [10] + Encoded(CrLfToLf(y))
    ensures y == [] || y[0] != LF ==>
      Encoded(CrLfToLf(x + [CR] + y)) == Encoded(x) + [13] + Encoded(CrLfToLf(y))
  {
    CleanPrefix(x, []);
    assert x + [] == x && CrLfToLf([]) == [];
    FirstBrowserLineEnd(y);
    Apart(x, [CR, LF], y);
    Apart(x, [CR], y);
    BrowserAfter(x, [CR, LF] + y);
    BrowserAfter(x, [CR] + y);
    OneByte(LF, CrLfToLf(y));
    OneByte(CR, CrLfToLf(y));
    Apart(Encoded(x), [LF], Encoded(CrLfToLf(y)));
    Apart(Encoded(x), [CR], Encoded(CrLfToLf(y)));
  }

  // ------------------------------------------------------------------ the encoders

  /** The body of the browser module's loop: the bytes of l are appended one after the other. */
  method AppendUnit(b: JsString, l: Unit) returns (b': JsString)
    ensures b' == b + Bytes(l)
  {
    b' := b;
    if l < 128 {
      b' := b' + [l];
    } else {
      if l > 127 && l < 2048 {
        var lead := LeadOfTwo(l);
        b' := b' + [lead];
      } else {
        var lead := LeadOfThree(l);
        b' := b' + [lead];
        var middle := MiddleByte(l);
        b' := b' + [middle];
      }
      var last := LastByte(l);
      b' := b' + [last];
    }
  }

  lemma EncodedNext(s: JsString, i: nat)
    requires i < |s|
    ensures Encoded(s[..i + 1]) == Encoded(s[..i]) + Bytes(s[i])
  {
    assert s[..i + 1][..i] == s[..i];
  }

  /** The encoder of the browser module: CR LF becomes LF, a lone CR stays. */
  method BrowserEncode(a: JsString) returns (b: JsString)
    ensures b == Encoded(CrLfToLf(a))
  {
    var s := CrLfToLf(a);
    b := [];
    var c := 0;
    while c < |s|
      invariant 0 <= c <= |s| && b == Encoded(s[..c])
    {
      EncodedNext(s, c);
      b := AppendUnit(b, s[c]);
      c := c + 1;
    }
    assert s[..c] == s;
  }

  lemma LongerRun(s: JsString, c: nat, d: nat, x: JsString, y: JsString)
    requires c < d <= |s| && x == y + s[c..d - 1]
    ensures x + [s[d - 1]] == y + s[c..d]
  {
  }

  lemma {:induction false} AsciiEncoded(s: JsString, c: nat, d: nat)
    requires c <= d <= |s| && forall i :: c <= i < d ==> s[i] < 128
    ensures Encoded(s[..d]) == Encoded(s[..c]) + s[c..d]
    decreases d
  {
    if c == d {
    } else {
      AsciiEncoded(s, c, d - 1);
      EncodedNext(s, d - 1);
      LongerRun(s, c, d, Encoded(s[..d - 1]), Encoded(s[..c]));
    }
  }

  /** The string that is to replace l in the output, or None for a character that is copied with its run. */
  method LongForm(l: Unit) returns (k: Option<JsString>)
    ensures k == if l < 128 then None else Some(Bytes(l))
  {
    if l < 128 {
      k := None;
    } else if l > 127 && l < 2048 {
      var lead := LeadOfTwo(l);
      var last := LastByte(l);
      k := Some([lead, last]);
    } else {
      var lead := LeadOfThree(l);
      var middle := MiddleByte(l);
      var last := LastByte(l);
      k := Some([lead, middle, last]);
    }
  }

  /** The pending run, if there is one, goes to the output in one piece. */
  method CopyRun(b: JsString, s: JsString, c: nat, d: nat) returns (b': JsString)
    requires c <= d <= |s|
    ensures b' == b + s[c..d]
  {
    b' := b;
    if d > c {
      b' := b' + s[c..d];
    }
  }

  /**
   * hbl.util.utf8_encode: runs of ASCII are copied in one piece, from the pending cursor c up
   * to d, when a longer character or the end of the string is reached.
   */
  method HblEncode(a: JsString) returns (b: JsString)
    ensures b == Encoded(Normalised(a))
  {
    var s := Normalised(a);
    b := [];
    var c, d, e := 0, 0, |s|;
    var j := 0;
    while j < e
      invariant 0 <= c <= d == j <= e == |s|
      invariant forall i :: c <= i < d ==> s[i] < 128
      invariant b == Encoded(s[..c])
    {
      var k := LongForm(s[j]);
      if k.None? {
        d := d + 1;
      } else {
        AsciiEncoded(s, c, d);
        EncodedNext(s, j);
        b := CopyRun(b, s, c, d);
        b := b + k.value;
        c, d := j + 1, j + 1;
      }
      j := j + 1;
    }
    AsciiEncoded(s, c, d);
    b := CopyRun(b, s, c, |s|);
    assert s[..e] == s;
  }

  /** What each encoder's output decodes to. */
  lemma EncodersRoundTrip(s: JsString)
    ensures DecodedFrom(Encoded(Normalised(s)), 0) == Normalised(s)
    ensures DecodedFrom(Encoded(CrLfToLf(s)), 0) == CrLfToLf(s)
  {
    DecodeInverts(Normalised(s));
    DecodeInverts(CrLfToLf(s));
  }
}
