/** decodeURIComponent: the Decode operation of ECMA-262 with an empty reserved set.
    Every "%XY" escape (section 2.1 of RFC 3986) is read as one octet; octets below
    0x80 are characters of their own, longer runs must form the UTF-8 encoding of one
    code point (RFC 3629), and anything else fails with a URIError. */
module Uri {
  import opened Wrappers
  import opened Utf8

  datatype UriError = MalformedUri

  /** HEXDIG of RFC 3986: either case. */
  predicate IsHexDigit(c: char) {
    '0' <= c <= '9' || 'a' <= c <= 'f' || 'A' <= c <= 'F'
  }

  function HexDigitValue(c: char): (d: nat)
    requires IsHexDigit(c)
    ensures d < 16
  {
    if '0' <= c <= '9' then c as int - '0' as int
    else if 'a' <= c <= 'f' then c as int - 'a' as int + 10
    else c as int - 'A' as int + 10
  }

  /** The octet written by the two hex digits after a '%'. */
  function OctetValue(hi: char, lo: char): Byte
    requires IsHexDigit(hi) && IsHexDigit(lo)
  {
    16 * HexDigitValue(hi) + HexDigitValue(lo)
  }

  /** The number of leading 1 bits of an octet at or above 0x80, capped at 5. */
  function LeadingOnes(b: Byte): (n: nat)
    requires b >= 0x80
    ensures 1 <= n <= 5
  {
    if b < 0xC0 then 1 else if b < 0xE0 then 2 else if b < 0xF0 then 3 else if b < 0xF8 then 4 else 5
  }

  /** Reads m further escapes "%XY", each of which must be a continuation octet. */
  function ContinuationOctets(t: string, m: nat): (r: Option<seq<Byte>>)
    ensures r.Some? ==> |r.value| == m && 3 * m <= |t|
    decreases m
  {
    if m == 0 then Some([])
    else if |t| >= 3 && t[0] == '%' && IsHexDigit(t[1]) && IsHexDigit(t[2])
            && IsContinuation(OctetValue(t[1], t[2])) then
      match ContinuationOctets(t[3..], m - 1)
      case None => None
      case Some(rest) => Some([OctetValue(t[1], t[2])] + rest)
    else None
  }

  /** The code point a lead octet and its continuation octets encode, or None when they
      are not a valid UTF-8 encoding (overlong, a surrogate, or beyond U+10FFFF). */
  function DecodeOctets(lead: Byte, cont: seq<Byte>): Option<char>
    requires 1 <= |cont| <= 3
  {
    var l: int := lead;
    var c: seq<int> := cont;
    var cp :=
      if |c| == 1 then (l % 0x20) * 0x40 + c[0] % 0x40
      else if |c| == 2 then (l % 0x10) * 0x1000 + (c[0] % 0x40) * 0x40 + c[1] % 0x40
      else (l % 0x08) * 0x4_0000 + (c[0] % 0x40) * 0x1000 + (c[1] % 0x40) * 0x40 + c[2] % 0x40;
    var least := if |cont| == 1 then 0x80 else if |cont| == 2 then 0x800 else 0x1_0000;
    if cp < least || (0xD800 <= cp < 0xE000) || cp > 0x10_FFFF then None
    else Some(cp as char)
  }

  /** A text without '%' is returned as it is; each escape that decodes shortens the
      text, so a text with a '%' that decodes comes out strictly shorter. */
  function DecodeUriComponent(s: string): (r: Result<string, UriError>)
    ensures '%' !in s ==> r == Ok(s)
    ensures r.Ok? ==> |r.value| <= |s|
    ensures '%' in s && r.Ok? ==> |r.value| < |s|
    decreases |s|
  {
    if s == [] then Ok([])
    else if s[0] != '%' then
      assert '%' in s ==> '%' in s[1..];
      assert '%' !in s ==> '%' !in s[1..] && s == [s[0]] + s[1..];
      var rest :- DecodeUriComponent(s[1..]);
      Ok([s[0]] + rest)
    else if !(|s| >= 3 && IsHexDigit(s[1]) && IsHexDigit(s[2])) then Err(MalformedUri)
    else
      var b := OctetValue(s[1], s[2]);
      if b < 0x80 then
        var rest :- DecodeUriComponent(s[3..]);
        Ok([b as char] + rest)
      else
        var n := LeadingOnes(b);
        if n == 1 || n > 4 then Err(MalformedUri)
        else match ContinuationOctets(s[3..], n - 1)
          case None => Err(MalformedUri)
          case Some(cont) =>
            match DecodeOctets(b, cont)
            case None => Err(MalformedUri)
            case Some(c) =>
              var rest :- DecodeUriComponent(s[3 * n..]);
              Ok([c] + rest)
  }

  /** A string made only of escapes "%XY". */
  predicate PercentTriples(s: string)
    decreases |s|
  {
    s == [] || (|s| >= 3 && s[0] == '%' && IsHexDigit(s[1]) && IsHexDigit(s[2]) && PercentTriples(s[3..]))
  }

  /** The octets such a string escapes, in order. */
  function PercentBytes(s: string): (bs: seq<Byte>)
    requires PercentTriples(s)
    ensures 3 * |bs| == |s|
    decreases |s|
  {
    if s == [] then [] else [OctetValue(s[1], s[2])] + PercentBytes(s[3..])
  }

  /** A string in which every '%' starts an escape "%XY"; other characters are free. */
  predicate WellPercented(s: string)
    decreases |s|
  {
    if s == [] then true
    else if s[0] != '%' then WellPercented(s[1..])
    else |s| >= 3 && IsHexDigit(s[1]) && IsHexDigit(s[2]) && WellPercented(s[3..])
  }

  lemma {:induction false} TriplesDrop(s: string, k: nat)
    requires PercentTriples(s) && 3 * k <= |s|
    ensures PercentTriples(s[3 * k..])
    ensures PercentBytes(s[3 * k..]) == PercentBytes(s)[k..]
    decreases k
  {
    if k > 0 {
      TriplesDrop(s[3..], k - 1);
      assert s[3..][3 * (k - 1)..] == s[3 * k..];
    }
  }

  /** Reading continuation escapes from a string of escapes reads its first octets ... */
  lemma {:induction false} ContinuationRead(t: string, m: nat)
    requires PercentTriples(t) && ContinuationOctets(t, m).Some?
    ensures ContinuationOctets(t, m).value == PercentBytes(t)[..m]
    ensures forall i :: 0 <= i < m ==> IsContinuation(ContinuationOctets(t, m).value[i])
    decreases m
  {
    if m > 0 {
      ContinuationRead(t[3..], m - 1);
      var bs := PercentBytes(t);
      assert PercentBytes(t[3..]) == bs[1..];
      assert [bs[0]] + bs[1..][..m - 1] == bs[..m];
    }
  }

  /** ... and succeeds whenever those octets are all continuation octets. */
  lemma {:induction false} ContinuationFound(t: string, m: nat)
    requires PercentTriples(t) && 3 * m <= |t|
    requires forall i :: 0 <= i < m ==> IsContinuation(PercentBytes(t)[i])
    ensures ContinuationOctets(t, m) == Some(PercentBytes(t)[..m])
    decreases m
  {
    if m > 0 {
      var bs := PercentBytes(t);
      assert PercentBytes(t[3..]) == bs[1..];
      assert IsContinuation(bs[0]);
      forall i | 0 <= i < m - 1 ensures IsContinuation(bs[1..][i]) {
        assert bs[1..][i] == bs[i + 1];
      }
      ContinuationFound(t[3..], m - 1);
      assert [bs[0]] + bs[1..][..m - 1] == bs[..m];
    }
  }

  /** Successful continuation reads consume well-formed escapes. */
  lemma {:induction false} ContinuationWellPercented(t: string, m: nat)
    requires ContinuationOctets(t, m).Some?
    requires WellPercented(t[3 * m..])
    ensures WellPercented(t)
    decreases m
  {
    if m > 0 {
      assert t[3..][3 * (m - 1)..] == t[3 * m..];
      ContinuationWellPercented(t[3..], m - 1);
    }
  }

  /** Whatever decodes without error has every '%' followed by two hex digits. */
  lemma {:induction false} DecodeOkIsWellPercented(s: string)
    requires DecodeUriComponent(s).Ok?
    ensures WellPercented(s)
    decreases |s|
  {
    if s == [] {
    } else if s[0] != '%' {
      DecodeOkIsWellPercented(s[1..]);
    } else {
      var b := OctetValue(s[1], s[2]);
      if b < 0x80 {
        DecodeOkIsWellPercented(s[3..]);
      } else {
        var n := LeadingOnes(b);
        DecodeOkIsWellPercented(s[3 * n..]);
        assert s[3..][3 * (n - 1)..] == s[3 * n..];
        ContinuationWellPercented(s[3..], n - 1);
      }
    }
  }

  /** Division by 0x40 undoes packing a 6-bit digit below a higher part. */
  lemma Unpack(hi: int, lo: int)
    requires hi >= 0 && 0 <= lo < 0x40
    ensures (hi * 0x40 + lo) / 0x40 == hi && (hi * 0x40 + lo) % 0x40 == lo
  {
  }

  lemma DecodeTwoSound(lead: Byte, cont: seq<Byte>, c: char)
    requires 0xC0 <= lead < 0xE0 && |cont| == 1 && IsContinuation(cont[0])
    requires DecodeOctets(lead, cont) == Some(c)
    ensures EncodeChar(c) == [lead] + cont
  {
    var a, x := lead - 0xC0, cont[0] - 0x80;
    assert lead % 0x20 == a && cont[0] % 0x40 == x;
    Unpack(a, x);
  }

  /** The three digits of a three-octet code point are read back by division. */
  lemma ThreeOctetDigits(a: int, x: int, y: int, v: int)
    requires 0 <= a < 0x10 && 0 <= x < 0x40 && 0 <= y < 0x40
    requires v == (a * 0x40 + x) * 0x40 + y
    ensures v / 0x1000 == a && (v / 0x40) % 0x40 == x && v % 0x40 == y
  {
    Unpack(a * 0x40 + x, y);
    Unpack(a, x);
    assert v == a * 0x1000 + (x * 0x40 + y);
  }

  /** What a three-octet sequence decodes to, as a sum of its digits. */
  lemma DecodeThreeValue(lead: Byte, cont: seq<Byte>, c: char)
    requires 0xE0 <= lead < 0xF0 && |cont| == 2 && IsContinuation(cont[0]) && IsContinuation(cont[1])
    requires DecodeOctets(lead, cont) == Some(c)
    ensures c as int == ((lead - 0xE0) * 0x40 + (cont[0] - 0x80)) * 0x40 + (cont[1] - 0x80)
  {
    var l: int := lead;
    assert l % 0x10 == l - 0xE0;
    assert cont[0] % 0x40 == cont[0] - 0x80 && cont[1] % 0x40 == cont[1] - 0x80;
  }

  lemma DecodeThreeSound(lead: Byte, cont: seq<Byte>, c: char)
    requires 0xE0 <= lead < 0xF0 && |cont| == 2 && IsContinuation(cont[0]) && IsContinuation(cont[1])
    requires DecodeOctets(lead, cont) == Some(c)
    ensures EncodeChar(c) == [lead] + cont
  {
    var a, x, y := lead - 0xE0, cont[0] - 0x80, cont[1] - 0x80;
    var v := c as int;
    DecodeThreeValue(lead, cont, c);
    ThreeOctetDigits(a, x, y, v);
    assert 0x800 <= v < 0x1_0000;
    assert EncodeChar(c) == [0xE0 + a, 0x80 + x, 0x80 + y];
  }

  /** The four 3- and 6-bit digits of a four-octet code point are read back by division. */
  lemma FourOctetDigits(a: int, x: int, y: int, z: int, v: int)
    requires 0 <= a < 0x08 && 0 <= x < 0x40 && 0 <= y < 0x40 && 0 <= z < 0x40
    requires v == ((a * 0x40 + x) * 0x40 + y) * 0x40 + z
    ensures v / 0x4_0000 == a && (v / 0x1000) % 0x40 == x && (v / 0x40) % 0x40 == y && v % 0x40 == z
  {
    var p := (a * 0x40 + x) * 0x40 + y;
    Unpack(p, z);
    Unpack(a * 0x40 + x, y);
    Unpack(a, x);
    var low := y * 0x40 + z;
    assert v == (a * 0x40 + x) * 0x1000 + low;
    assert v / 0x1000 == a * 0x40 + x;
    assert v == a * 0x4_0000 + (x * 0x1000 + low);
    assert v / 0x4_0000 == a;
  }

  /** What a four-octet sequence decodes to, as a sum of its digits. */
  lemma DecodeFourValue(lead: Byte, cont: seq<Byte>, c: char)
    requires 0xF0 <= lead < 0xF8 && |cont| == 3
    requires IsContinuation(cont[0]) && IsContinuation(cont[1]) && IsContinuation(cont[2])
    requires DecodeOctets(lead, cont) == Some(c)
    ensures c as int >= 0x1_0000
    ensures c as int == (((lead - 0xF0) * 0x40 + (cont[0] - 0x80)) * 0x40 + (cont[1] - 0x80)) * 0x40 + (cont[2] - 0x80)
  {
    var l: int := lead;
    assert l % 0x08 == l - 0xF0;
    assert cont[0] % 0x40 == cont[0] - 0x80 && cont[1] % 0x40 == cont[1] - 0x80 && cont[2] % 0x40 == cont[2] - 0x80;
  }

  lemma DecodeFourSound(lead: Byte, cont: seq<Byte>, c: char)
    requires 0xF0 <= lead < 0xF8 && |cont| == 3
    requires IsContinuation(cont[0]) && IsContinuation(cont[1]) && IsContinuation(cont[2])
    requires DecodeOctets(lead, cont) == Some(c)
    ensures EncodeChar(c) == [lead] + cont
  {
    var a, x, y, z := lead - 0xF0, cont[0] - 0x80, cont[1] - 0x80, cont[2] - 0x80;
    var v := c as int;
    DecodeFourValue(lead, cont, c);
    FourOctetDigits(a, x, y, z, v);
    assert EncodeChar(c) == [0xF0 + a, 0x80 + x, 0x80 + y, 0x80 + z];
  }

  /** One decoded multi-octet sequence re-encodes to exactly those octets. */
  lemma DecodeOctetsSound(lead: Byte, cont: seq<Byte>, c: char)
    requires lead >= 0x80 && 2 <= LeadingOnes(lead) <= 4 && |cont| == LeadingOnes(lead) - 1
    requires forall i :: 0 <= i < |cont| ==> IsContinuation(cont[i])
    requires DecodeOctets(lead, cont) == Some(c)
    ensures EncodeChar(c) == [lead] + cont
  {
    if |cont| == 1 {
      DecodeTwoSound(lead, cont, c);
    } else if |cont| == 2 {
      DecodeThreeSound(lead, cont, c);
    } else {
      DecodeFourSound(lead, cont, c);
    }
  }

  lemma EncodeTwoOctets(c: char)
    requires 0x80 <= c as int < 0x800
    ensures var e := EncodeChar(c);
      |e| == 2 && LeadingOnes(e[0]) == 2 && IsContinuation(e[1]) && DecodeOctets(e[0], e[1..]) == Some(c)
  {
    var v := c as int;
    var q, r := v / 0x40, v % 0x40;
    assert (0xC0 + q) % 0x20 == q;
    assert (0x80 + r) % 0x40 == r;
  }

  lemma EncodeThreeOctets(c: char)
    requires 0x800 <= c as int < 0x1_0000
    ensures var e := EncodeChar(c);
      |e| == 3 && LeadingOnes(e[0]) == 3 && IsContinuation(e[1]) && IsContinuation(e[2])
      && DecodeOctets(e[0], e[1..]) == Some(c)
  {
    var v := c as int;
    var w, y := v / 0x40, v % 0x40;
    var a, x := w / 0x40, w % 0x40;
    assert v == (a * 0x40 + x) * 0x40 + y;
    ThreeOctetDigits(a, x, y, v);
    var e := EncodeChar(c);
    assert e == [0xE0 + a, 0x80 + x, 0x80 + y];
    assert e[1..] == [0x80 + x, 0x80 + y];
    DecodeThreeDigits(a, x, y, v);
  }

  /** The three octets built from the digits of a code point from 0x800 decode to it. */
  lemma DecodeThreeDigits(a: int, x: int, y: int, v: int)
    requires 0 <= a < 0x10 && 0 <= x < 0x40 && 0 <= y < 0x40
    requires v == (a * 0x40 + x) * 0x40 + y && 0x800 <= v < 0x1_0000 && !(0xD800 <= v < 0xE000)
    ensures DecodeOctets(0xE0 + a, [0x80 + x, 0x80 + y]) == Some(v as char)
  {
    Unpack(2, x);
    Unpack(2, y);
    assert (0xE0 + a) % 0x10 == a by {
      assert 0xE0 + a == 0x0E * 0x10 + a;
    }
  }

  /** The four octets built from the digits of a supplementary code point decode to it. */
  lemma DecodeFourDigits(a: int, x: int, y: int, z: int, v: int)
    requires 0 <= a < 0x08 && 0 <= x < 0x40 && 0 <= y < 0x40 && 0 <= z < 0x40
    requires v == ((a * 0x40 + x) * 0x40 + y) * 0x40 + z && 0x1_0000 <= v <= 0x10_FFFF
    ensures DecodeOctets(0xF0 + a, [0x80 + x, 0x80 + y, 0x80 + z]) == Some(v as char)
  {
    Unpack(2, x);
    Unpack(2, y);
    Unpack(2, z);
    assert (0xF0 + a) % 0x08 == a by {
      assert 0xF0 + a == 0x1E * 0x08 + a;
    }
  }

  lemma EncodeFourOctets(c: char)
    requires 0x1_0000 <= c as int
    ensures var e := EncodeChar(c);
      |e| == 4 && LeadingOnes(e[0]) == 4 && IsContinuation(e[1]) && IsContinuation(e[2])
      && IsContinuation(e[3]) && DecodeOctets(e[0], e[1..]) == Some(c)
  {
    var v := c as int;
    var w1, z := v / 0x40, v % 0x40;
    var w2, y := w1 / 0x40, w1 % 0x40;
    var a, x := w2 / 0x40, w2 % 0x40;
    assert v == ((a * 0x40 + x) * 0x40 + y) * 0x40 + z;
    FourOctetDigits(a, x, y, z, v);
    var e := EncodeChar(c);
    assert e == [0xF0 + a, 0x80 + x, 0x80 + y, 0x80 + z];
    assert e[1..] == [0x80 + x, 0x80 + y, 0x80 + z];
    DecodeFourDigits(a, x, y, z, v);
  }

  /** The encoding of one code point is read back by the decoder as that code point. */
  lemma EncodeCharDecodes(c: char)
    ensures var e := EncodeChar(c);
      (|e| == 1 ==> e[0] < 0x80 && e[0] as char == c) &&
      (|e| > 1 ==> e[0] >= 0x80 && LeadingOnes(e[0]) == |e|
                   && (forall i :: 1 <= i < |e| ==> IsContinuation(e[i]))
                   && DecodeOctets(e[0], e[1..]) == Some(c))
  {
    var v := c as int;
    if v < 0x80 {
    } else if v < 0x800 {
      EncodeTwoOctets(c);
    } else if v < 0x1_0000 {
      EncodeThreeOctets(c);
    } else {
      EncodeFourOctets(c);
    }
  }

  /** What a successful decode of an escape of an octet at or above 0x80 consists of. */
  lemma DecodeMultiOctet(s: string, t: string)
    requires |s| >= 3 && s[0] == '%' && IsHexDigit(s[1]) && IsHexDigit(s[2])
    requires OctetValue(s[1], s[2]) >= 0x80 && DecodeUriComponent(s) == Ok(t)
    ensures var b := OctetValue(s[1], s[2]); var n := LeadingOnes(b);
      2 <= n <= 4 && ContinuationOctets(s[3..], n - 1).Some?
      && DecodeOctets(b, ContinuationOctets(s[3..], n - 1).value).Some?
      && DecodeUriComponent(s[3 * n..]).Ok?
      && t == [DecodeOctets(b, ContinuationOctets(s[3..], n - 1).value).value]
              + DecodeUriComponent(s[3 * n..]).value
  {
  }

  /** Soundness: the text decoded from a string of escapes re-encodes, as UTF-8, to
      exactly the escaped octets. */
  lemma {:induction false} DecodeSound(s: string, t: string)
    requires PercentTriples(s) && DecodeUriComponent(s) == Ok(t)
    ensures Encode(t) == PercentBytes(s)
    decreases |s|
  {
    if s != [] {
      var n, c, rest := DecodeHead(s, t);
      var bs := PercentBytes(s);
      TriplesDrop(s, n);
      DecodeSound(s[3 * n..], rest);
      assert t[1..] == rest;
      assert Encode(t) == EncodeChar(c) + Encode(rest);
      assert bs == bs[..n] + bs[n..];
    }
  }

  /** The first code point decoded from a non-empty string of escapes, the number of
      escapes it takes, and the decode of the remaining ones. */
  lemma DecodeHead(s: string, t: string) returns (n: nat, c: char, rest: string)
    requires PercentTriples(s) && s != [] && DecodeUriComponent(s) == Ok(t)
    ensures 1 <= n && 3 * n <= |s| && t == [c] + rest
    ensures DecodeUriComponent(s[3 * n..]) == Ok(rest)
    ensures EncodeChar(c) == PercentBytes(s)[..n]
  {
    var b := OctetValue(s[1], s[2]);
    var bs := PercentBytes(s);
    if b < 0x80 {
      n := 1;
      rest := DecodeUriComponent(s[3..]).value;
      c := b as char;
      assert bs[..1] == [b];
    } else {
      DecodeMultiOctet(s, t);
      n := LeadingOnes(b);
      rest := DecodeUriComponent(s[3 * n..]).value;
      c := t[0];
      DecodeSoundFirst(s, n, ContinuationOctets(s[3..], n - 1).value, c);
    }
  }

  /** The first code point of a multi-octet decode re-encodes to the first octets. */
  lemma DecodeSoundFirst(s: string, n: nat, cont: seq<Byte>, c: char)
    requires PercentTriples(s) && s != []
    requires OctetValue(s[1], s[2]) >= 0x80 && n == LeadingOnes(OctetValue(s[1], s[2])) && 2 <= n <= 4
    requires ContinuationOctets(s[3..], n - 1) == Some(cont)
    requires DecodeOctets(OctetValue(s[1], s[2]), cont) == Some(c)
    ensures 3 * n <= |s| && EncodeChar(c) == PercentBytes(s)[..n]
  {
    var bs := PercentBytes(s);
    assert PercentBytes(s[3..]) == bs[1..];
    ContinuationRead(s[3..], n - 1);
    assert cont == bs[1..n];
    DecodeOctetsSound(bs[0], cont, c);
    assert bs[..n] == [bs[0]] + bs[1..n];
  }

  /** Completeness: escaping the UTF-8 encoding of a text (in hex digits of either case)
      gives a string that decodes to that text. */
  lemma {:induction false} DecodeComplete(s: string, t: string)
    requires PercentTriples(s) && PercentBytes(s) == Encode(t)
    ensures DecodeUriComponent(s) == Ok(t)
    decreases |t|
  {
    if t != [] {
      var n := CompleteHead(s, t);
      DecodeComplete(s[3 * n..], t[1..]);
      assert [t[0]] + t[1..] == t;
    }
  }

  /** The escapes of the first code point's octets decode to that code point, in front of
      whatever the remaining escapes decode to. */
  lemma CompleteHead(s: string, t: string) returns (n: nat)
    requires PercentTriples(s) && PercentBytes(s) == Encode(t) && t != []
    ensures 1 <= n && 3 * n <= |s|
    ensures PercentTriples(s[3 * n..]) && PercentBytes(s[3 * n..]) == Encode(t[1..])
    ensures DecodeUriComponent(s[3 * n..]).Ok? ==>
      DecodeUriComponent(s) == Ok([t[0]] + DecodeUriComponent(s[3 * n..]).value)
  {
    var e := EncodeChar(t[0]);
    n := |e|;
    var bs := PercentBytes(s);
    assert bs == e + Encode(t[1..]);
    assert bs[..n] == e && bs[n..] == Encode(t[1..]);
    EncodeCharDecodes(t[0]);
    var b := OctetValue(s[1], s[2]);
    assert b == e[0];
    TriplesDrop(s, n);
    if n > 1 {
      assert ContinuationOctets(s[3..], n - 1) == Some(e[1..]) by {
        assert PercentBytes(s[3..]) == bs[1..];
        assert bs[1..][..n - 1] == e[1..];
        forall i | 0 <= i < n - 1 ensures IsContinuation(PercentBytes(s[3..])[i]) {
          assert PercentBytes(s[3..])[i] == e[i + 1];
        }
        ContinuationFound(s[3..], n - 1);
      }
      assert s[3..][3 * (n - 1)..] == s[3 * n..];
    }
  }
}
