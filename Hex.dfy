/** The hex text codec: fromStringToHex writes every UTF-16 code unit of a string as
    lower-case base-16 digits without padding; fromHexToString cuts a hex text into
    two-character groups, puts '%' before each and hands the result to
    decodeURIComponent. */
module Hex {
  import opened Wrappers
  import opened Utf8
  import opened Uri

  type CodeUnit = u: int | 0 <= u < 0x1_0000

  /** The UTF-16 code units of one character: itself below U+10000, else a surrogate pair. */
  function CodeUnitsOf(c: char): (us: seq<CodeUnit>)
    ensures |us| == if c as int < 0x1_0000 then 1 else 2
  {
    var v := c as int;
    if v < 0x1_0000 then [v]
    else [0xD800 + (v - 0x1_0000) / 0x400, 0xDC00 + (v - 0x1_0000) % 0x400]
  }

  /** A string as JavaScript stores it: what length and charCodeAt index. */
  function CodeUnits(s: string): (us: seq<CodeUnit>)
    ensures |s| <= |us| <= 2 * |s|
  {
    if s == [] then [] else CodeUnits(s[..|s| - 1]) + CodeUnitsOf(s[|s| - 1])
  }

  predicate IsLowerHexDigit(c: char) {
    '0' <= c <= '9' || 'a' <= c <= 'f'
  }

  /** A text of lower-case hex digits only. */
  predicate LowerHexText(s: string) {
    forall i :: 0 <= i < |s| ==> IsLowerHexDigit(s[i])
  }

  lemma LowerHexConcat(a: string, b: string)
    requires LowerHexText(a) && LowerHexText(b)
    ensures LowerHexText(a + b)
  {
    assert forall i :: |a| <= i < |a + b| ==> (a + b)[i] == b[i - |a|];
  }

  function LowerHexDigit(d: nat): (c: char)
    requires d < 16
    ensures IsLowerHexDigit(c) && HexDigitValue(c) == d
  {
    if d < 10 then ('0' as int + d) as char else ('a' as int + d - 10) as char
  }

  /** Number.prototype.toString(16) on a non-negative integer. */
  function ToBase16(n: nat): (r: string)
    ensures 1 <= |r|
    ensures LowerHexText(r)
    ensures r[0] == '0' ==> n == 0
    ensures |r| == 1 <==> n < 16
    ensures 16 <= n < 0x100 ==> |r| == 2
  {
    if n < 16 then [LowerHexDigit(n)] else ToBase16(n / 16) + [LowerHexDigit(n % 16)]
  }

  /** The number a text of hex digits denotes, most significant digit first. */
  function HexNumber(s: string): nat
    requires AllHexDigits(s)
  {
    if s == [] then 0 else 16 * HexNumber(s[..|s| - 1]) + HexDigitValue(s[|s| - 1])
  }

  /** toString(16) is read back by hex parsing: no digit is lost or invented. */
  lemma {:induction false} ToBase16Value(n: nat)
    ensures HexNumber(ToBase16(n)) == n
  {
    if n >= 16 {
      ToBase16Value(n / 16);
      var r := ToBase16(n);
      assert r[..|r| - 1] == ToBase16(n / 16);
    }
  }

  /** The digits of every code unit in order, each unpadded. */
  function HexOfUnits(us: seq<CodeUnit>): string
  {
    if us == [] then "" else HexOfUnits(us[..|us| - 1]) + ToBase16(us[|us| - 1])
  }

  /** What fromStringToHex returns: empty exactly for the empty string, otherwise lower-case
      hex digits only, at least one per code unit. */
  function HexEncode(s: string): (r: string)
    ensures r == [] <==> s == []
    ensures |r| >= |CodeUnits(s)|
    ensures LowerHexText(r)
  {
    HexOfUnitsDigits(CodeUnits(s));
    HexOfUnits(CodeUnits(s))
  }

  method FromStringToHex(txt: string) returns (result: string)
    ensures result == HexEncode(txt)
  {
    var str := CodeUnits(txt);
    result := "";
    for i := 0 to |str|
      invariant result == HexOfUnits(str[..i])
    {
      assert str[..i + 1][..i] == str[..i];
      result := result + ToBase16(str[i]);
    }
    assert str[..|str|] == str;
  }

  lemma {:induction false} HexOfUnitsAppend(a: seq<CodeUnit>, b: seq<CodeUnit>)
    ensures HexOfUnits(a + b) == HexOfUnits(a) + HexOfUnits(b)
    decreases |b|
  {
    if b != [] {
      assert (a + b)[..|a + b| - 1] == a + b[..|b| - 1];
      assert (a + b)[|a + b| - 1] == b[|b| - 1];
      HexOfUnitsAppend(a, b[..|b| - 1]);
      calc {
        HexOfUnits(a + b);
        HexOfUnits(a + b[..|b| - 1]) + ToBase16(b[|b| - 1]);
        HexOfUnits(a) + HexOfUnits(b[..|b| - 1]) + ToBase16(b[|b| - 1]);
        HexOfUnits(a) + (HexOfUnits(b[..|b| - 1]) + ToBase16(b[|b| - 1]));
      }
    } else {
      assert a + b == a;
    }
  }

  lemma {:induction false} CodeUnitsAppend(a: string, b: string)
    ensures CodeUnits(a + b) == CodeUnits(a) + CodeUnits(b)
    decreases |b|
  {
    if b == [] {
      assert a + b == a;
    } else {
      assert (a + b)[..|a + b| - 1] == a + b[..|b| - 1];
      CodeUnitsAppend(a, b[..|b| - 1]);
    }
  }

  /** The encoding of a concatenation is the concatenation of the encodings. */
  lemma HexEncodeAppend(a: string, b: string)
    ensures HexEncode(a + b) == HexEncode(a) + HexEncode(b)
  {
    CodeUnitsAppend(a, b);
    HexOfUnitsAppend(CodeUnits(a), CodeUnits(b));
  }

  /** A character in 0x10..0xFF adds exactly two digits wherever it is inserted. */
  lemma HexEncodeInsert(a: string, c: char, b: string)
    requires 0x10 <= c as int < 0x100
    ensures |HexEncode(a + [c] + b)| == |HexEncode(a + b)| + 2
  {
    HexEncodeAppend(a + [c], b);
    HexEncodeAppend(a, [c]);
    HexEncodeAppend(a, b);
    assert |HexEncode([c])| == 2 by {
      HexEncodeTwoDigits([c]);
    }
  }

  /** Taking out a character in 0x10..0xFF takes out exactly two digits. */
  lemma HexEncodeRemoveAt(s: string, i: nat)
    requires i < |s| && 0x10 <= s[i] as int < 0x100
    ensures |HexEncode(s[..i] + s[i + 1..])| + 2 == |HexEncode(s)|
  {
    assert s == s[..i] + [s[i]] + s[i + 1..];
    HexEncodeInsert(s[..i], s[i], s[i + 1..]);
  }

  lemma {:induction false} HexOfUnitsDigits(us: seq<CodeUnit>)
    ensures |HexOfUnits(us)| >= |us|
    ensures LowerHexText(HexOfUnits(us))
  {
    if us != [] {
      HexOfUnitsDigits(us[..|us| - 1]);
    }
  }

  /** Below U+10000 a character is a single code unit with its own value. */
  lemma {:induction false} CodeUnitsBmp(s: string)
    requires forall i :: 0 <= i < |s| ==> s[i] as int < 0x1_0000
    ensures |CodeUnits(s)| == |s|
    ensures forall i :: 0 <= i < |s| ==> CodeUnits(s)[i] == s[i] as int
  {
    if s != [] {
      CodeUnitsBmp(s[..|s| - 1]);
    }
  }

  // ---------------------------------------------------------------------------------
  // Decoding

  /** The characters JavaScript's '.' does not match. */
  predicate IsLineTerminator(c: char) {
    c == '\n' || c == '\r' || c == '\U{2028}' || c == '\U{2029}'
  }

  predicate NoLineTerminator(s: string) {
    forall i :: 0 <= i < |s| ==> !IsLineTerminator(s[i])
  }

  /** The matches of /.{1,2}/g, in order: runs of characters other than line terminators,
      cut into pairs, with a single character left at the end of an odd run. Without the
      u flag the expression pairs UTF-16 code units, while these groups pair characters;
      the decode is the same, because a character above U+FFFF leaves a group that is not
      two hex digits in both readings, and the decode then fails. */
  function Groups(s: string): (gs: seq<string>)
    ensures forall i :: 0 <= i < |gs| ==> 1 <= |gs[i]| <= 2
    decreases |s|
  {
    if s == [] then []
    else if IsLineTerminator(s[0]) then Groups(s[1..])
    else if |s| >= 2 && !IsLineTerminator(s[1]) then [s[..2]] + Groups(s[2..])
    else [s[..1]] + Groups(s[1..])
  }

  /** Array.prototype.join. */
  function Join(gs: seq<string>, sep: string): string
  {
    if gs == [] then "" else if |gs| == 1 then gs[0] else gs[0] + sep + Join(gs[1..], sep)
  }

  /** The argument fromHexToString gives decodeURIComponent; a failed match (null)
      turns into the text "undefined". */
  function PercentText(hex: string): string
  {
    var groups := Groups(hex);
    "%" + if groups == [] then "undefined" else Join(groups, "%")
  }

  /** fromHexToString: decodeURIComponent of the percent text. Whatever it returns was
      spelled by the groups: there is at least one, each is two hex digits, and their
      octets are the UTF-8 encoding of the result. */
  function FromHexToString(hex: string): (r: Result<string, UriError>)
    ensures r.Ok? ==>
      Groups(hex) != [] && GroupsOk(Groups(hex)) && Encode(r.value) == GroupBytes(Groups(hex))
  {
    var gs := Groups(hex);
    var s := PercentText(hex);
    if gs == [] then
      // "%undefined": the 'u' is not a hex digit
      assert s[1] == 'u';
      DecodeUriComponent(s)
    else
      var r := DecodeUriComponent(s);
      if r.Err? then r
      else
        DecodeOkIsWellPercented(s);
        JoinedWellPercented(gs);
        JoinedTriples(gs);
        DecodeSound(s, r.value);
        r
  }

  /** Every group is two hex digits. */
  predicate GroupsOk(gs: seq<string>) {
    forall i :: 0 <= i < |gs| ==> |gs[i]| == 2 && IsHexDigit(gs[i][0]) && IsHexDigit(gs[i][1])
  }

  function GroupBytes(gs: seq<string>): (bs: seq<Byte>)
    requires GroupsOk(gs)
  {
    if gs == [] then [] else [OctetValue(gs[0][0], gs[0][1])] + GroupBytes(gs[1..])
  }

  lemma {:induction false} JoinedTriples(gs: seq<string>)
    requires gs != [] && GroupsOk(gs)
    ensures PercentTriples("%" + Join(gs, "%"))
    ensures PercentBytes("%" + Join(gs, "%")) == GroupBytes(gs)
  {
    var s := "%" + Join(gs, "%");
    if |gs| == 1 {
      assert s[3..] == [];
    } else {
      JoinedTriples(gs[1..]);
      assert s[3..] == "%" + Join(gs[1..], "%");
    }
  }

  lemma {:induction false} JoinedWellPercented(gs: seq<string>)
    requires gs != [] && forall i :: 0 <= i < |gs| ==> 1 <= |gs[i]| <= 2
    requires WellPercented("%" + Join(gs, "%"))
    ensures GroupsOk(gs)
  {
    var s := "%" + Join(gs, "%");
    if |gs| > 1 {
      assert s == "%" + gs[0] + ("%" + Join(gs[1..], "%"));
      if |gs[0]| == 2 {
        assert s[3..] == "%" + Join(gs[1..], "%");
        JoinedWellPercented(gs[1..]);
      }
    }
  }

  /** fromHexToString in terms of the regular-expression groups: it succeeds with t
      exactly when there is at least one group, every group is two hex digits, and t is
      the UTF-8 text those octets encode. */
  lemma FromHexToStringByGroups(hex: string, t: string)
    ensures FromHexToString(hex) == Ok(t) <==>
      Groups(hex) != [] && GroupsOk(Groups(hex)) && Encode(t) == GroupBytes(Groups(hex))
  {
    var gs := Groups(hex);
    if gs != [] && GroupsOk(gs) && Encode(t) == GroupBytes(gs) {
      JoinedTriples(gs);
      DecodeComplete(PercentText(hex), t);
    }
  }

  predicate AllHexDigits(s: string) {
    forall i :: 0 <= i < |s| ==> IsHexDigit(s[i])
  }

  /** The octets of consecutive two-digit groups of a hex text. */
  function HexBytes(hex: string): (bs: seq<Byte>)
    requires |hex| % 2 == 0 && AllHexDigits(hex)
    ensures 2 * |bs| == |hex|
  {
    if hex == [] then [] else [OctetValue(hex[0], hex[1])] + HexBytes(hex[2..])
  }

  lemma {:induction false} GroupsOfPlainHex(hex: string)
    requires NoLineTerminator(hex)
    ensures Groups(hex) == [] <==> hex == []
    ensures GroupsOk(Groups(hex)) <==> |hex| % 2 == 0 && AllHexDigits(hex)
    ensures GroupsOk(Groups(hex)) ==> GroupBytes(Groups(hex)) == HexBytes(hex)
    decreases |hex|
  {
    if |hex| >= 2 {
      GroupsOfPlainHex(hex[2..]);
      var gs := Groups(hex);
      assert gs == [hex[..2]] + Groups(hex[2..]);
      assert gs[1..] == Groups(hex[2..]);
      if AllHexDigits(hex) {
        assert AllHexDigits(hex[2..]);
      }
      if GroupsOk(Groups(hex[2..])) && IsHexDigit(hex[0]) && IsHexDigit(hex[1]) {
        forall i | 0 <= i < |hex| ensures IsHexDigit(hex[i]) {
          if i >= 2 { assert hex[i] == hex[2..][i - 2]; }
        }
      }
    }
  }

  /** fromHexToString on a text without line terminators: it returns t exactly when the
      text is a non-empty, even-length run of hex digits of either case whose octets are
      the UTF-8 encoding of t. */
  lemma FromHexToStringSpec(hex: string, t: string)
    requires NoLineTerminator(hex)
    ensures FromHexToString(hex) == Ok(t) <==>
      hex != [] && |hex| % 2 == 0 && AllHexDigits(hex) && Encode(t) == HexBytes(hex)
  {
    FromHexToStringByGroups(hex, t);
    GroupsOfPlainHex(hex);
  }

  /** The failure cases: empty input (the match is null and "%undefined" is malformed),
      odd length (the last group has one digit), a non-hex character, and octets that
      are not UTF-8. There are no others. */
  lemma FromHexToStringFails(hex: string)
    requires NoLineTerminator(hex)
    ensures FromHexToString(hex).Err? <==>
      hex == [] || |hex| % 2 == 1 || !AllHexDigits(hex) || !IsUtf8(HexBytes(hex))
  {
    match FromHexToString(hex)
    case Ok(t) =>
      FromHexToStringSpec(hex, t);
    case Err(_) =>
      if hex != [] && |hex| % 2 == 0 && AllHexDigits(hex) && IsUtf8(HexBytes(hex)) {
        var t :| Encode(t) == HexBytes(hex);
        FromHexToStringSpec(hex, t);
      }
  }

  lemma {:induction false} HexBytesAppend(a: string, b: string)
    requires |a| % 2 == 0 && AllHexDigits(a) && |b| % 2 == 0 && AllHexDigits(b)
    ensures AllHexDigits(a + b)
    ensures HexBytes(a + b) == HexBytes(a) + HexBytes(b)
    decreases |a|
  {
    if a != [] {
      assert (a + b)[2..] == a[2..] + b;
      HexBytesAppend(a[2..], b);
    } else {
      assert a + b == b;
    }
  }

  /** A code unit in 0x10..0xFF is written as exactly two digits, which read back as
      that code unit. */
  lemma TwoDigitUnit(u: CodeUnit)
    requires 0x10 <= u < 0x100
    ensures var r := ToBase16(u); |r| == 2 && AllHexDigits(r) && HexBytes(r) == [u]
  {
    var r := ToBase16(u);
    assert ToBase16(u / 16) == [LowerHexDigit(u / 16)];
    assert r == [LowerHexDigit(u / 16), LowerHexDigit(u % 16)];
    assert r[2..] == [];
  }

  /** Code units in 0x10..0xFF give two digits each: the output is twice as long as the
      input, and its two-digit groups are the code units again. */
  lemma {:induction false} TwoDigitUnits(us: seq<CodeUnit>)
    requires forall i :: 0 <= i < |us| ==> 0x10 <= us[i] < 0x100
    ensures |HexOfUnits(us)| == 2 * |us| && AllHexDigits(HexOfUnits(us))
    ensures forall i :: 0 <= i < |us| ==> HexBytes(HexOfUnits(us))[i] == us[i]
  {
    if us != [] {
      var init, last := us[..|us| - 1], us[|us| - 1];
      TwoDigitUnits(init);
      TwoDigitUnit(last);
      HexBytesAppend(HexOfUnits(init), ToBase16(last));
      forall i | 0 <= i < |us| ensures HexBytes(HexOfUnits(us))[i] == us[i] {
        if i < |us| - 1 {
          assert us[i] == init[i];
        }
      }
    }
  }

  /** For strings of characters in 0x10..0xFF, the encoding has exactly two digits per
      character, and its two-digit groups spell the character codes. */
  lemma HexEncodeTwoDigits(s: string)
    requires forall i :: 0 <= i < |s| ==> 0x10 <= s[i] as int < 0x100
    ensures |HexEncode(s)| == 2 * |s| && AllHexDigits(HexEncode(s))
    ensures forall i :: 0 <= i < |s| ==> HexBytes(HexEncode(s))[i] == s[i] as int
  {
    CodeUnitsBmp(s);
    TwoDigitUnits(CodeUnits(s));
  }

  /** The round trip holds for every non-empty string whose characters are in 0x10..0x7F. */
  lemma RoundTrip(s: string)
    requires s != [] && forall i :: 0 <= i < |s| ==> 0x10 <= s[i] as int < 0x80
    ensures FromHexToString(HexEncode(s)) == Ok(s)
  {
    var hex := HexEncode(s);
    HexEncodeTwoDigits(s);
    EncodeAscii(s);
    assert Encode(s) == HexBytes(hex);
    FromHexToStringSpec(hex, s);
  }

  /** Without padding the encoding is not injective: U+0001 U+0002 and U+0012 both
      become "12". */
  lemma HexEncodeNotInjective()
    ensures HexEncode("\U{1}\U{2}") == HexEncode("\U{12}") == "12"
  {
    assert CodeUnits("\U{1}") == [1] by {
      assert "\U{1}"[..0] == [];
    }
    assert CodeUnits("\U{1}\U{2}") == [1, 2] by {
      assert "\U{1}\U{2}"[..1] == "\U{1}";
    }
    assert CodeUnits("\U{12}") == [0x12] by {
      assert "\U{12}"[..0] == [];
    }
    assert HexOfUnits([1, 2]) == "12" by {
      assert [1, 2][..1] == [1];
      assert [1][..0] == [];
    }
    assert HexOfUnits([0x12]) == "12" by {
      assert [0x12][..0] == [];
      assert ToBase16(0x12) == "12";
    }
  }

  /** The round trip breaks outside 0x10..0x7F: U+0001 encodes to the odd-length "1", and
      U+00E9 to "e9", a lone lead octet of a three-octet UTF-8 sequence. */
  lemma RoundTripBreaks()
    ensures FromHexToString(HexEncode("\U{1}")).Err?
    ensures FromHexToString(HexEncode("\U{E9}")).Err?
  {
    assert HexEncode("\U{1}") == "1";
    assert PercentText("1") == "%1";
    assert ToBase16(0xE9) == "e9";
    assert HexEncode("\U{E9}") == "e9";
    assert Groups("e9") == ["e9"] by {
      assert "e9"[..2] == "e9" && "e9"[2..] == [];
    }
    assert PercentText("e9") == "%e9";
    assert DecodeUriComponent("%e9") == Err(MalformedUri) by {
      assert OctetValue('e', '9') == 0xE9;
    }
  }

  /** ASCII lower-casing, which leaves hex values alone. */
  function LowerAscii(s: string): (r: string)
    ensures |r| == |s|
  {
    seq(|s|, i requires 0 <= i < |s| => if 'A' <= s[i] <= 'Z' then (s[i] as int + 32) as char else s[i])
  }

  lemma {:induction false} LowerAsciiBytes(hex: string)
    requires |hex| % 2 == 0 && AllHexDigits(hex)
    ensures AllHexDigits(LowerAscii(hex))
    ensures HexBytes(LowerAscii(hex)) == HexBytes(hex)
    decreases |hex|
  {
    if hex != [] {
      assert LowerAscii(hex)[2..] == LowerAscii(hex[2..]);
      LowerAsciiBytes(hex[2..]);
    }
  }

  /** Upper-case and lower-case hex digits decode the same. */
  lemma FromHexToStringIgnoresCase(hex: string)
    requires NoLineTerminator(hex)
    ensures FromHexToString(LowerAscii(hex)) == FromHexToString(hex)
  {
    var low := LowerAscii(hex);
    assert NoLineTerminator(low);
    if |hex| % 2 == 0 && AllHexDigits(hex) {
      LowerAsciiBytes(hex);
    }
    if !AllHexDigits(hex) {
      var i :| 0 <= i < |hex| && !IsHexDigit(hex[i]);
      assert !IsHexDigit(low[i]);
    }
    var a, b := FromHexToString(hex), FromHexToString(low);
    if a.Ok? {
      FromHexToStringSpec(hex, a.value);
      FromHexToStringSpec(low, a.value);
    } else if b.Ok? {
      FromHexToStringSpec(hex, b.value);
      FromHexToStringSpec(low, b.value);
    } else {
      assert a.error == b.error == MalformedUri;
    }
  }

  /** '.' does not match a line break, so the regular expression skips it: a hex text
      broken over two lines still decodes. */
  lemma LineBreaksAreSkipped()
    ensures FromHexToString("41\n42") == Ok("AB")
  {
    BrokenLineGroups();
    BrokenLineBytes();
    assert Encode("AB") == [0x41, 0x42] by {
      assert "AB"[1..] == "B";
    }
    FromHexToStringByGroups("41\n42", "AB");
  }

  lemma BrokenLineGroups()
    ensures Groups("41\n42") == ["41", "42"]
  {
    var s := "41\n42";
    assert s[..2] == "41" && s[2..] == "\n42";
    assert Groups(s) == ["41"] + Groups("\n42");
    assert "\n42"[1..] == "42";
    assert Groups("\n42") == Groups("42");
    assert "42"[..2] == "42" && "42"[2..] == [];
    assert Groups("42") == ["42"];
  }

  lemma BrokenLineBytes()
    ensures GroupsOk(["41", "42"]) && GroupBytes(["41", "42"]) == [0x41, 0x42]
  {
    var gs := ["41", "42"];
    assert gs[1..] == ["42"];
    assert OctetValue('4', '1') == 0x41 && OctetValue('4', '2') == 0x42;
  }
}
