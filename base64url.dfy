/** The URL-safe base64 token of src/lib/share.js: the alphabet of section 5
    of RFC 4648 with the padding stripped, produced through the host's
    `btoa` and read back through the host's `atob` (the forgiving-base64
    decode of the HTML standard). */
module Base64Url {
  import opened Prelude

  /** A 6-bit value: one character of base64 text. */
  type Sextet = x: int | 0 <= x < 64

  // ---------------------------------------------------------------------
  // Alphabets

  /** Table 1 of RFC 4648 (section 4): the alphabet `btoa` writes. */
  function StdChar(v: Sextet): (c: char)
    ensures c != '=' && !IsAsciiWhitespace(c)
  {
    if v < 26 then ('A' as int + v) as char
    else if v < 52 then ('a' as int + (v - 26)) as char
    else if v < 62 then ('0' as int + (v - 52)) as char
    else if v == 62 then '+'
    else '/'
  }

  /** The value of a character of table 1, if it is one. */
  function StdValue(c: char): (r: Option<Sextet>)
    ensures r.Some? ==> StdChar(r.value) == c
  {
    if 'A' <= c <= 'Z' then Some(c as int - 'A' as int)
    else if 'a' <= c <= 'z' then Some(c as int - 'a' as int + 26)
    else if '0' <= c <= '9' then Some(c as int - '0' as int + 52)
    else if c == '+' then Some(62)
    else if c == '/' then Some(63)
    else None
  }

  /** Every character of table 1 reads back as its value, so with the
      ensures of StdValue the table is a bijection. */
  lemma StdValueOfChar(v: Sextet)
    ensures StdValue(StdChar(v)) == Some(v)
  {
  }

  /** Table 2 of RFC 4648 (section 5): the URL and file name safe alphabet,
      which differs from table 1 in values 62 and 63 only. */
  function UrlChar(v: Sextet): (c: char)
    ensures c != '+' && c != '/' && c != '='
    ensures v < 62 ==> c == StdChar(v)
  {
    if v == 62 then '-' else if v == 63 then '_' else StdChar(v)
  }

  /** Text in table 1. */
  function StdText(vs: seq<Sextet>): string {
    seq(|vs|, i requires 0 <= i < |vs| => StdChar(vs[i]))
  }

  /** Text in table 2. */
  function UrlText(vs: seq<Sextet>): string {
    seq(|vs|, i requires 0 <= i < |vs| => UrlChar(vs[i]))
  }

  // ---------------------------------------------------------------------
  // Octets to text: btoa

  /** The 6-bit values of a group of one to three octets, taken from the
      top of the octets' bits; a partial group is filled with zero bits up
      to a whole value (section 4 of RFC 4648). */
  function EncodeGroup(g: seq<byte>): (vs: seq<Sextet>)
    requires 1 <= |g| <= 3
    ensures |vs| == |g| + 1
  {
    var a := g[0] as int;
    var b := if |g| > 1 then g[1] as int else 0;
    var c := if |g| > 2 then g[2] as int else 0;
    [a / 4, (a % 4) * 16 + b / 16]
      + (if |g| > 1 then [(b % 16) * 4 + c / 64] else [])
      + (if |g| > 2 then [c % 64] else [])
  }

  /** The 6-bit values of a run of octets, three octets at a time. */
  function Sextets(b: seq<byte>): (vs: seq<Sextet>)
    ensures |vs| == (4 * |b| + 2) / 3
    decreases |b|
  {
    if |b| == 0 then []
    else if |b| <= 3 then EncodeGroup(b)
    else EncodeGroup(b[..3]) + Sextets(b[3..])
  }

  /** The '=' characters that complete the last group of four. */
  function Padding(n: nat): (pad: string)
    ensures pad == "" || pad == "=" || pad == "=="
    ensures (4 * n + 2) / 3 + |pad| == 4 * ((n + 2) / 3)
    ensures (4 * n + 2) / 3 % 4 != 1
  {
    var q := n / 3;
    if n % 3 == 1 then
      assert 4 * n + 2 == 3 * (4 * q + 2) && (n + 2) / 3 == q + 1;
      "=="
    else if n % 3 == 2 then
      assert 4 * n + 2 == 3 * (4 * q + 3) + 1 && (n + 2) / 3 == q + 1;
      "="
    else
      assert 4 * n + 2 == 3 * (4 * q) + 2 && (n + 2) / 3 == q;
      ""
  }

  /** `btoa(String.fromCharCode(...bytes))`: the binary string of the
      octets in padded base64 (section 4 of RFC 4648). */
  function Btoa(b: seq<byte>): (s: string)
    ensures |s| == 4 * ((|b| + 2) / 3)
  {
    StdText(Sextets(b)) + Padding(|b|)
  }

  /** `s.replace(/x/g, y)` for a single character `x`. */
  function ReplaceAll(s: string, x: char, y: char): string {
    seq(|s|, i requires 0 <= i < |s| => if s[i] == x then y else s[i])
  }

  /** `s.replace(/=+$/g, '')` with `c` for '=': the run of `c` at the end
      of `s` removed. */
  function StripTrailing(s: string, c: char): (r: string)
    ensures r <= s && (|r| == 0 || r[|r| - 1] != c)
    ensures forall i :: |r| <= i < |s| ==> s[i] == c
    decreases |s|
  {
    if |s| > 0 && s[|s| - 1] == c then StripTrailing(s[..|s| - 1], c) else s
  }

  /** `toBase64Url(bytes)`: base64 with '+' and '/' replaced by '-' and '_'
      and the trailing '=' removed. */
  function ToBase64Url(b: seq<byte>): string {
    StripTrailing(ReplaceAll(ReplaceAll(Btoa(b), '+', '-'), '/', '_'), '=')
  }

  /** The substitutions turn padded table-1 text into padded table-2 text. */
  lemma ReplaceToUrl(vs: seq<Sextet>, pad: string)
    requires forall i :: 0 <= i < |pad| ==> pad[i] == '='
    ensures ReplaceAll(ReplaceAll(StdText(vs) + pad, '+', '-'), '/', '_') == UrlText(vs) + pad
  {
    var s := ReplaceAll(ReplaceAll(StdText(vs) + pad, '+', '-'), '/', '_');
    forall i | 0 <= i < |s|
      ensures s[i] == (UrlText(vs) + pad)[i]
    {
      if i < |vs| {
        assert (StdText(vs) + pad)[i] == StdChar(vs[i]);
      } else {
        assert (StdText(vs) + pad)[i] == pad[i - |vs|];
      }
    }
  }

  /** Removing the '=' run of padded table-2 text leaves the text. */
  lemma StripUrlPadding(vs: seq<Sextet>, pad: string)
    requires forall i :: 0 <= i < |pad| ==> pad[i] == '='
    ensures StripTrailing(UrlText(vs) + pad, '=') == UrlText(vs)
  {
    UrlTextEnd(vs);
    StripRun(UrlText(vs), pad, '=');
  }

  /** Table-2 text never ends in '='. */
  lemma UrlTextEnd(vs: seq<Sextet>)
    ensures |UrlText(vs)| == 0 || UrlText(vs)[|UrlText(vs)| - 1] != '='
  {
    if |vs| > 0 {
      assert UrlText(vs)[|vs| - 1] == UrlChar(vs[|vs| - 1]);
    }
  }

  /** Stripping the run of `c` from text that does not end in `c`, followed
      by a run of `c`, gives the text. */
  lemma {:induction false} StripRun(x: string, p: string, c: char)
    requires |x| == 0 || x[|x| - 1] != c
    requires forall i :: 0 <= i < |p| ==> p[i] == c
    ensures StripTrailing(x + p, c) == x
    decreases |p|
  {
    if |p| > 0 {
      var p' := p[..|p| - 1];
      assert (x + p)[..|x + p| - 1] == x + p';
      StripRun(x, p', c);
    } else {
      assert x + p == x;
    }
  }

  /** The token is the table-2 text of the octets' 6-bit values: no '+',
      '/' or '=' appear, and it is ceil(4n/3) characters long. */
  lemma ToBase64UrlText(b: seq<byte>)
    ensures ToBase64Url(b) == UrlText(Sextets(b))
    ensures |ToBase64Url(b)| == (4 * |b| + 2) / 3
    ensures forall i :: 0 <= i < |ToBase64Url(b)| ==>
              ToBase64Url(b)[i] != '+' && ToBase64Url(b)[i] != '/' && ToBase64Url(b)[i] != '='
  {
    ToBase64UrlIsUrlText(b);
  }

  /** The token is the table-2 text of the octets' 6-bit values. */
  lemma ToBase64UrlIsUrlText(b: seq<byte>)
    ensures ToBase64Url(b) == UrlText(Sextets(b))
  {
    var vs := Sextets(b);
    ReplaceToUrl(vs, Padding(|b|));
    StripUrlPadding(vs, Padding(|b|));
  }

  // ---------------------------------------------------------------------
  // Text to octets: atob

  /** The error `atob` raises (a DOMException named InvalidCharacterError). */
  datatype DomError = InvalidCharacterError

  /** ASCII whitespace of the HTML standard: tab, line feed, form feed,
      carriage return and space. */
  predicate IsAsciiWhitespace(c: char) {
    c == '\t' || c == '\n' || c as int == 0x0C || c == '\r' || c == ' '
  }

  /** Step 1 of forgiving-base64 decode: ASCII whitespace removed. */
  function RemoveWhitespace(s: string): (r: string)
    ensures |r| <= |s|
    ensures forall i :: 0 <= i < |r| ==> !IsAsciiWhitespace(r[i])
    decreases |s|
  {
    if |s| == 0 then []
    else (if IsAsciiWhitespace(s[0]) then [] else [s[0]]) + RemoveWhitespace(s[1..])
  }

  /** Whether `s` holds no ASCII whitespace. */
  ghost predicate NoWhitespace(s: string) {
    forall i :: 0 <= i < |s| ==> !IsAsciiWhitespace(s[i])
  }

  /** Step 1 leaves a text without whitespace as it is. */
  lemma {:induction false} RemoveNoWhitespace(s: string)
    requires NoWhitespace(s)
    ensures RemoveWhitespace(s) == s
    decreases |s|
  {
    if |s| > 0 {
      assert NoWhitespace(s[1..]) by {
        forall i | 0 <= i < |s| - 1
          ensures !IsAsciiWhitespace(s[1..][i])
        {
          assert s[1..][i] == s[i + 1];
        }
      }
      RemoveNoWhitespace(s[1..]);
      assert s == [s[0]] + s[1..];
    }
  }

  /** Step 2: a text whose length is a multiple of four loses one or two
      '=' at its end. */
  function DropPadding(d: string): string {
    if |d| % 4 == 0 && |d| >= 2 && d[|d| - 1] == '=' && d[|d| - 2] == '=' then d[..|d| - 2]
    else if |d| % 4 == 0 && |d| >= 1 && d[|d| - 1] == '=' then d[..|d| - 1]
    else d
  }

  /** Step 4: the values of the characters, or None if one of them is not
      in table 1. */
  function Values(d: string): (r: Option<seq<Sextet>>)
    ensures r.Some? ==> StdText(r.value) == d
    decreases |d|
  {
    if |d| == 0 then Some([])
    else match StdValue(d[0]) {
      case None => None
      case Some(v) =>
        match Values(d[1..]) {
          case None => None
          case Some(vs) => Some([v] + vs)
        }
    }
  }

  /** The octets of a group of two to four 6-bit values; the bits below the
      last whole octet are dropped. */
  function DecodeGroup(vs: seq<Sextet>): (g: seq<byte>)
    requires 2 <= |vs| <= 4
    ensures |g| == |vs| - 1
  {
    var s0, s1 := vs[0] as int, vs[1] as int;
    var s2 := if |vs| > 2 then vs[2] as int else 0;
    var s3 := if |vs| > 3 then vs[3] as int else 0;
    [(s0 * 4 + s1 / 16) as byte]
      + (if |vs| > 2 then [((s1 % 16) * 16 + s2 / 4) as byte] else [])
      + (if |vs| > 3 then [((s2 % 4) * 64 + s3) as byte] else [])
  }

  /** Steps 5 to 8: the octets of a run of 6-bit values, four at a time; a
      last group of two or three values yields one or two octets. */
  function DecodeSextets(vs: seq<Sextet>): (b: seq<byte>)
    requires |vs| % 4 != 1
    ensures |b| == 3 * |vs| / 4
    decreases |vs|
  {
    if |vs| == 0 then []
    else if |vs| <= 4 then
      assert 3 * |vs| / 4 == |vs| - 1 by { QuarterGroup(|vs|); }
      DecodeGroup(vs)
    else
      QuarterStep(|vs|);
      DecodeGroup(vs[..4]) + DecodeSextets(vs[4..])
  }

  lemma QuarterGroup(n: nat)
    requires 2 <= n <= 4
    ensures 3 * n / 4 == n - 1
  {
    if n == 2 { assert 3 * n == 4 * 1 + 2; }
    else if n == 3 { assert 3 * n == 4 * 2 + 1; }
    else { assert 3 * n == 4 * 3; }
  }

  /** A group of four values fewer leaves the remainder mod 4 and three
      octets fewer. */
  lemma QuarterStep(n: nat)
    requires n > 4
    ensures (n - 4) % 4 == n % 4
    ensures 3 * (n - 4) / 4 + 3 == 3 * n / 4
  {
    var q, r := n / 4, n % 4;
    assert n == 4 * q + r && 0 <= r < 4;
    assert n - 4 == 4 * (q - 1) + r;
    assert 3 * n == 4 * (3 * q) + 3 * r;
    assert 3 * n / 4 == 3 * q + 3 * r / 4;
    assert 3 * (n - 4) / 4 == 3 * (q - 1) + 3 * r / 4;
  }

  /** The characters of a binary string: one per octet, with its code. */
  function BinaryString(b: seq<byte>): (s: string)
    ensures |s| == |b|
    ensures forall i :: 0 <= i < |b| ==> s[i] as int == b[i] as int
  {
    seq(|b|, i requires 0 <= i < |b| => b[i] as int as char)
  }

  /** `atob(data)`: the forgiving-base64 decode of the HTML standard; the
      octets come back as a binary string. */
  function Atob(data: string): (r: Result<string, DomError>)
    ensures r.Success? ==> forall i :: 0 <= i < |r.value| ==> r.value[i] as int < 256
  {
    var d := DropPadding(RemoveWhitespace(data));
    if |d| % 4 == 1 then Failure(InvalidCharacterError)
    else match Values(d) {
      case None => Failure(InvalidCharacterError)
      case Some(vs) => Success(BinaryString(DecodeSextets(vs)))
    }
  }

  /** `'='.repeat(k)`. */
  function Repeat(c: char, k: nat): (s: string)
    ensures |s| == k && forall i :: 0 <= i < k ==> s[i] == c
  {
    seq(k, i => c)
  }

  /** The '=' fromBase64Url appends to a text of `len` characters. */
  function PadFor(len: nat): (pad: string)
    ensures (len + |pad|) % 4 == 0 && |pad| < 4
  {
    if len % 4 == 0 then "" else Repeat('=', 4 - len % 4)
  }

  /** The padded standard-alphabet text fromBase64Url hands to atob. */
  function StdForm(s: string): string {
    ReplaceAll(ReplaceAll(s, '-', '+'), '_', '/') + PadFor(|s|)
  }

  /** The octets of a binary string. */
  function OctetsOf(bin: string): (b: seq<byte>)
    requires forall i :: 0 <= i < |bin| ==> bin[i] as int < 256
    ensures |b| == |bin|
  {
    seq(|bin|, i requires 0 <= i < |bin| => bin[i] as int as byte)
  }

  /** What `fromBase64Url(s)` returns, or the error atob raises in it. */
  function FromBase64UrlResult(s: string): Result<seq<byte>, DomError> {
    match Atob(StdForm(s)) {
      case Failure(e) => Failure(e)
      case Success(bin) => Success(OctetsOf(bin))
    }
  }

  /** `fromBase64Url(s)`: restore the padding and the standard alphabet,
      decode, and copy the character codes into a fresh octet array. */
  method FromBase64Url(s: string) returns (r: Result<seq<byte>, DomError>)
    ensures r == FromBase64UrlResult(s)
  {
    var pad := if |s| % 4 == 0 then "" else Repeat('=', 4 - |s| % 4);
    var b64 := ReplaceAll(ReplaceAll(s, '-', '+'), '_', '/') + pad;
    assert pad == PadFor(|s|);
    assert b64 == StdForm(s);
    var decoded := Atob(b64);
    if decoded.Failure? {
      return Failure(decoded.error);
    }
    var bin := decoded.value;
    ghost var octets := OctetsOf(bin);
    var bytes := new byte[|bin|];
    for i := 0 to |bin|
      invariant bytes[..i] == octets[..i]
    {
      bytes[i] := bin[i] as int as byte;
      assert bytes[..i + 1] == bytes[..i] + [octets[i]];
    }
    assert bytes[..] == bytes[..|bin|] && octets == octets[..|bin|];
    r := Success(bytes[..]);
  }

  // ---------------------------------------------------------------------
  // Round trip

  /** A group of octets comes back from its 6-bit values. */
  lemma GroupRoundTrip(g: seq<byte>)
    requires 1 <= |g| <= 3
    ensures DecodeGroup(EncodeGroup(g)) == g
  {
    var a := g[0] as int;
    var b := if |g| > 1 then g[1] as int else 0;
    var c := if |g| > 2 then g[2] as int else 0;
    var vs := EncodeGroup(g);
    assert ((a % 4) * 16 + b / 16) / 16 == a % 4;
    assert a / 4 * 4 + a % 4 == a;
    if |g| > 1 {
      assert ((a % 4) * 16 + b / 16) % 16 == b / 16;
      assert ((b % 16) * 4 + c / 64) / 4 == b % 16;
      assert b / 16 * 16 + b % 16 == b;
    }
    if |g| > 2 {
      assert ((b % 16) * 4 + c / 64) % 4 == c / 64;
      assert c / 64 * 64 + c % 64 == c;
    }
    var r := DecodeGroup(vs);
    assert r[0] == g[0];
    assert |g| > 1 ==> r[1] == g[1];
    assert |g| > 2 ==> r[2] == g[2];
  }

  /** Decoding the 6-bit values of octets gives the octets back. */
  lemma {:induction false} DecodeSextetsOfSextets(b: seq<byte>)
    ensures |Sextets(b)| % 4 != 1
    ensures DecodeSextets(Sextets(b)) == b
    decreases |b|
  {
    var pad := Padding(|b|);
    if |b| == 0 {
    } else if |b| <= 3 {
      GroupRoundTrip(b);
    } else {
      var head, rest := EncodeGroup(b[..3]), Sextets(b[3..]);
      DecodeSextetsOfSextets(b[3..]);
      GroupRoundTrip(b[..3]);
      var all := head + rest;
      assert Sextets(b) == all;
      assert all[..4] == head && all[4..] == rest;
      assert DecodeSextets(all) == DecodeGroup(head) + DecodeSextets(rest);
      assert b == b[..3] + b[3..];
    }
  }

  /** Table-1 text reads back as its values. */
  lemma {:induction false} ValuesOfStdText(vs: seq<Sextet>)
    ensures Values(StdText(vs)) == Some(vs)
    decreases |vs|
  {
    if |vs| > 0 {
      StdValueOfChar(vs[0]);
      ValuesOfStdText(vs[1..]);
      assert StdText(vs)[1..] == StdText(vs[1..]);
      assert vs == [vs[0]] + vs[1..];
    }
  }

  /** The substitutions of fromBase64Url undo those of toBase64Url. */
  lemma UrlTextToStd(vs: seq<Sextet>)
    ensures ReplaceAll(ReplaceAll(UrlText(vs), '-', '+'), '_', '/') == StdText(vs)
  {
    var back := ReplaceAll(ReplaceAll(UrlText(vs), '-', '+'), '_', '/');
    forall i | 0 <= i < |vs|
      ensures back[i] == StdText(vs)[i]
    {
    }
  }

  /** fromBase64Url restores the padding toBase64Url stripped. */
  lemma PadForToken(n: nat)
    ensures PadFor((4 * n + 2) / 3) == Padding(n)
  {
    var len := (4 * n + 2) / 3;
    if n % 3 == 0 {
      assert len == 4 * (n / 3);
    } else if n % 3 == 1 {
      assert len == 4 * (n / 3) + 2;
      assert Repeat('=', 2) == "==";
    } else {
      assert len == 4 * (n / 3) + 3;
      assert Repeat('=', 1) == "=";
    }
  }

  /** The text fromBase64Url hands to atob for a token is the padded base64
      of the octets. */
  lemma StdFormOfToken(b: seq<byte>)
    ensures StdForm(ToBase64Url(b)) == Btoa(b)
  {
    ToBase64UrlIsUrlText(b);
    StdFormOfUrlText(Sextets(b), |b|);
  }

  /** Table-2 text of ceil(4n/3) values, made standard and padded. */
  lemma StdFormOfUrlText(vs: seq<Sextet>, n: nat)
    requires |vs| == (4 * n + 2) / 3
    ensures StdForm(UrlText(vs)) == StdText(vs) + Padding(n)
  {
    UrlTextToStd(vs);
    PadForToken(n);
  }

  /** atob reads the padded base64 of octets back as their binary string. */
  lemma AtobOfBtoa(b: seq<byte>)
    ensures Atob(Btoa(b)) == Success(BinaryString(b))
  {
    var vs := Sextets(b);
    var text := StdText(vs);
    var pad := Padding(|b|);
    assert Btoa(b) == text + pad;
    NoWhitespaceInBase64(vs, pad);
    DropBtoaPadding(vs, |b|);
    assert DropPadding(RemoveWhitespace(Btoa(b))) == text;
    DecodeSextetsOfSextets(b);
    assert |text| % 4 != 1;
    ValuesOfStdText(vs);
  }

  /** Padded base64 text holds no whitespace for step 1 to remove. */
  lemma NoWhitespaceInBase64(vs: seq<Sextet>, pad: string)
    requires forall i :: 0 <= i < |pad| ==> pad[i] == '='
    ensures RemoveWhitespace(StdText(vs) + pad) == StdText(vs) + pad
  {
    var s := StdText(vs) + pad;
    forall i | 0 <= i < |s|
      ensures !IsAsciiWhitespace(s[i])
    {
      if i < |vs| {
        assert s[i] == StdChar(vs[i]);
      } else {
        assert s[i] == pad[i - |vs|];
      }
    }
    RemoveNoWhitespace(s);
  }

  /** Step 2 of the decode removes exactly the padding btoa wrote. */
  lemma DropBtoaPadding(vs: seq<Sextet>, n: nat)
    requires |vs| == (4 * n + 2) / 3
    ensures DropPadding(StdText(vs) + Padding(n)) == StdText(vs)
  {
    var text, pad := StdText(vs), Padding(n);
    assert (|text| + |pad|) % 4 == 0 by {
      var k := (n + 2) / 3;
      assert |text| + |pad| == 4 * k;
    }
    assert |text| == 0 || text[|text| - 1] != '=' by {
      StdTextEnd(vs);
    }
    DropPad(text, pad);
  }

  /** Step 2 removes exactly the padding that completes the last group. */
  lemma DropPad(text: string, pad: string)
    requires pad == "" || pad == "=" || pad == "=="
    requires (|text| + |pad|) % 4 == 0
    requires |text| == 0 || text[|text| - 1] != '='
    ensures DropPadding(text + pad) == text
  {
    if pad == "==" {
      DropTwo(text);
    } else if pad == "=" {
      DropOne(text);
    } else {
      assert text + pad == text;
    }
  }

  /** Table-1 text never ends in '='. */
  lemma StdTextEnd(vs: seq<Sextet>)
    ensures |StdText(vs)| == 0 || StdText(vs)[|StdText(vs)| - 1] != '='
  {
    if |vs| > 0 {
      assert StdText(vs)[|vs| - 1] == StdChar(vs[|vs| - 1]);
    }
  }

  lemma DropTwo(text: string)
    requires |text| % 4 == 2
    ensures DropPadding(text + "==") == text
  {
    var t := text + "==";
    assert t[|t| - 1] == '=' && t[|t| - 2] == '=';
    assert t[..|t| - 2] == text;
  }

  lemma DropOne(text: string)
    requires |text| % 4 == 3 && text[|text| - 1] != '='
    ensures DropPadding(text + "=") == text
  {
    var t := text + "=";
    assert t[|t| - 1] == '=' && t[|t| - 2] == text[|text| - 1];
    assert t[..|t| - 1] == text;
  }

  /** `fromBase64Url(toBase64Url(bytes))` gives the octets back. */
  lemma RoundTrip(b: seq<byte>)
    ensures FromBase64UrlResult(ToBase64Url(b)) == Success(b)
  {
    StdFormOfToken(b);
    AtobOfBtoa(b);
    var bin := BinaryString(b);
    assert OctetsOf(bin) == b;
  }
}
