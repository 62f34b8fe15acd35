/**
 * URL admission control (web-scraper/utils/validators.js): `validateUrl`,
 * its private-address test `isPrivateIP`, and `sanitizeString`.
 */
module Validators {
  import opened Wrappers
  import opened Text
  import opened Js
  import opened Urls

  const EmptyError := "URL vide ou invalide"
  const FormatError := "Format d'URL invalide"
  const SchemeError := "Seuls les protocoles HTTP et HTTPS sont autorisés"
  const LocalHostError := "Les URLs locales ne sont pas autorisées"
  const PrivateAddressError := "Les adresses IP privées ne sont pas autorisées"
  const LocalDomainError := "Les domaines .local ne sont pas autorisés"
  const TooLongError := "URL trop longue (max 2048 caractères)"

  const MaxUrlLength := 2048
  const MaxSanitizedLength := 1000

  /** Host names refused outright, compared after lower-casing. */
  const ForbiddenHosts: seq<string> := ["localhost", "127.0.0.1", "0.0.0.0", "::1", "[::1]"]

  /** `{isValid: true, url}` or `{isValid: false, error}`. */
  datatype Validation = Valid(url: string) | Invalid(error: string)

  predicate IsError(e: string) {
    e in {EmptyError, FormatError, SchemeError, LocalHostError,
          PrivateAddressError, LocalDomainError, TooLongError}
  }

  // ---------------------------------------------------------------------
  // isPrivateIP
  // ---------------------------------------------------------------------

  predicate IsOctetText(t: string) {
    1 <= |t| <= 3 && AllDigits(t)
  }

  /** `/^(\d{1,3}\.){3}\d{1,3}$/.test(h)`: four groups of one to three
      digits separated by dots, and nothing else. */
  predicate IsDottedQuad(h: string) {
    var g := Split(h, '.');
    |g| == 4 && forall i :: 0 <= i < 4 ==> IsOctetText(g[i])
  }

  /** `h.split('.').map(Number)` on a dotted quad. */
  function Octets(h: string): (p: seq<nat>)
    requires IsDottedQuad(h)
    ensures |p| == 4 && forall i :: 0 <= i < 4 ==> p[i] < 1000
  {
    var g := Split(h, '.');
    DecimalBound(g[0]);
    DecimalBound(g[1]);
    DecimalBound(g[2]);
    DecimalBound(g[3]);
    [DigitsValue(g[0]), DigitsValue(g[1]), DigitsValue(g[2]), DigitsValue(g[3])]
  }

  lemma {:induction false} DecimalBound(t: string)
    requires AllDigits(t)
    ensures |t| <= 1 ==> DigitsValue(t) < 10
    ensures |t| <= 2 ==> DigitsValue(t) < 100
    ensures |t| <= 3 ==> DigitsValue(t) < 1000
    decreases |t|
  {
    if t != [] {
      DecimalBound(t[..|t| - 1]);
    }
  }

  /** `isPrivateIP`: a dotted quad whose octets fall in 10.0.0.0/8,
      172.16.0.0/12, 192.168.0.0/16 or 169.254.0.0/16; false for every
      other string. */
  predicate IsPrivateIP(h: string) {
    && IsDottedQuad(h)
    && var p := Octets(h);
       || p[0] == 10
       || (p[0] == 172 && p[1] >= 16 && p[1] <= 31)
       || (p[0] == 192 && p[1] == 168)
       || (p[0] == 169 && p[1] == 254)
  }

  /** The dotted-quad text of four octets, as `String` renders them. */
  function DottedQuad(a: nat, b: nat, c: nat, d: nat): string {
    Join([Decimal(a), Decimal(b), Decimal(c), Decimal(d)], '.')
  }

  lemma DottedQuadText(a: nat, b: nat, c: nat, d: nat)
    ensures DottedQuad(a, b, c, d)
         == Decimal(a) + "." + Decimal(b) + "." + Decimal(c) + "." + Decimal(d)
  {
    JoinFour(Decimal(a), Decimal(b), Decimal(c), Decimal(d));
  }

  lemma JoinFour(w: string, x: string, y: string, z: string)
    ensures Join([w, x, y, z], '.') == w + "." + x + "." + y + "." + z
  {
    var parts := [w, x, y, z];
    assert parts[1..] == [x, y, z];
    assert [x, y, z][1..] == [y, z];
    assert [y, z][1..] == [z];
    assert Join([y, z], '.') == y + "." + z;
    assert Join([x, y, z], '.') == x + "." + (y + "." + z);
  }

  /** A rendered dotted quad passes the regular expression, and splitting it
      gives back its four numbers. */
  lemma DottedQuadParses(a: nat, b: nat, c: nat, d: nat)
    requires a < 1000 && b < 1000 && c < 1000 && d < 1000
    ensures IsDottedQuad(DottedQuad(a, b, c, d))
    ensures Octets(DottedQuad(a, b, c, d)) == [a, b, c, d]
  {
    var parts := [Decimal(a), Decimal(b), Decimal(c), Decimal(d)];
    PartsHaveNoDot(parts);
    SplitJoin(parts, '.');
    QuadOfParts(DottedQuad(a, b, c, d), parts);
    DecimalRoundTrip(a);
    DecimalRoundTrip(b);
    DecimalRoundTrip(c);
    DecimalRoundTrip(d);
  }

  /** A string that splits into four octet texts is a dotted quad of their
      values. */
  lemma QuadOfParts(h: string, parts: seq<string>)
    requires Split(h, '.') == parts && |parts| == 4
    requires forall i :: 0 <= i < 4 ==> IsOctetText(parts[i])
    ensures IsDottedQuad(h)
    ensures Octets(h) == [DigitsValue(parts[0]), DigitsValue(parts[1]),
                          DigitsValue(parts[2]), DigitsValue(parts[3])]
  {
  }

  /** The 32-bit address of four octets. */
  function Address(a: nat, b: nat, c: nat, d: nat): nat {
    ((a * 256 + b) * 256 + c) * 256 + d
  }

  function Pow2(n: nat): (r: nat)
    ensures r >= 1
  {
    if n == 0 then 1 else 2 * Pow2(n - 1)
  }

  /** An IPv4 block in CIDR notation, `base/prefixLength`. */
  datatype Block = Block(base: nat, prefixLength: nat)

  /** `addr` agrees with the block's base on the first `prefixLength` bits. */
  predicate InBlock(addr: nat, blk: Block)
    requires blk.prefixLength <= 32
  {
    addr / Pow2(32 - blk.prefixLength) == blk.base / Pow2(32 - blk.prefixLength)
  }

  /** The three private-use blocks of section 3 of RFC 1918 and the
      link-local block 169.254.0.0/16 (all listed in section 2.2.2 of
      RFC 6890). */
  const PrivateBlocks: seq<Block> := [
    Block(Address(10, 0, 0, 0), 8),
    Block(Address(172, 16, 0, 0), 12),
    Block(Address(192, 168, 0, 0), 16),
    Block(Address(169, 254, 0, 0), 16)]

  predicate InPrivateBlock(addr: nat) {
    exists i :: 0 <= i < |PrivateBlocks| && InBlock(addr, PrivateBlocks[i])
  }

  /** For a dotted quad of real octets, `isPrivateIP` is exactly membership
      of the address in one of the four blocks. */
  lemma PrivateIPIsBlockMembership(a: nat, b: nat, c: nat, d: nat)
    requires a < 256 && b < 256 && c < 256 && d < 256
    ensures IsPrivateIP(DottedQuad(a, b, c, d)) <==> InPrivateBlock(Address(a, b, c, d))
  {
    DottedQuadParses(a, b, c, d);
    PrivateBlocksByOctets(a, b, c, d);
  }

  /** Membership in each block, read off the first two octets. */
  lemma PrivateBlocksByOctets(a: nat, b: nat, c: nat, d: nat)
    requires a < 256 && b < 256 && c < 256 && d < 256
    ensures InPrivateBlock(Address(a, b, c, d)) <==>
              a == 10 || (a == 172 && 16 <= b <= 31) || (a == 192 && b == 168) || (a == 169 && b == 254)
  {
    var addr := Address(a, b, c, d);
    InFirstBlocks(a, b, c, d);
    InLastBlocks(a, b, c, d);
    assert InPrivateBlock(addr) <==>
      InBlock(addr, PrivateBlocks[0]) || InBlock(addr, PrivateBlocks[1])
      || InBlock(addr, PrivateBlocks[2]) || InBlock(addr, PrivateBlocks[3]);
  }

  lemma InFirstBlocks(a: nat, b: nat, c: nat, d: nat)
    requires a < 256 && b < 256 && c < 256 && d < 256
    ensures InBlock(Address(a, b, c, d), PrivateBlocks[0]) <==> a == 10
    ensures InBlock(Address(a, b, c, d), PrivateBlocks[1]) <==> a == 172 && 16 <= b <= 31
  {
    Pow2Values();
    AddressPrefixes(a, b, c, d);
    assert Address(10, 0, 0, 0) / 16777216 == 10;
    assert Address(172, 16, 0, 0) / 1048576 == 172 * 16 + 1;
  }

  lemma InLastBlocks(a: nat, b: nat, c: nat, d: nat)
    requires a < 256 && b < 256 && c < 256 && d < 256
    ensures InBlock(Address(a, b, c, d), PrivateBlocks[2]) <==> a == 192 && b == 168
    ensures InBlock(Address(a, b, c, d), PrivateBlocks[3]) <==> a == 169 && b == 254
  {
    Pow2Values();
    AddressPrefixes(a, b, c, d);
    assert Address(192, 168, 0, 0) / 65536 == 192 * 256 + 168;
    assert Address(169, 254, 0, 0) / 65536 == 169 * 256 + 254;
  }

  lemma Pow2Values()
    ensures Pow2(16) == 65536 && Pow2(20) == 1048576 && Pow2(24) == 16777216
  {
    assert Pow2(4) == 16;
    assert Pow2(8) == 256;
    assert Pow2(12) == 4096;
    assert Pow2(16) == 65536;
    assert Pow2(20) == 1048576;
  }

  lemma AddressPrefixes(a: nat, b: nat, c: nat, d: nat)
    requires a < 256 && b < 256 && c < 256 && d < 256
    ensures Address(a, b, c, d) / 16777216 == a
    ensures Address(a, b, c, d) / 1048576 == a * 16 + b / 16
    ensures Address(a, b, c, d) / 65536 == a * 256 + b
  {
    var low := c * 256 + d;
    assert Address(a, b, c, d) == a * 16777216 + b * 65536 + low;
    assert b == (b / 16) * 16 + b % 16;
    assert Address(a, b, c, d) == (a * 16 + b / 16) * 1048576 + ((b % 16) * 65536 + low);
  }

  /** Only the literal 127.0.0.1 is refused as a loopback address: every
      other 127.x.y.z passes the private-address test. */
  lemma LoopbackIsNotPrivate(b: nat, c: nat, d: nat)
    requires b < 1000 && c < 1000 && d < 1000
    ensures !IsPrivateIP(DottedQuad(127, b, c, d))
  {
    DottedQuadParses(127, b, c, d);
  }

  // ---------------------------------------------------------------------
  // validateUrl
  // ---------------------------------------------------------------------

  /** Everything `validateUrl` demands of an accepted URL, stated as one
      conjunction. */
  predicate Admissible(parser: UrlParser, v: JsValue) {
    && IsNonEmptyString(v)
    && parser.parse(v.s).Some?
    && var u := parser.parse(v.s).value;
       var host := ToLower(u.hostname);
       && (u.protocol == "http:" || u.protocol == "https:")
       && host !in ForbiddenHosts
       && !IsPrivateIP(host)
       && !EndsWith(host, ".local")
       && |v.s| <= MaxUrlLength
  }

  /** `validateUrl`: the checks run in order and the first that fails
      decides the error; a URL that passes them all is returned in its
      serialised form (`url.href`). */
  function ValidateUrl(parser: UrlParser, v: JsValue): (r: Validation)
    ensures r.Valid? <==> Admissible(parser, v)
    ensures r.Valid? ==> r.url == parser.parse(v.s).value.href
    ensures r.Invalid? ==> IsError(r.error)
  {
    if !IsNonEmptyString(v) then Invalid(EmptyError)
    else match parser.parse(v.s)
      case None => Invalid(FormatError)
      case Some(u) =>
        if u.protocol != "http:" && u.protocol != "https:" then Invalid(SchemeError)
        else
          var host := ToLower(u.hostname);
          if host in ForbiddenHosts then Invalid(LocalHostError)
          else if IsPrivateIP(host) then Invalid(PrivateAddressError)
          else if EndsWith(host, ".local") then Invalid(LocalDomainError)
          else if |v.s| > MaxUrlLength then Invalid(TooLongError)
          else Valid(u.href)
  }

  /** Which error each failing check produces, earlier checks winning. */
  lemma ValidateUrlErrors(parser: UrlParser, v: JsValue)
    ensures !IsNonEmptyString(v) ==> ValidateUrl(parser, v) == Invalid(EmptyError)
    ensures IsNonEmptyString(v) && parser.parse(v.s).None? ==>
      ValidateUrl(parser, v) == Invalid(FormatError)
    ensures IsNonEmptyString(v) && parser.parse(v.s).Some? ==>
      var u := parser.parse(v.s).value;
      var host := ToLower(u.hostname);
      && (u.protocol != "http:" && u.protocol != "https:" ==>
            ValidateUrl(parser, v) == Invalid(SchemeError))
      && (u.protocol in {"http:", "https:"} && host in ForbiddenHosts ==>
            ValidateUrl(parser, v) == Invalid(LocalHostError))
      && (u.protocol in {"http:", "https:"} && host !in ForbiddenHosts && IsPrivateIP(host) ==>
            ValidateUrl(parser, v) == Invalid(PrivateAddressError))
      && (u.protocol in {"http:", "https:"} && host !in ForbiddenHosts && !IsPrivateIP(host)
            && EndsWith(host, ".local") ==>
            ValidateUrl(parser, v) == Invalid(LocalDomainError))
      && (u.protocol in {"http:", "https:"} && host !in ForbiddenHosts && !IsPrivateIP(host)
            && !EndsWith(host, ".local") && |v.s| > MaxUrlLength ==>
            ValidateUrl(parser, v) == Invalid(TooLongError))
  {
  }

  /** The host checks are case-insensitive: two hostnames that lower-case
      alike are judged alike. */
  lemma ValidateUrlIgnoresHostCase(parser: UrlParser, v: JsValue, w: JsValue)
    requires IsNonEmptyString(v) && IsNonEmptyString(w) && |v.s| == |w.s|
    requires parser.parse(v.s).Some? && parser.parse(w.s).Some?
    requires parser.parse(v.s).value.protocol == parser.parse(w.s).value.protocol
    requires ToLower(parser.parse(v.s).value.hostname) == ToLower(parser.parse(w.s).value.hostname)
    ensures ValidateUrl(parser, v).Valid? == ValidateUrl(parser, w).Valid?
    ensures ValidateUrl(parser, v).Invalid? ==> ValidateUrl(parser, v) == ValidateUrl(parser, w)
  {
  }

  /** A URL whose host is `192.168.1.5` (such as `http://192.168.1.5/page`)
      is refused as a private address. */
  lemma PrivateAddressExample(parser: UrlParser, s: string, href: string)
    requires s != ""
    requires parser.parse(s) == Some(ParsedUrl("http:", "192.168.1.5", href))
    ensures ValidateUrl(parser, Str(s)) == Invalid(PrivateAddressError)
  {
    var host := parser.parse(s).value.hostname;
    assert host == "192.168.1.5";
    ExampleHostLower();
    ExampleHostIsPrivate();
    ExampleHostNotForbidden();
    ValidateUrlErrors(parser, Str(s));
  }

  lemma ExampleHostNotForbidden()
    ensures "192.168.1.5" !in ForbiddenHosts
  {
  }

  lemma ExampleHostLower()
    ensures ToLower("192.168.1.5") == "192.168.1.5"
  {
    LowerKeepsNonLetters("192.168.1.5");
  }

  lemma ExampleHostIsPrivate()
    ensures IsPrivateIP("192.168.1.5")
  {
    ExampleHostText();
    DottedQuadParses(192, 168, 1, 5);
  }

  /** Decimal numerals hold no dot. */
  lemma PartsHaveNoDot(parts: seq<string>)
    requires forall i :: 0 <= i < |parts| ==> AllDigits(parts[i])
    ensures forall i :: 0 <= i < |parts| ==> '.' !in parts[i]
  {
    forall i | 0 <= i < |parts| ensures '.' !in parts[i] {
      assert AllDigits(parts[i]);
    }
  }

  lemma Decimal192()
    ensures Decimal(192) == "192"
  {
    assert DigitChar(1) == '1' && DigitChar(9) == '9' && DigitChar(2) == '2';
    assert Decimal(19) == Decimal(1) + [DigitChar(9)] == "19";
    assert Decimal(192) == Decimal(19) + [DigitChar(2)];
  }

  lemma Decimal168()
    ensures Decimal(168) == "168"
  {
    assert DigitChar(1) == '1' && DigitChar(6) == '6' && DigitChar(8) == '8';
    assert Decimal(16) == Decimal(1) + [DigitChar(6)] == "16";
    assert Decimal(168) == Decimal(16) + [DigitChar(8)];
  }

  lemma ExampleHostText()
    ensures DottedQuad(192, 168, 1, 5) == "192.168.1.5"
  {
    Decimal192();
    Decimal168();
    assert Decimal(1) == "1" by { assert DigitChar(1) == '1'; }
    assert Decimal(5) == "5" by { assert DigitChar(5) == '5'; }
    DottedQuadText(192, 168, 1, 5);
  }

  lemma LowerKeepsNonLetters(s: string)
    requires forall k :: 0 <= k < |s| ==> !('A' <= s[k] <= 'Z')
    ensures ToLower(s) == s
  {
  }

  /** A loopback address other than 127.0.0.1 is admitted. */
  lemma LoopbackAliasAdmitted(parser: UrlParser, s: string, b: nat, c: nat, d: nat)
    requires b < 256 && c < 256 && d < 256 && (b, c, d) != (0, 0, 1)
    requires s != "" && |s| <= MaxUrlLength
    requires parser.parse(s).Some?
    requires parser.parse(s).value.protocol == "http:"
    requires parser.parse(s).value.hostname == DottedQuad(127, b, c, d)
    ensures ValidateUrl(parser, Str(s)) == Valid(parser.parse(s).value.href)
  {
    LoopbackIsNotPrivate(b, c, d);
    LoopbackAliasHost(b, c, d);
  }

  /** The text of `127.b.c.d`: already lower case, not a listed host and not
      under `.local`. */
  lemma LoopbackAliasHost(b: nat, c: nat, d: nat)
    requires b < 256 && c < 256 && d < 256 && (b, c, d) != (0, 0, 1)
    ensures var h := DottedQuad(127, b, c, d);
      ToLower(h) == h && h !in ForbiddenHosts && !EndsWith(h, ".local")
  {
    var h := DottedQuad(127, b, c, d);
    DottedQuadChars(127, b, c, d);
    LowerKeepsNonLetters(h);
    LoopbackStartsWithOne(b, c, d);
    assert h != "localhost" && h != "0.0.0.0" && h != "::1" && h != "[::1]";
    LoopbackAliasDiffers(b, c, d);
    NotForbidden(h);
    assert h[|h| - 1] != 'l';
  }

  lemma NotForbidden(h: string)
    requires h != "localhost" && h != "127.0.0.1" && h != "0.0.0.0" && h != "::1" && h != "[::1]"
    ensures h !in ForbiddenHosts
  {
  }

  /** A dotted quad holds only digits and dots. */
  lemma DottedQuadChars(a: nat, b: nat, c: nat, d: nat)
    ensures DigitsOrDots(DottedQuad(a, b, c, d))
  {
    DottedQuadText(a, b, c, d);
    var dot := ".";
    assert DigitsOrDots(dot);
    DigitsOrDotsAppend(Decimal(a), dot);
    DigitsOrDotsAppend(Decimal(a) + dot, Decimal(b));
    DigitsOrDotsAppend(Decimal(a) + dot + Decimal(b), dot);
    DigitsOrDotsAppend(Decimal(a) + dot + Decimal(b) + dot, Decimal(c));
    DigitsOrDotsAppend(Decimal(a) + dot + Decimal(b) + dot + Decimal(c), dot);
    DigitsOrDotsAppend(Decimal(a) + dot + Decimal(b) + dot + Decimal(c) + dot, Decimal(d));
  }

  predicate DigitsOrDots(s: string) {
    forall k :: 0 <= k < |s| ==> IsDigit(s[k]) || s[k] == '.'
  }

  lemma DigitsOrDotsAppend(p: string, q: string)
    requires DigitsOrDots(p) || AllDigits(p)
    requires DigitsOrDots(q) || AllDigits(q)
    ensures DigitsOrDots(p + q)
  {
    assert forall k :: 0 <= k < |q| ==> (p + q)[|p| + k] == q[k];
  }

  lemma Decimal127()
    ensures Decimal(127) == "127"
  {
    assert DigitChar(1) == '1' && DigitChar(2) == '2' && DigitChar(7) == '7';
    assert Decimal(12) == Decimal(1) + [DigitChar(2)] == "12";
    assert Decimal(127) == Decimal(12) + [DigitChar(7)];
  }

  lemma LoopbackStartsWithOne(b: nat, c: nat, d: nat)
    ensures var h := DottedQuad(127, b, c, d); |h| > 4 && h[0] == '1'
  {
    DottedQuadText(127, b, c, d);
    Decimal127();
  }

  /** `127.b.c.d` is the listed `127.0.0.1` only for the octets 0, 0, 1. */
  lemma LoopbackAliasDiffers(b: nat, c: nat, d: nat)
    requires b < 256 && c < 256 && d < 256 && (b, c, d) != (0, 0, 1)
    ensures DottedQuad(127, b, c, d) != "127.0.0.1"
  {
    LoopbackText();
    DottedQuadParses(127, b, c, d);
    DottedQuadParses(127, 0, 0, 1);
  }

  lemma LoopbackText()
    ensures DottedQuad(127, 0, 0, 1) == "127.0.0.1"
  {
    Decimal127();
    assert Decimal(0) == "0" by { assert DigitChar(0) == '0'; }
    assert Decimal(1) == "1" by { assert DigitChar(1) == '1'; }
    DottedQuadText(127, 0, 0, 1);
  }

  // ---------------------------------------------------------------------
  // sanitizeString
  // ---------------------------------------------------------------------

  /** `s.replace(/[<>]/g, '')`. */
  function RemoveAngleBrackets(s: string): (r: string)
    ensures '<' !in r && '>' !in r
    ensures |r| <= |s|
    ensures forall c :: c in r ==> c in s
    ensures forall c :: c in s && c != '<' && c != '>' ==> c in r
    ensures '<' !in s && '>' !in s ==> r == s
  {
    if s == [] then []
    else if s[0] == '<' || s[0] == '>' then RemoveAngleBrackets(s[1..])
    else [s[0]] + RemoveAngleBrackets(s[1..])
  }

  /** Removing brackets from two pieces and joining the results is removing
      them from the joined string. */
  lemma {:induction false} RemoveAngleBracketsAppend(p: string, q: string)
    ensures RemoveAngleBrackets(p + q) == RemoveAngleBrackets(p) + RemoveAngleBrackets(q)
    decreases |p|
  {
    if p != [] {
      assert (p + q)[0] == p[0] && (p + q)[1..] == p[1..] + q;
      RemoveAngleBracketsAppend(p[1..], q);
    } else {
      assert p + q == q;
    }
  }

  /** The replacement is a filter: character by character, in order, each
      `<` and `>` is dropped and every other character is kept. */
  lemma RemoveAngleBracketsSnoc(s: string, c: char)
    ensures RemoveAngleBrackets(s + [c])
         == RemoveAngleBrackets(s) + (if c == '<' || c == '>' then [] else [c])
  {
    RemoveAngleBracketsAppend(s, [c]);
    assert [c][1..] == [];
  }

  /** `t.substring(0, n)`. */
  function Truncate(t: string, n: nat): (r: string)
    ensures |r| <= n && |r| <= |t|
    ensures |r| == if |t| <= n then |t| else n
    ensures r == t[..|r|]
    ensures |t| <= n ==> r == t
  {
    if |t| <= n then t else t[..n]
  }

  /** A prefix only holds characters of the whole. */
  lemma PrefixInside(t: string, r: string)
    requires |r| <= |t| && r == t[..|r|]
    ensures forall c :: c in r ==> c in t
  {
    forall c | c in r ensures c in t {
      var k :| 0 <= k < |r| && r[k] == c;
      assert t[k] == c;
    }
  }

  /** What `sanitizeString` keeps comes from its input and holds no angle
      bracket. */
  lemma SanitizedInside(s: string)
    ensures var r := Truncate(RemoveAngleBrackets(Trim(s)), MaxSanitizedLength);
      && (forall c :: c in r ==> c in s)
      && '<' !in r && '>' !in r
  {
    var t := RemoveAngleBrackets(Trim(s));
    TrimIsInside(s);
    PrefixInside(t, Truncate(t, MaxSanitizedLength));
  }

  /** `sanitizeString`: empty for a falsy or non-string value, otherwise the
      trimmed string without `<` and `>`, cut to 1000 characters. */
  function SanitizeString(v: JsValue): (r: string)
    ensures !IsNonEmptyString(v) ==> r == ""
    ensures '<' !in r && '>' !in r
    ensures |r| <= MaxSanitizedLength
    ensures IsNonEmptyString(v) ==> forall c :: c in r ==> c in v.s
    ensures IsNonEmptyString(v) ==> r == Truncate(RemoveAngleBrackets(Trim(v.s)), MaxSanitizedLength)
  {
    if !IsNonEmptyString(v) then ""
    else
      SanitizedInside(v.s);
      Truncate(RemoveAngleBrackets(Trim(v.s)), MaxSanitizedLength)
  }

  lemma TrimIsInside(s: string)
    ensures forall c :: c in Trim(s) ==> c in s
  {
    var t := TrimStart(s);
    var r := TrimEnd(t);
    forall c | c in r ensures c in s {
      var k :| 0 <= k < |r| && r[k] == c;
      assert r[k] == t[k] == s[|s| - |t| + k];
    }
  }

  /** A string that is already trimmed, short enough and free of angle
      brackets comes back unchanged. */
  lemma SanitizeKeepsCleanText(s: string)
    requires s != "" && IsTrimmed(s) && |s| <= MaxSanitizedLength
    requires '<' !in s && '>' !in s
    ensures SanitizeString(Str(s)) == s
  {
  }
}
